/** The cluster-IP mode of IPaddr2: clone instances of one address share a multicast MAC, and a
    firewall chain on each node accepts the packets whose hash falls into a started bucket. */
module ClusterIp {
  import opened Sequences

  datatype Backend = IpTables | Nft

  datatype Config = Config(backend: Backend, ipv6: bool, mangle: bool, total: nat)

  /** A rule of the chain; `Foreign` rules match other destinations or devices. */
  datatype Rule = Drop | AdvertAccept | Bucket(instance: nat) | Foreign(id: nat)

  // ------------------------------------------------------------ chain algebra

  /** The rules of this resource, in order. */
  function Own(chain: seq<Rule>): seq<Rule> {
    if chain == [] then [] else (if chain[0].Foreign? then [] else [chain[0]]) + Own(chain[1..])
  }

  /** The rules of everybody else, in order. */
  function Others(chain: seq<Rule>): seq<Rule> {
    if chain == [] then [] else (if chain[0].Foreign? then [chain[0]] else []) + Others(chain[1..])
  }

  lemma InsertHead(chain: seq<Rule>, r: Rule)
    requires !r.Foreign?
    ensures Own([r] + chain) == [r] + Own(chain) && Others([r] + chain) == Others(chain)
  {
    assert ([r] + chain)[1..] == chain;
  }

  lemma {:induction false} OwnMember(chain: seq<Rule>, r: Rule)
    requires !r.Foreign?
    ensures r in Own(chain) <==> r in chain
    decreases |chain|
  {
    if chain != [] {
      OwnMember(chain[1..], r);
      assert chain == [chain[0]] + chain[1..];
    }
  }

  lemma {:induction false} OwnWithout(chain: seq<Rule>, r: Rule)
    requires !r.Foreign?
    ensures Own(Without(chain, r)) == Without(Own(chain), r) && Others(Without(chain, r)) == Others(chain)
    decreases |chain|
  {
    if chain == [] {
    } else if chain[0] == r {
      assert Own(chain)[1..] == Own(chain[1..]);
    } else {
      OwnWithout(chain[1..], r);
      assert ([chain[0]] + Without(chain[1..], r))[1..] == Without(chain[1..], r);
      assert Own(chain) == if chain[0].Foreign? then Own(chain[1..]) else [chain[0]] + Own(chain[1..]);
    }
  }

  // --------------------------------------------------------- serving buckets

  /** The bucket rules of the instances in `bs`. */
  function BucketRules(bs: seq<nat>): seq<Rule> {
    seq(|bs|, i requires 0 <= i < |bs| => Bucket(bs[i]))
  }

  /** What cip_drop puts under them. */
  function BaseRules(c: Config): seq<Rule> {
    (if c.ipv6 then [AdvertAccept] else []) + [Drop]
  }

  /** This resource's rules on a node that serves the instances `bs`, latest first. */
  function OwnRules(c: Config, bs: seq<nat>): seq<Rule> {
    if bs == [] then [] else BucketRules(bs) + BaseRules(c)
  }

  predicate Distinct(bs: seq<nat>) {
    forall i, j | 0 <= i < j < |bs| :: bs[i] != bs[j]
  }

  lemma {:induction false} RemoveMembers(bs: seq<nat>, i: nat)
    requires Distinct(bs)
    ensures Distinct(Without(bs, i))
    ensures forall k :: k in Without(bs, i) <==> k in bs && k != i
    decreases |bs|
  {
    if bs != [] {
      assert bs == [bs[0]] + bs[1..];
      RemoveMembers(bs[1..], i);
      assert bs[0] !in bs[1..];
      assert bs[0] != i ==> Without(bs, i)[1..] == Without(bs[1..], i) && bs[0] !in Without(bs[1..], i);
    }
  }

  lemma {:induction false} BucketWithout(bs: seq<nat>, i: nat)
    ensures Without(BucketRules(bs), Bucket(i)) == BucketRules(Without(bs, i))
    ensures Bucket(i) in BucketRules(bs) <==> i in bs
    decreases |bs|
  {
    if bs == [] {
    } else {
      BucketWithout(bs[1..], i);
      assert BucketRules(bs)[1..] == BucketRules(bs[1..]);
      assert bs == [bs[0]] + bs[1..] && BucketRules(bs) == [Bucket(bs[0])] + BucketRules(bs[1..]);
      assert BucketRules([bs[0]] + Without(bs[1..], i)) == [Bucket(bs[0])] + BucketRules(Without(bs[1..], i));
    }
  }

  /** The firewall, address and link state of a node, as the agent's commands see it. */
  datatype NodeState = NodeState(
    address: bool,       // the address is on the interface
    table: bool,         // the nft table of this resource exists; without it the nft chain is empty
    chain: seq<Rule>,
    arpRules: nat,       // ARP mangling rules of this resource
    multicast: bool)     // the multicast MAC is on the interface

  /** The node serves exactly `bs`: address, drop rule, bucket rules, ARP rule and MAC together. */
  predicate Serves(c: Config, s: NodeState, bs: seq<nat>) {
    && Distinct(bs) && (forall i <- bs :: 1 <= i <= c.total)
    && (s.address <==> bs != [])
    && Own(s.chain) == OwnRules(c, bs)
    && (c.backend == Nft ==> (s.table <==> bs != []) && Others(s.chain) == [])
    && s.arpRules == (if bs != [] && c.mangle then 1 else 0)
    && (s.multicast <==> bs != [])
  }

  /** Address, drop rule and bucket rules come and go together. */
  lemma ServesFacts(c: Config, s: NodeState, bs: seq<nat>)
    requires Serves(c, s, bs)
    ensures s.address <==> Drop in s.chain
    ensures s.address <==> exists i :: Bucket(i) in s.chain
    ensures forall i :: Bucket(i) in s.chain <==> i in bs
    ensures c.ipv6 ==> (s.address <==> AdvertAccept in s.chain)
    ensures Others(s.chain) != s.chain <==> bs != []
  {
    OwnMember(s.chain, Drop);
    OwnMember(s.chain, AdvertAccept);
    forall i ensures Bucket(i) in s.chain <==> i in bs {
      OwnMember(s.chain, Bucket(i));
      BucketWithout(bs, i);
    }
    if bs != [] {
      assert Bucket(bs[0]) in s.chain;
      assert OwnRules(c, bs)[|OwnRules(c, bs)| - 1] == Drop;
      OthersForeign(s.chain);
    } else {
      NoOwnMeansOthers(s.chain);
    }
  }

  lemma {:induction false} OthersForeign(chain: seq<Rule>)
    ensures forall r <- Others(chain) :: r.Foreign?
    decreases |chain|
  {
    if chain != [] {
      OthersForeign(chain[1..]);
    }
  }

  lemma {:induction false} NoOwnMeansOthers(chain: seq<Rule>)
    requires Own(chain) == []
    ensures Others(chain) == chain
    decreases |chain|
  {
    if chain != [] {
      assert chain[0].Foreign?;
      NoOwnMeansOthers(chain[1..]);
    }
  }

  // ------------------------------------------------------ histories of a node

  datatype Operation = Start(instance: nat) | Stop(instance: nat)

  /** What an operation makes of the served instances, latest first. */
  function Next(bs: seq<nat>, op: Operation): seq<nat> {
    match op
    case Start(i) => if i in bs then bs else [i] + bs
    case Stop(i) => Without(bs, i)
  }

  /** The instances a node serves after a history. */
  function Outcome(ops: seq<Operation>): seq<nat> {
    if ops == [] then [] else Next(Outcome(ops[..|ops| - 1]), ops[|ops| - 1])
  }

  lemma OutcomeNext(ops: seq<Operation>, k: nat)
    requires k < |ops|
    ensures Outcome(ops[..k + 1]) == Next(Outcome(ops[..k]), ops[k])
  {
    assert ops[..k + 1][..k] == ops[..k];
  }

  /** The last operation on instance `i` was a start. */
  predicate Started(ops: seq<Operation>, i: nat) {
    if ops == [] then false
    else if ops[|ops| - 1].instance == i then ops[|ops| - 1].Start?
    else Started(ops[..|ops| - 1], i)
  }

  lemma {:induction false} OutcomeIsStarted(ops: seq<Operation>)
    ensures Distinct(Outcome(ops))
    ensures forall i :: i in Outcome(ops) <==> Started(ops, i)
    decreases |ops|
  {
    if ops != [] {
      var before := ops[..|ops| - 1];
      OutcomeIsStarted(before);
      match ops[|ops| - 1]
      case Start(i) =>
        assert i !in Outcome(before) ==> ([i] + Outcome(before))[1..] == Outcome(before);
      case Stop(i) => RemoveMembers(Outcome(before), i);
    }
  }

  // ---------------------------------------------------------------- packets

  /** A packet to the cluster address: the bucket its source hashes to under the shared seed, and
      whether it is an IPv6 neighbour advertisement. */
  datatype Packet = Packet(bucket: nat, advert: bool)

  predicate Matches(r: Rule, p: Packet) {
    match r
    case Drop => true
    case AdvertAccept => p.advert
    case Bucket(i) => p.bucket == i
    case Foreign(_) => false
  }

  /** First match decides; the chain's policy accepts. */
  predicate Verdict(chain: seq<Rule>, p: Packet) {
    if chain == [] then true
    else if Matches(chain[0], p) then !chain[0].Drop?
    else Verdict(chain[1..], p)
  }

  /** The node has the address and its firewall lets the packet in. */
  predicate Accepts(s: NodeState, p: Packet) {
    s.address && Verdict(s.chain, p)
  }

  lemma {:induction false} VerdictOwn(chain: seq<Rule>, p: Packet)
    ensures Verdict(chain, p) == Verdict(Own(chain), p)
    decreases |chain|
  {
    if chain != [] {
      VerdictOwn(chain[1..], p);
      assert Own(chain) == if chain[0].Foreign? then Own(chain[1..]) else [chain[0]] + Own(chain[1..]);
    }
  }

  lemma {:induction false} VerdictBuckets(bs: seq<nat>, base: seq<Rule>, p: Packet)
    ensures Verdict(BucketRules(bs) + base, p) <==> p.bucket in bs || Verdict(base, p)
    decreases |bs|
  {
    if bs == [] {
      assert BucketRules(bs) + base == base;
    } else {
      assert bs == [bs[0]] + bs[1..];
      assert (BucketRules(bs) + base)[1..] == BucketRules(bs[1..]) + base;
      VerdictBuckets(bs[1..], base, p);
    }
  }

  /** A serving node accepts exactly its buckets, and with IPv6 every neighbour advertisement. */
  lemma AcceptsServed(c: Config, s: NodeState, bs: seq<nat>, p: Packet)
    requires Serves(c, s, bs)
    ensures Accepts(s, p) <==> bs != [] && (p.bucket in bs || (c.ipv6 && p.advert))
  {
    VerdictOwn(s.chain, p);
    VerdictBuckets(bs, BaseRules(c), p);
    assert BaseRules(c)[|BaseRules(c)| - 1..] == [Drop];
    assert c.ipv6 ==> BaseRules(c)[1..] == [Drop];
  }

  /** After any history a node accepts a bucket exactly when that instance was started last. */
  lemma AcceptsStarted(c: Config, s: NodeState, history: seq<Operation>, bucket: nat)
    requires Serves(c, s, Outcome(history))
    ensures Accepts(s, Packet(bucket, false)) <==> Started(history, bucket)
  {
    AcceptsServed(c, s, Outcome(history), Packet(bucket, false));
    OutcomeIsStarted(history);
  }

  predicate OnlyOne(flags: seq<bool>) {
    exists k | 0 <= k < |flags| :: flags[k] && forall j | 0 <= j < |flags| && j != k :: !flags[j]
  }

  function Accepting(cluster: seq<NodeState>, p: Packet): seq<bool> {
    seq(|cluster|, k requires 0 <= k < |cluster| => Accepts(cluster[k], p))
  }

  function Starting(histories: seq<seq<Operation>>, i: nat): seq<bool> {
    seq(|histories|, k requires 0 <= k < |histories| => Started(histories[k], i))
  }

  /** Cluster-wide, over any histories of starts and stops on any number of nodes: a packet that is
      no neighbour advertisement is accepted by exactly one node if and only if its instance is
      started on exactly one node. */
  lemma ExactlyOnce(c: Config, cluster: seq<NodeState>, histories: seq<seq<Operation>>, bucket: nat)
    requires |cluster| == |histories|
    requires forall k | 0 <= k < |cluster| :: Serves(c, cluster[k], Outcome(histories[k]))
    ensures OnlyOne(Accepting(cluster, Packet(bucket, false))) <==> OnlyOne(Starting(histories, bucket))
  {
    forall k | 0 <= k < |cluster|
      ensures Accepting(cluster, Packet(bucket, false))[k] == Starting(histories, bucket)[k]
    {
      AcceptsStarted(c, cluster[k], histories[k], bucket);
    }
    assert Accepting(cluster, Packet(bucket, false)) == Starting(histories, bucket);
  }

  // ------------------------------------------- what the operations make of a node

  datatype Status = No | Partial | Partial2 | Served

  datatype Exit = Success | ErrGeneric

  /** The base rules are in place. */
  predicate BaseReady(c: Config, s: NodeState) {
    if c.backend == Nft then s.table else Drop in s.chain && (!c.ipv6 || AdvertAccept in s.chain)
  }

  /** How far the node serves instance `i`. */
  function StatusOf(c: Config, s: NodeState, i: nat): Status {
    if !s.address then No
    else if !BaseReady(c, s) then Partial2
    else if Bucket(i) in s.chain then Served
    else Partial
  }

  /** The node after cip_setup insert. */
  function SetUp(c: Config, s: NodeState): NodeState {
    s.(table := s.table || c.backend == Nft,
       chain := BaseRules(c) + s.chain,
       arpRules := s.arpRules + (if c.mangle then 1 else 0),
       multicast := true)
  }

  /** The chain after deleting the base rules with iptables, which stops at a missing one. */
  function DeleteBase(c: Config, chain: seq<Rule>): seq<Rule> {
    if Drop !in chain then chain
    else if c.ipv6 then Without(Without(chain, Drop), AdvertAccept)
    else Without(chain, Drop)
  }

  /** The node after cip_setup delete. */
  function TearDown(c: Config, s: NodeState): NodeState {
    s.(table := s.table && c.backend == IpTables,
       chain := if c.backend == Nft then [] else DeleteBase(c, s.chain),
       arpRules := if !c.mangle then s.arpRules
                   else if c.backend == Nft || s.arpRules == 0 then 0 else s.arpRules - 1,
       multicast := false)
  }

  /** Every part of cip_setup delete finds what it deletes; nft does not mind a missing table. */
  predicate TearsDown(c: Config, s: NodeState) {
    && s.multicast
    && (c.backend == IpTables ==>
          Drop in s.chain && (c.ipv6 ==> AdvertAccept in s.chain) && (c.mangle ==> s.arpRules > 0))
  }

  /** The node and the exit code after ip_start of instance `i`, whatever the state before. */
  function StartState(c: Config, s: NodeState, i: nat): (NodeState, Exit) {
    match StatusOf(c, s, i)
    case Served => (s, Success)
    case Partial => (s.(chain := [Bucket(i)] + s.chain), Success)
    case _ =>
      var t := SetUp(c, s);
      if s.multicast then (t, ErrGeneric)
      else (t.(chain := [Bucket(i)] + t.chain, address := true), Success)
  }

  predicate AnyBucket(c: Config, chain: seq<Rule>) {
    exists k | 1 <= k <= c.total :: Bucket(k) in chain
  }

  /** The node and the exit code after ip_stop of instance `i`, whatever the state before. */
  function StopState(c: Config, s: NodeState, i: nat): (NodeState, Exit) {
    match StatusOf(c, s, i)
    case Served =>
      var t := s.(chain := Without(s.chain, Bucket(i)));
      if c.backend == Nft && Bucket(i) in t.chain then (s, ErrGeneric)
      else if AnyBucket(c, t.chain) then (t, Success)
      else if TearsDown(c, t) then (TearDown(c, t).(address := false), Success)
      else (TearDown(c, t), ErrGeneric)
    case Partial2 => (s.(address := false), Success)
    case _ => (s, Success)
  }

  /** On a serving node the status is exact, and a half-configured one is never reported. */
  lemma StatusServes(c: Config, s: NodeState, bs: seq<nat>, i: nat)
    requires Serves(c, s, bs)
    ensures StatusOf(c, s, i) == if bs == [] then No else if i in bs then Served else Partial
  {
    ServesFacts(c, s, bs);
  }

  /** The own rules after setting up the firewall for a first bucket on a chain without any. */
  lemma FirstBucketRules(c: Config, chain: seq<Rule>, i: nat, after: seq<Rule>)
    requires Own(chain) == [] && after == [Bucket(i)] + (BaseRules(c) + chain)
    ensures Own(after) == [Bucket(i)] + BaseRules(c) && Others(after) == Others(chain) == chain
  {
    NoOwnMeansOthers(chain);
    var lower := [Drop] + chain;
    InsertHead(chain, Drop);
    var base := if c.ipv6 then [AdvertAccept] + lower else lower;
    if c.ipv6 {
      InsertHead(lower, AdvertAccept);
      assert [AdvertAccept] + [Drop] == BaseRules(c);
    }
    assert base == BaseRules(c) + chain;
    InsertHead(base, Bucket(i));
  }

  lemma CleanNode(c: Config, s: NodeState)
    requires Serves(c, s, [])
    ensures !s.address && !s.multicast && s.arpRules == 0 && Own(s.chain) == [] && Others(s.chain) == s.chain
    ensures c.backend == Nft ==> s.chain == [] && !s.table
  {
    NoOwnMeansOthers(s.chain);
  }

  lemma FirstBucketServes(c: Config, s: NodeState, t: NodeState, i: nat)
    requires Own(s.chain) == [] && (c.backend == Nft ==> s.chain == []) && s.arpRules == 0 && 1 <= i <= c.total
    requires t == SetUp(c, s).(chain := [Bucket(i)] + SetUp(c, s).chain, address := true)
    ensures Serves(c, t, [i]) && Others(t.chain) == Others(s.chain)
  {
    FirstBucketRules(c, s.chain, i, t.chain);
    assert BucketRules([i]) == [Bucket(i)];
  }

  lemma NextBucketServes(c: Config, s: NodeState, bs: seq<nat>, i: nat)
    requires Serves(c, s, bs) && bs != [] && i !in bs && 1 <= i <= c.total
    ensures Serves(c, s.(chain := [Bucket(i)] + s.chain), [i] + bs)
    ensures Others([Bucket(i)] + s.chain) == Others(s.chain)
  {
    InsertHead(s.chain, Bucket(i));
    assert BucketRules([i] + bs) == [Bucket(i)] + BucketRules(bs);
    assert [Bucket(i)] + (BucketRules(bs) + BaseRules(c)) == ([Bucket(i)] + BucketRules(bs)) + BaseRules(c);
  }

  /** A start on a serving node succeeds; afterwards it serves `i` besides what it served before, and
      the rules of other resources stay. */
  lemma StartServes(c: Config, s: NodeState, bs: seq<nat>, i: nat)
    requires Serves(c, s, bs) && 1 <= i <= c.total
    ensures var (t, rc) := StartState(c, s, i);
            rc == Success && Serves(c, t, Next(bs, Start(i))) && Others(t.chain) == Others(s.chain)
  {
    StatusServes(c, s, bs, i);
    if bs == [] {
      CleanNode(c, s);
      FirstBucketServes(c, s, StartState(c, s, i).0, i);
      assert [i] + bs == [i];
    } else if i !in bs {
      NextBucketServes(c, s, bs, i);
    }
  }

  /** Deleting the rule of a served bucket. */
  lemma LessBucketRules(c: Config, chain: seq<Rule>, bs: seq<nat>, i: nat)
    requires Own(chain) == OwnRules(c, bs) && i in bs
    ensures Own(Without(chain, Bucket(i))) == BucketRules(Without(bs, i)) + BaseRules(c)
    ensures Others(Without(chain, Bucket(i))) == Others(chain)
  {
    OwnWithout(chain, Bucket(i));
    BucketWithout(bs, i);
    WithoutSplit(BucketRules(bs), BaseRules(c), Bucket(i));
  }

  /** Some bucket rule is left exactly if some instance is. */
  lemma AnyBucketLeft(c: Config, chain: seq<Rule>, left: seq<nat>)
    requires Own(chain) == BucketRules(left) + BaseRules(c) && forall k <- left :: 1 <= k <= c.total
    ensures AnyBucket(c, chain) <==> left != []
  {
    if left != [] {
      assert left[0] in left;
      OwnMember(chain, Bucket(left[0]));
      BucketWithout(left, left[0]);
    }
    if AnyBucket(c, chain) {
      var k :| 1 <= k <= c.total && Bucket(k) in chain;
      OwnMember(chain, Bucket(k));
      BucketWithout(left, k);
    }
  }

  /** With no bucket left, the tear-down finds everything and leaves no own rule. */
  lemma LastBucketGone(c: Config, s: NodeState)
    requires Own(s.chain) == BaseRules(c) && s.multicast && s.arpRules == (if c.mangle then 1 else 0)
    requires c.backend == Nft ==> Others(s.chain) == []
    ensures TearsDown(c, s) && Serves(c, TearDown(c, s).(address := false), [])
    ensures Others(TearDown(c, s).chain) == Others(s.chain)
  {
    OwnMember(s.chain, Drop);
    OwnMember(s.chain, AdvertAccept);
    OwnDeleteBase(c, s.chain);
    BaseDeletes(c);
  }

  lemma OwnDeleteBase(c: Config, chain: seq<Rule>)
    requires Drop in chain
    ensures Own(DeleteBase(c, chain)) == DeleteBase(c, Own(chain)) && Others(DeleteBase(c, chain)) == Others(chain)
  {
    OwnMember(chain, Drop);
    OwnWithout(chain, Drop);
    OwnWithout(Without(chain, Drop), AdvertAccept);
  }

  lemma BaseDeletes(c: Config)
    ensures Drop in BaseRules(c) && (c.ipv6 ==> AdvertAccept in BaseRules(c)) && DeleteBase(c, BaseRules(c)) == []
  {
    BaseComesOff(c, []);
    assert BaseRules(c) + [] == BaseRules(c);
  }

  /** A stop on a serving node succeeds; afterwards it serves what it served before without `i`, and the
      rules of other resources stay. */
  lemma StopServes(c: Config, s: NodeState, bs: seq<nat>, i: nat)
    requires Serves(c, s, bs)
    ensures var (t, rc) := StopState(c, s, i);
            rc == Success && Serves(c, t, Next(bs, Stop(i))) && Others(t.chain) == Others(s.chain)
  {
    StatusServes(c, s, bs, i);
    RemoveMembers(bs, i);
    if i !in bs {
      WithoutAbsent(bs, i);
    } else {
      var left := Without(bs, i);
      var t := s.(chain := Without(s.chain, Bucket(i)));
      LessBucketRules(c, s.chain, bs, i);
      OwnMember(t.chain, Bucket(i));
      BucketWithout(left, i);
      AnyBucketLeft(c, t.chain, left);
      if left == [] {
        assert BucketRules(left) + BaseRules(c) == BaseRules(c);
        LastBucketGone(c, t);
      }
    }
  }

  /** Taking the base rules away again from a chain that had no own rule. */
  lemma BaseComesOff(c: Config, chain: seq<Rule>)
    requires Own(chain) == []
    ensures DeleteBase(c, BaseRules(c) + chain) == chain
  {
    OwnMember(chain, Drop);
    OwnMember(chain, AdvertAccept);
    if c.ipv6 {
      var lower := [Drop] + chain;
      assert BaseRules(c) + chain == [AdvertAccept] + lower && ([AdvertAccept] + lower)[1..] == lower;
      assert lower[1..] == chain && Without(lower, Drop) == chain;
      assert Without([AdvertAccept] + lower, Drop) == [AdvertAccept] + chain;
      assert ([AdvertAccept] + chain)[1..] == chain;
    } else {
      assert BaseRules(c) + chain == [Drop] + chain && ([Drop] + chain)[1..] == chain;
    }
  }

  /** Stopping an instance undoes its start, to the last rule. */
  lemma StopUndoesStart(c: Config, s: NodeState, bs: seq<nat>, i: nat)
    requires Serves(c, s, bs) && 1 <= i <= c.total && i !in bs
    ensures StopState(c, StartState(c, s, i).0, i) == (s, Success)
  {
    StatusServes(c, s, bs, i);
    if bs == [] {
      CleanNode(c, s);
      StopAfterSetUp(c, s, SetUp(c, s), i);
    } else {
      StopAfterInsert(c, s, bs, i);
    }
  }

  lemma StopAfterInsert(c: Config, s: NodeState, bs: seq<nat>, i: nat)
    requires Serves(c, s, bs) && bs != [] && i !in bs
    ensures StopState(c, s.(chain := [Bucket(i)] + s.chain), i) == (s, Success)
  {
    var chain := [Bucket(i)] + s.chain;
    assert chain[1..] == s.chain && Without(chain, Bucket(i)) == s.chain;
    ServesFacts(c, s, bs);
    assert Bucket(bs[0]) in s.chain;
    assert AnyBucket(c, s.chain);
  }

  lemma StopAfterSetUp(c: Config, s: NodeState, t: NodeState, i: nat)
    requires !s.address && !s.multicast && s.arpRules == 0 && Own(s.chain) == []
    requires (c.backend == Nft ==> s.chain == [] && !s.table) && t == SetUp(c, s)
    ensures StopState(c, t.(chain := [Bucket(i)] + t.chain, address := true), i) == (s, Success)
  {
    NoBucketUnder(c, s.chain);
    assert Bucket(i) !in t.chain;
    TearDownUndoes(c, s);
    var u := t.(chain := [Bucket(i)] + t.chain, address := true);
    assert u.chain[1..] == t.chain && Without(u.chain, Bucket(i)) == t.chain;
    assert StatusOf(c, u, i) == Served;
  }

  lemma TearDownUndoes(c: Config, s: NodeState)
    requires !s.multicast && s.arpRules == 0 && Own(s.chain) == []
    requires c.backend == Nft ==> s.chain == [] && !s.table
    ensures TearsDown(c, SetUp(c, s).(address := true))
    ensures TearDown(c, SetUp(c, s).(address := true)) == s.(address := true)
  {
    NoBucketUnder(c, s.chain);
    BaseComesOff(c, s.chain);
  }

  lemma NoBucketUnder(c: Config, chain: seq<Rule>)
    requires Own(chain) == []
    ensures !AnyBucket(c, BaseRules(c) + chain) && forall k :: Bucket(k) !in BaseRules(c) + chain
    ensures Drop in BaseRules(c) + chain && (c.ipv6 ==> AdvertAccept in BaseRules(c) + chain)
  {
    forall k: nat ensures Bucket(k) !in BaseRules(c) + chain {
      OwnMember(chain, Bucket(k));
    }
    assert Drop in BaseRules(c);
  }

  // ----------------------------------------------------------- nodes in any state

  /** A start fails exactly if the MAC is there and the address or a base rule is not. */
  predicate StartBlocked(c: Config, s: NodeState) {
    s.multicast && (!s.address || !BaseReady(c, s))
  }

  lemma VerdictAbove(c: Config, chain: seq<Rule>, p: Packet)
    ensures Verdict(BaseRules(c) + chain, p) <==> c.ipv6 && p.advert
  {
    var base := BaseRules(c) + chain;
    if c.ipv6 {
      assert base[0] == AdvertAccept && base[1..][0] == Drop;
    } else {
      assert base[0] == Drop;
    }
  }

  /** What a node accepts after a start, whatever the state before: a start that sets up the firewall
      leaves the instance and nothing else, one that finds it set up adds the instance to what was
      accepted, one that finds the instance served changes nothing, and a failed one closes the
      node.  IPv6 neighbour advertisements pass whenever the firewall is set up. */
  lemma StartAccepts(c: Config, s: NodeState, i: nat, p: Packet)
    ensures StartState(c, s, i).1 == Success <==> !StartBlocked(c, s)
    ensures Accepts(StartState(c, s, i).0, p)
            <==> match StatusOf(c, s, i)
                 case Served => Accepts(s, p)
                 case Partial => p.bucket == i || Accepts(s, p)
                 case _ => if StartBlocked(c, s) then s.address && c.ipv6 && p.advert
                           else p.bucket == i || (c.ipv6 && p.advert)
  {
    VerdictAbove(c, s.chain, p);
    assert ([Bucket(i)] + s.chain)[1..] == s.chain;
    assert ([Bucket(i)] + (BaseRules(c) + s.chain))[1..] == BaseRules(c) + s.chain;
  }

  lemma {:induction false} VerdictWithout(chain: seq<Rule>, r: Rule, p: Packet)
    requires !Matches(r, p)
    ensures Verdict(Without(chain, r), p) == Verdict(chain, p)
    decreases |chain|
  {
    if chain != [] && chain[0] != r {
      VerdictWithout(chain[1..], r, p);
      assert ([chain[0]] + Without(chain[1..], r))[1..] == Without(chain[1..], r);
    }
  }

  /** What ip_served says of any node, in terms of the rules that a set-up inserts. */
  lemma StatusExactly(c: Config, s: NodeState, i: nat)
    ensures BaseReady(c, s) <==> if c.backend == Nft then s.table else forall r <- BaseRules(c) :: r in s.chain
    ensures StatusOf(c, s, i) == No <==> !s.address
    ensures StatusOf(c, s, i) == Partial2 <==> s.address && !BaseReady(c, s)
    ensures StatusOf(c, s, i) == Partial <==> s.address && BaseReady(c, s) && Bucket(i) !in s.chain
    ensures StatusOf(c, s, i) == Served <==> s.address && BaseReady(c, s) && Bucket(i) in s.chain
  {
    if c.ipv6 {
      assert BaseRules(c)[0] == AdvertAccept && BaseRules(c)[1] == Drop;
    } else {
      assert BaseRules(c)[0] == Drop;
    }
  }

  /** A stop of what is not served changes nothing, and one on a node without base rules takes the address
      off and leaves every rule, bucket rules included, and the MAC. */
  lemma StopOfUnserved(c: Config, s: NodeState, i: nat)
    requires !s.address || Bucket(i) !in s.chain
             || if c.backend == Nft then !s.table else exists r <- BaseRules(c) :: r !in s.chain
    ensures StopState(c, s, i)
            == (if s.address && (if c.backend == Nft then !s.table else exists r <- BaseRules(c) :: r !in s.chain)
                then s.(address := false) else s, Success)
  {
    StatusExactly(c, s, i);
  }

  /** What a node accepts after a stop, whatever the state before: packets of other instances are
      accepted as before as long as a bucket rule is left, and none once the address is off. */
  lemma StopAccepts(c: Config, s: NodeState, i: nat, p: Packet)
    ensures var (t, rc) := StopState(c, s, i);
            && (t.address && AnyBucket(c, t.chain) && p.bucket != i ==> (Accepts(t, p) <==> Accepts(s, p)))
            && (!t.address ==> !Accepts(t, p))
            && (t.address && rc == Success ==> t == s || AnyBucket(c, t.chain))
  {
    if p.bucket != i {
      VerdictWithout(s.chain, Bucket(i), p);
    }
    var t := s.(chain := Without(s.chain, Bucket(i)));
    if !AnyBucket(c, t.chain) {
      NoBucketAfter(c, t.chain);
    }
  }

  /** Deleting base rules uncovers no bucket rule. */
  lemma NoBucketAfter(c: Config, chain: seq<Rule>)
    requires !AnyBucket(c, chain)
    ensures !AnyBucket(c, DeleteBase(c, chain))
  {
    forall k | 1 <= k <= c.total ensures Bucket(k) !in DeleteBase(c, chain) {
      WithoutKeeps(chain, Drop, Bucket(k));
      WithoutKeeps(Without(chain, Drop), AdvertAccept, Bucket(k));
    }
  }

  /** The stop of a node's last instance fails exactly if the MAC or, with iptables, the ARP rule is gone
      already, and then leaves the address without any rule: the node accepts every packet. */
  lemma FailedStopOpensNode(c: Config, s: NodeState, i: nat, p: Packet)
    requires s.address && Own(s.chain) == OwnRules(c, [i]) && 1 <= i <= c.total
    requires c.backend == Nft ==> s.table && Others(s.chain) == []
    ensures var (t, rc) := StopState(c, s, i);
            && (rc == Success <==> s.multicast && (c.mangle && c.backend == IpTables ==> s.arpRules > 0))
            && (rc != Success ==> Accepts(t, p))
  {
    var t := s.(chain := Without(s.chain, Bucket(i)));
    StatusOfLast(c, s, i);
    LastRules(c, s.chain, i, t.chain);
    OwnDeleteBase(c, t.chain);
    BaseDeletes(c);
    VerdictOwn(TearDown(c, t).chain, p);
  }

  /** A node with one instance counts it as served. */
  lemma StatusOfLast(c: Config, s: NodeState, i: nat)
    requires s.address && Own(s.chain) == OwnRules(c, [i]) && (c.backend == Nft ==> s.table)
    ensures StatusOf(c, s, i) == Served
  {
    BaseDeletes(c);
    assert BucketRules([i]) == [Bucket(i)];
    OwnMember(s.chain, Drop);
    OwnMember(s.chain, AdvertAccept);
    OwnMember(s.chain, Bucket(i));
  }

  /** The rules of such a node once the instance's is deleted. */
  lemma LastRules(c: Config, chain: seq<Rule>, i: nat, after: seq<Rule>)
    requires Own(chain) == OwnRules(c, [i]) && after == Without(chain, Bucket(i))
    ensures Own(after) == BaseRules(c) && Others(after) == Others(chain)
    ensures Drop in after && (c.ipv6 ==> AdvertAccept in after) && Bucket(i) !in after && !AnyBucket(c, after)
  {
    LessBucketRules(c, chain, [i], i);
    assert Without([i], i) == [] && BucketRules([]) + BaseRules(c) == BaseRules(c);
    AnyBucketLeft(c, after, []);
    BaseDeletes(c);
    OwnMember(after, Drop);
    OwnMember(after, AdvertAccept);
    OwnMember(after, Bucket(i));
  }

  // --------------------------------------------------------------- flushed nodes

  /** The address is there, but somebody has flushed the rules of the resource. */
  predicate Flushed(c: Config, s: NodeState) {
    s.address && Own(s.chain) == [] && (c.backend == Nft ==> s.chain == [])
  }

  /** A start on a flushed node whose nft table is still there succeeds without a drop rule, and the
      node goes on accepting every packet.  On other flushed nodes it sets the firewall up, at the first
      attempt if the MAC is gone too, else at the second; either way the node then serves this
      instance alone, unless an ARP rule was left behind. */
  lemma StartOfFlushed(c: Config, s: NodeState, i: nat)
    requires Flushed(c, s) && 1 <= i <= c.total
    ensures var (t, rc) := StartState(c, s, i);
            && (rc == Success <==> BaseReady(c, s) || !s.multicast)
            && (BaseReady(c, s) ==> forall p :: Accepts(t, p))
            && (!BaseReady(c, s) && !s.multicast ==> (Serves(c, t, [i]) <==> s.arpRules == 0))
            && (!BaseReady(c, s) && s.multicast ==>
                  StartState(c, t, i).1 == Success && (Serves(c, StartState(c, t, i).0, [i]) <==> s.arpRules == 0))
  {
    OwnMember(s.chain, Drop);
    if BaseReady(c, s) {
      forall p ensures Accepts(StartState(c, s, i).0, p) {
        StartAccepts(c, s, i, p);
      }
    } else {
      NoBucketUnder(c, s.chain);
      var u := SetUp(c, s);
      assert Bucket(i) !in u.chain;
      if s.arpRules == 0 {
        FirstBucketServes(c, s, u.(chain := [Bucket(i)] + u.chain, address := true), i);
      }
    }
  }

  /** A stop takes nothing off a flushed node whose nft table is still there, and the address off any
      other: the node is clean afterwards exactly if neither table, MAC nor ARP rule was left. */
  lemma StopOfFlushed(c: Config, s: NodeState, i: nat)
    requires Flushed(c, s)
    ensures StopState(c, s, i) == (if BaseReady(c, s) then s else s.(address := false), Success)
    ensures Serves(c, StopState(c, s, i).0, []) <==> !BaseReady(c, s) && !s.multicast && s.arpRules == 0
  {
    OwnMember(s.chain, Drop);
    assert OwnRules(c, []) == [];
    NoOwnMeansOthers(s.chain);
  }

  /** With iptables and the drop rule gone, starting `i` puts a new one above the rule of `j`, which then
      counts as served while its packets are dropped; with the MAC there this takes a second attempt. */
  lemma BuriedBucketDropped(c: Config, s: NodeState, i: nat, j: nat)
    requires c.backend == IpTables && s.address && Drop !in s.chain && Bucket(j) in s.chain && Bucket(i) !in s.chain
    ensures var first := StartState(c, s, i);
            var (t, rc) := if s.multicast then StartState(c, first.0, i) else first;
            rc == Success && StatusOf(c, t, j) == Served && !Accepts(t, Packet(j, false))
  {
    var first := StartState(c, s, i).0;
    BaseDeletes(c);
    StartAccepts(c, s, i, Packet(j, false));
    if s.multicast {
      assert BaseReady(c, first) && Bucket(i) !in first.chain;
      StartAccepts(c, first, i, Packet(j, false));
    }
  }

  // ------------------------------------------------------------ a MAC left behind

  /** The node after a history from any state. */
  function StateAfter(c: Config, s: NodeState, ops: seq<Operation>): NodeState
    decreases |ops|
  {
    if ops == [] then s
    else
      var next := match ops[0] case Start(i) => StartState(c, s, i).0 case Stop(i) => StopState(c, s, i).0;
      StateAfter(c, next, ops[1..])
  }

  /** No start of the history succeeds. */
  predicate EveryStartFails(c: Config, s: NodeState, ops: seq<Operation>)
    decreases |ops|
  {
    ops == []
    || (match ops[0]
        case Start(i) =>
          StartState(c, s, i).1 != Success && EveryStartFails(c, StartState(c, s, i).0, ops[1..])
        case Stop(i) => EveryStartFails(c, StopState(c, s, i).0, ops[1..]))
  }

  /** A MAC without the address blocks the node for good: over every sequence of starts and stops every
      start fails and the address stays off. */
  lemma {:induction false} LeftoverMacBlocks(c: Config, s: NodeState, ops: seq<Operation>)
    requires !s.address && s.multicast
    ensures EveryStartFails(c, s, ops)
    ensures !StateAfter(c, s, ops).address && StateAfter(c, s, ops).multicast
    decreases |ops|
  {
    if ops != [] {
      match ops[0]
      case Start(i) => LeftoverMacBlocks(c, StartState(c, s, i).0, ops[1..]);
      case Stop(i) => LeftoverMacBlocks(c, StopState(c, s, i).0, ops[1..]);
    }
  }

  // --------------------------------------------------------------- the agent

  class Node {
    const c: Config
    var address: bool
    var table: bool
    var chain: seq<Rule>
    var arpRules: nat
    var multicast: bool

    constructor (c: Config, foreign: seq<Rule>)
      requires Own(foreign) == [] && (c.backend == Nft ==> foreign == [])
      ensures this.c == c && chain == foreign && Serves(c, View(), [])
    {
      this.c := c;
      address, table, chain, arpRules, multicast := false, false, foreign, 0, false;
    }

    function View(): NodeState
      reads this
    {
      NodeState(address, table, chain, arpRules, multicast)
    }

    // ------------------------------------------------------ firewall commands

    method InsertRule(r: Rule) returns (ok: bool)
      requires !r.Foreign?
      modifies this`chain
      ensures ok <==> c.backend == IpTables || table
      ensures chain == if ok then [r] + old(chain) else old(chain)
    {
      ok := c.backend == IpTables || table;
      if ok {
        chain := [r] + chain;
      }
    }

    /** iptables --delete removes the first matching rule and fails if there is none. */
    method DeleteRule(r: Rule) returns (ok: bool)
      requires !r.Foreign?
      modifies this`chain
      ensures ok <==> r in old(chain)
      ensures chain == Without(old(chain), r)
    {
      ok := r in chain;
      if ok {
        chain := Without(chain, r);
      } else {
        WithoutAbsent(chain, r);
      }
    }

    method CipDropInsert() returns (ok: bool)
      modifies this`chain, this`table
      ensures ok && table == (c.backend == Nft || old(table))
      ensures chain == BaseRules(c) + old(chain)
    {
      if c.backend == Nft {
        table := true;
      }
      ok := InsertRule(Drop);
      if ok && c.ipv6 {
        ok := InsertRule(AdvertAccept);
      }
    }

    method CipDropDelete() returns (ok: bool)
      modifies this`chain, this`table
      ensures ok <==> c.backend == Nft || (Drop in old(chain) && (c.ipv6 ==> AdvertAccept in old(chain)))
      ensures table == (old(table) && c.backend == IpTables)
      ensures chain == if c.backend == Nft then [] else DeleteBase(c, old(chain))
    {
      if c.backend == Nft {
        table, chain, ok := false, [], true;
      } else {
        WithoutKeeps(chain, Drop, AdvertAccept);
        if Drop !in chain {
          WithoutAbsent(chain, Drop);
        }
        ok := DeleteRule(Drop);
        if ok && c.ipv6 {
          ok := DeleteRule(AdvertAccept);
        }
      }
    }

    predicate CipDropCheck()
      reads this
    {
      BaseReady(c, View())
    }

    method CipMangle(insert: bool) returns (ok: bool)
      modifies this`arpRules
      ensures ok <==> !c.mangle || insert || c.backend == Nft || old(arpRules) > 0
      ensures arpRules == if !c.mangle then old(arpRules)
                          else if insert then old(arpRules) + 1
                          else if c.backend == Nft || old(arpRules) == 0 then 0 else old(arpRules) - 1
    {
      ok := true;
      if c.mangle {
        if insert {
          arpRules := arpRules + 1;
        } else if c.backend == Nft {
          arpRules := 0;
        } else {
          ok := arpRules > 0;
          arpRules := if ok then arpRules - 1 else 0;
        }
      }
    }

    /** The kernel refuses to add a present MAC and to delete an absent one. */
    method CipMaddr(insert: bool) returns (ok: bool)
      modifies this`multicast
      ensures ok <==> old(multicast) != insert
      ensures multicast == insert
    {
      ok := multicast != insert;
      multicast := insert;
    }

    method CipSetup(insert: bool) returns (ok: bool)
      modifies this`chain, this`table, this`arpRules, this`multicast
      ensures View() == if insert then SetUp(c, old(View())) else TearDown(c, old(View()))
      ensures ok <==> if insert then !old(multicast) else TearsDown(c, old(View()))
    {
      var d, m, a;
      if insert {
        d := CipDropInsert();
      } else {
        d := CipDropDelete();
      }
      m := CipMangle(insert);
      a := CipMaddr(insert);
      ok := d && m && a;
    }

    method CipNodeInsert(i: nat) returns (ok: bool)
      modifies this`chain
      ensures ok <==> c.backend == IpTables || table
      ensures chain == if ok then [Bucket(i)] + old(chain) else old(chain)
    {
      ok := InsertRule(Bucket(i));
    }

    /** nft deletes by the handle it finds under the rule's comment, does nothing without one and takes
        no more than one; iptables deletes the first copy and fails without one. */
    method CipNodeDelete(i: nat) returns (ok: bool)
      modifies this`chain
      ensures ok <==> if c.backend == Nft then Bucket(i) !in Without(old(chain), Bucket(i)) else Bucket(i) in old(chain)
      ensures chain == if ok then Without(old(chain), Bucket(i)) else old(chain)
    {
      if c.backend == Nft {
        ok := Bucket(i) !in Without(chain, Bucket(i));
        if ok {
          var _ := DeleteRule(Bucket(i));
        }
      } else {
        if Bucket(i) !in chain {
          WithoutAbsent(chain, Bucket(i));
        }
        ok := DeleteRule(Bucket(i));
      }
    }

    predicate CipNodeCheck(i: nat)
      reads this
    {
      Bucket(i) in chain
    }

    // ------------------------------------------------------------- operations

    /** ip_served, with the link up. */
    method IpServed(i: nat) returns (st: Status)
      ensures st == StatusOf(c, View(), i)
    {
      if !address {
        st := No;
      } else if !CipDropCheck() {
        st := Partial2;
      } else if !CipNodeCheck(i) {
        st := Partial;
      } else {
        st := Served;
      }
    }

    /** ip_start of instance `i`, on a node in any state. */
    method IpStart(i: nat) returns (rc: Exit)
      modifies this
      ensures (View(), rc) == StartState(c, old(View()), i)
    {
      rc := Success;
      var st := IpServed(i);
      if st == No || st == Partial2 {
        rc := FirstBucket(i);
        if rc == Success && st == No {
          address := true;
          st := IpServed(i);
          rc := if st == Served then Success else ErrGeneric;
        }
      } else if st == Partial {
        var ok := CipNodeInsert(i);
        rc := if ok then Success else ErrGeneric;
      }
    }

    /** The part of ip_start that sets up the firewall for the first bucket of a node. */
    method FirstBucket(i: nat) returns (rc: Exit)
      modifies this`chain, this`table, this`arpRules, this`multicast
      ensures rc == Success <==> !old(multicast)
      ensures var t := SetUp(c, old(View()));
              View() == if old(multicast) then t else t.(chain := [Bucket(i)] + t.chain)
      ensures rc == Success ==> BaseReady(c, View()) && Bucket(i) in chain
    {
      var ok := CipSetup(true);
      assert Drop in BaseRules(c) && (c.ipv6 ==> AdvertAccept in BaseRules(c));
      if ok {
        ok := CipNodeInsert(i);
      }
      rc := if ok then Success else ErrGeneric;
    }

    /** ip_stop of instance `i`, on a node in any state. */
    method IpStop(i: nat) returns (rc: Exit)
      modifies this
      ensures (View(), rc) == StopState(c, old(View()), i)
    {
      rc := Success;
      var st := IpServed(i);
      if st != No && st != Partial {
        var deleteAddress := true;
        if st != Partial2 {
          var ok := CipNodeDelete(i);
          if ok {
            deleteAddress := NoBucketLeft();
            if deleteAddress {
              ok := CipSetup(false);
            }
          }
          rc := if ok then Success else ErrGeneric;
        }
        if rc == Success && deleteAddress {
          address := false;
        }
      }
    }

    /** The loop of ip_stop over all buckets of the cluster. */
    method NoBucketLeft() returns (none: bool)
      ensures none <==> !AnyBucket(c, chain)
    {
      none := true;
      var k := 1;
      while k <= c.total && none
        invariant 1 <= k <= c.total + 1
        invariant none ==> forall j | 1 <= j < k :: Bucket(j) !in chain
        invariant !none ==> AnyBucket(c, chain)
        decreases c.total + 1 - k, none
      {
        if CipNodeCheck(k) {
          none := false;
        } else {
          k := k + 1;
        }
      }
    }

    method Perform(op: Operation, ghost bs: seq<nat>) returns (rc: Exit)
      requires Serves(c, View(), bs) && (op.Start? ==> 1 <= op.instance <= c.total)
      modifies this
      ensures rc == Success && Serves(c, View(), Next(bs, op)) && Others(chain) == Others(old(chain))
    {
      match op
      case Start(i) =>
        StartServes(c, View(), bs, i);
        rc := IpStart(i);
      case Stop(i) =>
        StopServes(c, View(), bs, i);
        rc := IpStop(i);
    }

    /** Any sequence of instance starts and stops from a clean node: every operation succeeds, the
        node serves exactly the instances whose last operation was a start, and the rules of other
        resources stay as they were. */
    method RunOperations(ops: seq<Operation>) returns (rc: Exit)
      requires Serves(c, View(), [])
      requires forall k | 0 <= k < |ops| :: ops[k].Start? ==> 1 <= ops[k].instance <= c.total
      modifies this
      ensures rc == Success
      ensures Serves(c, View(), Outcome(ops))
      ensures Others(chain) == Others(old(chain))
    {
      ghost var bs, foreign := [], Others(chain);
      rc := Success;
      var k := 0;
      while k < |ops|
        invariant 0 <= k <= |ops| && bs == Outcome(ops[..k])
        invariant rc == Success && Serves(c, View(), bs) && Others(chain) == foreign
      {
        OutcomeNext(ops, k);
        var one := Perform(ops[k], bs);
        rc := if rc == Success then one else rc;
        bs := Next(bs, ops[k]);
        k := k + 1;
      }
      assert ops[..k] == ops;
    }
  }

  // -------------------------------------------------------------- the cluster

  /** An operation on the node of that number. */
  datatype Event = Event(node: nat, op: Operation)

  /** What happened on node `k`, in order. */
  function History(events: seq<Event>, k: nat): seq<Operation> {
    if events == [] then []
    else
      var before := History(events[..|events| - 1], k);
      if events[|events| - 1].node == k then before + [events[|events| - 1].op] else before
  }

  function Histories(events: seq<Event>, n: nat): seq<seq<Operation>> {
    seq(n, k requires 0 <= k < n => History(events, k))
  }

  function Views(nodes: seq<Node>): seq<NodeState>
    reads nodes
  {
    seq(|nodes|, k requires 0 <= k < |nodes| reads nodes => nodes[k].View())
  }

  /** The instances each node serves after `events`. */
  function Outcomes(events: seq<Event>, n: nat): seq<seq<nat>> {
    seq(n, k requires 0 <= k < n => Outcome(History(events, k)))
  }

  lemma OutcomesNext(events: seq<Event>, j: nat, n: nat)
    requires j < |events| && events[j].node < n
    ensures var before, k := Outcomes(events[..j], n), events[j].node;
            Outcomes(events[..j + 1], n) == before[k := Next(before[k], events[j].op)]
  {
    forall k: nat | k < n
      ensures var before := Outcomes(events[..j], n)[k];
              Outcomes(events[..j + 1], n)[k] == if events[j].node == k then Next(before, events[j].op) else before
    {
      HistoryNext(events, j, k);
    }
  }

  lemma HistoryNext(events: seq<Event>, j: nat, k: nat)
    requires j < |events|
    ensures var before := Outcome(History(events[..j], k));
            Outcome(History(events[..j + 1], k))
            == if events[j].node == k then Next(before, events[j].op) else before
  {
    assert events[..j + 1][..j] == events[..j];
    var h := History(events[..j], k);
    if events[j].node == k {
      assert (h + [events[j].op])[..|h|] == h;
    }
  }

  predicate AllServe(c: Config, nodes: seq<Node>, bss: seq<seq<nat>>)
    reads nodes
  {
    |bss| == |nodes| && forall k | 0 <= k < |nodes| :: nodes[k].c == c && Serves(c, nodes[k].View(), bss[k])
  }

  /** One operation on one node leaves the others alone. */
  method OperateOne(c: Config, nodes: seq<Node>, e: Event, ghost bss: seq<seq<nat>>) returns (rc: Exit)
    requires forall i, j | 0 <= i < j < |nodes| :: nodes[i] != nodes[j]
    requires AllServe(c, nodes, bss) && e.node < |nodes| && (e.op.Start? ==> 1 <= e.op.instance <= c.total)
    modifies nodes
    ensures rc == Success && AllServe(c, nodes, bss[e.node := Next(bss[e.node], e.op)])
    ensures forall k | 0 <= k < |nodes| :: Others(nodes[k].chain) == old(Others(nodes[k].chain))
  {
    ghost var views := Views(nodes);
    rc := nodes[e.node].Perform(e.op, bss[e.node]);
    forall k | 0 <= k < |nodes| && k != e.node ensures nodes[k].View() == views[k] {
      assert nodes[k] != nodes[e.node];
    }
  }

  /** Starts and stops in any order on any number of clean nodes: all succeed, and afterwards a packet
      that is no neighbour advertisement is accepted by exactly one node if and only if its instance
      is started on exactly one. */
  method RunCluster(c: Config, nodes: seq<Node>, events: seq<Event>) returns (rc: Exit)
    requires forall i, j | 0 <= i < j < |nodes| :: nodes[i] != nodes[j]
    requires forall k | 0 <= k < |nodes| :: nodes[k].c == c && Serves(c, nodes[k].View(), [])
    requires forall j | 0 <= j < |events| ::
               events[j].node < |nodes| && (events[j].op.Start? ==> 1 <= events[j].op.instance <= c.total)
    modifies nodes
    ensures rc == Success
    ensures forall bucket: nat ::
              OnlyOne(Accepting(Views(nodes), Packet(bucket, false)))
              <==> OnlyOne(Starting(Histories(events, |nodes|), bucket))
    ensures forall k | 0 <= k < |nodes| :: Others(nodes[k].chain) == old(Others(nodes[k].chain))
  {
    rc := Success;
    ghost var bss := seq(|nodes|, _ => []);
    var j := 0;
    while j < |events|
      invariant 0 <= j <= |events| && rc == Success
      invariant AllServe(c, nodes, bss) && bss == Outcomes(events[..j], |nodes|)
      invariant forall k | 0 <= k < |nodes| :: Others(nodes[k].chain) == old(Others(nodes[k].chain))
    {
      OutcomesNext(events, j, |nodes|);
      var one := OperateOne(c, nodes, events[j], bss);
      rc := if rc == Success then one else rc;
      bss := bss[events[j].node := Next(bss[events[j].node], events[j].op)];
      j := j + 1;
    }
    assert events[..j] == events;
    forall bucket: nat
      ensures OnlyOne(Accepting(Views(nodes), Packet(bucket, false)))
              <==> OnlyOne(Starting(Histories(events, |nodes|), bucket))
    {
      ExactlyOnce(c, Views(nodes), Histories(events, |nodes|), bucket);
    }
  }
}
