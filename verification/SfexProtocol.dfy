/** The SF-EX lock protocol (tools/sfex_daemon.c) as a timed transition system.

    Any number of nodes share one lock block.  Every block read and every block
    write of the daemon is a step of its own; between two of them the other
    nodes may move and time may pass.  `Enabled` and `Apply` are what the code
    does; `Timely` collects the timing hypotheses under which it is safe. */
module SfexProtocol {
  import opened SfexTypes

  // ------------------------------------------------------------- parameters

  datatype Config = Config(
    delta: real,             // longest time from a guard read to the reservation write that follows it
    collisionTimeout: real,
    lockTimeout: real,
    monitorInterval: real,
    writeGap: real)          // longest time between two writes of a live reserver or holder

  /** Sleeps take time, and a reserver can survive its collision sleep. */
  predicate SaneConfig(c: Config) {
    0.0 <= c.delta && 0.0 < c.collisionTimeout <= c.writeGap && 0.0 < c.lockTimeout && 0.0 < c.monitorInterval
  }

  /** The two bounds that make the protocol safe. */
  predicate SafeTimeouts(c: Config) {
    c.delta < c.collisionTimeout && c.writeGap + c.delta < c.lockTimeout
  }

  predicate ValidConfig(c: Config) {
    SaneConfig(c) && SafeTimeouts(c)
  }

  // ------------------------------------------------------------------ state

  /** Where a daemon is, between two of its block accesses. */
  datatype Phase =
    | Down        // not running: never started, exited or crashed
    | WaitStale   // saw a foreign lock, sleeps lock_timeout
    | Guarded     // may write its reservation
    | Reserved    // wrote its reservation, sleeps collision_timeout
    | Checked     // passed the collision check, about to extend
    | Holding     // lock acquired, sleeps monitor_interval
    | Updating    // read its own lock, about to write the heartbeat
    | Releasing   // read its own lock, about to write the unlock
    | Fenced      // found the lock lost: failure_todo

  datatype Node = Node(
    phase: Phase,
    ldata: LockData,   // the daemon's static ldata
    total: int,        // un-wrapped value of ldata.count
    since: real,       // when the phase was entered
    reservedAt: real,  // last reservation write under this name, over all restarts
    lastWrite: real)   // last counter-advancing write under this name

  datatype State = State(
    now: real,
    block: LockData,   // the lock block on the shared disk
    total: int,        // un-wrapped value of block.count
    advancedAt: real,  // last write that was not a release
    nodes: map<NodeName, Node>)

  datatype Step =
    | Tick(dt: real)
    | GuardRead(node: NodeName)
    | Reread(node: NodeName)
    | Reserve(node: NodeName)
    | Check(node: NodeName)
    | Extend(node: NodeName)
    | UpdateRead(node: NodeName)
    | UpdateWrite(node: NodeName)
    | TermRead(node: NodeName)
    | ReleaseWrite(node: NodeName)
    | Crash(node: NodeName)

  // ------------------------------------------------------------ transitions

  /** The daemon stands before this access, and the sleep before it is over. */
  predicate Enabled(c: Config, s: State, step: Step) {
    if step.Tick? then step.dt > 0.0
    else
      step.node in s.nodes &&
      var x := s.nodes[step.node];
      match step
      case GuardRead(_) => x.phase.Down?
      case Reread(_) => x.phase.WaitStale? && s.now >= x.since + c.lockTimeout
      case Reserve(_) => x.phase.Guarded?
      case Check(_) => x.phase.Reserved? && s.now >= x.since + c.collisionTimeout
      case Extend(_) => x.phase.Checked?
      case UpdateRead(_) => x.phase.Holding? && s.now >= x.since + c.monitorInterval
      case UpdateWrite(_) => x.phase.Updating?
      case TermRead(_) => !x.phase.Down? && !x.phase.Releasing? && !x.phase.Fenced?
      case ReleaseWrite(_) => x.phase.Releasing?
      case Crash(_) => !x.phase.Down?
  }

  function Enter(s: State, n: NodeName, p: Phase): State
    requires n in s.nodes
  {
    s.(nodes := s.nodes[n := s.nodes[n].(phase := p, since := s.now)])
  }

  /** As `Enter`, after reading the block into ldata. */
  function Load(s: State, n: NodeName, p: Phase): State
    requires n in s.nodes
  {
    s.(nodes := s.nodes[n := s.nodes[n].(phase := p, since := s.now, ldata := s.block, total := s.total)])
  }

  /** Bump the counter in ldata, write ldata to the block and enter phase `p`. */
  function Advance(s: State, n: NodeName, p: Phase): State
    requires n in s.nodes
  {
    var x := s.nodes[n];
    var d := LockData(Lock, NextCount(x.ldata.count), n);
    s.(block := d, total := x.total + 1, advancedAt := s.now,
       nodes := s.nodes[n := x.(phase := p, since := s.now, ldata := d, total := x.total + 1,
                                reservedAt := if p.Reserved? then s.now else x.reservedAt,
                                lastWrite := s.now)])
  }

  /** The effect of one step, as the daemon's code defines it. */
  function Apply(c: Config, s: State, step: Step): State
    requires Enabled(c, s, step)
  {
    match step
    case Tick(dt) => s.(now := s.now + dt)
    case GuardRead(n) =>
      Load(s, n, if s.block.status == Lock && s.block.owner != n then WaitStale else Guarded)
    case Reread(n) =>
      Enter(s, n, if s.block.count != s.nodes[n].ldata.count then Down else Guarded)
    case Reserve(n) => Advance(s, n, Reserved)
    case Check(n) =>
      Enter(s, n, if s.block.owner != s.nodes[n].ldata.owner then Down else Checked)
    case Extend(n) => Advance(s, n, Holding)
    case UpdateRead(n) => Load(s, n, if OwnLock(s.block, n) then Updating else Fenced)
    case UpdateWrite(n) => Advance(s, n, Holding)
    case TermRead(n) => Load(s, n, if OwnLock(s.block, n) then Releasing else Down)
    case ReleaseWrite(n) =>
      Enter(s, n, Down).(block := s.nodes[n].ldata.(status := Unlock), total := s.nodes[n].total)
    case Crash(n) => Enter(s, n, Down)
  }

  /** A step changes no node but its own. */
  lemma OthersUnchanged(c: Config, s: State, step: Step)
    requires Enabled(c, s, step)
    ensures Apply(c, s, step).nodes.Keys == s.nodes.Keys
    ensures forall m <- s.nodes :: step.Tick? || m != step.node ==> Apply(c, s, step).nodes[m] == s.nodes[m]
    ensures step.Tick? ==> Apply(c, s, step).block == s.block
  {
  }

  /** The phases whose next write has to follow the previous one within `writeGap`. */
  predicate Live(p: Phase) {
    p.Reserved? || Critical(p)
  }

  /** Past the collision check: the node believes it owns the lock. */
  predicate Critical(p: Phase) {
    p.Checked? || p.Holding? || p.Updating? || p.Releasing?
  }

  predicate MeetsDeadline(c: Config, x: Node, time: real) {
    (x.phase.Guarded? ==> time <= x.since + c.delta)
    && (Live(x.phase) ==> time <= x.lastWrite + c.writeGap)
  }

  /** The timing hypotheses:
      - a guarded node writes within `delta`, a live node writes again within `writeGap` (Tick);
      - a name is not restarted within `delta` of its own reservation write (GuardRead);
      - the counter moves less than one lap during a takeover wait (Reread);
      - a node that finds its own lock is not terminated within `delta` of its reservation
        write, nor before that write (TermRead). */
  predicate Timely(c: Config, s: State, step: Step)
    requires Enabled(c, s, step)
  {
    match step
    case Tick(dt) => forall n <- s.nodes :: MeetsDeadline(c, s.nodes[n], s.now + dt)
    case GuardRead(n) => s.now > s.nodes[n].reservedAt + c.delta
    case Reread(n) => s.total - s.nodes[n].total < 1000
    case TermRead(n) =>
      OwnLock(s.block, n) ==>
        Live(s.nodes[n].phase) && s.now > s.nodes[n].reservedAt + c.delta
    case _ => true
  }

  predicate Ok(c: Config, s: State, step: Step) {
    Enabled(c, s, step) && Timely(c, s, step)
  }

  // ------------------------------------------------------------------- runs

  predicate Run(c: Config, s: State, steps: seq<Step>)
    decreases |steps|
  {
    steps == [] || (Ok(c, s, steps[0]) && Run(c, Apply(c, s, steps[0]), steps[1..]))
  }

  function After(c: Config, s: State, steps: seq<Step>): State
    requires Run(c, s, steps)
    decreases |steps|
  {
    if steps == [] then s else After(c, Apply(c, s, steps[0]), steps[1..])
  }

  /** Every daemon is down and the block holds any record that can be read, fresh or stale. */
  predicate Init(c: Config, s: State) {
    s.block.count == Wrapped(s.total)
    && s.advancedAt <= s.now
    && forall n <- s.nodes ::
         s.nodes[n].phase.Down? && s.nodes[n].since <= s.now && s.nodes[n].reservedAt <= s.now
  }

  predicate MutualExclusion(s: State) {
    forall m, n | m in s.nodes && n in s.nodes ::
      Critical(s.nodes[m].phase) && Critical(s.nodes[n].phase) ==> m == n
  }

  // -------------------------------------------------------------- invariant

  predicate NodeInv(c: Config, s: State, n: NodeName)
    requires n in s.nodes
  {
    var x := s.nodes[n];
    && MeetsDeadline(c, x, s.now)
    && x.since <= s.now && x.reservedAt <= s.now
    && !x.phase.Fenced?
    && (!x.phase.Down? ==> x.ldata.count == Wrapped(x.total))
    && (x.phase.WaitStale? ==>
          s.block.owner != n && x.total <= s.total
          && (s.advancedAt > x.since + c.delta ==> x.total < s.total))
    && (x.phase.Guarded? ==> x.total == s.total || Outrun(s, n))
    && (x.phase.Reserved? ==>
          x.ldata.owner == n && x.since == x.reservedAt == x.lastWrite
          && (s.block.owner == n ==>
                s.block == x.ldata && s.block.status == Lock && s.total == x.total && s.advancedAt == x.reservedAt))
    && (Critical(x.phase) ==>
          OwnLock(s.block, n) && s.block == x.ldata && s.total == x.total && s.advancedAt == x.lastWrite)
  }

  /** Another node's reservation was written after `n` took its guard read. */
  predicate Outrun(s: State, n: NodeName)
    requires n in s.nodes
  {
    s.nodes[n].total + 1 == s.total
    && s.block.status == Lock && s.block.owner != n && s.block.owner in s.nodes
    && s.nodes[n].since <= s.advancedAt == s.nodes[s.block.owner].reservedAt
  }

  /** What a guarded node `g` and any other node `n` owe each other. */
  predicate PairInv(s: State, g: NodeName, n: NodeName)
    requires g in s.nodes && n in s.nodes
  {
    var x, y := s.nodes[g], s.nodes[n];
    x.phase.Guarded? ==>
      && (y.phase.Guarded? ==> x.total == y.total)
      && (y.phase.WaitStale? && y.since < x.since ==> y.total <= x.total)
      && (y.phase.Reserved? && s.block.owner == n ==> x.since <= y.reservedAt)
      && !Critical(y.phase)
  }

  predicate Inv(c: Config, s: State) {
    && s.block.count == Wrapped(s.total)
    && s.advancedAt <= s.now
    && (forall n <- s.nodes :: NodeInv(c, s, n))
    && (forall g, n | g in s.nodes && n in s.nodes :: PairInv(s, g, n))
  }

  lemma InitInv(c: Config, s: State)
    requires Init(c, s)
    ensures Inv(c, s)
  {
  }

  lemma TickInv(c: Config, s: State, dt: real)
    requires Inv(c, s) && Ok(c, s, Tick(dt))
    ensures Inv(c, Apply(c, s, Tick(dt)))
  {
    var t := Apply(c, s, Tick(dt));
    forall n | n in t.nodes ensures NodeInv(c, t, n) {
      assert NodeInv(c, s, n);
    }
    forall g, n | g in t.nodes && n in t.nodes ensures PairInv(t, g, n) {
      assert PairInv(s, g, n);
    }
  }

  /** `t` differs from `s` in the node `n` alone. */
  predicate OnlyNodeChanged(s: State, t: State, n: NodeName) {
    n in s.nodes && n in t.nodes && t == s.(nodes := s.nodes[n := t.nodes[n]])
  }

  /** No node is live over the present block. */
  predicate Quiet(s: State) {
    forall m <- s.nodes ::
      !Critical(s.nodes[m].phase) && !(s.nodes[m].phase.Reserved? && s.block.owner == m)
  }

  /** A block that lets a node pass its guard has no live owner and no outrun contender. */
  lemma GuardReadFindsQuiet(c: Config, s: State, n: NodeName)
    requires ValidConfig(c) && Inv(c, s) && Ok(c, s, GuardRead(n))
    requires !(s.block.status == Lock && s.block.owner != n)
    ensures Quiet(s)
    ensures forall m <- s.nodes :: s.nodes[m].phase.Guarded? ==> s.nodes[m].total == s.total
  {
    forall m | m in s.nodes
      ensures !Critical(s.nodes[m].phase) && !(s.nodes[m].phase.Reserved? && s.block.owner == m)
      ensures s.nodes[m].phase.Guarded? ==> s.nodes[m].total == s.total
    {
      assert NodeInv(c, s, m);
    }
  }

  /** A takeover wait that sees an unmoved counter has outlasted every live owner. */
  lemma RereadFindsQuiet(c: Config, s: State, n: NodeName)
    requires ValidConfig(c) && Inv(c, s) && Ok(c, s, Reread(n))
    requires s.block.count == s.nodes[n].ldata.count
    ensures s.nodes[n].total == s.total
    ensures Quiet(s)
    ensures forall m <- s.nodes :: s.nodes[m].phase.Guarded? ==> s.nodes[m].total == s.total
  {
    assert NodeInv(c, s, n);
    SameCountSameTotal(s.nodes[n].total, s.total);
    assert s.advancedAt < s.now - c.writeGap;
    forall m | m in s.nodes
      ensures !Critical(s.nodes[m].phase) && !(s.nodes[m].phase.Reserved? && s.block.owner == m)
      ensures s.nodes[m].phase.Guarded? ==> s.nodes[m].total == s.total
    {
      assert NodeInv(c, s, m);
    }
  }

  /** Entering the guarded phase over a quiet block keeps the invariant. */
  lemma EnterGuardedInv(c: Config, s: State, t: State, n: NodeName)
    requires ValidConfig(c) && Inv(c, s) && n in s.nodes && Quiet(s)
    requires forall m <- s.nodes :: s.nodes[m].phase.Guarded? ==> s.nodes[m].total == s.total
    requires OnlyNodeChanged(s, t, n)
    requires t.nodes[n].phase.Guarded? && t.nodes[n].since == s.now && t.nodes[n].total == s.total
    requires t.nodes[n].reservedAt == s.nodes[n].reservedAt && t.nodes[n].ldata.count == Wrapped(s.total)
    ensures Inv(c, t)
  {
    forall m | m in t.nodes ensures NodeInv(c, t, m) {
      assert NodeInv(c, s, m);
    }
    forall g, m | g in t.nodes && m in t.nodes ensures PairInv(t, g, m) {
      assert PairInv(s, g, m);
      assert NodeInv(c, s, m) && NodeInv(c, s, g);
    }
  }

  /** Leaving the guard, reserve or critical phases for one that claims nothing keeps the invariant. */
  lemma StepAsideInv(c: Config, s: State, t: State, n: NodeName)
    requires Inv(c, s) && n in s.nodes
    requires OnlyNodeChanged(s, t, n)
    requires t.nodes[n].phase.Down?
             || (t.nodes[n].phase.WaitStale? && s.block.owner != n
                 && t.nodes[n].total == s.total && t.nodes[n].ldata.count == Wrapped(s.total))
    requires t.nodes[n].since == s.now && t.nodes[n].reservedAt == s.nodes[n].reservedAt
    requires 0.0 <= c.delta
    ensures Inv(c, t)
  {
    forall m | m in t.nodes ensures NodeInv(c, t, m) {
      assert NodeInv(c, s, m);
    }
    forall g, m | g in t.nodes && m in t.nodes ensures PairInv(t, g, m) {
      assert PairInv(s, g, m);
      assert NodeInv(c, s, g);
    }
  }

  lemma GuardReadInv(c: Config, s: State, n: NodeName)
    requires ValidConfig(c) && Inv(c, s) && Ok(c, s, GuardRead(n))
    ensures Inv(c, Apply(c, s, GuardRead(n)))
  {
    assert NodeInv(c, s, n);
    var t := Apply(c, s, GuardRead(n));
    if s.block.status == Lock && s.block.owner != n {
      StepAsideInv(c, s, t, n);
    } else {
      GuardReadFindsQuiet(c, s, n);
      EnterGuardedInv(c, s, t, n);
    }
  }

  lemma RereadInv(c: Config, s: State, n: NodeName)
    requires ValidConfig(c) && Inv(c, s) && Ok(c, s, Reread(n))
    ensures Inv(c, Apply(c, s, Reread(n)))
  {
    assert NodeInv(c, s, n);
    var t := Apply(c, s, Reread(n));
    if s.block.count != s.nodes[n].ldata.count {
      StepAsideInv(c, s, t, n);
    } else {
      RereadFindsQuiet(c, s, n);
      EnterGuardedInv(c, s, t, n);
    }
  }

  lemma ReserveInv(c: Config, s: State, n: NodeName)
    requires ValidConfig(c) && Inv(c, s) && Ok(c, s, Reserve(n))
    ensures Inv(c, Apply(c, s, Reserve(n)))
  {
    var t := Apply(c, s, Reserve(n));
    assert NodeInv(c, s, n);
    NextCountWraps(s.nodes[n].total);
    forall m | m in t.nodes ensures NodeInv(c, t, m) {
      assert NodeInv(c, s, m) && PairInv(s, n, m);
    }
    forall g, m | g in t.nodes && m in t.nodes ensures PairInv(t, g, m) {
      assert PairInv(s, g, m) && PairInv(s, n, m) && NodeInv(c, s, g);
    }
  }

  /** At the collision check every guard window that could still hit the block has closed. */
  lemma CheckFindsNoGuard(c: Config, s: State, n: NodeName)
    requires ValidConfig(c) && Inv(c, s) && Ok(c, s, Check(n))
    requires s.block.owner == n
    ensures forall g <- s.nodes :: !s.nodes[g].phase.Guarded?
  {
    assert NodeInv(c, s, n);
    forall g | g in s.nodes ensures !s.nodes[g].phase.Guarded? {
      assert NodeInv(c, s, g) && PairInv(s, g, n);
    }
  }

  /** The sole live owner of an unguarded block may move between the critical phases. */
  lemma CriticalInv(c: Config, s: State, t: State, n: NodeName)
    requires ValidConfig(c) && Inv(c, s) && n in s.nodes
    requires forall g <- s.nodes :: !s.nodes[g].phase.Guarded?
    requires OwnLock(s.block, n) && Live(s.nodes[n].phase)
    requires OnlyNodeChanged(s, t, n)
    requires Critical(t.nodes[n].phase)
    requires t.nodes[n].ldata == s.block && t.nodes[n].total == s.total
    requires t.nodes[n].since == s.now && t.nodes[n].reservedAt == s.nodes[n].reservedAt
    requires t.nodes[n].lastWrite == s.nodes[n].lastWrite
    ensures Inv(c, t)
  {
    forall m | m in t.nodes ensures NodeInv(c, t, m) {
      assert NodeInv(c, s, m) && NodeInv(c, s, n);
    }
    forall g, m | g in t.nodes && m in t.nodes ensures PairInv(t, g, m) {
      assert PairInv(s, g, m);
    }
  }

  lemma CriticalSeesNoGuard(c: Config, s: State, n: NodeName)
    requires Inv(c, s) && n in s.nodes && Critical(s.nodes[n].phase)
    ensures forall g <- s.nodes :: !s.nodes[g].phase.Guarded?
  {
    forall g | g in s.nodes ensures !s.nodes[g].phase.Guarded? {
      assert PairInv(s, g, n);
    }
  }

  lemma CheckInv(c: Config, s: State, n: NodeName)
    requires ValidConfig(c) && Inv(c, s) && Ok(c, s, Check(n))
    ensures Inv(c, Apply(c, s, Check(n)))
  {
    assert NodeInv(c, s, n);
    var t := Apply(c, s, Check(n));
    if s.block.owner != n {
      StepAsideInv(c, s, t, n);
    } else {
      CheckFindsNoGuard(c, s, n);
      CriticalInv(c, s, t, n);
    }
  }

  /** The extension and the heartbeat write. */
  lemma HeartbeatInv(c: Config, s: State, n: NodeName)
    requires ValidConfig(c) && Inv(c, s) && n in s.nodes && Critical(s.nodes[n].phase)
    ensures Inv(c, Advance(s, n, Holding))
  {
    var t := Advance(s, n, Holding);
    assert NodeInv(c, s, n);
    CriticalSeesNoGuard(c, s, n);
    NextCountWraps(s.total);
    forall m | m in t.nodes ensures NodeInv(c, t, m) {
      assert NodeInv(c, s, m);
    }
  }

  lemma TermReadInv(c: Config, s: State, n: NodeName)
    requires ValidConfig(c) && Inv(c, s) && Ok(c, s, TermRead(n))
    ensures Inv(c, Apply(c, s, TermRead(n)))
  {
    assert NodeInv(c, s, n);
    var t := Apply(c, s, TermRead(n));
    if OwnLock(s.block, n) {
      forall g | g in s.nodes ensures !s.nodes[g].phase.Guarded? {
        assert NodeInv(c, s, g) && PairInv(s, g, n);
      }
      CriticalInv(c, s, t, n);
    } else {
      StepAsideInv(c, s, t, n);
    }
  }

  lemma ReleaseWriteInv(c: Config, s: State, n: NodeName)
    requires ValidConfig(c) && Inv(c, s) && Ok(c, s, ReleaseWrite(n))
    ensures Inv(c, Apply(c, s, ReleaseWrite(n)))
  {
    var t := Apply(c, s, ReleaseWrite(n));
    assert NodeInv(c, s, n);
    CriticalSeesNoGuard(c, s, n);
    forall m | m in t.nodes ensures NodeInv(c, t, m) {
      assert NodeInv(c, s, m);
    }
  }

  /** Every step of every node keeps the invariant. */
  lemma StepInv(c: Config, s: State, step: Step)
    requires ValidConfig(c) && Inv(c, s) && Ok(c, s, step)
    ensures Inv(c, Apply(c, s, step))
  {
    match step
    case Tick(dt) => TickInv(c, s, dt);
    case GuardRead(n) => GuardReadInv(c, s, n);
    case Reread(n) => RereadInv(c, s, n);
    case Reserve(n) => ReserveInv(c, s, n);
    case Check(n) => CheckInv(c, s, n);
    case Extend(n) => HeartbeatInv(c, s, n);
    case UpdateRead(n) =>
      assert NodeInv(c, s, n);
      CriticalSeesNoGuard(c, s, n);
      CriticalInv(c, s, Apply(c, s, step), n);
    case UpdateWrite(n) => HeartbeatInv(c, s, n);
    case TermRead(n) => TermReadInv(c, s, n);
    case ReleaseWrite(n) => ReleaseWriteInv(c, s, n);
    case Crash(n) =>
      assert NodeInv(c, s, n);
      StepAsideInv(c, s, Apply(c, s, step), n);
  }

  lemma {:induction false} RunInv(c: Config, s: State, steps: seq<Step>)
    requires ValidConfig(c) && Inv(c, s) && Run(c, s, steps)
    ensures Inv(c, After(c, s, steps))
    decreases |steps|
  {
    if steps != [] {
      StepInv(c, s, steps[0]);
      RunInv(c, Apply(c, s, steps[0]), steps[1..]);
    }
  }

  // ----------------------------------------------------------------- safety

  lemma InvExcludes(c: Config, s: State)
    requires Inv(c, s)
    ensures MutualExclusion(s)
  {
    forall m, n | m in s.nodes && n in s.nodes && Critical(s.nodes[m].phase) && Critical(s.nodes[n].phase)
      ensures m == n
    {
      assert NodeInv(c, s, m) && NodeInv(c, s, n);
    }
  }

  /** At most one live node is past the collision check, at every moment of every timely run. */
  lemma Safety(c: Config, s: State, steps: seq<Step>)
    requires ValidConfig(c) && Init(c, s) && Run(c, s, steps)
    ensures MutualExclusion(After(c, s, steps))
  {
    InitInv(c, s);
    RunInv(c, s, steps);
    InvExcludes(c, After(c, s, steps));
  }

  /** A holder never fences itself: the failure branch of the update is unreachable. */
  lemma HolderNeverFenced(c: Config, s: State, steps: seq<Step>, n: NodeName)
    requires ValidConfig(c) && Init(c, s) && Run(c, s, steps)
    requires n in After(c, s, steps).nodes
    ensures !After(c, s, steps).nodes[n].phase.Fenced?
  {
    InitInv(c, s);
    RunInv(c, s, steps);
    assert NodeInv(c, After(c, s, steps), n);
  }
}
