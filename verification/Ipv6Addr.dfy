/** The interface scan and the address life cycle of heartbeat/IPv6addr.c, over a modelled kernel
    address table. */
module Ipv6Addr {
  import opened Bits
  import opened Sequences

  datatype Option<+T> = None | Some(value: T)

  /** Four 32-bit words in host order, most significant first. */
  type Address = a: seq<nat> | |a| == 4 && forall i | 0 <= i < 4 :: a[i] < 0x1_0000_0000
    witness [0, 0, 0, 0]

  // ---------------------------------------------------------- prefix matching

  /** Bit `k` of the address, the most significant one first. */
  predicate AddressBit(a: Address, k: nat)
    requires k < 128
  {
    Bit(a[k / 32], 31 - k % 32)
  }

  /** The first `plen` bits agree (section 2.3 of RFC 4291). */
  ghost predicate SamePrefix(a: Address, b: Address, plen: nat)
    requires plen <= 128
  {
    forall k: nat | k < plen :: AddressBit(a, k) == AddressBit(b, k)
  }

  /** How many low bits of word `i` a prefix of `plen` bits leaves out. */
  function Slack(plen: nat, i: nat): nat
    requires plen <= 128 && i < 4
  {
    if 32 * i + 32 <= plen then 0 else if 32 * i >= plen then 32 else 32 * i + 32 - plen
  }

  ghost predicate WordAgrees(a: Address, b: Address, plen: nat, i: nat)
    requires plen <= 128 && i < 4
  {
    And(a[i], TopMask(32, Slack(plen, i))) == And(b[i], TopMask(32, Slack(plen, i)))
  }

  lemma BitOfWord(a: Address, i: nat, k: nat)
    requires i < 4 && 32 * i <= k < 32 * i + 32
    ensures k < 128 && AddressBit(a, k) == Bit(a[i], 31 - (k - 32 * i))
  {
    assert k / 32 == i && k % 32 == k - 32 * i;
  }

  /** The bits of word `i` that belong to the prefix agree. */
  ghost predicate WordBitsAgree(a: Address, b: Address, plen: nat, i: nat)
    requires plen <= 128 && i < 4
  {
    forall k: nat | 32 * i <= k < 32 * i + 32 && k < plen :: AddressBit(a, k) == AddressBit(b, k)
  }

  /** The bits of `x` and `y` from `s` up agree. */
  ghost predicate HighBitsAgree(x: nat, y: nat, s: nat) {
    forall j: nat | s <= j < 32 :: Bit(x, j) == Bit(y, j)
  }

  lemma PrefixToHigh(a: Address, b: Address, plen: nat, i: nat)
    requires plen <= 128 && i < 4 && WordBitsAgree(a, b, plen, i)
    ensures HighBitsAgree(a[i], b[i], Slack(plen, i))
  {
    forall j: nat | Slack(plen, i) <= j < 32 ensures Bit(a[i], j) == Bit(b[i], j) {
      var k := 32 * i + 31 - j;
      BitOfWord(a, i, k);
      BitOfWord(b, i, k);
    }
  }

  lemma HighToPrefix(a: Address, b: Address, plen: nat, i: nat)
    requires plen <= 128 && i < 4 && HighBitsAgree(a[i], b[i], Slack(plen, i))
    ensures WordBitsAgree(a, b, plen, i)
  {
    forall k: nat | 32 * i <= k < 32 * i + 32 && k < plen ensures AddressBit(a, k) == AddressBit(b, k) {
      BitOfWord(a, i, k);
      BitOfWord(b, i, k);
    }
  }

  lemma WordMeansBits(a: Address, b: Address, plen: nat, i: nat)
    requires plen <= 128 && i < 4
    ensures WordAgrees(a, b, plen, i) <==> WordBitsAgree(a, b, plen, i)
  {
    MaskIsBits(a[i], b[i], Slack(plen, i));
    if WordBitsAgree(a, b, plen, i) {
      PrefixToHigh(a, b, plen, i);
    }
    if HighBitsAgree(a[i], b[i], Slack(plen, i)) {
      HighToPrefix(a, b, plen, i);
    }
  }

  lemma WordsMeanPrefix(a: Address, b: Address, plen: nat)
    requires plen <= 128
    ensures (forall i: nat | i < 4 :: WordAgrees(a, b, plen, i)) <==> SamePrefix(a, b, plen)
  {
    forall i: nat | i < 4 ensures WordAgrees(a, b, plen, i) <==> WordBitsAgree(a, b, plen, i) {
      WordMeansBits(a, b, plen, i);
    }
    if forall i: nat | i < 4 :: WordAgrees(a, b, plen, i) {
      forall k: nat | k < plen ensures AddressBit(a, k) == AddressBit(b, k) {
        assert WordBitsAgree(a, b, plen, k / 32);
      }
    }
  }

  lemma WholeWord(x: nat)
    requires x < 0x1_0000_0000
    ensures And(x, TopMask(32, 0)) == x
  {
    Pow2Word();
    WordFits(x, 32);
    AndAll(x, 32);
  }

  lemma WholeWordAgrees(a: Address, b: Address, i: nat)
    requires i < 4
    ensures WordAgrees(a, b, 128, i) <==> a[i] == b[i]
  {
    WholeWord(a[i]);
    WholeWord(b[i]);
  }

  /** All 128 bits agree only for equal addresses. */
  lemma FullPrefix(a: Address, b: Address)
    ensures SamePrefix(a, b, 128) <==> a == b
  {
    WordsMeanPrefix(a, b, 128);
    forall i: nat | i < 4 ensures WordAgrees(a, b, 128, i) <==> a[i] == b[i] {
      WholeWordAgrees(a, b, i);
    }
    if SamePrefix(a, b, 128) {
      assert WordAgrees(a, b, 128, 0) && WordAgrees(a, b, 128, 1);
      assert WordAgrees(a, b, 128, 2) && WordAgrees(a, b, 128, 3);
    }
  }

  /** The prefix length under which scan_if compares. */
  function MaskLength(plen: nat, useMask: bool): nat {
    if useMask && plen < 128 then plen else 128
  }

  /** Making the mask based on the prefix length. */
  method BuildMask(plen: nat, useMask: bool) returns (mask: array<nat>)
    ensures fresh(mask) && mask.Length == 4
    ensures forall k: nat | k < 4 :: mask[k] == TopMask(32, Slack(MaskLength(plen, useMask), k))
  {
    ShiftedOnes(0);
    TopMaskValue(32, 32);
    mask := new nat[4](_ => 0xFFFF_FFFF);
    if useMask && plen < 128 {
      var n := plen / 32;
      var i := n + 1;
      while i < 4
        invariant n + 1 <= i <= 4
        invariant forall k | 0 <= k < 4 :: mask[k] == if n < k < i then 0 else 0xFFFF_FFFF
      {
        mask[i] := 0;
        i := i + 1;
      }
      var s := 32 - plen % 32;
      ShiftedOnes(s);
      mask[n] := if s == 32 then 0 else Shl32(0xFFFF_FFFF, s);
    }
  }

  /** The mask-and-compare of scan_if succeeds exactly when the first `plen` bits agree; without the
      mask, or with a length of 128 or more, exactly when the addresses are equal. */
  method SameUnderMask(addr: Address, target: Address, plen: nat, useMask: bool) returns (same: bool)
    ensures same <==> SamePrefix(addr, target, MaskLength(plen, useMask))
    ensures useMask && plen < 128 ==> (same <==> SamePrefix(addr, target, plen))
    ensures !useMask || plen >= 128 ==> (same <==> addr == target)
  {
    var mask := BuildMask(plen, useMask);
    ghost var length := MaskLength(plen, useMask);
    WordsMeanPrefix(addr, target, length);
    FullPrefix(addr, target);
    var i := 0;
    while i < 4
      invariant 0 <= i <= 4
      invariant forall k: nat | k < i :: WordAgrees(addr, target, length, k)
    {
      if And(addr[i], mask[i]) != And(target[i], mask[i]) {
        assert !WordAgrees(addr, target, length, i);
        return false;
      }
      assert WordAgrees(addr, target, length, i);
      i := i + 1;
    }
    same := true;
  }

  // ------------------------------------------------------------------ scan_if

  /** A line of /proc/net/if_inet6. */
  datatype Entry = Entry(addr: Address, plen: nat, scope: nat, dev: string)

  datatype Line = Parsed(entry: Entry) | Garbage

  /** What is looked for; plen 0 and nic "" mean not specified. */
  datatype Query = Query(addr: Address, plen: nat, useMask: bool, nic: string)

  predicate ScopeUsable(scope: nat, nic: string) {
    scope == 0 || (scope == 0x20 && nic != "")
  }

  ghost predicate Hit(e: Entry, q: Query) {
    && ScopeUsable(e.scope, q.nic)
    && (q.plen != 0 ==> e.plen == q.plen)
    && (q.nic != "" ==> e.dev == q.nic)
    && SamePrefix(e.addr, q.addr, MaskLength(e.plen, q.useMask))
  }

  /** The first entry that satisfies the query. */
  ghost function Scan(table: seq<Entry>, q: Query): (r: Option<Entry>)
    ensures r.Some? ==> r.value in table && Hit(r.value, q)
    ensures r.None? <==> forall e <- table :: !Hit(e, q)
  {
    if table == [] then None
    else if Hit(table[0], q) then Some(table[0])
    else
      var r := Scan(table[1..], q);
      assert table == [table[0]] + table[1..];
      r
  }

  /** The entries in front of the first line that does not parse. */
  function Readable(lines: seq<Line>): seq<Entry> {
    if lines == [] || lines[0].Garbage? then [] else [lines[0].entry] + Readable(lines[1..])
  }

  /** Nothing behind the first line that does not parse is read, and everything before it is. */
  lemma {:induction false} ReadableStops(before: seq<Entry>, rest: seq<Line>)
    ensures Readable(Lines(before) + ([Garbage] + rest)) == before
    decreases |before|
  {
    var lines := Lines(before) + ([Garbage] + rest);
    if before != [] {
      assert lines[1..] == Lines(before[1..]) + ([Garbage] + rest);
      ReadableStops(before[1..], rest);
    } else {
      assert lines[0] == Garbage;
    }
  }

  /** Of several entries that satisfy the query the first is found. */
  lemma {:induction false} ScanFirst(table: seq<Entry>, q: Query, k: nat)
    requires k < |table| && Hit(table[k], q) && forall j | 0 <= j < k :: !Hit(table[j], q)
    ensures Scan(table, q) == Some(table[k])
    decreases |table|
  {
    if k > 0 {
      assert !Hit(table[0], q);
      ScanFirst(table[1..], q, k - 1);
    }
  }

  /** Which entries satisfy a query for an address itself: link-local ones count exactly if their link is
      given, global ones on any link or the given one, and entries of other scopes never. */
  lemma HitExactly(e: Entry, q: Query)
    requires !q.useMask
    ensures Hit(e, q)
            <==> && e.addr == q.addr && (q.plen == 0 || e.plen == q.plen)
                 && if q.nic == "" then e.scope == 0 else e.dev == q.nic && (e.scope == 0 || e.scope == 0x20)
  {
    FullPrefix(e.addr, q.addr);
  }

  /** And to a query for a place: the address lies under the entry's own prefix, by the same rules. */
  lemma PlaceHitExactly(e: Entry, q: Query)
    requires q.useMask && e.plen <= 128
    ensures Hit(e, q)
            <==> && SamePrefix(e.addr, q.addr, e.plen) && (q.plen == 0 || e.plen == q.plen)
                 && if q.nic == "" then e.scope == 0 else e.dev == q.nic && (e.scope == 0 || e.scope == 0x20)
  {
  }

  lemma ScanNext(lines: seq<Line>, at: nat, q: Query)
    requires at < |lines| && lines[at].Parsed?
    ensures Scan(Readable(lines[at..]), q)
            == if Hit(lines[at].entry, q) then Some(lines[at].entry) else Scan(Readable(lines[at + 1..]), q)
  {
    var rest := Readable(lines[at + 1..]);
    assert lines[at..][1..] == lines[at + 1..];
    assert ([lines[at].entry] + rest)[1..] == rest;
  }

  method ScanIf(lines: seq<Line>, q: Query) returns (r: Option<Entry>)
    ensures r == Scan(Readable(lines), q)
  {
    r := None;
    var at := 0;
    while at < |lines| && lines[at].Parsed?
      invariant 0 <= at <= |lines|
      invariant Scan(Readable(lines), q) == Scan(Readable(lines[at..]), q)
      decreases |lines| - at
    {
      var e := lines[at].entry;
      ScanNext(lines, at, q);
      if ScopeUsable(e.scope, q.nic) && (q.plen == 0 || e.plen == q.plen) && (q.nic == "" || e.dev == q.nic) {
        var same := SameUnderMask(e.addr, q.addr, e.plen, q.useMask);
        if same {
          return Some(e);
        }
      }
      at := at + 1;
    }
  }

  // --------------------------------------------------------------- life cycle

  datatype Exit = Success | ErrGeneric | NotRunning

  ghost function Hits(table: seq<Entry>, q: Query): nat {
    if table == [] then 0 else (if Hit(table[0], q) then 1 else 0) + Hits(table[1..], q)
  }

  lemma {:induction false} HitsScan(table: seq<Entry>, q: Query)
    ensures Hits(table, q) == 0 <==> Scan(table, q).None?
    decreases |table|
  {
    if table != [] {
      HitsScan(table[1..], q);
      assert table == [table[0]] + table[1..];
    }
  }

  lemma {:induction false} HitsWithout(table: seq<Entry>, e: Entry, q: Query)
    requires e in table && Hit(e, q)
    ensures Hits(Without(table, e), q) + 1 == Hits(table, q)
    decreases |table|
  {
    if table[0] != e {
      assert table == [table[0]] + table[1..];
      HitsWithout(table[1..], e, q);
      assert ([table[0]] + Without(table[1..], e))[1..] == Without(table[1..], e);
    }
  }

  function Lines(table: seq<Entry>): seq<Line> {
    seq(|table|, i requires 0 <= i < |table| => Parsed(table[i]))
  }

  lemma {:induction false} ReadableLines(table: seq<Entry>)
    ensures Readable(Lines(table)) == table
    decreases |table|
  {
    if table != [] {
      assert Lines(table)[1..] == Lines(table[1..]);
      ReadableLines(table[1..]);
    }
  }

  /** Where find_if puts an address, and with which prefix length. */
  ghost function Place(table: seq<Entry>, addr: Address, plen: nat, nic: string): Option<(string, nat)> {
    var found := Scan(table, Query(addr, plen, true, nic));
    if found.Some? then Some((found.value.dev, found.value.plen))
    else if nic != "" && plen != 0 then Some((nic, plen))
    else None
  }

  /** The place honours what the caller asked for, and unless both were given it is an interface with
      an address under the same prefix. */
  lemma PlaceOnLink(table: seq<Entry>, addr: Address, plen: nat, nic: string)
    requires Place(table, addr, plen, nic).Some?
    ensures var (dev, length) := Place(table, addr, plen, nic).value;
            && (nic != "" ==> dev == nic) && (plen != 0 ==> length == plen)
            && (nic == "" || plen == 0 ==>
                  exists e <- table ::
                    e.dev == dev && e.plen == length && SamePrefix(e.addr, addr, MaskLength(length, true)))
  {
    var found := Scan(table, Query(addr, plen, true, nic));
    if found.Some? {
      assert found.value in table;
    }
  }

  /** There is no place exactly if no entry has the address under its prefix and the caller did not give both
      link and length. */
  lemma NoPlaceExactly(table: seq<Entry>, addr: Address, plen: nat, nic: string)
    ensures Place(table, addr, plen, nic).None?
            <==> (forall e <- table :: !Hit(e, Query(addr, plen, true, nic))) && (nic == "" || plen == 0)
    ensures (forall e <- table :: !Hit(e, Query(addr, plen, true, nic))) && nic != "" && plen != 0 ==>
              Place(table, addr, plen, nic) == Some((nic, plen))
              && Scan(table, Query(addr, plen, false, nic)).None?
  {
    if forall e <- table :: !Hit(e, Query(addr, plen, true, nic)) {
      forall e | e in table && Hit(e, Query(addr, plen, false, nic)) ensures Hit(e, Query(addr, plen, true, nic)) {
        FullPrefix(e.addr, addr);
      }
    }
  }

  /** The kernel refuses an unknown link and an address that the link already has. */
  predicate Assignable(table: seq<Entry>, links: set<string>, e: Entry) {
    e.dev in links && forall k | 0 <= k < |table| :: !(table[k].addr == e.addr && table[k].dev == e.dev)
  }

  class Kernel {
    var table: seq<Entry>
    const links: set<string>

    constructor (table: seq<Entry>, links: set<string>)
      ensures this.table == table && this.links == links
    {
      this.table, this.links := table, links;
    }

    /** get_if: the entry of exactly this address. */
    method GetIf(addr: Address, plen: nat, nic: string) returns (r: Option<Entry>)
      ensures r == Scan(table, Query(addr, plen, false, nic))
    {
      ReadableLines(table);
      r := ScanIf(Lines(table), Query(addr, plen, false, nic));
    }

    /** find_if: where to put an address, and with which prefix length. */
    method FindIf(addr: Address, plen: nat, nic: string) returns (r: Option<(string, nat)>)
      ensures r == Place(table, addr, plen, nic)
      ensures r.None? <==> (forall e <- table :: !Hit(e, Query(addr, plen, true, nic))) && (nic == "" || plen == 0)
    {
      NoPlaceExactly(table, addr, plen, nic);
      ReadableLines(table);
      var e := ScanIf(Lines(table), Query(addr, plen, true, nic));
      if e.Some? {
        r := Some((e.value.dev, e.value.plen));
      } else if nic != "" && plen != 0 {
        r := Some((nic, plen));
      } else {
        r := None;
      }
    }

    method StatusAddr(addr: Address, plen: nat, nic: string) returns (rc: Exit)
      ensures rc == if Scan(table, Query(addr, plen, false, nic)).None? then NotRunning else Success
    {
      var e := GetIf(addr, plen, nic);
      rc := if e.None? then NotRunning else Success;
    }

    /** assign_addr6: SIOCSIFADDR on the link. */
    method Assign(e: Entry) returns (ok: bool)
      modifies this
      ensures ok <==> Assignable(old(table), links, e)
      ensures table == if ok then old(table) + [e] else old(table)
    {
      ok := Assignable(table, links, e);
      if ok {
        table := table + [e];
      }
    }

    /** start_addr6; `scope` is the scope of the address and `answers` whether it can be pinged.
        A start that runs already changes nothing.  Otherwise the address is assigned where find_if
        says, exactly if the kernel takes it there, and then status succeeds with the same arguments
        exactly if the scan looks at its scope, even though the prefix length may have come from
        another entry. */
    method StartAddr(addr: Address, plen: nat, nic: string, scope: nat, answers: bool) returns (rc: Exit)
      modifies this
      ensures var place := Place(old(table), addr, plen, nic);
              var taken := Scan(old(table), Query(addr, plen, false, nic)).None? && place.Some?
                           && Assignable(old(table), links, Entry(addr, place.value.1, scope, place.value.0));
              && table == old(table) + (if taken then [Entry(addr, place.value.1, scope, place.value.0)] else [])
              && (rc == Success <==> Scan(old(table), Query(addr, plen, false, nic)).Some? || (taken && answers))
              && (taken ==> (Scan(table, Query(addr, plen, false, nic)).Some? <==> ScopeUsable(scope, nic)))
      ensures nic in links && nic != "" && plen != 0
              && (forall e <- old(table) :: !Hit(e, Query(addr, plen, true, nic)))
              && (forall k | 0 <= k < |old(table)| :: !(old(table)[k].addr == addr && old(table)[k].dev == nic)) ==>
                table == old(table) + [Entry(addr, plen, scope, nic)] && (rc == Success <==> answers)
    {
      NoPlaceExactly(table, addr, plen, nic);
      var st := StatusAddr(addr, plen, nic);
      if st == Success {
        return Success;
      }
      ghost var before := table;
      var place := FindIf(addr, plen, nic);
      if place.None? {
        return ErrGeneric;
      }
      var e := Entry(addr, place.value.1, scope, place.value.0);
      var ok := Assign(e);
      if !ok {
        return ErrGeneric;
      }
      StatusOfNew(before, e, Query(addr, plen, false, nic));
      rc := if answers then Success else ErrGeneric;
    }

    /** stop_addr6: a stop of what does not run changes nothing; otherwise the entry that status finds
        goes, and the address is down afterwards exactly if at most one entry matched. */
    method StopAddr(addr: Address, plen: nat, nic: string) returns (rc: Exit)
      modifies this
      ensures rc == Success
      ensures var found := Scan(old(table), Query(addr, plen, false, nic));
              table == if found.Some? then Without(old(table), found.value) else old(table)
      ensures Scan(table, Query(addr, plen, false, nic)).None? <==> Hits(old(table), Query(addr, plen, false, nic)) <= 1
    {
      ghost var q := Query(addr, plen, false, nic);
      HitsScan(table, q);
      rc := Success;
      var e := GetIf(addr, plen, nic);
      if e.Some? {
        HitsWithout(table, e.value, q);
        table := Without(table, e.value);
        HitsScan(table, q);
      }
    }
  }

  lemma StatusOfNew(before: seq<Entry>, e: Entry, q: Query)
    requires Scan(before, q).None? && !q.useMask && e.addr == q.addr
    requires (q.plen != 0 ==> e.plen == q.plen) && (q.nic != "" ==> e.dev == q.nic)
    ensures Scan(before + [e], q).Some? <==> ScopeUsable(e.scope, q.nic)
  {
    FullPrefix(e.addr, q.addr);
    assert e in before + [e];
    assert Hit(e, q) <==> ScopeUsable(e.scope, q.nic);
  }

  /** A stop with the same arguments undoes a start: the entry it finds is the one assigned, and the
      table is as before. */
  lemma StopUndoesStart(before: seq<Entry>, e: Entry, q: Query)
    requires Scan(before, q).None? && Hit(e, q)
    ensures Scan(before + [e], q) == Some(e) && Without(before + [e], e) == before
  {
    OnlyHit(before, e, q);
    WithoutSplit(before, [e], e);
    assert before + Without([e], e) == before;
  }

  lemma {:induction false} OnlyHit(before: seq<Entry>, e: Entry, q: Query)
    requires Scan(before, q).None? && Hit(e, q)
    ensures Scan(before + [e], q) == Some(e) && e !in before
    decreases |before|
  {
    if before != [] {
      assert (before + [e])[1..] == before[1..] + [e];
      OnlyHit(before[1..], e, q);
    }
  }

  /** A stop that leaves the address running: the same global address on two links, and no link given. */
  lemma StopLeavesSecondLink()
    ensures var a: Address := [0x2001_0DB8, 0, 0, 1];
            var table := [Entry(a, 64, 0, "eth0"), Entry(a, 64, 0, "eth1")];
            var q := Query(a, 0, false, "");
            && Hits(table, q) == 2 && Scan(table, q) == Some(table[0])
            && Scan(Without(table, table[0]), q) == Some(table[1])
  {
    var a: Address := [0x2001_0DB8, 0, 0, 1];
    var first, second := Entry(a, 64, 0, "eth0"), Entry(a, 64, 0, "eth1");
    var table, q := [first, second], Query(a, 0, false, "");
    assert Hit(first, q) && Hit(second, q);
    assert table[1..] == [second] && [second][1..] == [];
    assert Hits([second], q) == 1 + Hits([], q) == 1;
    assert Without(table, first) == [second];
  }
}
