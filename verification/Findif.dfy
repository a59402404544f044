/** Route selection of findif (tools/findif.c) over /proc/net/route. */
module Findif {
  import opened Bits

  /** A route line; addresses and masks are in the byte order of the file, which is the
      network order read as a little-endian number. */
  datatype Route = Route(iface: string, dest: nat, metric: int, mask: nat)

  datatype Line = Parsed(route: Route) | BadLine

  const LONG_MAX := 0x7FFF_FFFF_FFFF_FFFF

  predicate Matches(r: Route, addr: nat) {
    And(addr, r.mask) == And(r.dest, r.mask)
  }

  /** `a` is at least as good as `b`: no higher metric and no smaller mask. */
  predicate AsGood(a: Route, b: Route) {
    a.metric <= b.metric && a.mask >= b.mask
  }

  /** Every matching route that is as good as number `k` is an equal one, and not a later one. */
  predicate Best(routes: seq<Route>, addr: nat, k: nat)
    requires k < |routes|
  {
    && Matches(routes[k], addr)
    && forall j | 0 <= j < |routes| && Matches(routes[j], addr) && AsGood(routes[j], routes[k]) ::
         j <= k && AsGood(routes[k], routes[j])
  }

  /** Route `j` comes after a matching route with metric LONG_MAX and a larger mask. */
  predicate Shadowed(routes: seq<Route>, addr: nat, j: nat)
    requires j < |routes|
  {
    exists i | 0 <= i < j ::
      Matches(routes[i], addr) && routes[i].metric == LONG_MAX && routes[i].mask > routes[j].mask
  }

  /** The failing tables: every matching route with a finite metric is shadowed. */
  predicate NoRoute(routes: seq<Route>, addr: nat) {
    forall j | 0 <= j < |routes| && Matches(routes[j], addr) && routes[j].metric < LONG_MAX :: Shadowed(routes, addr, j)
  }

  /** The interface and mask of a best route with a finite metric. */
  predicate Chosen(routes: seq<Route>, addr: nat, iface: string, mask: nat) {
    exists k | 0 <= k < |routes| ::
      Best(routes, addr, k) && routes[k].metric < LONG_MAX && routes[k].iface == iface && routes[k].mask == mask
  }

  datatype Selection = Found(iface: string, mask: nat) | Failed

  function RoutesOf(lines: seq<Line>): seq<Route>
    requires BadLine !in lines
  {
    seq(|lines|, i requires 0 <= i < |lines| => assert lines[i] in lines; lines[i].route)
  }

  /** What the loop has picked among the first `n` routes. */
  predicate Picked(routes: seq<Route>, addr: nat, n: nat, metric: int, mask: nat, iface: string)
    requires n <= |routes|
  {
    if metric == LONG_MAX then
      && (forall j | 0 <= j < n && Matches(routes[j], addr) && routes[j].metric < LONG_MAX :: Shadowed(routes, addr, j))
      && (forall j | 0 <= j < n && Matches(routes[j], addr) && routes[j].metric == LONG_MAX :: routes[j].mask <= mask)
      && (mask == 0 || exists i | 0 <= i < n ::
            Matches(routes[i], addr) && routes[i].metric == LONG_MAX && routes[i].mask == mask)
    else
      metric < LONG_MAX && exists k | 0 <= k < n ::
        Best(routes[..n], addr, k) && routes[k].metric == metric && routes[k].mask == mask && routes[k].iface == iface
  }

  /** Some matching route with a finite metric among the first `n` is not shadowed. */
  predicate SomeRoute(routes: seq<Route>, addr: nat, n: nat)
    requires n <= |routes|
  {
    exists u | 0 <= u < n :: Matches(routes[u], addr) && routes[u].metric < LONG_MAX && !Shadowed(routes, addr, u)
  }

  /** One comparison of the loop keeps the pick right. */
  lemma PickNext(routes: seq<Route>, addr: nat, n: nat, metric: int, mask: nat, iface: string)
    requires n < |routes| && routes[n].metric <= LONG_MAX && Picked(routes, addr, n, metric, mask, iface)
    requires metric < LONG_MAX ==> SomeRoute(routes, addr, n)
    ensures var r := routes[n];
            if Matches(r, addr) && r.metric <= metric && r.mask >= mask
            then Picked(routes, addr, n + 1, r.metric, r.mask, r.iface)
                 && (r.metric < LONG_MAX ==> SomeRoute(routes, addr, n + 1))
            else Picked(routes, addr, n + 1, metric, mask, iface)
                 && (metric < LONG_MAX ==> SomeRoute(routes, addr, n + 1))
  {
    var r := routes[n];
    var take := Matches(r, addr) && r.metric <= metric && r.mask >= mask;
    if metric == LONG_MAX {
      if take && r.metric < LONG_MAX {
        TakeFirst(routes, addr, n, mask);
      } else if !take && Matches(r, addr) && r.metric < LONG_MAX {
        assert Shadowed(routes, addr, n);
      }
    } else {
      var k :| 0 <= k < n && Best(routes[..n], addr, k) && routes[k].metric == metric && routes[k].mask == mask
               && routes[k].iface == iface;
      if take {
        TakeBetter(routes, addr, n, k);
      } else {
        KeepBest(routes, addr, n, k);
      }
    }
  }

  lemma TakeFirst(routes: seq<Route>, addr: nat, n: nat, mask: nat)
    requires n < |routes| && Matches(routes[n], addr) && routes[n].metric < LONG_MAX && routes[n].mask >= mask
    requires forall j | 0 <= j < n && Matches(routes[j], addr) && routes[j].metric < LONG_MAX ::
               Shadowed(routes, addr, j)
    requires forall j | 0 <= j < n && Matches(routes[j], addr) && routes[j].metric == LONG_MAX :: routes[j].mask <= mask
    ensures Best(routes[..n + 1], addr, n) && !Shadowed(routes, addr, n)
  {
    forall j | 0 <= j < n && Matches(routes[j], addr)
      ensures !AsGood(routes[j], routes[n])
    {
      if routes[j].metric < LONG_MAX {
        var i :| 0 <= i < j && Matches(routes[i], addr) && routes[i].metric == LONG_MAX
                 && routes[i].mask > routes[j].mask;
      }
    }
  }

  lemma TakeBetter(routes: seq<Route>, addr: nat, n: nat, k: nat)
    requires k < n < |routes| && Best(routes[..n], addr, k) && Matches(routes[n], addr) && AsGood(routes[n], routes[k])
    ensures Best(routes[..n + 1], addr, n)
  {
    forall j | 0 <= j < n && Matches(routes[j], addr) && AsGood(routes[j], routes[n])
      ensures AsGood(routes[n], routes[j])
    {
      assert AsGood(routes[..n][j], routes[..n][k]);
    }
  }

  lemma KeepBest(routes: seq<Route>, addr: nat, n: nat, k: nat)
    requires k < n < |routes| && Best(routes[..n], addr, k)
    requires !(Matches(routes[n], addr) && AsGood(routes[n], routes[k]))
    ensures Best(routes[..n + 1], addr, k)
  {
    forall j | 0 <= j < n && Matches(routes[j], addr) && AsGood(routes[j], routes[k])
      ensures j <= k && AsGood(routes[k], routes[j])
    {
      assert AsGood(routes[..n][j], routes[..n][k]);
    }
  }

  /** SearchUsingProcRoute: the interface and mask of a matching route that no other matching route
      beats in metric and mask, the last such one; a failure exactly for an unparsable table or
      one whose finite matching routes are all shadowed. */
  method Select(lines: seq<Line>, addr: nat) returns (r: Selection)
    requires forall i | 0 <= i < |lines| :: lines[i].Parsed? ==> lines[i].route.metric <= LONG_MAX
    ensures BadLine in lines ==> r.Failed?
    ensures BadLine !in lines ==>
              var routes := RoutesOf(lines);
              (r.Failed? <==> NoRoute(routes, addr))
              && (r.Found? ==> Chosen(routes, addr, r.iface, r.mask))
  {
    r := Failed;
    if BadLine !in lines {
      r := SelectParsed(RoutesOf(lines), addr);
    }
  }

  method SelectParsed(routes: seq<Route>, addr: nat) returns (r: Selection)
    requires forall i | 0 <= i < |routes| :: routes[i].metric <= LONG_MAX
    ensures r.Failed? <==> NoRoute(routes, addr)
    ensures r.Found? ==> Chosen(routes, addr, r.iface, r.mask)
  {
    var bestMetric, bestMask, bestIf := LONG_MAX, 0, "";
    var n := 0;
    while n < |routes|
      invariant 0 <= n <= |routes|
      invariant Picked(routes, addr, n, bestMetric, bestMask, bestIf)
      invariant bestMetric < LONG_MAX ==> SomeRoute(routes, addr, n)
    {
      PickNext(routes, addr, n, bestMetric, bestMask, bestIf);
      if Matches(routes[n], addr) && routes[n].metric <= bestMetric && routes[n].mask >= bestMask {
        bestMetric, bestMask, bestIf := routes[n].metric, routes[n].mask, routes[n].iface;
      }
      n := n + 1;
    }
    PickedMeans(routes, addr, bestMetric, bestMask, bestIf);
    r := if bestMetric == LONG_MAX then Failed else Found(bestIf, bestMask);
  }

  /** What is picked among all routes is the answer. */
  lemma PickedMeans(routes: seq<Route>, addr: nat, metric: int, mask: nat, iface: string)
    requires Picked(routes, addr, |routes|, metric, mask, iface)
    requires metric < LONG_MAX ==> SomeRoute(routes, addr, |routes|)
    ensures metric == LONG_MAX <==> NoRoute(routes, addr)
    ensures metric < LONG_MAX ==> Chosen(routes, addr, iface, mask)
  {
    assert routes[..|routes|] == routes;
  }

  // --------------------------------------------------------- longest prefix

  /** Where the file's number has bit `i` of the address: bit 7 - i % 8 of byte i / 8, and byte 0 is
      the least significant. */
  function FileBit(i: nat): nat {
    if i < 8 then 7 - i else 8 + FileBit(i - 8)
  }

  /** Bit `i` of an address in the file's byte order, the most significant one first. */
  predicate AddressBit(x: nat, i: nat) {
    Bit(x, FileBit(i))
  }

  /** The mask of a prefix of `p` bits in the file's byte order. */
  function FileMask(p: nat): nat {
    if p == 0 then 0 else FileMask(p - 1) + Pow2(FileBit(p - 1))
  }

  /** The byte order is its own inverse, so every bit position is that of one address bit. */
  lemma {:induction false} FileBitInverse(j: nat)
    ensures FileBit(FileBit(j)) == j
  {
    if j >= 8 {
      FileBitInverse(j - 8);
    }
  }

  lemma FileBitInjective(i: nat, j: nat)
    ensures FileBit(i) == FileBit(j) ==> i == j
  {
    FileBitInverse(i);
    FileBitInverse(j);
  }

  lemma {:induction false} FileMaskBits(p: nat, i: nat)
    ensures AddressBit(FileMask(p), i) <==> i < p
    decreases p
  {
    if p == 0 {
      ZeroHasNoBits(FileBit(i));
    } else {
      FileMaskBits(p - 1, i);
      FileMaskBits(p - 1, p - 1);
      FileBitInjective(i, p - 1);
      SetBit(FileMask(p - 1), FileBit(p - 1), FileBit(i));
    }
  }

  /** A contiguous mask matches exactly the addresses that share the first `p` bits with the route. */
  lemma MatchIsPrefix(r: Route, addr: nat, p: nat)
    requires r.mask == FileMask(p)
    ensures Matches(r, addr) <==> forall i: nat | i < p :: AddressBit(addr, i) == AddressBit(r.dest, i)
  {
    AgreeUnderMask(addr, r.dest, r.mask);
    forall i: nat ensures AddressBit(r.mask, i) <==> i < p {
      FileMaskBits(p, i);
    }
    if Matches(r, addr) {
      forall i: nat | i < p ensures AddressBit(addr, i) == AddressBit(r.dest, i) {
        assert AddressBit(r.mask, i) && Bit(r.mask, FileBit(i));
      }
    }
    if forall i: nat | i < p :: AddressBit(addr, i) == AddressBit(r.dest, i) {
      forall j: nat | Bit(r.mask, j) ensures Bit(addr, j) == Bit(r.dest, j) {
        FileBitInverse(j);
        assert AddressBit(r.mask, FileBit(j)) && AddressBit(addr, FileBit(j)) == AddressBit(r.dest, FileBit(j));
      }
    }
  }

  /** Comparing the byte-swapped masks compares the prefix lengths. */
  lemma {:induction false} FileMaskOrders(p: nat, q: nat)
    requires p < q
    ensures FileMask(p) < FileMask(q)
    decreases q
  {
    if p < q - 1 {
      FileMaskOrders(p, q - 1);
    }
  }

  /** With equal metrics and contiguous masks the chosen route is the longest-prefix match of
      section 5.1 of RFC 4632. */
  lemma LongestPrefixWins(routes: seq<Route>, addr: nat, plens: seq<nat>, k: nat, j: nat)
    requires |plens| == |routes| && k < |routes| && j < |routes|
    requires forall i | 0 <= i < |routes| ::
               routes[i].mask == FileMask(plens[i]) && routes[i].metric == routes[k].metric
    requires Best(routes, addr, k) && Matches(routes[j], addr)
    ensures plens[j] <= plens[k]
  {
    if plens[j] > plens[k] {
      FileMaskOrders(plens[k], plens[j]);
      assert AsGood(routes[j], routes[k]);
    }
  }

  /** What the chosen route is: no matching route has a lower metric and as large a mask, or a larger mask
      and as low a metric, and of equal ones it is the last. */
  lemma BestUnbeaten(routes: seq<Route>, addr: nat, k: nat, j: nat)
    requires k < |routes| && j < |routes| && Best(routes, addr, k) && Matches(routes[j], addr)
    ensures !(routes[j].metric < routes[k].metric && routes[j].mask >= routes[k].mask)
    ensures !(routes[j].metric <= routes[k].metric && routes[j].mask > routes[k].mask)
    ensures routes[j].metric == routes[k].metric && routes[j].mask == routes[k].mask ==> j <= k
  {
    assert AsGood(routes[j], routes[k]) ==> AsGood(routes[k], routes[j]);
  }

  /** A table on which the search fails although a matching route with a finite metric exists. */
  lemma ShadowedRouteLost()
    ensures var routes := [Route("eth0", 0, LONG_MAX, 255), Route("eth1", 0, 0, 0)];
            Matches(routes[1], 0) && routes[1].metric < LONG_MAX && NoRoute(routes, 0)
  {
    var routes := [Route("eth0", 0, LONG_MAX, 255), Route("eth1", 0, 0, 0)];
    assert Matches(routes[0], 0);
    assert Shadowed(routes, 0, 1);
  }
}
