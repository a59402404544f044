/** Stopping a Filesystem resource (heartbeat/Filesystem): everything mounted below the mount point
    is unmounted first, in reverse byte order of the paths. */
module Unmount {
  import opened Sequences

  type Path = string

  /** `q` lies below `p`: the pattern of list_submounts. */
  predicate Under(q: Path, p: Path) {
    |q| > |p| && q[..|p|] == p && q[|p|] == '/'
  }

  /** Byte order of sort in the C locale. */
  predicate Less(a: Path, b: Path) {
    if b == "" then false
    else if a == "" then true
    else if a[0] == b[0] then Less(a[1..], b[1..])
    else a[0] < b[0]
  }

  /** Below a path means a slash and something, or nothing, behind it. */
  lemma UnderMeans(q: Path, p: Path)
    ensures Under(q, p) <==> exists rest: Path :: q == p + "/" + rest
  {
    if Under(q, p) {
      assert q == p + "/" + q[|p| + 1..];
    }
  }

  /** The paths agree on the first `k` bytes, and then `a` ends or has the smaller one. */
  predicate SmallerAt(a: Path, b: Path, k: nat) {
    k <= |a| && k < |b| && a[..k] == b[..k] && (k == |a| || a[k] < b[k])
  }

  lemma {:induction false} LessMeans(a: Path, b: Path)
    ensures Less(a, b) <==> exists k: nat :: SmallerAt(a, b, k)
    decreases |a|
  {
    if a == "" || b == "" || a[0] != b[0] {
      assert Less(a, b) ==> SmallerAt(a, b, 0);
    } else {
      LessMeans(a[1..], b[1..]);
      if k: nat :| SmallerAt(a[1..], b[1..], k) {
        assert a[..k + 1] == [a[0]] + a[1..][..k] && b[..k + 1] == [b[0]] + b[1..][..k];
        assert SmallerAt(a, b, k + 1);
      }
      if k: nat :| SmallerAt(a, b, k) {
        assert a[1..][..k - 1] == a[..k][1..] && b[1..][..k - 1] == b[..k][1..];
        assert SmallerAt(a[1..], b[1..], k - 1);
      }
    }
  }

  lemma {:induction false} PrefixIsLess(a: Path, b: Path)
    requires |a| < |b| && b[..|a|] == a
    ensures Less(a, b)
    decreases |a|
  {
    if a != "" {
      assert a[0] == b[0] && b[1..][..|a[1..]|] == a[1..];
      PrefixIsLess(a[1..], b[1..]);
    }
  }

  lemma {:induction false} LessTotal(a: Path, b: Path)
    ensures Less(a, b) || Less(b, a) || a == b
    ensures !(Less(a, b) && Less(b, a))
    decreases |a|
  {
    if a != "" && b != "" && a[0] == b[0] {
      LessTotal(a[1..], b[1..]);
      assert a == [a[0]] + a[1..] && b == [b[0]] + b[1..];
    }
  }

  lemma {:induction false} LessTrans(a: Path, b: Path, c: Path)
    requires !Less(b, a) && !Less(c, b)
    ensures !Less(c, a)
    decreases |a|
  {
    LessTotal(a, b);
    LessTotal(b, c);
    if a != "" && b != "" && c != "" && a[0] == b[0] == c[0] {
      LessTrans(a[1..], b[1..], c[1..]);
    }
  }

  lemma UnderTrans(r: Path, q: Path, p: Path)
    requires Under(r, q) && Under(q, p)
    ensures Under(r, p)
  {
    assert r[..|p|] == r[..|q|][..|p|];
    assert r[|p|] == r[..|q|][|p|];
  }

  // ----------------------------------------------------------- the work list

  /** sort -r: no path is followed by a greater one. */
  predicate Descending(s: seq<Path>) {
    forall i, j | 0 <= i < j < |s| :: !Less(s[i], s[j])
  }

  function Insert(p: Path, s: seq<Path>): seq<Path> {
    if s == [] then [p] else if Less(p, s[0]) then [s[0]] + Insert(p, s[1..]) else [p] + s
  }

  function SortReverse(s: seq<Path>): seq<Path> {
    if s == [] then [] else Insert(s[0], SortReverse(s[1..]))
  }

  lemma {:induction false} InsertMembers(p: Path, s: seq<Path>)
    ensures multiset(Insert(p, s)) == multiset(s) + multiset{p}
    decreases |s|
  {
    if s != [] {
      assert s == [s[0]] + s[1..];
      InsertMembers(p, s[1..]);
    }
  }

  lemma {:induction false} InsertDescending(p: Path, s: seq<Path>)
    requires Descending(s)
    ensures Descending(Insert(p, s))
    decreases |s|
  {
    if s == [] {
    } else if Less(p, s[0]) {
      InsertDescending(p, s[1..]);
      InsertMembers(p, s[1..]);
      var t := Insert(p, s[1..]);
      LessTotal(p, s[0]);
      forall j | 0 <= j < |t| ensures !Less(s[0], t[j]) {
        assert t[j] in multiset(t);
        assert t[j] == p || t[j] in s[1..];
      }
      DescendingCons(s[0], t);
    } else {
      forall j | 0 <= j < |s| ensures !Less(p, s[j]) {
        if j > 0 {
          LessTrans(s[j], s[0], p);
        }
      }
      DescendingCons(p, s);
    }
  }

  lemma DescendingCons(p: Path, s: seq<Path>)
    requires Descending(s) && forall j | 0 <= j < |s| :: !Less(p, s[j])
    ensures Descending([p] + s)
  {
  }

  lemma {:induction false} SortCorrect(s: seq<Path>)
    ensures Descending(SortReverse(s)) && multiset(SortReverse(s)) == multiset(s)
    decreases |s|
  {
    if s != [] {
      SortCorrect(s[1..]);
      InsertDescending(s[0], SortReverse(s[1..]));
      InsertMembers(s[0], SortReverse(s[1..]));
      assert s == [s[0]] + s[1..];
    }
  }

  function Filter(mounts: seq<Path>, hits: set<Path>): seq<Path> {
    if mounts == [] then [] else (if mounts[0] in hits then [mounts[0]] else []) + Filter(mounts[1..], hits)
  }

  lemma {:induction false} FilterMembers(mounts: seq<Path>, hits: set<Path>)
    ensures forall q :: q in Filter(mounts, hits) <==> q in mounts && q in hits
    decreases |mounts|
  {
    if mounts != [] {
      FilterMembers(mounts[1..], hits);
      assert mounts == [mounts[0]] + mounts[1..];
    }
  }

  /** list_submounts over the mount table; grep selects the paths in `hits`. */
  function ListSubmounts(mounts: seq<Path>, hits: set<Path>): seq<Path> {
    SortReverse(Filter(mounts, hits))
  }

  /** What grep selects for a mount point without special characters. */
  function Below(mounts: seq<Path>, mp: Path): set<Path> {
    set q | q in mounts && Under(q, mp)
  }

  /** A path comes only after everything that lies below it. */
  predicate ChildrenFirst(s: seq<Path>) {
    forall i, j | 0 <= i < |s| && 0 <= j < |s| && Under(s[j], s[i]) :: j < i
  }

  lemma DescendingChildrenFirst(s: seq<Path>)
    requires Descending(s)
    ensures ChildrenFirst(s)
  {
    forall i, j | 0 <= i < |s| && 0 <= j < |s| && Under(s[j], s[i]) ensures j < i {
      PrefixIsLess(s[i], s[j]);
    }
  }

  /** The list holds exactly the selected mounts, and each of them only after everything selected below
      it; for a plain mount point these are exactly the mounts below it. */
  lemma SubmountsChildrenFirst(mounts: seq<Path>, hits: set<Path>, mp: Path)
    ensures forall q :: q in ListSubmounts(mounts, hits) <==> q in mounts && q in hits
    ensures ChildrenFirst(ListSubmounts(mounts, hits))
    ensures hits == Below(mounts, mp) ==>
              forall q :: q in ListSubmounts(mounts, hits) <==> q in mounts && Under(q, mp)
  {
    var f := Filter(mounts, hits);
    SortCorrect(f);
    FilterMembers(mounts, hits);
    DescendingChildrenFirst(SortReverse(f));
    forall q ensures q in SortReverse(f) <==> q in f {
      assert q in SortReverse(f) <==> q in multiset(SortReverse(f));
    }
  }

  // ---------------------------------------------------------------- unmounting

  predicate Leaf(mounts: seq<Path>, p: Path) {
    forall q <- mounts :: !Under(q, p)
  }

  function Copies(mounts: seq<Path>, p: Path): nat {
    if mounts == [] then 0 else (if mounts[0] == p then 1 else 0) + Copies(mounts[1..], p)
  }

  lemma {:induction false} CopiesMember(mounts: seq<Path>, p: Path)
    ensures p in mounts <==> Copies(mounts, p) > 0
    ensures Copies(mounts, p) <= |mounts|
    decreases |mounts|
  {
    if mounts != [] {
      CopiesMember(mounts[1..], p);
      assert mounts == [mounts[0]] + mounts[1..];
    }
  }

  lemma {:induction false} RemoveCopies(mounts: seq<Path>, p: Path, q: Path)
    requires p in mounts
    ensures Copies(Without(mounts, p), q) == Copies(mounts, q) - if q == p then 1 else 0
    decreases |mounts|
  {
    if mounts[0] != p {
      assert mounts == [mounts[0]] + mounts[1..];
      RemoveCopies(mounts[1..], p, q);
      assert ([mounts[0]] + Without(mounts[1..], p))[1..] == Without(mounts[1..], p);
    }
  }

  /** The mounts `a` are those of `b`, but for some copies of `p` that are gone. */
  ghost predicate Shrunk(a: seq<Path>, b: seq<Path>, p: Path) {
    |a| <= |b| && (forall q | q != p :: q in a <==> q in b) && (p in a ==> p in b)
  }

  /** From `a` to `b` only `mp`, mounts in `hits` and mounts in `binds` may be gone. */
  ghost predicate OnlyTargetsGone(a: seq<Path>, b: seq<Path>, mp: Path, hits: set<Path>, binds: seq<Path>) {
    && (forall q <- b :: q in a)
    && (forall q <- a :: q == mp || q in hits || q in binds || q in b)
  }

  /** grep selects everything below `mp`. */
  ghost predicate AllBelowHit(mounts: seq<Path>, mp: Path, hits: set<Path>) {
    forall q <- mounts :: Under(q, mp) ==> q in hits
  }

  /** grep finds none of the paths in `seen` in the mount table. */
  predicate Unseen(mounts: seq<Path>, seen: set<Path>) {
    forall q | q in mounts :: q !in seen
  }

  /** grep tells for every mount table whether `p` is mounted exactly if it takes `p` and no other path
      for it, as it does without special characters; "/a[1]" it takes for "/a1" alone. */
  lemma GrepExactly(p: Path, seen: set<Path>)
    ensures (forall mounts: seq<Path> :: Unseen(mounts, seen) <==> p !in mounts) <==> seen == {p}
  {
    if forall mounts: seq<Path> :: Unseen(mounts, seen) <==> p !in mounts {
      forall q ensures q in seen <==> q == p {
        assert Unseen([q], seen) <==> p !in [q];
      }
    }
  }

  /** For every path that is mounted grep sees at least this path; it may take other paths for it. */
  ghost predicate SeesAll(sees: Path -> set<Path>, mounts: seq<Path>) {
    forall q <- mounts :: q in sees(q)
  }

  /** The attempts that do not meet a mount in use. */
  function IdleCount(busy: seq<bool>): nat {
    if busy == [] then 0 else IdleCount(busy[..|busy| - 1]) + if busy[|busy| - 1] then 0 else 1
  }

  lemma IdleNext(busy: seq<bool>, k: nat)
    requires k < |busy|
    ensures IdleCount(busy[..k + 1]) == IdleCount(busy[..k]) + if busy[k] then 0 else 1
  {
    assert busy[..k + 1][..k] == busy[..k];
  }

  lemma {:induction false} IdleMore(busy: seq<bool>, k: nat)
    requires k <= |busy|
    ensures IdleCount(busy[..k]) <= IdleCount(busy)
    decreases |busy| - k
  {
    if k == |busy| {
      assert busy[..k] == busy;
    } else {
      IdleNext(busy, k);
      IdleMore(busy, k + 1);
    }
  }

  /** How many mounts are left on `p` after so many idle attempts. */
  function Left(start: seq<Path>, p: Path, attempts: nat): nat {
    if !Leaf(start, p) then Copies(start, p)
    else if attempts >= Copies(start, p) then 0 else Copies(start, p) - attempts
  }

  class Mounts {
    var table: seq<Path>

    constructor (table: seq<Path>)
      ensures this.table == table
    {
      this.table := table;
    }

    /** The kernel refuses while the mount is in use or has mounts below it; otherwise the topmost
        mount on the path goes.  The result is what grep then says: no mount in `seen` is left. */
    method TryUmount(p: Path, seen: set<Path>, busy: bool) returns (gone: bool)
      modifies this
      ensures gone <==> Unseen(table, seen)
      ensures Shrunk(table, old(table), p)
      ensures p in old(table) && p !in table ==> Leaf(old(table), p)
      ensures Copies(table, p)
              == Copies(old(table), p) - if p in old(table) && !busy && Leaf(old(table), p) then 1 else 0
    {
      if p in table && !busy && Leaf(table, p) {
        forall q ensures Copies(Without(table, p), q) == Copies(table, q) - if q == p then 1 else 0 {
          RemoveCopies(table, p, q);
        }
        forall q ensures Copies(table, q) > 0 <==> q in table {
          CopiesMember(table, q);
        }
        forall q ensures Copies(Without(table, p), q) > 0 <==> q in Without(table, p) {
          CopiesMember(Without(table, p), q);
        }
        WithoutLength(table, p);
        table := Without(table, p);
      }
      gone := Unseen(table, seen);
    }

    /** fs_stop: one attempt after the other until grep sees no mount, `busy[k]` saying whether the
        mount is in use at the k-th.  If grep sees the path itself, it is unmounted exactly if
        nothing was mounted below it and there was an idle attempt for every mount of the stack. */
    method FsStop(p: Path, seen: set<Path>, busy: seq<bool>) returns (ok: bool)
      requires |busy| > 0
      modifies this
      ensures ok <==> Unseen(table, seen)
      ensures Shrunk(table, old(table), p)
      ensures p in old(table) && p !in table ==> Leaf(old(table), p)
      ensures p in old(table) && p in seen ==>
                (p !in table <==> Leaf(old(table), p) && IdleCount(busy) >= Copies(old(table), p))
    {
      ghost var start := table;
      ok := TryUmount(p, seen, busy[0]);
      CopiesMember(start, p);
      CopiesMember(table, p);
      var k := 1;
      while k < |busy| && !ok
        invariant 1 <= k <= |busy|
        invariant ok <==> Unseen(table, seen)
        invariant Shrunk(table, start, p)
        invariant p in start && p !in table ==> Leaf(start, p)
        invariant Copies(table, p) == Left(start, p, IdleCount(busy[..k]))
        decreases |busy| - k
      {
        LeafSame(table, start, p);
        CopiesMember(table, p);
        IdleNext(busy, k);
        ok := TryUmount(p, seen, busy[k]);
        CopiesMember(table, p);
        k := k + 1;
      }
      CopiesMember(table, p);
      IdleMore(busy, k);
      assert busy[..|busy|] == busy;
    }

    /** Filesystem_stop; `sees(q)` are the paths that grep takes for `q`, `hits` those it takes for
        submounts.  Success means exactly that grep sees no mount on the mount point.  The mount
        point goes only with everything below it, so all of that is in `hits` or a bind mount.  If
        grep sees every path that is there and there are idle attempts enough, the order makes every
        target go below which grep selects everything: the mount point, submounts and bind mounts.
        No mount goes that is not a target. */
    method StopAll(mp: Path, sees: Path -> set<Path>, hits: set<Path>, binds: seq<Path>, busy: seq<seq<bool>>)
      returns (rc: bool)
      requires |busy| == |ListSubmounts(table, hits)| + |binds| + 1
      requires forall k | 0 <= k < |busy| :: |busy[k]| > 0
      modifies this
      ensures rc <==> Unseen(table, sees(mp))
      ensures sees(mp) == {mp} ==> (rc <==> mp !in table)
      ensures Unseen(old(table), sees(mp)) ==> table == old(table)
      ensures mp in old(table) && mp !in table ==> Leaf(table, mp)
      ensures mp in old(table) && mp !in table ==> forall q <- old(table) :: Under(q, mp) ==> q in hits || q in binds
      ensures EnoughIdle(busy, |old(table)|) && SeesAll(sees, old(table)) && !Unseen(old(table), sees(mp)) ==>
                TargetsGone(old(table), table, mp, hits, binds)
      ensures EnoughIdle(busy, |old(table)|) && SeesAll(sees, old(table)) && AllBelowHit(old(table), mp, hits) ==>
                mp !in table
      ensures OnlyTargetsGone(old(table), table, mp, hits, binds)
    {
      if Unseen(table, sees(mp)) {
        rc := true;
      } else {
        rc := UnmountTargets(mp, sees, hits, binds, busy);
      }
    }

    /** The unmount loop over the submounts, the bind mounts and the mount point. */
    method UnmountTargets(mp: Path, sees: Path -> set<Path>, hits: set<Path>, binds: seq<Path>, busy: seq<seq<bool>>)
      returns (rc: bool)
      requires |busy| == |ListSubmounts(table, hits)| + |binds| + 1
      requires forall k | 0 <= k < |busy| :: |busy[k]| > 0
      modifies this
      ensures rc <==> Unseen(table, sees(mp))
      ensures mp in old(table) && mp !in table ==> Leaf(table, mp)
      ensures EnoughIdle(busy, |old(table)|) && SeesAll(sees, old(table)) ==>
                TargetsGone(old(table), table, mp, hits, binds)
      ensures OnlyTargetsGone(old(table), table, mp, hits, binds)
    {
      ghost var start := table;
      var subs := ListSubmounts(table, hits);
      var targets := subs + binds + [mp];
      ghost var easy := EnoughIdle(busy, |start|) && SeesAll(sees, start);
      rc := false;
      SubmountsChildrenFirst(table, hits, mp);
      var k := 0;
      while k < |targets|
        invariant 0 <= k <= |targets|
        invariant |table| <= |start| && OnlyTargetsGone(start, table, mp, hits, binds)
        invariant mp in start && mp !in table ==> Leaf(table, mp)
        invariant k == |targets| ==> (rc <==> Unseen(table, sees(mp)))
        invariant easy ==> GoneSoFar(start, targets, table, hits, k)
      {
        ghost var before, p := table, targets[k];
        if k < |subs| {
          assert subs[k] in subs;
        }
        assert p == mp || p in hits || p in binds;
        if easy && AllBelowHit(start, p, hits) {
          NothingBelow(start, before, hits, targets, k);
          assert p in start ==> p in sees(p);
        }
        CopiesMember(before, p);
        rc := FsStop(targets[k], sees(targets[k]), busy[k]);
        LeafSame(table, before, p);
        k := k + 1;
      }
      if easy {
        AllGone(start, table, mp, hits, binds, targets);
      }
    }
  }

  /** Every target below which grep selects everything is gone. */
  ghost predicate TargetsGone(start: seq<Path>, table: seq<Path>, mp: Path, hits: set<Path>, binds: seq<Path>) {
    forall q <- start :: (q == mp || q in hits || q in binds) && AllBelowHit(start, q, hits) ==> q !in table
  }

  /** So are those among the first `k` targets. */
  ghost predicate GoneSoFar(start: seq<Path>, targets: seq<Path>, table: seq<Path>, hits: set<Path>, k: nat) {
    forall j | 0 <= j < k && j < |targets| :: AllBelowHit(start, targets[j], hits) ==> targets[j] !in table
  }

  /** Nothing is left below the next target if grep selects everything below it. */
  lemma NothingBelow(start: seq<Path>, table: seq<Path>, hits: set<Path>, targets: seq<Path>, k: nat)
    requires k < |targets| && ListSubmounts(start, hits) <= targets && GoneSoFar(start, targets, table, hits, k)
    requires AllBelowHit(start, targets[k], hits) && forall q <- table :: q in start
    ensures Leaf(table, targets[k])
  {
    var subs, p := ListSubmounts(start, hits), targets[k];
    SubmountsChildrenFirst(start, hits, p);
    forall q | q in start && Under(q, p) ensures q !in table {
      assert q in subs;
      var j :| 0 <= j < |subs| && subs[j] == q;
      assert targets[j] == q;
      if k < |subs| {
        assert Under(subs[j], subs[k]);
      }
      BelowHitBelow(start, q, p, hits);
    }
  }

  lemma BelowHitBelow(start: seq<Path>, q: Path, p: Path, hits: set<Path>)
    requires Under(q, p) && AllBelowHit(start, p, hits)
    ensures AllBelowHit(start, q, hits)
  {
    forall r | r in start && Under(r, q) ensures r in hits {
      UnderTrans(r, q, p);
    }
  }

  lemma AllGone(start: seq<Path>, table: seq<Path>, mp: Path, hits: set<Path>, binds: seq<Path>, targets: seq<Path>)
    requires targets == ListSubmounts(start, hits) + binds + [mp]
    requires GoneSoFar(start, targets, table, hits, |targets|)
    ensures TargetsGone(start, table, mp, hits, binds)
  {
    SubmountsChildrenFirst(start, hits, mp);
    var subs := ListSubmounts(start, hits);
    forall q | q in start && (q == mp || q in hits || q in binds) && AllBelowHit(start, q, hits) ensures q !in table {
      assert q in hits ==> q in subs;
      assert q in targets;
      var j :| 0 <= j < |targets| && targets[j] == q;
    }
  }

  /** For every target there are as many attempts that meet no mount in use as there are mounts. */
  predicate EnoughIdle(busy: seq<seq<bool>>, mounts: nat) {
    forall k | 0 <= k < |busy| :: IdleCount(busy[k]) >= mounts
  }

  lemma LeafSame(a: seq<Path>, b: seq<Path>, p: Path)
    requires Shrunk(a, b, p)
    ensures Leaf(a, p) <==> Leaf(b, p)
  {
  }
}
