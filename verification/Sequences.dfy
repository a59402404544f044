/** Taking one element out of a sequence, as the firewall, the kernel tables and the mount table do. */
module Sequences {

  /** The sequence with the first `x` taken out. */
  function Without<T(==)>(s: seq<T>, x: T): seq<T> {
    if s == [] then [] else if s[0] == x then s[1..] else [s[0]] + Without(s[1..], x)
  }

  lemma {:induction false} WithoutKeeps<T>(s: seq<T>, x: T, y: T)
    requires x != y
    ensures y in Without(s, x) <==> y in s
    decreases |s|
  {
    if s != [] {
      assert s == [s[0]] + s[1..];
      WithoutKeeps(s[1..], x, y);
    }
  }

  lemma {:induction false} WithoutAbsent<T>(s: seq<T>, x: T)
    requires x !in s
    ensures Without(s, x) == s
    decreases |s|
  {
    if s != [] {
      WithoutAbsent(s[1..], x);
    }
  }

  lemma {:induction false} WithoutSplit<T>(a: seq<T>, b: seq<T>, x: T)
    ensures Without(a + b, x) == if x in a then Without(a, x) + b else a + Without(b, x)
    decreases |a|
  {
    if a == [] {
      assert a + b == b && a + Without(b, x) == Without(b, x);
    } else {
      var first, rest := a[0], a[1..];
      assert (a + b)[1..] == rest + b;
      if first != x {
        WithoutSplit(rest, b, x);
        if x in rest {
          Regroup(first, Without(rest, x), b);
        } else {
          Regroup(first, rest, Without(b, x));
          assert [first] + rest == a;
        }
      }
    }
  }

  lemma Regroup<T>(first: T, a: seq<T>, b: seq<T>)
    ensures [first] + (a + b) == ([first] + a) + b
  {
  }

  lemma {:induction false} WithoutLength<T>(s: seq<T>, x: T)
    ensures |Without(s, x)| == |s| - if x in s then 1 else 0
    decreases |s|
  {
    if s != [] {
      assert s == [s[0]] + s[1..];
      WithoutLength(s[1..], x);
    }
  }
}
