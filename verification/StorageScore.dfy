/** What one round of storage_mon device tests should score, from the order of its events alone. */
module StorageScore {

  /** What the daemon learns during a round, in order. */
  datatype Entry = Reaped(device: nat, status: int) | Expired

  datatype Verdict = Pending | Passed | Failed | TimedOut

  /** A device is judged by what comes first: the end of its test or the expiry. */
  function VerdictOf(log: seq<Entry>, i: nat): Verdict {
    if log == [] then Pending
    else
      match log[0]
      case Expired => TimedOut
      case Reaped(j, status) =>
        if j != i then VerdictOf(log[1..], i) else if status == 0 then Passed else Failed
  }

  predicate Bad(v: Verdict) {
    v.Failed? || v.TimedOut?
  }

  predicate BadAt(log: seq<Entry>, i: nat) {
    Bad(VerdictOf(log, i))
  }

  /** The scores of the first `k` devices that are marked. */
  function Sum(scores: seq<nat>, marked: seq<bool>, k: nat): nat
    requires k <= |scores| == |marked|
  {
    if k == 0 then 0 else Sum(scores, marked, k - 1) + if marked[k - 1] then scores[k - 1] else 0
  }

  function Total(scores: seq<nat>): nat {
    Sum(scores, seq(|scores|, _ => true), |scores|)
  }

  function BadFlags(vs: seq<Verdict>): seq<bool> {
    seq(|vs|, i requires 0 <= i < |vs| => Bad(vs[i]))
  }

  /** The score of a list of verdicts: each bad device counts once. */
  function VerdictScore(scores: seq<nat>, vs: seq<Verdict>): nat
    requires |vs| == |scores|
  {
    Sum(scores, BadFlags(vs), |scores|)
  }

  function Verdicts(log: seq<Entry>, n: nat): seq<Verdict> {
    seq(n, i requires 0 <= i < n => VerdictOf(log, i))
  }

  function RoundScore(scores: seq<nat>, log: seq<Entry>): nat {
    VerdictScore(scores, Verdicts(log, |scores|))
  }

  predicate IsReaped(log: seq<Entry>, i: nat) {
    exists e <- log :: e.Reaped? && e.device == i
  }

  /** Every test of the round has ended. */
  predicate Complete(log: seq<Entry>, n: nat) {
    forall i: nat | i < n :: IsReaped(log, i)
  }

  // ------------------------------------------------------------- sum lemmas

  lemma {:induction false} SumBounds(scores: seq<nat>, marked: seq<bool>, k: nat)
    requires k <= |scores| == |marked| && forall x <- scores :: x > 0
    ensures Sum(scores, marked, k) <= Sum(scores, seq(|scores|, _ => true), k)
    ensures Sum(scores, marked, k) > 0 <==> exists i | 0 <= i < k :: marked[i]
    decreases k
  {
    if k > 0 {
      SumBounds(scores, marked, k - 1);
      assert scores[k - 1] in scores;
    }
  }

  lemma {:induction false} SumSame(scores: seq<nat>, a: seq<bool>, b: seq<bool>, k: nat)
    requires k <= |scores| == |a| == |b|
    requires forall i | 0 <= i < k :: a[i] == b[i]
    ensures Sum(scores, a, k) == Sum(scores, b, k)
    decreases k
  {
    if k > 0 {
      SumSame(scores, a, b, k - 1);
    }
  }

  lemma {:induction false} SumUnion(scores: seq<nat>, a: seq<bool>, b: seq<bool>, both: seq<bool>, k: nat)
    requires k <= |scores| == |a| == |b| == |both|
    requires forall i | 0 <= i < k :: both[i] == (a[i] || b[i]) && !(a[i] && b[i])
    ensures Sum(scores, both, k) == Sum(scores, a, k) + Sum(scores, b, k)
    decreases k
  {
    if k > 0 {
      SumUnion(scores, a, b, both, k - 1);
    }
  }

  lemma {:induction false} SumOne(scores: seq<nat>, a: seq<bool>, i: nat, k: nat)
    requires k <= |scores| == |a| && i < |a|
    requires forall j | 0 <= j < |a| :: a[j] == (j == i)
    ensures Sum(scores, a, k) == if i < k then scores[i] else 0
    decreases k
  {
    if k > 0 {
      SumOne(scores, a, i, k - 1);
    }
  }

  lemma SumSet(scores: seq<nat>, a: seq<bool>, i: nat)
    requires |scores| == |a| && i < |a| && !a[i]
    ensures Sum(scores, a[i := true], |scores|) == Sum(scores, a, |scores|) + scores[i]
  {
    var b := seq(|a|, j => j == i);
    SumOne(scores, b, i, |scores|);
    SumUnion(scores, a, b, a[i := true], |scores|);
  }

  lemma {:induction false} VerdictAppend(log: seq<Entry>, e: Entry, i: nat)
    ensures VerdictOf(log + [e], i) == if VerdictOf(log, i).Pending? then VerdictOf([e], i) else VerdictOf(log, i)
    decreases |log|
  {
    if log == [] {
      assert log + [e] == [e];
    } else {
      assert (log + [e])[1..] == log[1..] + [e];
      VerdictAppend(log[1..], e, i);
    }
  }

  lemma {:induction false} PendingMeans(log: seq<Entry>, i: nat)
    ensures VerdictOf(log, i).Pending? <==> Expired !in log && !IsReaped(log, i)
    decreases |log|
  {
    if log != [] {
      assert log == [log[0]] + log[1..];
      PendingMeans(log[1..], i);
    }
  }

  /** An end within the time limit adds the device's score once, and only if the test failed. */
  lemma ScoreReaped(scores: seq<nat>, log: seq<Entry>, i: nat, status: int)
    requires i < |scores| && !IsReaped(log, i)
    ensures RoundScore(scores, log + [Reaped(i, status)])
            == RoundScore(scores, log) + if Expired !in log && status != 0 then scores[i] else 0
  {
    var n := |scores|;
    var before, after := Verdicts(log, n), Verdicts(log + [Reaped(i, status)], n);
    var a := BadFlags(before);
    var ab := BadFlags(after);
    forall j: nat | j < n
      ensures ab[j] == (a[j] || (j == i && Expired !in log && status != 0))
      ensures !(a[j] && j == i && Expired !in log)
    {
      VerdictAppend(log, Reaped(i, status), j);
      PendingMeans(log, j);
    }
    if Expired !in log && status != 0 {
      SumSet(scores, a, i);
      SumSame(scores, ab, a[i := true], n);
    } else {
      SumSame(scores, a, ab, n);
    }
  }

  /** The expiry adds the score of every device still under test, once. */
  lemma ScoreExpired(scores: seq<nat>, log: seq<Entry>, running: seq<bool>)
    requires |running| == |scores| && Expired !in log
    requires forall j: nat | j < |scores| :: running[j] <==> !IsReaped(log, j)
    ensures RoundScore(scores, log + [Expired]) == RoundScore(scores, log) + Sum(scores, running, |scores|)
  {
    var n := |scores|;
    var before, after := Verdicts(log, n), Verdicts(log + [Expired], n);
    var a := BadFlags(before);
    var ab := BadFlags(after);
    forall j: nat | j < n ensures ab[j] == (a[j] || running[j]) && !(a[j] && running[j]) {
      VerdictAppend(log, Expired, j);
      PendingMeans(log, j);
    }
    SumUnion(scores, a, running, ab, n);
  }

  lemma ScoreBounds(scores: seq<nat>, log: seq<Entry>)
    requires forall x <- scores :: x > 0
    ensures RoundScore(scores, log) <= Total(scores)
    ensures RoundScore(scores, log) > 0 <==> exists i: nat | i < |scores| :: BadAt(log, i)
  {
    var vs := Verdicts(log, |scores|);
    var marked := BadFlags(vs);
    SumBounds(scores, marked, |scores|);
    if RoundScore(scores, log) > 0 {
      var i :| 0 <= i < |scores| && marked[i];
      assert BadAt(log, i);
    } else {
      forall i: nat | i < |scores| ensures !BadAt(log, i) {
        assert !marked[i];
      }
    }
  }
}
