/** The restart, the two termination and the lap hypotheses of the SF-EX protocol are needed: without
    any one of them, every configuration with safe timeouts admits two holders. */
module SfexHypotheses {
  import opened SfexTypes
  import opened SfexProtocol
  import opened SfexTightness
  import R = SfexRuns

  /** The hypothesis that is given up. */
  datatype Rule =
    | Restart      // a name is not restarted within delta of its reservation write
    | Unreserved   // a node that finds its own lock is not terminated before its reservation write
    | Recent       // nor within delta of it
    | Lap          // the counter moves less than one lap during a takeover wait

  /** What is left of the hypotheses for this step. */
  predicate TimelyWithout(c: Config, rule: Rule, s: State, step: Step)
    requires Enabled(c, s, step)
  {
    match rule
    case Restart => step.GuardRead? || Timely(c, s, step)
    case Unreserved =>
      if step.TermRead? then OwnLock(s.block, step.node) ==> s.now > s.nodes[step.node].reservedAt + c.delta
      else Timely(c, s, step)
    case Recent =>
      if step.TermRead? then OwnLock(s.block, step.node) ==> Live(s.nodes[step.node].phase)
      else Timely(c, s, step)
    case Lap => step.Reread? || Timely(c, s, step)
  }

  predicate OkWithout(c: Config, rule: Rule, s: State, step: Step) {
    Enabled(c, s, step) && TimelyWithout(c, rule, s, step)
  }

  ghost predicate Linked(c: Config, rule: Rule, states: seq<State>) {
    && |states| > 0 && Init(c, states[0])
    && forall i | 0 < i < |states| :: Follows(c, rule, states[i - 1], states[i])
  }

  ghost predicate Follows(c: Config, rule: Rule, s: State, t: State) {
    exists step :: OkWithout(c, rule, s, step) && t == Apply(c, s, step)
  }

  ghost predicate ReachableWithout(c: Config, rule: Rule, s: State) {
    exists states :: Linked(c, rule, states) && states[|states| - 1] == s
  }

  lemma Go(c: Config, rule: Rule, s: State, step: Step) returns (t: State)
    requires ReachableWithout(c, rule, s) && OkWithout(c, rule, s, step)
    ensures t == Apply(c, s, step) && ReachableWithout(c, rule, t)
  {
    t := Apply(c, s, step);
    var states :| Linked(c, rule, states) && states[|states| - 1] == s;
    var longer := states + [t];
    assert Follows(c, rule, s, t);
    forall i | 0 < i < |longer| ensures Follows(c, rule, longer[i - 1], longer[i]) {
      if i < |states| {
        assert Follows(c, rule, states[i - 1], states[i]);
      }
    }
    assert Linked(c, rule, longer) && longer[|longer| - 1] == t;
  }

  const E: NodeName := [4]

  /** Four idle nodes over the record `d`. */
  function Idle(c: Config, d: LockData): State {
    State(0.0, d, 0, 0.0, map[A := Fresh(c), B := Fresh(c), D := Fresh(c), E := Fresh(c)])
  }

  lemma Begin(c: Config, rule: Rule, d: LockData) returns (s: State)
    requires ValidConfig(c) && d.count == 0
    ensures s == Idle(c, d) && ReachableWithout(c, rule, s)
  {
    s := Idle(c, d);
    assert Linked(c, rule, [s]);
  }

  /** `thief` waits since `t0` on a record whose count the block shows again; all others are idle. */
  predicate Replayed(s: State, thief: NodeName, t0: real, count: nat) {
    && s.nodes.Keys == {A, B, D, E} && thief in s.nodes
    && (forall n <- s.nodes :: n == thief || s.nodes[n].phase.Down?)
    && s.nodes[thief].phase.WaitStale? && s.nodes[thief].since == t0
    && s.nodes[thief].total == count && s.nodes[thief].ldata.count == count
  }

  /** A node whose fresh reservation replays the count a thief has seen is robbed of its lock. */
  lemma ReplayBreaksIn(c: Config, rule: Rule, s: State, n: NodeName, t0: real, count: nat) returns (t: State)
    requires ValidConfig(c) && ReachableWithout(c, rule, s) && Replayed(s, E, t0, count)
    requires n in s.nodes && n != E && s.now == t0 + c.lockTimeout - c.collisionTimeout
    requires s.now > s.nodes[n].reservedAt + c.delta
    requires (s.block.status == Unlock || s.block.owner == n) && s.total + 1 == count < 1000 && s.block.count == s.total
    ensures ReachableWithout(c, rule, t) && !MutualExclusion(t)
  {
    t := Go(c, rule, s, GuardRead(n));
    t := Go(c, rule, t, Reserve(n));
    t := WakeThief(c, rule, t, n, t0);
    t := RobHolder(c, rule, t, n);
  }

  lemma WakeThief(c: Config, rule: Rule, s: State, n: NodeName, t0: real) returns (t: State)
    requires ValidConfig(c) && ReachableWithout(c, rule, s) && s.nodes.Keys == {A, B, D, E} && n in s.nodes && n != E
    requires forall m <- s.nodes :: m == n || m == E || s.nodes[m].phase.Down?
    requires s.nodes[n].phase.Reserved? && s.nodes[n].since == s.nodes[n].lastWrite == s.now
    requires s.block.owner == s.nodes[n].ldata.owner == n && s.now == t0 + c.lockTimeout - c.collisionTimeout
    requires s.nodes[E].phase.WaitStale? && s.nodes[E].since == t0
    requires s.nodes[E].total == s.total && s.nodes[E].ldata.count == s.block.count
    ensures ReachableWithout(c, rule, t) && t.nodes.Keys == {A, B, D, E}
    ensures t.nodes[n].phase.Checked? && t.nodes[E].phase.Guarded?
    ensures forall m <- t.nodes :: m == n || m == E || t.nodes[m].phase.Down?
  {
    t := Go(c, rule, s, Tick(c.collisionTimeout));
    t := Go(c, rule, t, Check(n));
    t := Go(c, rule, t, Reread(E));
  }

  lemma RobHolder(c: Config, rule: Rule, s: State, n: NodeName) returns (t: State)
    requires ValidConfig(c) && ReachableWithout(c, rule, s) && s.nodes.Keys == {A, B, D, E} && n in s.nodes && n != E
    requires s.nodes[n].phase.Checked? && s.nodes[E].phase.Guarded?
    requires forall m <- s.nodes :: m == n || m == E || s.nodes[m].phase.Down?
    ensures ReachableWithout(c, rule, t) && !MutualExclusion(t)
  {
    t := Go(c, rule, s, Extend(n));
    t := StealFrom(c, rule, t, n);
  }

  /** A node that holds the lock and wrote just now is joined by a guarded thief. */
  lemma StealFrom(c: Config, rule: Rule, s: State, n: NodeName) returns (t: State)
    requires ValidConfig(c) && ReachableWithout(c, rule, s) && s.nodes.Keys == {A, B, D, E} && n in s.nodes && n != E
    requires s.nodes[n].phase.Holding? && s.nodes[n].lastWrite == s.now && s.nodes[E].phase.Guarded?
    requires forall m <- s.nodes :: m == n || m == E || s.nodes[m].phase.Down?
    ensures ReachableWithout(c, rule, t) && !MutualExclusion(t)
  {
    t := Go(c, rule, s, Reserve(E));
    t := Go(c, rule, t, Tick(c.collisionTimeout));
    t := Go(c, rule, t, Check(E));
    assert Critical(t.nodes[n].phase) && Critical(t.nodes[E].phase);
  }

  /** A and B pass their guards together, and B reserves. */
  lemma Collide(c: Config, rule: Rule) returns (s: State)
    requires ValidConfig(c)
    ensures ReachableWithout(c, rule, s) && s.now == 0.0 && s.nodes.Keys == {A, B, D, E}
    ensures s.nodes[A].phase.Guarded? && s.nodes[A].total == 0 && s.nodes[A].ldata.count == 0
    ensures s.nodes[B].phase.Reserved? && s.nodes[B].reservedAt == s.nodes[B].lastWrite == s.nodes[A].since == 0.0
    ensures s.nodes[D] == s.nodes[E] == Fresh(c) && s.block == LockData(Lock, 1, B) && s.total == 1
  {
    s := Begin(c, rule, LockData(Unlock, 0, []));
    s := Go(c, rule, s, GuardRead(A));
    s := Go(c, rule, s, GuardRead(B));
    s := Go(c, rule, s, Reserve(B));
  }

  /** A and B pass their guards together; B reserves, restarts at once and reserves again; E starts
      to watch that record; A's late reservation takes the counter back. */
  lemma RewindByRestart(c: Config) returns (s: State)
    requires ValidConfig(c)
    ensures ReachableWithout(c, Restart, s) && Replayed(s, E, 0.0, 2) && s.now == 0.0
    ensures s.block == LockData(Lock, 1, A) && s.total == 1 && s.nodes[A].reservedAt == 0.0
  {
    s := Collide(c, Restart);
    s := Go(c, Restart, s, Crash(B));
    s := Go(c, Restart, s, GuardRead(B));
    s := Go(c, Restart, s, Reserve(B));
    s := RewindTail(c, s);
  }

  lemma RewindTail(c: Config, s0: State) returns (s: State)
    requires ValidConfig(c) && ReachableWithout(c, Restart, s0) && s0.now == 0.0 && s0.nodes.Keys == {A, B, D, E}
    requires s0.nodes[A].phase.Guarded? && s0.nodes[A].total == 0 && s0.nodes[A].ldata.count == 0
    requires s0.nodes[B].phase.Reserved? && s0.nodes[D].phase.Down? && s0.nodes[E] == Fresh(c)
    requires s0.total == 2 && s0.block == LockData(Lock, 2, B)
    ensures ReachableWithout(c, Restart, s) && Replayed(s, E, 0.0, 2) && s.now == 0.0
    ensures s.block == LockData(Lock, 1, A) && s.total == 1 && s.nodes[A].reservedAt == 0.0
  {
    s := Go(c, Restart, s0, GuardRead(E));
    s := Go(c, Restart, s, Crash(B));
    s := Go(c, Restart, s, Reserve(A));
    s := Go(c, Restart, s, Crash(A));
  }

  /** Without the restart hypothesis two nodes hold the lock, in every configuration. */
  lemma RestartRuleNeeded(c: Config) returns (s: State)
    requires ValidConfig(c)
    ensures ReachableWithout(c, Restart, s) && !MutualExclusion(s)
  {
    s := RewindByRestart(c);
    s := Go(c, Restart, s, Tick(c.lockTimeout - c.collisionTimeout));
    s := ReplayBreaksIn(c, Restart, s, A, 0.0, 2);
  }

  /** D has waited out the stale lock of A. */
  lemma WaitedOut(c: Config) returns (s: State)
    requires ValidConfig(c)
    ensures ReachableWithout(c, Unreserved, s) && s.now == c.lockTimeout && s.nodes.Keys == {A, B, D, E}
    ensures s.nodes[A] == s.nodes[B] == s.nodes[E] == Fresh(c)
    ensures s.nodes[D].phase.Guarded? && s.nodes[D].total == 0 && s.nodes[D].ldata.count == 0
    ensures s.total == 0 && s.block == LockData(Lock, 0, A)
  {
    s := Begin(c, Unreserved, LockData(Lock, 0, A));
    s := Go(c, Unreserved, s, GuardRead(D));
    s := Go(c, Unreserved, s, Tick(c.lockTimeout));
    s := Go(c, Unreserved, s, Reread(D));
  }

  /** A starts over its own stale lock just when D has waited it out, and is terminated between its
      guard read and its write; D's reservation, which E has seen, is wiped by A's release. */
  lemma RewindByRelease(c: Config) returns (s: State)
    requires ValidConfig(c)
    ensures ReachableWithout(c, Unreserved, s) && Replayed(s, E, c.lockTimeout, 1) && s.now == c.lockTimeout
    ensures s.block == LockData(Unlock, 0, A) && s.total == 0 && s.nodes[B] == Fresh(c)
  {
    s := WaitedOut(c);
    s := Go(c, Unreserved, s, GuardRead(A));
    s := Go(c, Unreserved, s, TermRead(A));
    s := WipeTail(c, s);
  }

  lemma WatchThief(c: Config, s0: State) returns (s: State)
    requires ValidConfig(c) && ReachableWithout(c, Unreserved, s0)
    requires s0.now == c.lockTimeout && s0.nodes.Keys == {A, B, D, E}
    requires s0.nodes[D].phase.Guarded? && s0.nodes[D].total == 0 && s0.nodes[D].ldata.count == 0
    requires s0.nodes[E] == Fresh(c)
    ensures ReachableWithout(c, Unreserved, s) && s.now == c.lockTimeout && s.nodes.Keys == {A, B, D, E}
    ensures s.nodes[A] == s0.nodes[A] && s.nodes[B] == s0.nodes[B] && s.nodes[D].phase.Reserved?
    ensures s.nodes[E].phase.WaitStale? && s.nodes[E].since == c.lockTimeout
    ensures s.nodes[E].total == 1 && s.nodes[E].ldata.count == 1
  {
    s := Go(c, Unreserved, s0, Reserve(D));
    s := Go(c, Unreserved, s, GuardRead(E));
  }

  lemma WipeTail(c: Config, s0: State) returns (s: State)
    requires ValidConfig(c) && ReachableWithout(c, Unreserved, s0)
    requires s0.now == c.lockTimeout && s0.nodes.Keys == {A, B, D, E}
    requires s0.nodes[A].phase.Releasing? && s0.nodes[A].total == 0 && s0.nodes[A].ldata == LockData(Lock, 0, A)
    requires s0.nodes[D].phase.Guarded? && s0.nodes[D].total == 0 && s0.nodes[D].ldata.count == 0
    requires s0.nodes[B] == s0.nodes[E] == Fresh(c)
    ensures ReachableWithout(c, Unreserved, s) && Replayed(s, E, c.lockTimeout, 1) && s.now == c.lockTimeout
    ensures s.block == LockData(Unlock, 0, A) && s.total == 0 && s.nodes[B] == Fresh(c)
  {
    s := WatchThief(c, s0);
    s := Go(c, Unreserved, s, ReleaseWrite(A));
    s := Go(c, Unreserved, s, Crash(D));
  }

  /** Without the first termination hypothesis two nodes hold the lock, in every configuration. */
  lemma UnreservedRuleNeeded(c: Config) returns (s: State)
    requires ValidConfig(c)
    ensures ReachableWithout(c, Unreserved, s) && !MutualExclusion(s)
  {
    s := RewindByRelease(c);
    s := Go(c, Unreserved, s, Tick(c.lockTimeout - c.collisionTimeout));
    s := ReplayBreaksIn(c, Unreserved, s, B, c.lockTimeout, 1);
  }

  /** A and B pass their guards together; B reserves and is terminated at once; D reserves on the
      released block and E starts to watch; A's late reservation takes the counter back. */
  lemma RewindByEarlyRelease(c: Config) returns (s: State)
    requires ValidConfig(c)
    ensures ReachableWithout(c, Recent, s) && s.now == 0.0 && s.nodes.Keys == {A, B, D, E}
    ensures s.nodes[A].phase.Guarded? && s.nodes[A].total == 0 && s.nodes[A].ldata.count == 0
    ensures s.nodes[B].phase.Down? && s.nodes[D] == s.nodes[E] == Fresh(c)
    ensures s.block == LockData(Unlock, 1, B) && s.total == 1
  {
    s := Collide(c, Recent);
    s := Go(c, Recent, s, TermRead(B));
    s := Go(c, Recent, s, ReleaseWrite(B));
  }

  lemma WatchNewReserver(c: Config, s0: State) returns (s: State)
    requires ValidConfig(c) && ReachableWithout(c, Recent, s0) && s0.now == 0.0 && s0.nodes.Keys == {A, B, D, E}
    requires s0.nodes[D] == s0.nodes[E] == Fresh(c) && s0.block == LockData(Unlock, 1, B) && s0.total == 1
    ensures ReachableWithout(c, Recent, s) && s.now == 0.0 && s.nodes.Keys == {A, B, D, E}
    ensures s.nodes[A] == s0.nodes[A] && s.nodes[B] == s0.nodes[B] && s.nodes[D].phase.Reserved?
    ensures s.nodes[E].phase.WaitStale? && s.nodes[E].since == 0.0
    ensures s.nodes[E].total == 2 && s.nodes[E].ldata.count == 2
  {
    s := Go(c, Recent, s0, GuardRead(D));
    s := Go(c, Recent, s, Reserve(D));
    s := Go(c, Recent, s, GuardRead(E));
  }

  lemma EarlyReleaseTail(c: Config, s0: State) returns (s: State)
    requires ValidConfig(c) && ReachableWithout(c, Recent, s0) && s0.now == 0.0 && s0.nodes.Keys == {A, B, D, E}
    requires s0.nodes[A].phase.Guarded? && s0.nodes[A].total == 0 && s0.nodes[A].ldata.count == 0
    requires s0.nodes[B].phase.Down? && s0.nodes[D] == s0.nodes[E] == Fresh(c)
    requires s0.block == LockData(Unlock, 1, B) && s0.total == 1
    ensures ReachableWithout(c, Recent, s) && Replayed(s, E, 0.0, 2) && s.now == 0.0
    ensures s.block == LockData(Lock, 1, A) && s.total == 1 && s.nodes[A].reservedAt == 0.0
  {
    s := WatchNewReserver(c, s0);
    s := Go(c, Recent, s, Crash(D));
    s := Go(c, Recent, s, Reserve(A));
    s := Go(c, Recent, s, Crash(A));
  }

  /** Without the second termination hypothesis two nodes hold the lock, in every configuration. */
  lemma RecentRuleNeeded(c: Config) returns (s: State)
    requires ValidConfig(c)
    ensures ReachableWithout(c, Recent, s) && !MutualExclusion(s)
  {
    s := RewindByEarlyRelease(c);
    s := EarlyReleaseTail(c, s);
    s := Go(c, Recent, s, Tick(c.lockTimeout - c.collisionTimeout));
    s := ReplayBreaksIn(c, Recent, s, A, 0.0, 2);
  }

  /** A holds the lock and has just written; E waits; the others are idle. */
  predicate Beating(s: State) {
    && s.nodes.Keys == {A, B, D, E} && s.nodes[B].phase.Down? && s.nodes[D].phase.Down?
    && s.nodes[A].phase.Holding? && s.nodes[A].since == s.nodes[A].lastWrite == s.now
    && OwnLock(s.block, A) && s.block.count == Wrapped(s.total)
    && s.nodes[E].phase.WaitStale?
  }

  lemma Beat(c: Config, s: State) returns (t: State)
    requires ValidConfig(c) && c.monitorInterval <= c.writeGap && ReachableWithout(c, Lap, s) && Beating(s)
    ensures ReachableWithout(c, Lap, t) && Beating(t) && t.nodes[E] == s.nodes[E]
    ensures t.total == s.total + 1 && t.now == s.now + c.writeGap
  {
    NextCountWraps(s.total);
    t := Go(c, Lap, s, Tick(c.writeGap));
    t := Go(c, Lap, t, UpdateRead(A));
    t := Go(c, Lap, t, UpdateWrite(A));
  }

  lemma {:induction false} Beats(c: Config, s: State, k: nat) returns (t: State)
    requires ValidConfig(c) && c.monitorInterval <= c.writeGap && ReachableWithout(c, Lap, s) && Beating(s)
    ensures ReachableWithout(c, Lap, t) && Beating(t) && t.nodes[E] == s.nodes[E]
    ensures t.total == s.total + k && t.now == s.now + R.Span(k, c.writeGap)
  {
    t := s;
    if k > 0 {
      t := Beats(c, s, k - 1);
      t := Beat(c, t);
      R.AddSpan(k, c.writeGap);
    }
  }

  /** Some whole number of laps lasts at least `time`. */
  lemma LapsFor(time: real, gap: real) returns (laps: nat)
    requires time > 0.0 && gap > 0.0
    ensures R.Span(1000 * laps, gap) >= time
  {
    laps := R.BeatsFor(time, gap);
  }

  lemma FirstReserver(c: Config) returns (s: State)
    requires ValidConfig(c)
    ensures ReachableWithout(c, Lap, s) && s.now == 0.0 && s.nodes.Keys == {A, B, D, E}
    ensures s.nodes[A].phase.Reserved? && s.nodes[A].since == s.nodes[A].lastWrite == 0.0
    ensures s.nodes[A].ldata == s.block == LockData(Lock, 1, A) && s.nodes[A].total == s.total == 1
    ensures s.nodes[B] == s.nodes[D] == s.nodes[E] == Fresh(c)
  {
    s := Begin(c, Lap, LockData(Unlock, 0, []));
    s := Go(c, Lap, s, GuardRead(A));
    s := Go(c, Lap, s, Reserve(A));
  }

  lemma WatchHolder(c: Config) returns (s: State)
    requires ValidConfig(c)
    ensures ReachableWithout(c, Lap, s) && Beating(s)
    ensures s.nodes[E].since == s.now && s.nodes[E].ldata.count == Wrapped(s.total) && s.total >= 0
  {
    s := FirstReserver(c);
    s := Go(c, Lap, s, Tick(c.collisionTimeout));
    s := Go(c, Lap, s, Check(A));
    s := Go(c, Lap, s, Extend(A));
    s := Go(c, Lap, s, GuardRead(E));
  }

  /** Without the lap hypothesis two nodes hold the lock, in every configuration whose holder can
      keep its lock: a wait that ends whole laps later mistakes a busy holder for a dead one. */
  lemma LapRuleNeeded(c: Config) returns (s: State)
    requires ValidConfig(c) && c.monitorInterval <= c.writeGap
    ensures ReachableWithout(c, Lap, s) && !MutualExclusion(s)
  {
    s := WatchHolder(c);
    var laps := LapsFor(c.lockTimeout, c.writeGap);
    var before := s.total;
    s := Beats(c, s, 1000 * laps);
    assert Wrapped(s.total) == Wrapped(before);
    s := Go(c, Lap, s, Reread(E));
    s := StealFrom(c, Lap, s, A);
  }
}
