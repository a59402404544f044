/** What holds along whole runs of the SF-EX protocol: how long an acquired lock
    lasts, what a takeover wait proves, and when a contender acquires. */
module SfexRuns {
  import opened SfexTypes
  import opened SfexProtocol

  /** `s` lies on a timely run from an initial state. */
  ghost predicate Reachable(c: Config, s: State) {
    exists s0, steps :: Init(c, s0) && Run(c, s0, steps) && After(c, s0, steps) == s
  }

  lemma ReachableInv(c: Config, s: State)
    requires ValidConfig(c) && Reachable(c, s)
    ensures Inv(c, s)
  {
    var s0, steps :| Init(c, s0) && Run(c, s0, steps) && After(c, s0, steps) == s;
    InitInv(c, s0);
    RunInv(c, s0, steps);
  }

  // ------------------------------------------- an acquired lock stays acquired

  /** Node `n` gives the lock back or dies. */
  predicate GivesUp(step: Step, n: NodeName) {
    step == ReleaseWrite(n) || step == Crash(n)
  }

  predicate Undisturbed(steps: seq<Step>, n: NodeName) {
    forall i | 0 <= i < |steps| :: !GivesUp(steps[i], n)
  }

  lemma CriticalStep(c: Config, s: State, step: Step, n: NodeName)
    requires ValidConfig(c) && Inv(c, s) && Ok(c, s, step)
    requires n in s.nodes && Critical(s.nodes[n].phase) && !GivesUp(step, n)
    ensures n in Apply(c, s, step).nodes && Critical(Apply(c, s, step).nodes[n].phase)
  {
    assert NodeInv(c, s, n);
  }

  lemma {:induction false} CriticalRun(c: Config, s: State, steps: seq<Step>, n: NodeName)
    requires ValidConfig(c) && Inv(c, s) && Run(c, s, steps)
    requires n in s.nodes && Critical(s.nodes[n].phase) && Undisturbed(steps, n)
    ensures n in After(c, s, steps).nodes && Critical(After(c, s, steps).nodes[n].phase)
    decreases |steps|
  {
    if steps != [] {
      assert !GivesUp(steps[0], n);
      CriticalStep(c, s, steps[0], n);
      StepInv(c, s, steps[0]);
      CriticalRun(c, Apply(c, s, steps[0]), steps[1..], n);
    }
  }

  /** When `n` passes the collision check no node stands between its guard read and its
      reservation write, and from then on the block stays LOCK under the name of `n`
      until `n` writes its release or dies. */
  lemma CheckSecuresLock(c: Config, s: State, n: NodeName, rest: seq<Step>)
    requires ValidConfig(c) && Reachable(c, s)
    requires Ok(c, s, Check(n)) && s.block.owner == n
    requires Run(c, Apply(c, s, Check(n)), rest) && Undisturbed(rest, n)
    ensures forall g <- s.nodes :: !s.nodes[g].phase.Guarded?
    ensures OwnLock(After(c, Apply(c, s, Check(n)), rest).block, n)
  {
    ReachableInv(c, s);
    assert NodeInv(c, s, n);
    CheckFindsNoGuard(c, s, n);
    StepInv(c, s, Check(n));
    var t := Apply(c, s, Check(n));
    CriticalRun(c, t, rest, n);
    RunInv(c, t, rest);
    assert NodeInv(c, After(c, t, rest), n);
  }

  /** A contender never writes its reservation while another node is past the check. */
  lemma ReserveFindsNoHolder(c: Config, s: State, g: NodeName, n: NodeName)
    requires ValidConfig(c) && Reachable(c, s)
    requires Ok(c, s, Reserve(g)) && n in s.nodes
    ensures !Critical(s.nodes[n].phase)
  {
    ReachableInv(c, s);
    assert PairInv(s, g, n);
  }

  // ----------------------------------------------------- the un-wrapped counter

  predicate Heartbeat(step: Step) {
    step.Extend? || step.UpdateWrite?
  }

  /** No write ever lowers the un-wrapped counter, and each heartbeat raises it by one. */
  lemma CounterStep(c: Config, s: State, step: Step)
    requires ValidConfig(c) && Inv(c, s) && Ok(c, s, step)
    ensures s.total <= Apply(c, s, step).total
    ensures Heartbeat(step) ==> Apply(c, s, step).total == s.total + 1
  {
    if !step.Tick? {
      assert NodeInv(c, s, step.node);
    }
  }

  lemma {:induction false} CounterRun(c: Config, s: State, steps: seq<Step>)
    requires ValidConfig(c) && Inv(c, s) && Run(c, s, steps)
    ensures s.total <= After(c, s, steps).total
    ensures (exists i | 0 <= i < |steps| :: Heartbeat(steps[i])) ==> s.total < After(c, s, steps).total
    decreases |steps|
  {
    if steps != [] {
      CounterStep(c, s, steps[0]);
      StepInv(c, s, steps[0]);
      CounterRun(c, Apply(c, s, steps[0]), steps[1..]);
      if i :| 0 <= i < |steps| && Heartbeat(steps[i]) {
        if i > 0 {
          assert Heartbeat(steps[1..][i - 1]);
        }
      }
    }
  }

  /** Along every timely run the un-wrapped counter on disk never goes back. */
  lemma CounterNeverDecreases(c: Config, s: State, steps: seq<Step>)
    requires ValidConfig(c) && Reachable(c, s) && Run(c, s, steps)
    ensures s.total <= After(c, s, steps).total
  {
    ReachableInv(c, s);
    CounterRun(c, s, steps);
  }

  predicate NotBy(steps: seq<Step>, n: NodeName) {
    forall i | 0 <= i < |steps| :: steps[i].Tick? || steps[i].node != n
  }

  lemma {:induction false} SleeperUnchanged(c: Config, s: State, steps: seq<Step>, n: NodeName)
    requires Run(c, s, steps) && n in s.nodes && NotBy(steps, n)
    ensures n in After(c, s, steps).nodes && After(c, s, steps).nodes[n] == s.nodes[n]
    decreases |steps|
  {
    if steps != [] {
      assert steps[0].Tick? || steps[0].node != n;
      SleeperUnchanged(c, Apply(c, s, steps[0]), steps[1..], n);
    }
  }

  /** Equal wrapped counts at the two ends of a takeover wait mean that no extension and no
      heartbeat was written during it, by any node. */
  lemma EqualCountsMeanSilence(c: Config, s: State, n: NodeName, wait: seq<Step>)
    requires ValidConfig(c) && Reachable(c, s)
    requires Ok(c, s, GuardRead(n)) && s.block.status == Lock && s.block.owner != n
    requires Run(c, Apply(c, s, GuardRead(n)), wait) && NotBy(wait, n)
    requires var u := After(c, Apply(c, s, GuardRead(n)), wait);
             Ok(c, u, Reread(n)) && Apply(c, u, Reread(n)).nodes[n].phase.Guarded?
    ensures forall i | 0 <= i < |wait| :: !Heartbeat(wait[i])
  {
    ReachableInv(c, s);
    StepInv(c, s, GuardRead(n));
    var t := Apply(c, s, GuardRead(n));
    var u := After(c, t, wait);
    SleeperUnchanged(c, t, wait, n);
    CounterRun(c, t, wait);
    RunInv(c, t, wait);
    SameCountSameTotal(t.total, u.total);
  }

  // ------------------------------------------------------------------- progress

  predicate NobodyEnds(steps: seq<Step>) {
    forall i | 0 <= i < |steps| :: !steps[i].TermRead? && !steps[i].Crash?
  }

  /** The lock is acquired and not being given back. */
  predicate Holds(p: Phase) {
    p.Checked? || p.Holding? || p.Updating?
  }

  /** The node of the last reservation write in `steps`, or `n` if there is none. */
  function LastReserver(steps: seq<Step>, n: NodeName): NodeName {
    if steps == [] then n else LastReserver(steps[1..], if steps[0].Reserve? then steps[0].node else n)
  }

  /** The block is locked by a live node that reserved by `t0 + delta`, and every contender
      that may still overwrite it took its guard read by `t0`. */
  predicate OnTrack(c: Config, s: State, t0: real) {
    && s.block.status == Lock && s.block.owner in s.nodes
    && (var x := s.nodes[s.block.owner];
        && (x.phase.Reserved? || Holds(x.phase))
        && (x.phase.Reserved? || x.phase.Checked? ==> x.lastWrite <= t0 + c.delta))
    && forall g <- s.nodes :: s.nodes[g].phase.Guarded? ==> s.nodes[g].since <= t0
  }

  lemma OnTrackStep(c: Config, s: State, step: Step, t0: real)
    requires ValidConfig(c) && Inv(c, s) && Ok(c, s, step)
    requires OnTrack(c, s, t0) && !step.TermRead? && !step.Crash?
    ensures OnTrack(c, Apply(c, s, step), t0)
    ensures Apply(c, s, step).block.owner == if step.Reserve? then step.node else s.block.owner
  {
    assert NodeInv(c, s, s.block.owner);
    if !step.Tick? {
      assert NodeInv(c, s, step.node);
    }
    if step.Reread? && s.block.count == s.nodes[step.node].ldata.count {
      RereadFindsQuiet(c, s, step.node);
    }
  }

  lemma {:induction false} OnTrackRun(c: Config, s: State, steps: seq<Step>, t0: real)
    requires ValidConfig(c) && Inv(c, s) && Run(c, s, steps)
    requires OnTrack(c, s, t0) && NobodyEnds(steps)
    ensures OnTrack(c, After(c, s, steps), t0)
    ensures After(c, s, steps).block.owner == LastReserver(steps, s.block.owner)
    decreases |steps|
  {
    if steps != [] {
      OnTrackStep(c, s, steps[0], t0);
      StepInv(c, s, steps[0]);
      OnTrackRun(c, Apply(c, s, steps[0]), steps[1..], t0);
    }
  }

  /** Colliding reservations elect a winner: once any reservation stands on the block, and if
      no contender is terminated or dies, the node that reserved last holds the lock at the
      latest `delta + writeGap` later. */
  lemma LastReserverAcquires(c: Config, s: State, n: NodeName, steps: seq<Step>)
    requires ValidConfig(c) && Reachable(c, s)
    requires n in s.nodes && s.nodes[n].phase.Reserved? && s.block.owner == n
    requires Run(c, s, steps) && NobodyEnds(steps)
    requires After(c, s, steps).now > s.now + c.delta + c.writeGap
    ensures var u, winner := After(c, s, steps), LastReserver(steps, n);
            winner in u.nodes && OwnLock(u.block, winner)
            && Acquired(u.nodes[winner])
  {
    ReachableInv(c, s);
    assert NodeInv(c, s, n);
    forall g | g in s.nodes && s.nodes[g].phase.Guarded? ensures s.nodes[g].since <= s.now {
      assert NodeInv(c, s, g);
    }
    OnTrackRun(c, s, steps, s.now);
    RunInv(c, s, steps);
    assert NodeInv(c, After(c, s, steps), After(c, s, steps).block.owner);
  }

  // ------------------------------------------------------------- a sole contender

  /** Only `n` moves; it is neither terminated nor killed, and wakes from the takeover wait
      at most `delta` late. */
  predicate SoloPrompt(c: Config, s: State, n: NodeName, step: Step)
    requires Enabled(c, s, step)
  {
    if step.Tick? then
      n in s.nodes && s.nodes[n].phase.WaitStale? ==>
        s.now + step.dt <= s.nodes[n].since + c.lockTimeout + c.delta
    else
      step.node == n && !step.TermRead? && !step.Crash?
  }

  /** A timely run in which only `n` moves, promptly. */
  predicate SoloRun(c: Config, s: State, n: NodeName, steps: seq<Step>)
    ensures SoloRun(c, s, n, steps) ==> Run(c, s, steps)
    decreases |steps|
  {
    steps == [] ||
    (Ok(c, s, steps[0]) && SoloPrompt(c, s, n, steps[0]) && SoloRun(c, Apply(c, s, steps[0]), n, steps[1..]))
  }

  function UpdateWrites(steps: seq<Step>): nat {
    if steps == [] then 0 else (if steps[0].UpdateWrite? then 1 else 0) + UpdateWrites(steps[1..])
  }

  predicate Acquired(x: Node) {
    x.phase.Holding? || x.phase.Updating?
  }

  /** How far a sole contender that started at `t0` over counter value `start` has come. */
  predicate SoloProgress(c: Config, s: State, n: NodeName, t0: real, start: int) {
    n in s.nodes &&
    var x := s.nodes[n];
    match x.phase
    case WaitStale => x.since == t0 && s.total == x.total == start && s.block.count == x.ldata.count
                      && s.now <= t0 + c.lockTimeout + c.delta
    case Guarded => s.total == x.total == start && x.since <= t0 + c.lockTimeout + c.delta
    case Reserved => s.block.owner == n && s.total == start + 1
                     && x.lastWrite <= t0 + c.lockTimeout + 2.0 * c.delta
    case Checked => s.total == start + 1 && x.lastWrite <= t0 + c.lockTimeout + 2.0 * c.delta
    case Holding => s.total >= start + 2
    case Updating => s.total >= start + 2
    case _ => false
  }

  lemma SoloStep(c: Config, s: State, n: NodeName, step: Step, t0: real, start: int)
    requires ValidConfig(c) && Inv(c, s) && Ok(c, s, step) && SoloPrompt(c, s, n, step)
    requires SoloProgress(c, s, n, t0, start)
    ensures SoloProgress(c, Apply(c, s, step), n, t0, start)
    ensures Apply(c, s, step).total
            == s.total + if step.Reserve? || step.Extend? || step.UpdateWrite? then 1 else 0
  {
    assert NodeInv(c, s, n);
  }

  lemma {:induction false} SoloProgressRun(c: Config, s: State, n: NodeName, steps: seq<Step>, t0: real, start: int)
    requires ValidConfig(c) && Inv(c, s) && SoloRun(c, s, n, steps)
    requires SoloProgress(c, s, n, t0, start)
    ensures var u := After(c, s, steps);
            SoloProgress(c, u, n, t0, start)
            && (Acquired(u.nodes[n]) ==>
                  u.total == UpdateWrites(steps) + if Acquired(s.nodes[n]) then s.total else start + 2)
    decreases |steps|
  {
    if steps != [] {
      SoloStep(c, s, n, steps[0], t0, start);
      StepInv(c, s, steps[0]);
      SoloProgressRun(c, Apply(c, s, steps[0]), n, steps[1..], t0, start);
    }
  }

  /** The block is a foreign lock, which has to be waited out. */
  predicate MustWait(s: State, n: NodeName) {
    s.block.status == Lock && s.block.owner != n
  }

  lemma SoloStart(c: Config, s: State, n: NodeName, t0: real)
    requires ValidConfig(c) && Init(c, s) && Ok(c, s, GuardRead(n))
    requires t0 == if MustWait(s, n) then s.now else s.now - c.lockTimeout - c.delta
    ensures var t := Apply(c, s, GuardRead(n));
            Inv(c, t) && SoloProgress(c, t, n, t0, s.total)
            && (t.nodes[n].phase.WaitStale? || t.nodes[n].phase.Guarded?)
  {
    InitInv(c, s);
    StepInv(c, s, GuardRead(n));
  }

  lemma SoloOutcome(c: Config, s: State, n: NodeName, steps: seq<Step>, t0: real, start: int)
    requires ValidConfig(c) && Inv(c, s) && SoloRun(c, s, n, steps)
    requires SoloProgress(c, s, n, t0, start) && (s.nodes[n].phase.WaitStale? || s.nodes[n].phase.Guarded?)
    ensures var u := After(c, s, steps);
            n in u.nodes && !u.nodes[n].phase.Down?
            && (u.now > t0 + c.lockTimeout + 2.0 * c.delta + c.writeGap ==>
                  Acquired(u.nodes[n]))
            && (Acquired(u.nodes[n]) ==>
                  OwnLock(u.block, n) && u.block.count == CountPlus(Wrapped(start), 2 + UpdateWrites(steps)))
  {
    SoloProgressRun(c, s, n, steps, t0, start);
    RunInv(c, s, steps);
    assert NodeInv(c, After(c, s, steps), n);
    CountOf(After(c, s, steps), start, 2 + UpdateWrites(steps));
  }

  lemma CountOf(s: State, start: int, k: nat)
    requires s.block.count == Wrapped(s.total)
    ensures s.total == start + k ==> s.block.count == CountPlus(Wrapped(start), k)
  {
    CountAfter(start, k);
  }

  /** A sole contender that starts over any readable block, free or stale, never gives up; it holds the
      lock once the I/O bounds and, over a foreign lock only, lock_timeout have passed, and it has
      advanced the wrapped count by two, plus one for each heartbeat since. */
  lemma SoleContenderAcquires(c: Config, s: State, n: NodeName, steps: seq<Step>)
    requires ValidConfig(c) && Init(c, s) && n in s.nodes
    requires Ok(c, s, GuardRead(n)) && SoloRun(c, Apply(c, s, GuardRead(n)), n, steps)
    ensures var u := After(c, Apply(c, s, GuardRead(n)), steps);
            n in u.nodes && !u.nodes[n].phase.Down?
            && (u.now > s.now + (if MustWait(s, n) then c.lockTimeout + c.delta else 0.0) + c.delta + c.writeGap ==>
                  Acquired(u.nodes[n]))
            && (Acquired(u.nodes[n]) ==>
                  OwnLock(u.block, n) && u.block.count == CountPlus(s.block.count, 2 + UpdateWrites(steps)))
  {
    var t0 := if MustWait(s, n) then s.now else s.now - c.lockTimeout - c.delta;
    SoloStart(c, s, n, t0);
    SoloOutcome(c, Apply(c, s, GuardRead(n)), n, steps, t0, s.total);
  }

  lemma {:induction false} RunAppend(c: Config, s: State, steps: seq<Step>, step: Step)
    requires Run(c, s, steps) && Ok(c, After(c, s, steps), step)
    ensures Run(c, s, steps + [step])
    ensures After(c, s, steps + [step]) == Apply(c, After(c, s, steps), step)
    decreases |steps|
  {
    if steps == [] {
      assert steps + [step] == [step];
    } else {
      assert (steps + [step])[1..] == steps[1..] + [step];
      RunAppend(c, Apply(c, s, steps[0]), steps[1..], step);
    }
  }

  lemma ReachStep(c: Config, s: State, step: Step) returns (t: State)
    requires Reachable(c, s) && Ok(c, s, step)
    ensures t == Apply(c, s, step) && Reachable(c, t)
  {
    t := Apply(c, s, step);
    var s0, steps :| Init(c, s0) && Run(c, s0, steps) && After(c, s0, steps) == s;
    RunAppend(c, s0, steps, step);
  }

  // ------------------------------------------------------- acquisitions exist

  predicate Alone(s: State, n: NodeName) {
    n in s.nodes && forall m <- s.nodes :: m == n || s.nodes[m].phase.Down?
  }

  /** One more step of a sole contender's run. */
  lemma {:induction false} SoloAppend(c: Config, s: State, n: NodeName, steps: seq<Step>, step: Step)
    requires SoloRun(c, s, n, steps) && Ok(c, After(c, s, steps), step) && SoloPrompt(c, After(c, s, steps), n, step)
    ensures SoloRun(c, s, n, steps + [step])
    ensures After(c, s, steps + [step]) == Apply(c, After(c, s, steps), step)
    ensures UpdateWrites(steps + [step]) == UpdateWrites(steps) + if step.UpdateWrite? then 1 else 0
    decreases |steps|
  {
    if steps == [] {
      assert steps + [step] == [step];
    } else {
      assert (steps + [step])[1..] == steps[1..] + [step];
      SoloAppend(c, Apply(c, s, steps[0]), n, steps[1..], step);
    }
  }

  lemma Longer(c: Config, s: State, n: NodeName, steps: seq<Step>, step: Step) returns (longer: seq<Step>, u: State)
    requires SoloRun(c, s, n, steps) && Ok(c, After(c, s, steps), step) && SoloPrompt(c, After(c, s, steps), n, step)
    ensures SoloRun(c, s, n, longer) && u == After(c, s, longer) == Apply(c, After(c, s, steps), step)
    ensures UpdateWrites(longer) == UpdateWrites(steps) + if step.UpdateWrite? then 1 else 0
  {
    SoloAppend(c, s, n, steps, step);
    longer, u := steps + [step], Apply(c, After(c, s, steps), step);
  }

  lemma WaitOutStaleLock(c: Config, s: State, n: NodeName) returns (steps: seq<Step>)
    requires ValidConfig(c) && Alone(s, n) && s.nodes[n].phase.WaitStale? && s.nodes[n].since == s.now
    requires s.nodes[n].total == s.total && s.nodes[n].ldata == s.block
    ensures SoloRun(c, s, n, steps) && UpdateWrites(steps) == 0
    ensures var u := After(c, s, steps);
            Alone(u, n) && u.nodes[n].phase.Guarded? && u.nodes[n].ldata == s.block && u.nodes[n].total == s.total
            && u.nodes[n].since == u.now == s.now + c.lockTimeout
  {
    var u;
    steps, u := Longer(c, s, n, [], Tick(c.lockTimeout));
    steps, u := Longer(c, s, n, steps, Reread(n));
  }

  lemma AcquireFromGuard(c: Config, s: State, n: NodeName, before: seq<Step>) returns (steps: seq<Step>)
    requires ValidConfig(c) && SoloRun(c, s, n, before) && UpdateWrites(before) == 0
    requires var g := After(c, s, before); Alone(g, n) && g.nodes[n].phase.Guarded? && g.nodes[n].since == g.now
    ensures SoloRun(c, s, n, steps) && UpdateWrites(steps) == 0
    ensures var g, u := After(c, s, before), After(c, s, steps);
            Beating(u, n) && u.total == g.nodes[n].total + 2 && u.now == g.now + c.collisionTimeout
            && u.block.count == NextCount(NextCount(g.nodes[n].ldata.count))
  {
    var u;
    steps, u := Longer(c, s, n, before, Reserve(n));
    steps, u := Longer(c, s, n, steps, Tick(c.collisionTimeout));
    steps, u := Longer(c, s, n, steps, Check(n));
    steps, u := Longer(c, s, n, steps, Extend(n));
  }

  /** `n` alone holds the lock and has just written. */
  predicate Beating(s: State, n: NodeName) {
    Alone(s, n) && s.nodes[n].phase.Holding? && s.nodes[n].since == s.nodes[n].lastWrite == s.now && OwnLock(s.block, n)
  }

  lemma OneBeat(c: Config, s: State, n: NodeName, before: seq<Step>) returns (steps: seq<Step>)
    requires ValidConfig(c) && c.monitorInterval <= c.writeGap && SoloRun(c, s, n, before)
    requires Beating(After(c, s, before), n)
    ensures SoloRun(c, s, n, steps) && UpdateWrites(steps) == UpdateWrites(before) + 1
    ensures var g, u := After(c, s, before), After(c, s, steps);
            Beating(u, n) && u.block.count == NextCount(g.block.count) && u.now == g.now + c.writeGap
  {
    var u;
    steps, u := Longer(c, s, n, before, Tick(c.writeGap));
    steps, u := Longer(c, s, n, steps, UpdateRead(n));
    steps, u := Longer(c, s, n, steps, UpdateWrite(n));
  }

  /** The time of `k` gaps. */
  function Span(k: nat, gap: real): real {
    k as real * gap
  }

  lemma AddSpan(k: nat, gap: real)
    requires k > 0
    ensures Span(k, gap) == Span(k - 1, gap) + gap
  {
  }

  lemma {:induction false} Beats(c: Config, s: State, n: NodeName, before: seq<Step>, total: int, beats: nat)
    returns (steps: seq<Step>)
    requires ValidConfig(c) && (beats > 0 ==> c.monitorInterval <= c.writeGap) && SoloRun(c, s, n, before)
    requires Beating(After(c, s, before), n) && After(c, s, before).block.count == Wrapped(total)
    ensures SoloRun(c, s, n, steps) && UpdateWrites(steps) == UpdateWrites(before) + beats
    ensures var u := After(c, s, steps);
            Beating(u, n) && u.block.count == Wrapped(total + beats)
            && u.now == After(c, s, before).now + Span(beats, c.writeGap)
    decreases beats
  {
    steps := before;
    if beats > 0 {
      steps := Beats(c, s, n, before, total, beats - 1);
      steps := OneBeat(c, s, n, steps);
      NextCountWraps(total + beats - 1);
      AddSpan(beats, c.writeGap);
    }
  }

  /** Such acquisitions exist: over any readable block a node alone has a prompt run from that very
      state that takes the lock after its sleeps and nothing more, and then writes any number of
      heartbeats. */
  lemma AcquisitionExists(c: Config, s: State, n: NodeName, beats: nat) returns (steps: seq<Step>)
    requires ValidConfig(c) && Init(c, s) && Ok(c, s, GuardRead(n))
    requires beats > 0 ==> c.monitorInterval <= c.writeGap
    ensures SoloRun(c, Apply(c, s, GuardRead(n)), n, steps) && UpdateWrites(steps) == beats
    ensures var u := After(c, Apply(c, s, GuardRead(n)), steps);
            && n in u.nodes && u.nodes[n].phase.Holding? && OwnLock(u.block, n)
            && u.block.count == CountPlus(s.block.count, 2 + beats)
            && u.now == s.now + (if MustWait(s, n) then c.lockTimeout else 0.0)
                        + c.collisionTimeout + Span(beats, c.writeGap)
  {
    var t := Apply(c, s, GuardRead(n));
    steps := [];
    if MustWait(s, n) {
      steps := WaitOutStaleLock(c, t, n);
    }
    steps := AcquireFromGuard(c, t, n, steps);
    NextCountWraps(s.total);
    NextCountWraps(s.total + 1);
    steps := Beats(c, t, n, steps, s.total + 2, beats);
    CountAfter(s.total, 2 + beats);
  }

  /** Some number of heartbeats lasts at least `time`. */
  lemma BeatsFor(time: real, gap: real) returns (beats: nat)
    requires time > 0.0 && gap > 0.0
    ensures Span(beats, gap) >= time && beats > 0
  {
    beats := (time / gap).Floor + 1;
    assert time == (time / gap) * gap <= beats as real * gap;
  }

  /** And they last: such a run goes on past any moment, with the lock held. */
  lemma AcquisitionLasts(c: Config, s: State, n: NodeName, time: real) returns (steps: seq<Step>)
    requires ValidConfig(c) && Init(c, s) && Ok(c, s, GuardRead(n)) && c.monitorInterval <= c.writeGap && time > 0.0
    ensures SoloRun(c, Apply(c, s, GuardRead(n)), n, steps)
    ensures var u := After(c, Apply(c, s, GuardRead(n)), steps);
            u.now > s.now + time && n in u.nodes && u.nodes[n].phase.Holding? && OwnLock(u.block, n)
  {
    var beats := BeatsFor(time, c.writeGap);
    steps := AcquisitionExists(c, s, n, beats);
  }
}
