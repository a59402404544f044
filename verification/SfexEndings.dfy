/** How an SF-EX node leaves the protocol (tools/sfex_daemon.c): fenced when its lock is lost, or
    terminated after it has given its lock back; and that it sleeps as long as it should. */
module SfexEndings {
  import opened SfexTypes
  import opened SfexProtocol
  import opened SfexRuns
  import opened SfexTightness

  // ---------------------------------------------------------------- fencing

  /** Timely or not, a step fences a node exactly if it is that node's update and the block is not a lock
      in its name; an update that finds its own lock goes on to the heartbeat. */
  lemma FencedExactly(c: Config, s: State, step: Step, n: NodeName)
    requires Enabled(c, s, step) && n in s.nodes && !s.nodes[n].phase.Fenced?
    ensures var t := Apply(c, s, step);
            n in t.nodes
            && (t.nodes[n].phase.Fenced? <==> step == UpdateRead(n) && (s.block.status != Lock || s.block.owner != n))
            && (step == UpdateRead(n) && s.block.status == Lock && s.block.owner == n ==> t.nodes[n].phase.Updating?)
  {
    OthersUnchanged(c, s, step);
  }

  /** The displaced node of a two-holder state is fenced at its next update. */
  lemma DisplacedHolderFenced(c: Config, s: State, holder: NodeName, thief: NodeName) returns (t: State)
    requires SaneConfig(c) && c.monitorInterval <= c.writeGap && Reachable(c, s) && TwoHolders(c, s, holder, thief)
    ensures Reachable(c, t) && holder in t.nodes && t.nodes[holder].phase.Fenced?
  {
    t := s;
    if c.monitorInterval > c.collisionTimeout {
      t := ReachStep(c, t, Tick(c.monitorInterval - c.collisionTimeout));
    }
    t := ReachStep(c, t, UpdateRead(holder));
  }

  /** No node is ever fenced if and only if the timeouts are safe, wherever a holder can heartbeat. */
  lemma FencedExactlyOutside(c: Config)
    requires SaneConfig(c) && c.monitorInterval <= c.writeGap
    ensures (forall s, n :: Reachable(c, s) && n in s.nodes ==> !s.nodes[n].phase.Fenced?) <==> SafeTimeouts(c)
  {
    if SafeTimeouts(c) {
      forall s, n | Reachable(c, s) && n in s.nodes ensures !s.nodes[n].phase.Fenced? {
        ReachableInv(c, s);
        assert NodeInv(c, s, n);
      }
    } else {
      var s := TwoHoldersReachable(c);
      var holder, thief :| TwoHolders(c, s, holder, thief);
      var t := DisplacedHolderFenced(c, s, holder, thief);
    }
  }

  // ------------------------------------------------------------ termination

  predicate IsRunning(p: Phase) {
    p.WaitStale? || p.Guarded? || p.Reserved? || p.Checked? || p.Holding? || p.Updating?
  }

  /** SIGTERM in any phase of a running node: over its own lock the write that follows unlocks the block,
      keeps count and owner and ends the node; over any other block the node ends without a write. */
  lemma TerminationReleases(c: Config, s: State, n: NodeName)
    requires n in s.nodes && IsRunning(s.nodes[n].phase)
    ensures Enabled(c, s, TermRead(n))
    ensures var t := Apply(c, s, TermRead(n));
            t.block == s.block
            && if OwnLock(s.block, n)
               then Enabled(c, t, ReleaseWrite(n))
                    && var u := Apply(c, t, ReleaseWrite(n));
                       u.block == LockData(Unlock, s.block.count, n) && u.total == s.total && u.nodes[n].phase.Down?
               else t.nodes[n].phase.Down?
  {
  }

  /** A node that dies in any phase leaves the block as it is, its own lock included. */
  lemma CrashLeavesLock(c: Config, s: State, n: NodeName)
    requires n in s.nodes && !s.nodes[n].phase.Down?
    ensures Enabled(c, s, Crash(n))
    ensures var t := Apply(c, s, Crash(n)); t.block == s.block && t.total == s.total && t.nodes[n].phase.Down?
  {
  }

  /** A node that has found its own lock on termination can only unlock it or die. */
  lemma ReleasingOnlyReleases(c: Config, s: State, step: Step, n: NodeName)
    requires Enabled(c, s, step) && n in s.nodes && s.nodes[n].phase.Releasing?
    ensures step.Tick? || step.node != n || step == ReleaseWrite(n) || step == Crash(n)
  {
  }

  predicate NoCrash(steps: seq<Step>, n: NodeName) {
    forall i | 0 <= i < |steps| :: steps[i] != Crash(n)
  }

  /** While a terminated node has not written, the block keeps its record and time stays below the
      deadline; its write, number `k` of the run, unlocks the block. */
  lemma {:induction false} ReleaseRun(c: Config, s: State, n: NodeName, steps: seq<Step>) returns (k: nat)
    requires ValidConfig(c) && Inv(c, s) && Run(c, s, steps) && NoCrash(steps, n)
    requires n in s.nodes && s.nodes[n].phase.Releasing?
    ensures k <= |steps|
    ensures k == |steps| ==> After(c, s, steps).now <= s.nodes[n].lastWrite + c.writeGap
    ensures k < |steps| ==>
              steps[k] == ReleaseWrite(n) && Run(c, s, steps[..k + 1])
              && var u := After(c, s, steps[..k + 1]);
                 u.block == s.block.(status := Unlock) && n in u.nodes && u.nodes[n].phase.Down?
                 && u.now <= s.nodes[n].lastWrite + c.writeGap
    decreases |steps|
  {
    k := 0;
    assert NodeInv(c, s, n);
    if steps != [] {
      var t := Apply(c, s, steps[0]);
      assert steps[0] != Crash(n);
      if steps[0] == ReleaseWrite(n) {
        assert steps[..1][1..] == [] && After(c, t, []) == t;
      } else {
        ReleasingStep(c, s, steps[0], n);
        k := ReleaseRun(c, t, n, steps[1..]);
        if k < |steps[1..]| {
          assert steps[..k + 2][1..] == steps[1..][..k + 1] && steps[..k + 2][0] == steps[0];
        }
        k := k + 1;
      }
    }
  }

  /** Any other step leaves the node and its record as they are. */
  lemma ReleasingStep(c: Config, s: State, step: Step, n: NodeName)
    requires ValidConfig(c) && Inv(c, s) && Ok(c, s, step) && n in s.nodes && s.nodes[n].phase.Releasing?
    requires step != Crash(n) && step != ReleaseWrite(n)
    ensures var t := Apply(c, s, step); Inv(c, t) && n in t.nodes && t.nodes[n] == s.nodes[n] && t.block == s.block
  {
    ReleasingOnlyReleases(c, s, step, n);
    OthersUnchanged(c, s, step);
    StepInv(c, s, step);
    assert NodeInv(c, s, n) && NodeInv(c, Apply(c, s, step), n);
  }

  /** Along every timely run a terminated node that is not killed has unlocked its block, with count and
      owner unchanged, at the latest writeGap after its last write. */
  lemma TerminatedUnlocks(c: Config, s: State, n: NodeName, steps: seq<Step>) returns (k: nat)
    requires ValidConfig(c) && Reachable(c, s) && Ok(c, s, TermRead(n)) && OwnLock(s.block, n)
    requires Run(c, Apply(c, s, TermRead(n)), steps) && NoCrash(steps, n)
    requires After(c, Apply(c, s, TermRead(n)), steps).now > s.nodes[n].lastWrite + c.writeGap
    ensures var t := Apply(c, s, TermRead(n));
            && k < |steps| && steps[k] == ReleaseWrite(n) && Run(c, t, steps[..k + 1])
            && var u := After(c, t, steps[..k + 1]);
               u.block == LockData(Unlock, s.block.count, n) && n in u.nodes && u.nodes[n].phase.Down?
               && u.now <= s.nodes[n].lastWrite + c.writeGap
  {
    ReachableInv(c, s);
    StepInv(c, s, TermRead(n));
    k := ReleaseRun(c, Apply(c, s, TermRead(n)), n, steps);
  }

  // ----------------------------------------------------------------- sleeps

  /** The sleep that the step ends. */
  function SleepBefore(c: Config, step: Step): real {
    match step
    case Reread(_) => c.lockTimeout
    case Check(_) => c.collisionTimeout
    case UpdateRead(_) => c.monitorInterval
    case _ => 0.0
  }

  /** Whatever the other nodes do meanwhile, a node sleeps at least as long as the code says: lock_timeout
      before it takes over, collision_timeout before its check, monitor_interval between heartbeats. */
  lemma SleepsKept(c: Config, s: State, n: NodeName, steps: seq<Step>, step: Step)
    requires n in s.nodes && Run(c, s, steps) && NotBy(steps, n)
    requires !step.Tick? && step.node == n && Ok(c, After(c, s, steps), step) && s.nodes[n].since == s.now
    ensures After(c, s, steps).now >= s.now + SleepBefore(c, step)
  {
    SleeperUnchanged(c, s, steps, n);
    TimePasses(c, s, steps);
  }

  lemma {:induction false} TimePasses(c: Config, s: State, steps: seq<Step>)
    requires Run(c, s, steps)
    ensures After(c, s, steps).now >= s.now
    decreases |steps|
  {
    if steps != [] {
      TimePasses(c, Apply(c, s, steps[0]), steps[1..]);
    }
  }
}
