/** The timing bounds of the SF-EX protocol are exact: outside them it admits two holders. */
module SfexTightness {
  import opened SfexTypes
  import opened SfexProtocol
  import opened SfexRuns

  const A: NodeName := [1]
  const B: NodeName := [2]
  const D: NodeName := [3]

  function Fresh(c: Config): Node {
    Node(Down, LockData(Unlock, 0, []), 0, 0.0, -1.0 - c.delta, 0.0)
  }

  /** A freshly initialised disk and three idle nodes. */
  function Start(c: Config): State {
    State(0.0, LockData(Unlock, 0, []), 0, 0.0, map[A := Fresh(c), B := Fresh(c), D := Fresh(c)])
  }

  lemma StartReachable(c: Config)
    requires SaneConfig(c)
    ensures Reachable(c, Start(c))
  {
    assert Run(c, Start(c), []) && After(c, Start(c), []) == Start(c);
  }

  /** `holder` extended its lock and at once lost the block to `thief`, which has just passed its check. */
  predicate TwoHolders(c: Config, s: State, holder: NodeName, thief: NodeName) {
    && holder in s.nodes && thief in s.nodes && holder != thief
    && (forall n <- s.nodes :: n == holder || n == thief || s.nodes[n].phase.Down?)
    && s.nodes[holder].phase.Holding? && s.nodes[thief].phase.Checked? && s.block.owner == thief
    && s.nodes[holder].since == s.nodes[holder].lastWrite == s.nodes[thief].lastWrite == s.now - c.collisionTimeout
  }

  lemma TwoHoldersExclude(c: Config, s: State)
    requires exists holder, thief :: TwoHolders(c, s, holder, thief)
    ensures !MutualExclusion(s)
  {
    var holder, thief :| TwoHolders(c, s, holder, thief);
    assert Critical(s.nodes[holder].phase) && Critical(s.nodes[thief].phase);
  }

  /** With delta >= collision_timeout a slow guarded node overwrites a holder. */
  lemma SlowReserverBreaksIn(c: Config) returns (s: State)
    requires SaneConfig(c) && c.collisionTimeout <= c.delta
    ensures Reachable(c, s) && exists holder, thief :: TwoHolders(c, s, holder, thief)
  {
    StartReachable(c);
    s := Start(c);
    s := ReachStep(c, s, GuardRead(A));
    s := ReachStep(c, s, GuardRead(B));
    s := ReachStep(c, s, Reserve(A));
    s := ReachStep(c, s, Tick(c.collisionTimeout));
    s := ReachStep(c, s, Check(A));
    s := TakeoverBreaksIn(c, s, A, B);
  }

  /** A contender that passes its takeover wait while `holder` is in the collision sleep or just past
      it ends up beside the holder. */
  lemma TakeoverBreaksIn(c: Config, s: State, holder: NodeName, thief: NodeName) returns (t: State)
    requires SaneConfig(c) && Reachable(c, s)
    requires s.nodes.Keys == {A, B, D} && holder in s.nodes && thief in s.nodes && holder != thief
    requires s.nodes[holder].phase.Checked? && s.nodes[thief].phase.Guarded?
    requires forall n <- s.nodes :: n == holder || n == thief || s.nodes[n].phase.Down?
    ensures Reachable(c, t) && TwoHolders(c, t, holder, thief)
  {
    t := ReachStep(c, s, Extend(holder));
    t := ReachStep(c, t, Reserve(thief));
    t := ReachStep(c, t, Tick(c.collisionTimeout));
    t := ReachStep(c, t, Check(thief));
  }

  /** `holder` has reserved and is the block's owner; `thief` waits on a record with the same count. */
  predicate Watched(s: State, holder: NodeName, thief: NodeName) {
    && s.nodes.Keys == {A, B, D} && holder in s.nodes && thief in s.nodes && holder != thief
    && (forall n <- s.nodes :: n == holder || n == thief || s.nodes[n].phase.Down?)
    && s.nodes[holder].phase.Reserved? && s.nodes[holder].ldata.owner == s.block.owner == holder
    && s.nodes[thief].phase.WaitStale? && s.nodes[thief].ldata.count == s.block.count
    && s.nodes[thief].total == s.total
  }

  /** A wait that ends while the watched reserver may still be silent admits a second holder. */
  lemma WatchedBreaks(c: Config, s: State, holder: NodeName, thief: NodeName, dt: real) returns (t: State)
    requires SaneConfig(c) && Reachable(c, s) && Watched(s, holder, thief) && dt > 0.0
    requires s.nodes[holder].since + c.collisionTimeout <= s.now + dt <= s.nodes[holder].lastWrite + c.writeGap
    requires s.nodes[thief].since + c.lockTimeout <= s.now + dt
    ensures Reachable(c, t) && TwoHolders(c, t, holder, thief)
  {
    t := ReachStep(c, s, Tick(dt));
    t := ReachStep(c, t, Check(holder));
    t := ReachStep(c, t, Reread(thief));
    t := TakeoverBreaksIn(c, t, holder, thief);
  }

  lemma SoleReserver(c: Config) returns (s: State)
    requires SaneConfig(c)
    ensures Reachable(c, s) && s.now == 0.0 && s.nodes.Keys == {A, B, D}
    ensures s.nodes[A].phase.Reserved? && s.nodes[A].since == s.nodes[A].lastWrite == 0.0
    ensures s.nodes[A].ldata == s.block == LockData(Lock, 1, A) && s.nodes[A].total == s.total == 1
    ensures s.nodes[B] == s.nodes[D] == Fresh(c)
  {
    StartReachable(c);
    s := ReachStep(c, Start(c), GuardRead(A));
    s := ReachStep(c, s, Reserve(A));
  }

  /** With lock_timeout <= writeGap a takeover wait fits between two writes of a reserver. */
  lemma ShortLeaseBreaks(c: Config) returns (s: State)
    requires SaneConfig(c) && c.lockTimeout <= c.writeGap
    ensures Reachable(c, s) && exists holder, thief :: TwoHolders(c, s, holder, thief)
  {
    s := SoleReserver(c);
    if c.lockTimeout < c.collisionTimeout {
      s := ReachStep(c, s, Tick(c.collisionTimeout - c.lockTimeout));
    }
    s := ReachStep(c, s, GuardRead(D));
    s := WatchedBreaks(c, s, A, D, c.lockTimeout);
  }

  /** A and B pass their guards together, A reserves and dies, D starts to watch A's record. */
  lemma CollisionUnderWatch(c: Config) returns (s: State)
    requires SaneConfig(c)
    ensures Reachable(c, s) && s.now == 0.0 && s.nodes.Keys == {A, B, D}
    ensures s.nodes[A].phase.Down? && s.nodes[B].phase.Guarded? && s.nodes[D].phase.WaitStale?
    ensures s.nodes[B].since == s.nodes[D].since == 0.0
    ensures s.nodes[B].total == 0 && s.nodes[B].ldata.count == 0
    ensures s.nodes[D].total == 1 && s.nodes[D].ldata.count == 1
  {
    StartReachable(c);
    s := ReachStep(c, Start(c), GuardRead(A));
    s := ReachStep(c, s, GuardRead(B));
    s := ReachStep(c, s, Reserve(A));
    s := ReachStep(c, s, GuardRead(D));
    s := ReachStep(c, s, Crash(A));
  }

  /** With writeGap < lock_timeout <= writeGap + delta a collision just after the first read
      renews the lease without moving the counter. */
  lemma LateCollisionBreaks(c: Config) returns (s: State)
    requires SaneConfig(c) && c.writeGap < c.lockTimeout <= c.writeGap + c.delta
    ensures Reachable(c, s) && exists holder, thief :: TwoHolders(c, s, holder, thief)
  {
    s := CollisionUnderWatch(c);
    s := ReachStep(c, s, Tick(c.lockTimeout - c.writeGap));
    s := ReachStep(c, s, Reserve(B));
    s := WatchedBreaks(c, s, B, D, c.writeGap);
  }

  /** The exact condition: every timely run of every cluster keeps at most one node past the
      collision check if and only if delta < collision_timeout and writeGap + delta < lock_timeout. */
  lemma SafeExactlyWithinTimeouts(c: Config)
    requires SaneConfig(c)
    ensures (forall s :: Reachable(c, s) ==> MutualExclusion(s)) <==> SafeTimeouts(c)
  {
    if SafeTimeouts(c) {
      forall s | Reachable(c, s) ensures MutualExclusion(s) {
        ReachableInv(c, s);
        InvExcludes(c, s);
      }
    } else {
      var s := TwoHoldersReachable(c);
      TwoHoldersExclude(c, s);
    }
  }

  /** Outside the safe timeouts a state with two holders is reachable. */
  lemma TwoHoldersReachable(c: Config) returns (s: State)
    requires SaneConfig(c) && !SafeTimeouts(c)
    ensures Reachable(c, s) && exists holder, thief :: TwoHolders(c, s, holder, thief)
  {
    if c.collisionTimeout <= c.delta {
      s := SlowReserverBreaksIn(c);
    } else if c.lockTimeout <= c.writeGap {
      s := ShortLeaseBreaks(c);
    } else {
      s := LateCollisionBreaks(c);
    }
  }
}
