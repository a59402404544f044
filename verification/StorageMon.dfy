/** The storage_mon daemon (tools/storage_mon.c): rounds of device tests in child processes, driven
    by SIGCHLD, an expiry timer, a round timer and client queries; and the one-shot polling mode. */
module StorageMon {
  import opened StorageScore

  /** `scores[i]` is added when device `i` fails; times are in seconds. */
  datatype Config = Config(scores: seq<nat>, timeout: real, interval: real)

  predicate ValidConfig(c: Config) {
    |c.scores| > 0 && (forall k <- c.scores :: 1 <= k <= 10) && c.timeout > 0.0 && c.interval > 0.0
  }

  // ------------------------------------------------------------------- state

  /** A child that has exited and was not waited for yet. */
  datatype Child = Child(pid: nat, status: int)

  datatype State = State(
    forks: seq<nat>,        // test_forks: the pid testing each device, 0 for none
    final: int,             // final_score
    response: int,          // response_final_score
    finished: nat,          // finished_count
    first: bool,            // daemon_check_first_all_devices
    armed: seq<real>,       // deadlines of the pending expiry timers, oldest first
    roundAt: real,          // deadline of the round timer
    zombies: seq<Child>,
    logs: seq<seq<Entry>>)  // what happened in each round so far, the present one last

  datatype Event =
    | Round(now: real, later: real, pids: seq<nat>)  // the round timer fires; `now` is the clock when the expiry timer
                                                     // is armed, `later` when the next round timer is, and `pids` are
                                                     // what fork returns
    | Expire                                         // the oldest expiry timer fires
    | ChildExit(device: nat, status: int)            // a test process ends
    | Sigchld                                        // the SIGCHLD handler runs

  function Start(c: Config): State {
    State(seq(|c.scores|, _ => 0), 0, 0, 0, false, [], 0.0, [], [])
  }

  predicate Running(forks: seq<nat>) {
    exists i | 0 <= i < |forks| :: forks[i] != 0
  }

  /** find_child_pid; |forks| stands for its -1. */
  function FindChild(forks: seq<nat>, pid: nat): (k: nat)
    ensures k <= |forks|
    ensures k < |forks| ==> forks[k] == pid > 0
    ensures k == |forks| && pid > 0 ==> pid !in forks
  {
    if forks == [] then 0
    else if forks[0] > 0 && forks[0] == pid then 0
    else 1 + FindChild(forks[1..], pid)
  }

  function AddEntry(s: State, e: Entry): seq<seq<Entry>> {
    if s.logs == [] then [] else s.logs[..|s.logs| - 1] + [s.logs[|s.logs| - 1] + [e]]
  }

  // ------------------------------------------------------------- transitions

  /** sigchld_handler's work for one child, found at index `k` of the table. */
  function Reap(c: Config, s: State, k: nat, status: int): State
    requires k < |s.forks| == |c.scores|
  {
    var bad := s.armed != [] && status != 0;
    var final := if bad then s.final + c.scores[k] else s.final;
    var done := s.finished + 1 == |c.scores|;
    s.(forks := s.forks[k := 0], finished := s.finished + 1, final := final,
       response := if bad || done then final else s.response,
       first := s.first || bad || done,
       logs := AddEntry(s, Reaped(k, status)))
  }

  /** Every waiting child is in the table. */
  predicate Known(forks: seq<nat>, zombies: seq<Child>) {
    && (forall i, j | 0 <= i < j < |zombies| :: zombies[i].pid != zombies[j].pid)
    && (forall i | 0 <= i < |zombies| :: zombies[i].pid > 0 && zombies[i].pid in forks)
    && (forall i, j | 0 <= i < j < |forks| :: forks[i] != 0 ==> forks[i] != forks[j])
  }

  lemma KnownAfterReap(forks: seq<nat>, zombies: seq<Child>)
    requires Known(forks, zombies) && zombies != []
    ensures FindChild(forks, zombies[0].pid) < |forks|
    ensures Known(forks[FindChild(forks, zombies[0].pid) := 0], zombies[1..])
  {
    var first := zombies[0].pid;
    assert first in forks;
    var k := FindChild(forks, first);
    var left, rest := forks[k := 0], zombies[1..];
    forall i | 0 <= i < |rest| ensures rest[i].pid > 0 && rest[i].pid in left {
      assert rest[i] == zombies[i + 1];
      StillThere(forks, k, rest[i].pid);
    }
    forall i, j | 0 <= i < j < |rest| ensures rest[i].pid != rest[j].pid {
      assert rest[i] == zombies[i + 1] && rest[j] == zombies[j + 1];
    }
  }

  lemma StillThere(forks: seq<nat>, k: nat, pid: nat)
    requires k < |forks| && forks[k] != pid && pid in forks
    ensures pid in forks[k := 0]
  {
    var j :| 0 <= j < |forks| && forks[j] == pid;
    assert forks[k := 0][j] == pid;
  }

  /** The waitpid loop of sigchld_handler. */
  function ReapAll(c: Config, s: State): State
    requires |s.forks| == |c.scores| && Known(s.forks, s.zombies)
    decreases |s.zombies|
  {
    if s.zombies == [] then s
    else
      KnownAfterReap(s.forks, s.zombies);
      var k := FindChild(s.forks, s.zombies[0].pid);
      ReapAll(c, Reap(c, s, k, s.zombies[0].status).(zombies := s.zombies[1..]))
  }

  function RunningFlags(forks: seq<nat>): seq<bool> {
    seq(|forks|, i requires 0 <= i < |forks| => forks[i] != 0)
  }

  /** Timers fire in the order of their deadlines and on a tie in the order of arming, in which a
      pending round timer comes after every pending expiry timer; forks return distinct live pids.
      The two conditions on the table hold in every reachable state anyway (`TableSound`). */
  predicate Enabled(c: Config, s: State, e: Event) {
    |s.forks| == |c.scores| && Known(s.forks, s.zombies) &&
    match e
    case Round(now, later, pids) =>
      && s.roundAt <= now <= later && (s.armed == [] || s.roundAt < s.armed[0])
      && |pids| == |c.scores| && (forall i | 0 <= i < |pids| :: pids[i] > 0)
      && (forall i, j | 0 <= i < j < |pids| :: pids[i] != pids[j])
    case Expire => s.armed != [] && s.armed[0] <= s.roundAt
    case ChildExit(i, _) =>
      i < |s.forks| && s.forks[i] != 0 && forall k | 0 <= k < |s.zombies| :: s.zombies[k].pid != s.forks[i]
    case Sigchld => true
  }

  /** The effect of one handler, as the code defines it. */
  function Apply(c: Config, s: State, e: Event): State
    requires Enabled(c, s, e)
  {
    match e
    case Round(now, later, pids) =>
      if Running(s.forks) then s.(roundAt := later + c.interval)
      else s.(forks := pids, final := 0, finished := 0, armed := s.armed + [now + c.timeout],
              roundAt := later + c.interval, logs := s.logs + [[]])
    case Expire =>
      var t := s.(armed := s.armed[1..], logs := AddEntry(s, Expired));
      if !Running(s.forks) then t
      else
        var final := s.final + Sum(c.scores, RunningFlags(s.forks), |c.scores|);
        t.(final := final, response := final, first := true)
    case ChildExit(i, status) => s.(zombies := s.zombies + [Child(s.forks[i], status)])
    case Sigchld => if Running(s.forks) then ReapAll(c, s) else s
  }

  /** storage_mon_ipcs_msg_process_fn: the score sent to a client. */
  function Reply(s: State, valid: bool): int {
    if !valid then -1 else if !s.first then -2 else s.response
  }

  predicate Run(c: Config, s: State, events: seq<Event>)
    decreases |events|
  {
    events == [] || (Enabled(c, s, events[0]) && Run(c, Apply(c, s, events[0]), events[1..]))
  }

  function After(c: Config, s: State, events: seq<Event>): State
    requires Run(c, s, events)
    decreases |events|
  {
    if events == [] then s else After(c, Apply(c, s, events[0]), events[1..])
  }

  // --------------------------------------------------------------- invariant

  function Current(s: State): seq<Entry>
    requires s.logs != []
  {
    s.logs[|s.logs| - 1]
  }

  function Ended(forks: seq<nat>): seq<bool> {
    seq(|forks|, i requires 0 <= i < |forks| => forks[i] == 0)
  }

  function Count(flags: seq<bool>): nat {
    if flags == [] then 0 else (if flags[0] then 1 else 0) + Count(flags[1..])
  }

  /** A round has told clients something: it ended, or some device was bad. */
  predicate Telling(c: Config, log: seq<Entry>) {
    Complete(log, |c.scores|) || RoundScore(c.scores, log) > 0
  }

  predicate RoundInv(c: Config, s: State)
    requires s.logs != [] && |s.forks| == |c.scores|
  {
    var log := Current(s);
    && (forall i: nat | i < |s.forks| :: s.forks[i] == 0 <==> IsReaped(log, i))
    && s.finished == Count(Ended(s.forks))
    && s.final == RoundScore(c.scores, log)
    && (s.armed == [] <==> Expired in log)
    && |s.armed| <= 1
  }

  predicate Inv(c: Config, s: State) {
    && |s.forks| == |c.scores| && Known(s.forks, s.zombies)
    && (s.armed != [] ==> s.armed[0] <= s.roundAt)
    && (s.logs == [] ==> s == Start(c))
    && (s.logs != [] ==> RoundInv(c, s))
    && (forall r | 0 <= r < |s.logs| - 1 :: Complete(s.logs[r], |c.scores|))
    && Told(c, s)
  }

  /** Clients are told something once a round told it, and what the last telling round did. */
  predicate Told(c: Config, s: State) {
    && (s.first <==> |s.logs| >= 2 || (|s.logs| == 1 && Telling(c, s.logs[0])))
    && (s.first ==>
          s.response == if Telling(c, Current(s)) then s.final else RoundScore(c.scores, s.logs[|s.logs| - 2]))
  }

  lemma {:induction false} CountSet(flags: seq<bool>, k: nat)
    requires k < |flags| && !flags[k]
    ensures Count(flags[k := true]) == Count(flags) + 1
    decreases |flags|
  {
    if k == 0 {
      assert flags[k := true][1..] == flags[1..];
    } else {
      assert flags[k := true][1..] == flags[1..][k - 1 := true];
      CountSet(flags[1..], k - 1);
    }
  }

  lemma {:induction false} CountAll(flags: seq<bool>)
    ensures Count(flags) <= |flags|
    ensures Count(flags) == |flags| <==> forall i | 0 <= i < |flags| :: flags[i]
    decreases |flags|
  {
    if flags != [] {
      CountAll(flags[1..]);
      assert flags == [flags[0]] + flags[1..];
    }
  }

  lemma {:induction false} CountSplit(forks: seq<nat>)
    ensures Count(Ended(forks)) + Count(RunningFlags(forks)) == |forks|
    decreases |forks|
  {
    if forks != [] {
      assert Ended(forks)[1..] == Ended(forks[1..]);
      assert RunningFlags(forks)[1..] == RunningFlags(forks[1..]);
      CountSplit(forks[1..]);
    }
  }

  lemma ReapedAppend(log: seq<Entry>, e: Entry, i: nat)
    ensures IsReaped(log + [e], i) <==> IsReaped(log, i) || (e.Reaped? && e.device == i)
  {
    if IsReaped(log, i) {
      var x :| x in log && x.Reaped? && x.device == i;
      assert x in log + [e];
    }
    if e.Reaped? && e.device == i {
      assert e in log + [e];
    }
  }

  /** The table, the count and the log agree on the end of device `k`. */
  lemma ReapRound(c: Config, s: State, k: nat, status: int)
    requires ValidConfig(c) && Inv(c, s) && k < |s.forks| && s.forks[k] != 0 && s.logs != []
    ensures RoundInv(c, Reap(c, s, k, status))
    ensures Complete(Current(Reap(c, s, k, status)), |c.scores|) <==> s.finished + 1 == |c.scores|
    ensures !Complete(Current(s), |c.scores|)
  {
    var t := Reap(c, s, k, status);
    var log := Current(s);
    assert Current(t) == log + [Reaped(k, status)];
    forall i: nat | i < |t.forks| ensures t.forks[i] == 0 <==> IsReaped(Current(t), i) {
      ReapedAppend(log, Reaped(k, status), i);
    }
    assert Ended(t.forks) == Ended(s.forks)[k := true];
    CountSet(Ended(s.forks), k);
    CountAll(Ended(t.forks));
    ScoreReaped(c.scores, log, k, status);
    assert !IsReaped(log, k);
    if s.finished + 1 == |c.scores| {
      forall i: nat | i < |c.scores| ensures IsReaped(Current(t), i) {
        assert Ended(t.forks)[i];
      }
    } else {
      var i :| 0 <= i < |t.forks| && !Ended(t.forks)[i];
      assert !IsReaped(Current(t), i);
    }
  }

  lemma ReapInv(c: Config, s: State)
    requires ValidConfig(c) && Inv(c, s) && s.zombies != []
    ensures FindChild(s.forks, s.zombies[0].pid) < |s.forks|
    ensures Inv(c, Reap(c, s, FindChild(s.forks, s.zombies[0].pid), s.zombies[0].status).(zombies := s.zombies[1..]))
  {
    KnownAfterReap(s.forks, s.zombies);
    var k, status := FindChild(s.forks, s.zombies[0].pid), s.zombies[0].status;
    assert s.forks[k] != 0;
    ReapRound(c, s, k, status);
    ReapTells(c, s, k, status);
  }

  /** What clients are told follows the end of device `k`. */
  lemma ReapTells(c: Config, s: State, k: nat, status: int)
    requires ValidConfig(c) && Inv(c, s) && k < |s.forks| && s.forks[k] != 0 && s.logs != []
    ensures Told(c, Reap(c, s, k, status))
  {
    ReapRound(c, s, k, status);
    var t := Reap(c, s, k, status);
    assert Current(t) == Current(s) + [Reaped(k, status)];
    ScoreReaped(c.scores, Current(s), k, status);
    assert c.scores[k] in c.scores;
  }

  lemma {:induction false} ReapAllInv(c: Config, s: State)
    requires ValidConfig(c) && Inv(c, s)
    ensures Inv(c, ReapAll(c, s))
    decreases |s.zombies|
  {
    if s.zombies != [] {
      ReapInv(c, s);
      ReapAllInv(c, Reap(c, s, FindChild(s.forks, s.zombies[0].pid), s.zombies[0].status).(zombies := s.zombies[1..]));
    }
  }

  lemma ExpireRound(c: Config, s: State)
    requires ValidConfig(c) && Inv(c, s) && Enabled(c, s, Expire)
    ensures s.logs != [] && RoundInv(c, Apply(c, s, Expire))
    ensures Current(Apply(c, s, Expire)) == Current(s) + [Expired]
    ensures Complete(Current(s) + [Expired], |c.scores|) <==> Complete(Current(s), |c.scores|)
    ensures RoundScore(c.scores, Current(s) + [Expired]) > 0
            <==> RoundScore(c.scores, Current(s)) > 0 || Running(s.forks)
  {
    var t := Apply(c, s, Expire);
    var log := Current(s);
    assert Current(t) == log + [Expired];
    forall i: nat | i < |c.scores| ensures IsReaped(log + [Expired], i) <==> IsReaped(log, i) {
      ReapedAppend(log, Expired, i);
    }
    ScoreExpired(c.scores, log, RunningFlags(s.forks));
    assert forall x <- c.scores :: x > 0;
    SumBounds(c.scores, RunningFlags(s.forks), |c.scores|);
    assert Running(s.forks) <==> exists i | 0 <= i < |c.scores| :: RunningFlags(s.forks)[i];
  }

  lemma ExpireInv(c: Config, s: State)
    requires ValidConfig(c) && Inv(c, s) && Enabled(c, s, Expire)
    ensures Inv(c, Apply(c, s, Expire))
  {
    ExpireRound(c, s);
  }

  lemma RoundInvStep(c: Config, s: State, now: real, later: real, pids: seq<nat>)
    requires ValidConfig(c) && c.timeout <= c.interval && Inv(c, s) && Enabled(c, s, Round(now, later, pids))
    ensures Inv(c, Apply(c, s, Round(now, later, pids)))
  {
    if !Running(s.forks) {
      var t := Apply(c, s, Round(now, later, pids));
      NoZombies(s.forks, s.zombies);
      assert s.logs != [] ==> Complete(Current(s), |c.scores|);
      FreshRound(c, pids);
    }
  }

  lemma NoZombies(forks: seq<nat>, zombies: seq<Child>)
    requires Known(forks, zombies) && !Running(forks)
    ensures zombies == []
  {
    if zombies != [] {
      KnownAfterReap(forks, zombies);
    }
  }

  lemma FreshRound(c: Config, pids: seq<nat>)
    requires ValidConfig(c) && |pids| == |c.scores| && forall i | 0 <= i < |pids| :: pids[i] > 0
    ensures RoundScore(c.scores, []) == 0 && Count(Ended(pids)) == 0 && !Complete([], |c.scores|)
  {
    assert forall x <- c.scores :: x > 0;
    ScoreBounds(c.scores, []);
    NoneCounted(Ended(pids));
    assert !IsReaped([], 0);
  }

  lemma {:induction false} NoneCounted(flags: seq<bool>)
    requires forall i | 0 <= i < |flags| :: !flags[i]
    ensures Count(flags) == 0
    decreases |flags|
  {
    if flags != [] {
      NoneCounted(flags[1..]);
    }
  }

  lemma StepInv(c: Config, s: State, e: Event)
    requires ValidConfig(c) && c.timeout <= c.interval && Inv(c, s) && Enabled(c, s, e)
    ensures Inv(c, Apply(c, s, e))
  {
    match e
    case Round(now, later, pids) => RoundInvStep(c, s, now, later, pids);
    case Expire => ExpireInv(c, s);
    case ChildExit(i, _) =>
      assert s.forks[i] in s.forks;
    case Sigchld => ReapAllInv(c, s);
  }

  lemma {:induction false} RunInv(c: Config, s: State, events: seq<Event>)
    requires ValidConfig(c) && c.timeout <= c.interval && Inv(c, s) && Run(c, s, events)
    ensures Inv(c, After(c, s, events))
    decreases |events|
  {
    if events != [] {
      StepInv(c, s, events[0]);
      RunInv(c, Apply(c, s, events[0]), events[1..]);
    }
  }

  ghost predicate Reachable(c: Config, s: State) {
    exists events :: Run(c, Start(c), events) && After(c, Start(c), events) == s
  }

  lemma ReachableInv(c: Config, s: State)
    requires ValidConfig(c) && c.timeout <= c.interval && Reachable(c, s)
    ensures Inv(c, s)
  {
    var events :| Run(c, Start(c), events) && After(c, Start(c), events) == s;
    RunInv(c, Start(c), events);
  }

  // -------------------------------------------------------------- properties

  /** In every interleaving of a round: each device is either counted as finished or in the table,
      and the score counts each device that failed in time or ran at expiry exactly once. */
  lemma RoundAccounting(c: Config, s: State)
    requires ValidConfig(c) && c.timeout <= c.interval && Reachable(c, s) && s.logs != []
    ensures s.finished + Count(RunningFlags(s.forks)) == |c.scores|
    ensures s.final == RoundScore(c.scores, Current(s)) <= Total(c.scores)
  {
    ReachableInv(c, s);
    CountSplit(s.forks);
    assert forall x <- c.scores :: x > 0;
    ScoreBounds(c.scores, Current(s));
  }

  lemma {:induction false} ReapAllKnown(c: Config, s: State)
    requires |s.forks| == |c.scores| && Known(s.forks, s.zombies)
    ensures |ReapAll(c, s).forks| == |c.scores| && Known(ReapAll(c, s).forks, ReapAll(c, s).zombies)
    decreases |s.zombies|
  {
    if s.zombies != [] {
      KnownAfterReap(s.forks, s.zombies);
      var k := FindChild(s.forks, s.zombies[0].pid);
      ReapAllKnown(c, Reap(c, s, k, s.zombies[0].status).(zombies := s.zombies[1..]));
    }
  }

  lemma KnownStep(c: Config, s: State, e: Event)
    requires Enabled(c, s, e)
    ensures |Apply(c, s, e).forks| == |c.scores| && Known(Apply(c, s, e).forks, Apply(c, s, e).zombies)
  {
    match e
    case Round(now, later, pids) =>
      if !Running(s.forks) {
        NoZombies(s.forks, s.zombies);
      }
    case Expire =>
    case ChildExit(i, _) =>
      assert s.forks[i] in s.forks;
    case Sigchld => ReapAllKnown(c, s);
  }

  lemma {:induction false} KnownRun(c: Config, s: State, events: seq<Event>)
    requires |s.forks| == |c.scores| && Known(s.forks, s.zombies) && Run(c, s, events)
    ensures |After(c, s, events).forks| == |c.scores| && Known(After(c, s, events).forks, After(c, s, events).zombies)
    decreases |events|
  {
    if events != [] {
      KnownStep(c, s, events[0]);
      KnownRun(c, Apply(c, s, events[0]), events[1..]);
    }
  }

  /** In every run of every configuration, overlapping rounds included, the table has an entry for each
      device, the pids in it differ, and every child that is waited for is in it. */
  lemma TableSound(c: Config, s: State)
    requires Reachable(c, s)
    ensures |s.forks| == |c.scores| && Known(s.forks, s.zombies)
  {
    var events :| Run(c, Start(c), events) && After(c, Start(c), events) == s;
    KnownRun(c, Start(c), events);
  }

  /** The handler never looks up a pid that is not in the table. */
  lemma EveryChildFound(c: Config, s: State, k: nat)
    requires Reachable(c, s) && k < |s.zombies|
    ensures FindChild(s.forks, s.zombies[k].pid) < |s.forks|
  {
    TableSound(c, s);
    assert s.zombies[k].pid in s.forks;
  }

  /** A child with this pid waits. */
  predicate Waits(zombies: seq<Child>, pid: nat) {
    exists z <- zombies :: z.pid == pid
  }

  /** After the handler's loop no child waits, and the table has lost exactly those that did. */
  lemma {:induction false} ReapAllForks(c: Config, s: State)
    requires |s.forks| == |c.scores| && Known(s.forks, s.zombies)
    ensures var t := ReapAll(c, s);
            && t.zombies == [] && t.finished == s.finished + |s.zombies| && |t.forks| == |s.forks|
            && forall k | 0 <= k < |s.forks| :: t.forks[k] == if Waits(s.zombies, s.forks[k]) then 0 else s.forks[k]
    decreases |s.zombies|
  {
    if s.zombies != [] {
      KnownAfterReap(s.forks, s.zombies);
      var k := FindChild(s.forks, s.zombies[0].pid);
      var r := Reap(c, s, k, s.zombies[0].status).(zombies := s.zombies[1..]);
      ReapAllForks(c, r);
      assert s.zombies == [s.zombies[0]] + r.zombies;
      forall j | 0 <= j < |s.forks|
        ensures ReapAll(c, s).forks[j] == if Waits(s.zombies, s.forks[j]) then 0 else s.forks[j]
      {
        WaitsSplit(s.zombies, s.forks[j]);
      }
    }
  }

  lemma WaitsSplit(zombies: seq<Child>, pid: nat)
    requires zombies != []
    ensures Waits(zombies, pid) <==> zombies[0].pid == pid || Waits(zombies[1..], pid)
  {
    assert zombies == [zombies[0]] + zombies[1..];
  }

  /** The loop logs the end of each waiting child under its device, with its own exit status. */
  lemma {:induction false} ReapAllLogs(c: Config, s: State)
    requires |s.forks| == |c.scores| && Known(s.forks, s.zombies) && s.logs != []
    ensures ReapAll(c, s).logs != [] && Current(s) <= Current(ReapAll(c, s))
    ensures forall k, i | 0 <= k < |s.forks| && 0 <= i < |s.zombies| && s.zombies[i].pid == s.forks[k] ::
              Reaped(k, s.zombies[i].status) in Current(ReapAll(c, s))
    decreases |s.zombies|
  {
    if s.zombies != [] {
      KnownAfterReap(s.forks, s.zombies);
      var k0 := FindChild(s.forks, s.zombies[0].pid);
      var r := Reap(c, s, k0, s.zombies[0].status).(zombies := s.zombies[1..]);
      assert Current(r) == Current(s) + [Reaped(k0, s.zombies[0].status)];
      ReapAllLogs(c, r);
      assert Reaped(k0, s.zombies[0].status) in Current(r);
      forall k, i | 0 <= k < |s.forks| && 0 <= i < |s.zombies| && s.zombies[i].pid == s.forks[k]
        ensures Reaped(k, s.zombies[i].status) in Current(ReapAll(c, s))
      {
        if i > 0 {
          assert r.zombies[i - 1] == s.zombies[i] && r.forks[k] == s.forks[k];
        } else {
          assert k == k0;
        }
      }
    }
  }

  /** One SIGCHLD takes every waiting child, however many there are: none waits afterwards, none of their
      pids is in the table, all are counted as finished, and each device whose child waited has its
      end in the present log, with that child's exit status. */
  lemma SigchldTakesAll(c: Config, s: State)
    requires Enabled(c, s, Sigchld)
    ensures var t := Apply(c, s, Sigchld);
            && t.zombies == [] && t.finished == s.finished + |s.zombies| && |t.forks| == |s.forks|
            && (forall i | 0 <= i < |s.zombies| :: s.zombies[i].pid !in t.forks)
            && (forall k | 0 <= k < |s.forks| :: !Waits(s.zombies, s.forks[k]) ==> t.forks[k] == s.forks[k])
            && (s.logs != [] ==>
                  t.logs != []
                  && forall k, i | 0 <= k < |s.forks| && 0 <= i < |s.zombies| && s.zombies[i].pid == s.forks[k] ::
                       Reaped(k, s.zombies[i].status) in Current(t))
  {
    ReapAllForks(c, s);
    if s.logs != [] {
      ReapAllLogs(c, s);
    }
    var t := ReapAll(c, s);
    forall i | 0 <= i < |s.zombies| ensures s.zombies[i].pid !in t.forks && Running(s.forks) {
      var pid := s.zombies[i].pid;
      var k :| 0 <= k < |s.forks| && s.forks[k] == pid;
      assert s.forks[k] != 0 && s.zombies[i] in s.zombies;
      forall j | 0 <= j < |t.forks| ensures t.forks[j] != pid {
        assert s.forks[j] == pid ==> Waits(s.zombies, s.forks[j]);
      }
    }
  }

  /** The round timer is armed again by every round, also by one that is skipped because tests still run and
      changes nothing else; any other starts a fresh test of each device with its own expiry timer. */
  lemma RoundArmsNext(c: Config, s: State, now: real, later: real, pids: seq<nat>)
    requires Enabled(c, s, Round(now, later, pids))
    ensures var t := Apply(c, s, Round(now, later, pids));
            && t.roundAt == later + c.interval
            && ((exists k | 0 <= k < |s.forks| :: s.forks[k] != 0) ==> t == s.(roundAt := t.roundAt))
            && ((forall k | 0 <= k < |s.forks| :: s.forks[k] == 0) ==>
                  t.forks == pids && t.final == 0 && t.finished == 0 && t.armed == s.armed + [now + c.timeout]
                  && t.zombies == [] && t.logs == s.logs + [[]] && t.response == s.response && t.first == s.first)
  {
    if !Running(s.forks) {
      NoZombies(s.forks, s.zombies);
    }
  }

  /** Some round so far ended, or had a bad device. */
  predicate Answered(c: Config, logs: seq<seq<Entry>>) {
    exists r | 0 <= r < |logs| :: Telling(c, logs[r])
  }

  /** The score of the last round whose tests all ended. */
  function LastCompleted(c: Config, logs: seq<seq<Entry>>): nat {
    if logs == [] then 0
    else if Complete(logs[|logs| - 1], |c.scores|) then RoundScore(c.scores, logs[|logs| - 1])
    else LastCompleted(c, logs[..|logs| - 1])
  }

  /** What a client is told, over all runs: -2 until a first failure or a first completed round;
      then the present round's score if it is positive, else that of the last completed round; never
      more than the sum of all scores. */
  lemma ReplyContract(c: Config, s: State)
    requires ValidConfig(c) && c.timeout <= c.interval && Reachable(c, s)
    ensures Reply(s, true) == if !Answered(c, s.logs) then -2
                              else if RoundScore(c.scores, Current(s)) > 0 then RoundScore(c.scores, Current(s))
                              else LastCompleted(c, s.logs)
    ensures Reply(s, true) <= Total(c.scores) && Reply(s, false) == -1
  {
    ReachableInv(c, s);
    assert forall x <- c.scores :: x > 0;
    var n := |s.logs|;
    if n > 0 {
      ScoreBounds(c.scores, s.logs[n - 1]);
    }
    if n > 1 {
      assert Complete(s.logs[n - 2], |c.scores|) && Telling(c, s.logs[n - 2]);
      ScoreBounds(c.scores, s.logs[n - 2]);
      assert s.logs[..n - 1][n - 2] == s.logs[n - 2];
    }
  }

  // ---------------------------------------------- interval < timeout breaks it

  lemma {:induction false} RunAppend(c: Config, s: State, events: seq<Event>, e: Event)
    requires Run(c, s, events) && Enabled(c, After(c, s, events), e)
    ensures Run(c, s, events + [e]) && After(c, s, events + [e]) == Apply(c, After(c, s, events), e)
    decreases |events|
  {
    if events == [] {
      assert events + [e] == [e];
    } else {
      assert (events + [e])[1..] == events[1..] + [e];
      RunAppend(c, Apply(c, s, events[0]), events[1..], e);
    }
  }

  lemma ReachStep(c: Config, s: State, e: Event) returns (t: State)
    requires Reachable(c, s) && Enabled(c, s, e)
    ensures t == Apply(c, s, e) && Reachable(c, t)
  {
    t := Apply(c, s, e);
    var events :| Run(c, Start(c), events) && After(c, Start(c), events) == s;
    RunAppend(c, Start(c), events, e);
  }

  /** The first round, with the tests of the first `k` devices ended well. */
  predicate Drained(c: Config, s: State, k: nat) {
    && |s.forks| == |c.scores| && k <= |c.scores|
    && (forall i | 0 <= i < |s.forks| :: s.forks[i] == if i < k then 0 else i + 1)
    && s.zombies == [] && s.armed == [c.timeout] && s.roundAt == c.interval
  }

  lemma ReapAllOne(c: Config, s: State, k: nat)
    requires |s.forks| == |c.scores| && Known(s.forks, s.zombies) && k < |s.forks| && s.forks[k] > 0
    requires |s.zombies| == 1 && s.zombies[0].pid == s.forks[k]
    ensures ReapAll(c, s) == Reap(c, s, k, s.zombies[0].status).(zombies := [])
  {
    assert s.forks[k] in s.forks;
    assert FindChild(s.forks, s.zombies[0].pid) == k;
    assert s.zombies[1..] == [];
    KnownAfterReap(s.forks, s.zombies);
    var t := Reap(c, s, k, s.zombies[0].status).(zombies := s.zombies[1..]);
    assert ReapAll(c, t) == t;
  }

  lemma OneKnown(forks: seq<nat>, k: nat, status: int)
    requires k < |forks| && forks[k] > 0 && Known(forks, [])
    ensures Known(forks, [Child(forks[k], status)])
  {
    assert forks[k] in forks;
  }

  /** One test ends and is reaped. */
  lemma SoloExit(c: Config, s: State, k: nat, status: int) returns (t: State)
    requires Reachable(c, s) && |s.forks| == |c.scores| && Known(s.forks, []) && s.zombies == []
    requires k < |s.forks| && s.forks[k] > 0
    ensures Reachable(c, t) && t == Reap(c, s, k, status)
  {
    var u := ReachStep(c, s, ChildExit(k, status));
    assert u.zombies == [Child(s.forks[k], status)];
    OneKnown(s.forks, k, status);
    ReapAllOne(c, u, k);
    t := ReachStep(c, u, Sigchld);
  }

  lemma {:induction false} DrainRound(c: Config, s: State, k: nat) returns (t: State)
    requires ValidConfig(c) && Reachable(c, s) && Drained(c, s, k)
    ensures Reachable(c, t) && Drained(c, t, |c.scores|)
    decreases |c.scores| - k
  {
    t := s;
    if k < |c.scores| {
      t := SoloExit(c, s, k, 0);
      t := DrainRound(c, t, k + 1);
    }
  }

  /** With interval < timeout the expiry of one round hits the next, and a device that timed out
      that way counts again when it fails. */
  lemma OverlappingRoundsOvercount(c: Config) returns (s: State)
    requires ValidConfig(c) && c.interval < c.timeout
    ensures Reachable(c, s) && Reply(s, true) == s.final > Total(c.scores)
  {
    var n := |c.scores|;
    var pids := seq(n, i requires 0 <= i < n => i + 1);
    assert Run(c, Start(c), []) && After(c, Start(c), []) == Start(c);
    s := ReachStep(c, Start(c), Round(0.0, 0.0, pids));
    s := DrainRound(c, s, 0);
    s := ExpireEarly(c, s, pids);
    s := SoloExit(c, s, 0, 1);
    assert c.scores[0] in c.scores;
  }

  /** The second round starts before the first one's expiry timer fires. */
  lemma ExpireEarly(c: Config, s: State, pids: seq<nat>) returns (t: State)
    requires ValidConfig(c) && c.interval < c.timeout && Reachable(c, s) && Drained(c, s, |c.scores|)
    requires |pids| == |c.scores| && forall i | 0 <= i < |pids| :: pids[i] == i + 1
    ensures Reachable(c, t) && t.forks == pids && t.zombies == [] && t.armed != [] && t.final == Total(c.scores)
  {
    var at := if c.timeout <= 2.0 * c.interval then c.interval else c.timeout - c.interval;
    t := ReachStep(c, s, Round(at, at, pids));
    assert RunningFlags(pids) == seq(|c.scores|, _ => true);
    assert t.forks[0] != 0;
    t := ReachStep(c, t, Expire);
  }

  /** No run ever scores, or tells a client, more than all devices together exactly when the interval is
      at least the timeout. */
  lemma ScoreBoundedExactly(c: Config)
    requires ValidConfig(c)
    ensures (forall s :: Reachable(c, s) ==> s.final <= Total(c.scores)) <==> c.timeout <= c.interval
    ensures (forall s :: Reachable(c, s) ==> Reply(s, true) <= Total(c.scores)) <==> c.timeout <= c.interval
  {
    if c.timeout <= c.interval {
      forall s | Reachable(c, s) ensures s.final <= Total(c.scores) && Reply(s, true) <= Total(c.scores) {
        ReachableInv(c, s);
        ReplyContract(c, s);
        if s.logs != [] {
          RoundAccounting(c, s);
        }
      }
    } else {
      var s := OverlappingRoundsOvercount(c);
    }
  }
}
