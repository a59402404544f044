/** The handlers of the storage_mon daemon and its one-shot mode as imperative code
    (tools/storage_mon.c), proved against the state machine and the score of a round. */
module StorageMonitor {
  import opened StorageScore
  import opened StorageMon

  class Monitor {
    const c: Config
    var forks: seq<nat>        // test_forks
    var final: int             // final_score
    var response: int          // response_final_score
    var finished: nat          // finished_count
    var first: bool            // daemon_check_first_all_devices
    var armed: seq<real>       // pending expiry timers
    var roundAt: real          // round timer
    var zombies: seq<Child>    // children that waitpid has not returned yet
    ghost var logs: seq<seq<Entry>>

    constructor (c: Config)
      ensures this.c == c && View() == Start(c)
    {
      this.c := c;
      forks := seq(|c.scores|, _ => 0);
      final, response, finished, first := 0, 0, 0, false;
      armed, roundAt, zombies, logs := [], 0.0, [], [];
    }

    ghost function View(): State
      reads this
    {
      State(forks, final, response, finished, first, armed, roundAt, zombies, logs)
    }

    method IsChildRunning() returns (running: bool)
      ensures running <==> Running(forks)
    {
      var i := 0;
      while i < |forks|
        invariant 0 <= i <= |forks|
        invariant forall k | 0 <= k < i :: forks[k] == 0
      {
        if forks[i] != 0 {
          return true;
        }
        i := i + 1;
      }
      return false;
    }

    method FindChildPid(pid: nat) returns (index: nat)
      ensures index == FindChild(forks, pid)
    {
      index := 0;
      while index < |forks| && !(forks[index] > 0 && forks[index] == pid)
        invariant 0 <= index <= |forks|
        invariant FindChild(forks, pid) == index + FindChild(forks[index..], pid)
      {
        assert forks[index..] == [forks[index]] + forks[index + 1..];
        index := index + 1;
      }
    }

    /** sigchld_handler's work for the next child that waitpid returns. */
    method ReapNext()
      requires |forks| == |c.scores| && Known(forks, zombies) && zombies != []
      modifies this
      ensures var k := FindChild(old(forks), old(zombies)[0].pid);
              k < |old(forks)|
              && View() == Reap(c, old(View()), k, old(zombies)[0].status).(zombies := old(zombies)[1..])
    {
      assert zombies[0].pid in forks;
      var child := zombies[0];
      zombies := zombies[1..];
      var index := FindChildPid(child.pid);
      ReapChild(index, child.status);
    }

    /** The part of it behind find_child_pid. */
    method ReapChild(index: nat, status: int)
      requires index < |forks| == |c.scores|
      modifies this
      ensures View() == Reap(c, old(View()), index, status)
    {
      logs := AddEntry(View(), Reaped(index, status));
      if armed != [] && status != 0 {
        final := final + c.scores[index];
        response := final;
        first := true;
      }
      finished := finished + 1;
      forks := forks[index := 0];
      if |c.scores| == finished {
        response := final;
        first := true;
      }
    }

    /** sigchld_handler. */
    method SigchldHandler()
      requires |forks| == |c.scores| && Known(forks, zombies)
      modifies this
      ensures View() == Apply(c, old(View()), Sigchld)
    {
      var running := IsChildRunning();
      if running {
        while zombies != []
          invariant |forks| == |c.scores| && Known(forks, zombies)
          invariant ReapAll(c, View()) == ReapAll(c, old(View()))
          decreases |zombies|
        {
          KnownAfterReap(forks, zombies);
          ReapNext();
        }
      }
    }

    /** child_timeout_handler. */
    method ChildTimeoutHandler()
      requires Enabled(c, View(), Expire)
      modifies this
      ensures View() == Apply(c, old(View()), Expire)
    {
      ghost var s := View();
      armed := armed[1..];
      logs := AddEntry(s, Expired);
      var running := IsChildRunning();
      if running {
        AddRunning();
      }
    }

    /** The loop of child_timeout_handler. */
    method AddRunning()
      requires |forks| == |c.scores| && Running(forks)
      modifies this`final, this`response, this`first
      ensures final == old(final) + Sum(c.scores, RunningFlags(forks), |c.scores|)
      ensures response == final && first
    {
      var i := 0;
      ghost var any := false;
      while i < |c.scores|
        invariant 0 <= i <= |c.scores|
        invariant final == old(final) + Sum(c.scores, RunningFlags(forks), i)
        invariant any <==> exists k | 0 <= k < i :: forks[k] != 0
        invariant any ==> response == final && first
      {
        if forks[i] > 0 {
          final := final + c.scores[i];
          response := final;
          first := true;
          any := true;
        }
        i := i + 1;
      }
    }

    /** test_device_main in daemon mode, with `pids` what the forks return. */
    method TestDeviceMain(now: real, later: real, pids: seq<nat>)
      requires Enabled(c, View(), Round(now, later, pids))
      modifies this
      ensures View() == Apply(c, old(View()), Round(now, later, pids))
    {
      var running := IsChildRunning();
      if !running {
        final, finished := 0, 0;
        forks := seq(|c.scores|, _ => 0);
        var i := 0;
        while i < |c.scores|
          invariant 0 <= i <= |c.scores| == |forks|
          invariant forks[..i] == pids[..i]
          invariant View() == old(View()).(forks := forks, final := 0, finished := 0)
        {
          forks := forks[i := pids[i]];
          i := i + 1;
        }
        assert forks == pids;
        armed := armed + [now + c.timeout];
        logs := logs + [[]];
      }
      roundAt := later + c.interval;
    }

    /** storage_mon_ipcs_msg_process_fn. */
    method MsgProcess(valid: bool) returns (score: int)
      ensures score == Reply(View(), valid)
    {
      score := response;
      if !valid {
        score := -1;
      } else if !first {
        score := -2;
      }
    }

    method Handle(e: Event)
      requires Enabled(c, View(), e)
      modifies this
      ensures View() == Apply(c, old(View()), e)
    {
      match e
      case Round(now, later, pids) => TestDeviceMain(now, later, pids);
      case Expire => ChildTimeoutHandler();
      case ChildExit(i, status) => zombies := zombies + [Child(forks[i], status)];
      case Sigchld => SigchldHandler();
    }

    /** The daemon's event loop over any run, then a client's query. */
    method Serve(events: seq<Event>) returns (score: int)
      requires ValidConfig(c) && c.timeout <= c.interval
      requires View() == Start(c) && Run(c, Start(c), events)
      modifies this
      ensures View() == After(c, Start(c), events)
      ensures score == if !Answered(c, logs) then -2
                       else if RoundScore(c.scores, Current(View())) > 0 then RoundScore(c.scores, Current(View()))
                       else LastCompleted(c, logs)
    {
      var k := 0;
      while k < |events|
        invariant 0 <= k <= |events|
        invariant Run(c, View(), events[k..]) && After(c, View(), events[k..]) == After(c, Start(c), events)
      {
        assert events[k..][0] == events[k] && events[k..][1..] == events[k + 1..];
        Handle(events[k]);
        k := k + 1;
      }
      assert Reachable(c, View());
      ReplyContract(c, View());
      score := MsgProcess(true);
    }
  }

  // --------------------------------------------------------------- one-shot

  /** When the test of a device ends: the poll that first sees it, and its exit status. */
  datatype End = Never | AtPoll(poll: nat, status: int)

  /** The verdict on a device if the time limit allows `polls` polls. */
  function PollVerdict(e: End, polls: nat): Verdict {
    if e.Never? || e.poll >= polls then TimedOut else if e.status == 0 then Passed else Failed
  }

  function PollVerdicts(ends: seq<End>, polls: nat): seq<Verdict> {
    seq(|ends|, i requires 0 <= i < |ends| => PollVerdict(ends[i], polls))
  }

  predicate SeenBy(e: End, polls: nat) {
    e.AtPoll? && e.poll < polls
  }

  /** `running` and `failed` describe the devices after `polls` polls, those below `upto` after one
      more. */
  predicate Polled(ends: seq<End>, polls: nat, upto: nat, running: seq<bool>, failed: seq<bool>) {
    && |running| == |failed| == |ends|
    && forall i | 0 <= i < |ends| ::
         var seen := SeenBy(ends[i], if i < upto then polls + 1 else polls);
         running[i] == !seen && failed[i] == (seen && ends[i].status != 0)
  }

  function Negated(flags: seq<bool>): seq<bool> {
    seq(|flags|, i requires 0 <= i < |flags| => !flags[i])
  }

  /** One pass over the devices. */
  method Poll(scores: seq<nat>, ends: seq<End>, poll: nat, running0: seq<bool>, score0: nat, finished0: nat,
              ghost failed0: seq<bool>)
    returns (running: seq<bool>, score: nat, finished: nat, ghost failed: seq<bool>)
    requires |ends| == |scores| && Polled(ends, poll, 0, running0, failed0)
    requires score0 == Sum(scores, failed0, |scores|) && finished0 == Count(Negated(running0))
    ensures Polled(ends, poll, |ends|, running, failed)
    ensures score == Sum(scores, failed, |scores|) && finished == Count(Negated(running))
  {
    running, score, finished, failed := running0, score0, finished0, failed0;
    var i := 0;
    while i < |ends|
      invariant 0 <= i <= |ends|
      invariant Polled(ends, poll, i, running, failed)
      invariant score == Sum(scores, failed, |scores|) && finished == Count(Negated(running))
    {
      if running[i] && SeenBy(ends[i], poll + 1) {
        if ends[i].status != 0 {
          SumSet(scores, failed, i);
          failed := failed[i := true];
          score := score + scores[i];
        }
        CountSet(Negated(running), i);
        assert Negated(running[i := false]) == Negated(running)[i := true];
        running := running[i := false];
        finished := finished + 1;
      }
      i := i + 1;
    }
  }

  /** test_device_main without --daemonize: poll until every test ended or the limit of `polls`
      polls is reached, then count the devices that are left. */
  method OneShot(scores: seq<nat>, ends: seq<End>, polls: nat) returns (score: nat)
    requires |ends| == |scores|
    ensures score == VerdictScore(scores, PollVerdicts(ends, polls))
  {
    var n := |scores|;
    var running := seq(n, _ => true);
    ghost var failed := seq(n, _ => false);
    var finished, k := 0, 0;
    score := 0;
    NothingYet(scores);
    while finished < n && k < polls
      invariant 0 <= k <= polls
      invariant Polled(ends, k, 0, running, failed)
      invariant score == Sum(scores, failed, n) && finished == Count(Negated(running))
      decreases polls - k
    {
      running, score, finished, failed := Poll(scores, ends, k, running, score, finished, failed);
      k := k + 1;
    }
    BadAtEnd(ends, k, polls, running, failed);
    var i := 0;
    while i < n
      invariant 0 <= i <= n
      invariant score == Sum(scores, failed, n) + Sum(scores, running, i)
    {
      if running[i] {
        score := score + scores[i];
      }
      i := i + 1;
    }
    SumUnion(scores, failed, running, BadFlags(PollVerdicts(ends, polls)), n);
  }

  /** When polling stops, the bad devices are those that failed and those still running. */
  lemma BadAtEnd(ends: seq<End>, k: nat, polls: nat, running: seq<bool>, failed: seq<bool>)
    requires k <= polls && Polled(ends, k, 0, running, failed)
    requires k == polls || Count(Negated(running)) >= |ends|
    ensures var bad := BadFlags(PollVerdicts(ends, polls));
            |bad| == |ends|
            && forall i | 0 <= i < |ends| :: bad[i] == (failed[i] || running[i]) && !(failed[i] && running[i])
  {
    CountAll(Negated(running));
    forall i | 0 <= i < |ends|
      ensures BadFlags(PollVerdicts(ends, polls))[i] == (failed[i] || running[i]) && !(failed[i] && running[i])
    {
      assert k < polls ==> Negated(running)[i];
    }
  }

  lemma NothingYet(scores: seq<nat>)
    ensures Sum(scores, seq(|scores|, _ => false), |scores|) == 0
    ensures Count(Negated(seq(|scores|, _ => true))) == 0
  {
    NoneCounted(Negated(seq(|scores|, _ => true)));
    NoneMarked(scores, seq(|scores|, _ => false), |scores|);
  }

  lemma {:induction false} NoneMarked(scores: seq<nat>, marked: seq<bool>, k: nat)
    requires k <= |scores| == |marked| && forall i | 0 <= i < |marked| :: !marked[i]
    ensures Sum(scores, marked, k) == 0
    decreases k
  {
    if k > 0 {
      NoneMarked(scores, marked, k - 1);
    }
  }

  /** The score of a one-shot check: that of every device but those whose test ended well within the limit. */
  lemma OneShotCounts(scores: seq<nat>, ends: seq<End>, polls: nat, marked: seq<bool>)
    requires |ends| == |scores| == |marked|
    requires forall i | 0 <= i < |ends| ::
               marked[i] <==> !(ends[i].AtPoll? && ends[i].poll < polls && ends[i].status == 0)
    ensures VerdictScore(scores, PollVerdicts(ends, polls)) == Sum(scores, marked, |scores|)
  {
    SumSame(scores, BadFlags(PollVerdicts(ends, polls)), marked, |scores|);
  }

  /** A daemon round and a one-shot check that judge every device alike give the same score. */
  lemma ModesAgree(c: Config, s: State, ends: seq<End>, polls: nat)
    requires ValidConfig(c) && c.timeout <= c.interval && Reachable(c, s) && s.logs != []
    requires |ends| == |c.scores|
    requires forall i: nat | i < |ends| :: VerdictOf(Current(s), i) == PollVerdict(ends[i], polls)
    ensures s.final == VerdictScore(c.scores, PollVerdicts(ends, polls))
  {
    RoundAccounting(c, s);
    assert Verdicts(Current(s), |c.scores|) == PollVerdicts(ends, polls);
  }
}
