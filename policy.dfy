/**
 * The Checker policy loop of pkg/mf/mf.go as a state machine over the process fields,
 * the failure-window start (failureTime) and an integer clock in nanoseconds.
 *
 * What the environment does in one pass of the loop is a Tick: whether the PID still
 * answers the signal-0 probe, whether the check command exits with status 0, how long
 * the check (and a Stop it triggers) take, the snapshot a Stop would take, and which PIDs
 * kill fails for. The two sleeps advance the clock by the configured durations (a
 * negative duration sleeps for no time).
 */
module Policy {
  import opened Util
  import opened Discovery
  import opened Control

  /** The environment during one pass of the loop. */
  datatype Tick = Tick(
    alive: bool,
    passed: bool,
    busy: nat,
    snapshot: Option<seq<Entry>>,
    refused: set<int>)

  /** The check settings of a Process: command line, delay, interval and timeout. */
  datatype Config = Config(checkCommand: string, delay: int, interval: int, timeout: int)

  /** The loop's state: the process fields, failureTime (None is the zero time) and the clock. */
  datatype Loop = Loop(tree: Tree, failureSince: Option<int>, clock: int)

  /**
   * What one pass did: the clock reading it took, the check's verdict, which of Stop,
   * Resume and Exit it called, and the PIDs those calls signalled, in order.
   */
  datatype Reaction = Reaction(at: int, passed: bool, stopped: bool, resumed: bool, exited: bool, signalled: seq<int>)

  /** Time that time.Sleep(d) lets pass. */
  function Sleep(d: int): nat
  {
    if d > 0 then d else 0
  }

  /**
   * One pass of the loop once the probe found the PID: sleep the delay, check; on
   * failure pause if running, open the failure window if none is open, and terminate
   * once the window is longer than the timeout; on success resume if stopped and close
   * the window; then sleep the interval.
   */
  function Step(c: Config, s: Loop, t: Tick): (r: (Loop, Reaction))
    ensures r.0.tree.pid == s.tree.pid && r.1.passed == t.passed
    ensures r.1.at >= s.clock + Sleep(c.delay) && r.0.clock >= r.1.at + Sleep(c.interval)
    ensures r.1.exited ==> !t.passed && c.timeout > 0 && r.0.failureSince.Some?
    ensures t.passed && r.0.tree.state == Stopped ==> s.tree.state == Stopped && r.0.tree == s.tree
  {
    var now := s.clock + Sleep(c.delay) + t.busy;
    var later := now + Sleep(c.interval);
    if !t.passed then
      var stopped := s.tree.state == Running;
      var e1 := if stopped then StopTree(s.tree, t.snapshot, t.refused) else Effect(Pass, s.tree, []);
      var since := if s.failureSince.None? then now else s.failureSince.value;
      var exited := c.timeout > 0 && now - since > c.timeout;
      var e2 := if exited then KillRoot(e1.after, t.refused) else Effect(Pass, e1.after, []);
      (Loop(e2.after, Some(since), later), Reaction(now, false, stopped, false, exited, e1.signalled + e2.signalled))
    else if s.tree.state == Stopped then
      var e := ResumeTree(s.tree, t.refused);
      (Loop(e.after, None, later), Reaction(now, true, false, true, false, e.signalled))
    else
      (Loop(s.tree, s.failureSince, later), Reaction(now, true, false, false, false, []))
  }

  /** Passes of the loop, one per tick, until the probe no longer finds the PID. */
  function Run(c: Config, s: Loop, trace: seq<Tick>): (r: (Loop, seq<Reaction>))
    ensures |r.1| <= |trace| && r.0.tree.pid == s.tree.pid
    ensures r.1 == [] ==> r.0 == s
    ensures r.1 != [] ==> s.tree.pid != 0 && trace[0].alive
    decreases |trace|
  {
    if trace == [] || s.tree.pid == 0 || !trace[0].alive then (s, [])
    else
      var step := Step(c, s, trace[0]);
      var rest := Run(c, step.0, trace[1..]);
      (rest.0, [step.1] + rest.1)
  }

  /** Checker: with no check command, return at once; otherwise run the loop from a closed window. */
  function Supervise(c: Config, t: Tree, start: int, trace: seq<Tick>): (r: (Tree, seq<Reaction>))
    ensures r.0.pid == t.pid && |r.1| <= |trace|
    ensures r.1 == [] ==> r.0 == t
    ensures r.1 != [] ==> c.checkCommand != "" && t.pid != 0 && trace[0].alive
  {
    if c.checkCommand == "" then (t, [])
    else
      var r := Run(c, Loop(t, None, start), trace);
      (r.0.tree, r.1)
  }

  /** The rules of one pass, stated one by one. */
  lemma StepRules(c: Config, s: Loop, t: Tick)
    ensures var (s', r) := Step(c, s, t);
            s'.tree.pid == s.tree.pid &&
            r.passed == t.passed &&
            (r.stopped <==> !t.passed && s.tree.state == Running) &&
            (r.resumed <==> t.passed && s.tree.state == Stopped) &&
            (!t.passed ==> s'.failureSince == if s.failureSince.None? then Some(r.at) else s.failureSince) &&
            (r.exited <==> !t.passed && c.timeout > 0 && r.at - s'.failureSince.value > c.timeout) &&
            (t.passed && s.tree.state == Stopped ==> s'.failureSince == None) &&
            (t.passed && s.tree.state == Running ==> s'.tree == s.tree && s'.failureSince == s.failureSince) &&
            r.at == s.clock + Sleep(c.delay) + t.busy &&
            s'.clock == r.at + Sleep(c.interval)
  {
  }

  /** With no check command the Checker checks nothing and changes nothing. */
  lemma NoCheckCommand(c: Config, t: Tree, start: int, trace: seq<Tick>)
    requires c.checkCommand == ""
    ensures Supervise(c, t, start, trace) == (t, [])
  {
  }

  /**
   * The loop makes one pass per tick for as long as the probe finds the PID, and ends
   * at the first tick where it does not; the PID itself never changes.
   */
  lemma {:induction false} RunEndsWhenGone(c: Config, s: Loop, trace: seq<Tick>)
    ensures var (s', rs) := Run(c, s, trace);
            |rs| <= |trace| &&
            (forall k :: 0 <= k < |rs| ==> trace[k].alive) &&
            (|rs| < |trace| ==> s.tree.pid == 0 || !trace[|rs|].alive) &&
            s'.tree.pid == s.tree.pid
    decreases |trace|
  {
    if !(trace == [] || s.tree.pid == 0 || !trace[0].alive) {
      var step := Step(c, s, trace[0]);
      StepRules(c, s, trace[0]);
      RunEndsWhenGone(c, step.0, trace[1..]);
      var rs := Run(c, s, trace).1;
      var rest := Run(c, step.0, trace[1..]).1;
      assert rs == [step.1] + rest;
      forall k | 1 <= k < |rs| ensures trace[k].alive {
        assert trace[k] == trace[1..][k - 1];
      }
      if |rs| < |trace| {
        assert trace[|rs|] == trace[1..][|rest|];
      }
    }
  }

  /** Each pass reads the clock at least a delay and an interval after the previous one. */
  lemma {:induction false} RunClock(c: Config, s: Loop, trace: seq<Tick>)
    ensures var rs := Run(c, s, trace).1;
            (|rs| > 0 ==> rs[0].at >= s.clock + Sleep(c.delay)) &&
            (forall k :: 0 < k < |rs| ==>
              rs[k].at - rs[k - 1].at >= Sleep(c.delay) + Sleep(c.interval)) &&
            forall k :: 0 <= k < |rs| ==>
              rs[k].at - rs[0].at >= k * (Sleep(c.delay) + Sleep(c.interval))
    decreases |trace|
  {
    if !(trace == [] || s.tree.pid == 0 || !trace[0].alive) {
      var step := Step(c, s, trace[0]);
      StepRules(c, s, trace[0]);
      RunClock(c, step.0, trace[1..]);
      var rs := Run(c, s, trace).1;
      var rest := Run(c, step.0, trace[1..]).1;
      assert rs == [step.1] + rest;
      forall k | 1 <= k < |rs|
        ensures rs[k].at - rs[k - 1].at >= Sleep(c.delay) + Sleep(c.interval)
      {
        assert rs[k] == rest[k - 1] && rs[0] == step.1;
        if k > 1 {
          assert rs[k - 1] == rest[k - 2];
        }
      }
      forall k | 1 <= k < |rs|
        ensures rs[k].at - rs[0].at >= k * (Sleep(c.delay) + Sleep(c.interval))
      {
        var gap := Sleep(c.delay) + Sleep(c.interval);
        assert rs[k] == rest[k - 1] && rs[0] == step.1;
        assert rest[k - 1].at - rest[0].at >= (k - 1) * gap;
        assert rest[0].at - step.1.at >= gap;
        assert (k - 1) * gap + gap == k * gap;
      }
    }
  }

  /**
   * While checks keep failing inside an open window that started at t0, the window
   * stays put and each pass terminates the process exactly when its clock reading is
   * more than the timeout past t0 (and a timeout is set).
   */
  lemma {:induction false} EscalationFrom(c: Config, s: Loop, trace: seq<Tick>, t0: int, k: nat)
    requires s.failureSince == Some(t0)
    requires forall i :: 0 <= i < |trace| ==> !trace[i].passed
    requires k < |Run(c, s, trace).1|
    ensures var r := Run(c, s, trace).1[k];
            r.exited <==> c.timeout > 0 && r.at - t0 > c.timeout
    decreases k
  {
    var step := Step(c, s, trace[0]);
    StepRules(c, s, trace[0]);
    var rest := Run(c, step.0, trace[1..]).1;
    assert Run(c, s, trace).1 == [step.1] + rest;
    if k > 0 {
      assert forall i :: 0 <= i < |trace[1..]| ==> !trace[1..][i].passed;
      EscalationFrom(c, step.0, trace[1..], t0, k - 1);
    }
  }

  /**
   * From a closed window, under failing checks the window opens at the first pass,
   * which never terminates; every later pass terminates exactly when its reading is
   * more than the timeout past that first reading.
   */
  lemma FailureWindow(c: Config, s: Loop, trace: seq<Tick>)
    requires s.failureSince == None
    requires forall k :: 0 <= k < |trace| ==> !trace[k].passed
    ensures var rs := Run(c, s, trace).1;
            forall k :: 0 <= k < |rs| ==> (rs[k].exited <==> c.timeout > 0 && rs[k].at - rs[0].at > c.timeout)
  {
    if !(trace == [] || s.tree.pid == 0 || !trace[0].alive) {
      var step := Step(c, s, trace[0]);
      StepRules(c, s, trace[0]);
      assert forall k :: 0 <= k < |trace[1..]| ==> !trace[1..][k].passed;
      var rs := Run(c, s, trace).1;
      var rest := Run(c, step.0, trace[1..]).1;
      assert rs == [step.1] + rest;
      forall k | 0 <= k < |rs| ensures rs[k].exited <==> c.timeout > 0 && rs[k].at - rs[0].at > c.timeout {
        if k > 0 {
          assert rs[k] == rest[k - 1];
          EscalationFrom(c, step.0, trace[1..], step.1.at, k - 1);
        }
      }
    }
  }

  /**
   * Under failing checks with a timeout set, the pass whose index times the sleep
   * period exceeds the timeout terminates the process, and so does every pass after it.
   */
  lemma TerminatedAfterTimeout(c: Config, s: Loop, trace: seq<Tick>, k: nat)
    requires s.failureSince == None
    requires forall i :: 0 <= i < |trace| ==> !trace[i].passed
    requires c.timeout > 0
    requires k < |Run(c, s, trace).1|
    requires k * (Sleep(c.delay) + Sleep(c.interval)) > c.timeout
    ensures forall j :: k <= j < |Run(c, s, trace).1| ==> Run(c, s, trace).1[j].exited
  {
    var rs := Run(c, s, trace).1;
    FailureWindow(c, s, trace);
    RunClock(c, s, trace);
    var gap := Sleep(c.delay) + Sleep(c.interval);
    forall j | k <= j < |rs| ensures rs[j].exited {
      MulMono(k, j, gap);
    }
  }

  lemma MulMono(k: nat, j: nat, g: nat)
    requires k <= j
    ensures k * g <= j * g
  {
    assert j * g == k * g + (j - k) * g;
  }

  /**
   * A passing check while stopped closes the window even if resuming failed, so the
   * next failure opens a fresh window at its own reading and does not terminate.
   */
  lemma FreshWindowAfterResume(c: Config, s: Loop, t1: Tick, t2: Tick)
    requires t1.passed && s.tree.state == Stopped
    requires !t2.passed
    ensures var (s1, _) := Step(c, s, t1);
            var (s2, r2) := Step(c, s1, t2);
            s1.failureSince == None && s2.failureSince == Some(r2.at) && !r2.exited
  {
  }
}
