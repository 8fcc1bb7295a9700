/**
 * The supervised process (type Process in pkg/mf/mf.go) and its methods: the liveness
 * probe, the check, descendant discovery, Stop, Resume, Exit and the Checker loop.
 *
 * Each method takes what the operating system would answer as parameters: the result
 * of the signal-0 probe, whether the check command succeeds, the process snapshot (None
 * when it cannot be taken) and the PIDs that kill fails for. Signals to descendants that
 * the Go code sends from one goroutine per PID are sent here one after the other.
 */
module Supervisor {
  import opened Util
  import opened Discovery
  import opened Control
  import opened Policy

  class Process {
    const CheckCommand: string
    const CheckDelay: int
    const CheckInterval: int
    const CheckTimeout: int

    var Pid: int
    var Children: seq<int>
    var State: State

    /** A process to supervise: an attached PID (0 for none yet) and the check settings. */
    constructor (pid: int, checkCommand: string, checkDelay: int, checkInterval: int, checkTimeout: int)
      ensures Pid == pid && Children == [] && State == Running
      ensures CheckCommand == checkCommand && CheckDelay == checkDelay
      ensures CheckInterval == checkInterval && CheckTimeout == checkTimeout
    {
      Pid := pid;
      Children := [];
      State := Running;
      CheckCommand := checkCommand;
      CheckDelay := checkDelay;
      CheckInterval := checkInterval;
      CheckTimeout := checkTimeout;
    }

    /** The fields the tree operations read and write. */
    function Fields(): Tree
      reads this
    {
      Tree(Pid, Children, State)
    }

    /** The check settings. */
    function Settings(): Config
    {
      Config(CheckCommand, CheckDelay, CheckInterval, CheckTimeout)
    }

    /** PidExists: PID 0 never exists; otherwise the probe's answer (`alive`) decides. */
    method PidExists(alive: bool) returns (found: bool)
      ensures found <==> Pid != 0 && alive
    {
      if Pid == 0 {
        return false;
      }
      found := alive;
    }

    /**
     * Check: nothing to check without a PID or without a check command; otherwise the
     * check command's exit status (`passed`) decides.
     */
    method Check(passed: bool) returns (result: Outcome)
      ensures result.Fail? <==> Pid != 0 && CheckCommand != "" && !passed
      ensures result.Fail? ==> result.error == CheckFailed
    {
      if Pid == 0 {
        return Pass;
      }
      if CheckCommand == "" {
        return Pass;
      }
      result := if passed then Pass else Fail(CheckFailed);
    }

    /**
     * GetChildrenRecursive: with no PID, nothing; with no snapshot, an error; otherwise
     * the descendants found in the snapshot, which also become the recorded children.
     */
    method GetChildrenRecursive(snapshot: Option<seq<Entry>>) returns (result: Result<seq<int>, Error>)
      modifies this`Children
      ensures Pid == 0 ==> result == Ok([]) && Children == old(Children)
      ensures Pid != 0 && snapshot.None? ==> result == Err(SnapshotFailed) && Children == old(Children)
      ensures Pid != 0 && snapshot.Some? ==>
                result == Ok(Children) && Children == Descendants(snapshot.value, Pid)
    {
      if Pid == 0 {
        return Ok([]);
      }
      if snapshot.None? {
        return Err(SnapshotFailed);
      }
      var all := Discover(snapshot.value, Pid);
      Children := all;
      result := Ok(all);
    }

    /**
     * Stop: pause the root and every descendant in a fresh snapshot; `paused` lists
     * the PIDs given a pause signal, root first.
     */
    method Stop(snapshot: Option<seq<Entry>>, refused: set<int>) returns (result: Outcome, paused: seq<int>)
      modifies this`Children, this`State
      ensures Effect(result, Fields(), paused) == StopTree(old(Fields()), snapshot, refused)
    {
      if Pid == 0 || State == Stopped {
        return Pass, [];
      }
      paused := [Pid];
      var found := GetChildrenRecursive(snapshot);
      if found.Ok? {
        var children := found.value;
        for i := 0 to |children|
          invariant paused == [Pid] + children[..i]
        {
          // a failed pause of a descendant is logged and otherwise ignored
          paused := paused + [children[i]];
        }
        assert children[..|children|] == children;
      }
      result := Deliver(Pid, refused);
      if result.Pass? {
        State := Stopped;
      }
    }

    /**
     * Resume: resume the root, then every recorded child; `resumed` lists the PIDs
     * given a resume signal, root first.
     */
    method Resume(refused: set<int>) returns (result: Outcome, resumed: seq<int>)
      modifies this`State
      ensures Effect(result, Fields(), resumed) == ResumeTree(old(Fields()), refused)
    {
      if Pid == 0 || State == Running {
        return Pass, [];
      }
      resumed := [Pid];
      result := Deliver(Pid, refused);
      if result.Fail? {
        return;
      }
      for i := 0 to |Children|
        invariant resumed == [Pid] + Children[..i]
      {
        // a failed resume of a child is logged and otherwise ignored
        resumed := resumed + [Children[i]];
      }
      assert Children[..|Children|] == Children;
      State := Running;
    }

    /** Exit: terminate the root only; `terminated` lists the PID signalled. */
    method Exit(refused: set<int>) returns (result: Outcome, terminated: seq<int>)
      ensures Effect(result, Fields(), terminated) == KillRoot(Fields(), refused)
    {
      if Pid == 0 {
        return Pass, [];
      }
      result := Deliver(Pid, refused);
      terminated := [Pid];
    }

    /**
     * One pass of the Checker loop once the probe has found the PID: sleep the delay,
     * check, then stop, terminate or resume as the policy says, and sleep the interval.
     */
    method Round(tick: Tick, failureSince: Option<int>, clock: int)
      returns (failureSince': Option<int>, clock': int, reaction: Reaction)
      requires Pid != 0 && CheckCommand != ""
      modifies this`Children, this`State
      ensures Loop(Fields(), failureSince', clock') == Step(Settings(), Loop(old(Fields()), failureSince, clock), tick).0
      ensures reaction == Step(Settings(), Loop(old(Fields()), failureSince, clock), tick).1
    {
      var now := clock + Sleep(CheckDelay) + tick.busy;
      var check := Check(tick.passed);
      failureSince' := failureSince;
      if check.Fail? {
        var stopped := State == Running;
        var paused: seq<int> := [];
        if stopped {
          var err;
          err, paused := Stop(tick.snapshot, tick.refused);
        }
        if failureSince'.None? {
          failureSince' := Some(now);
        }
        var exited := CheckTimeout > 0 && now - failureSince'.value > CheckTimeout;
        var terminated: seq<int> := [];
        if exited {
          var err;
          err, terminated := Exit(tick.refused);
        }
        reaction := Reaction(now, false, stopped, false, exited, paused + terminated);
      } else if State == Stopped {
        var err, resumed := Resume(tick.refused);
        failureSince' := None;
        reaction := Reaction(now, true, false, true, false, resumed);
      } else {
        reaction := Reaction(now, true, false, false, false, []);
      }
      clock' := now + Sleep(CheckInterval);
    }

    /**
     * Checker: the policy loop, run over the ticks of `trace` starting at clock
     * reading `start`; `reactions` records what each pass did.
     */
    method Checker(start: int, trace: seq<Tick>) returns (reactions: seq<Reaction>)
      modifies this`Children, this`State
      ensures Fields() == Supervise(Settings(), old(Fields()), start, trace).0
      ensures reactions == Supervise(Settings(), old(Fields()), start, trace).1
    {
      reactions := [];
      if CheckCommand == "" {
        return;
      }
      var failureSince: Option<int> := None;
      var clock := start;
      var i := 0;
      assert trace[i..] == trace;
      while i < |trace|
        invariant 0 <= i <= |trace|
        invariant Pid == old(Pid)
        invariant var done := Run(Settings(), Loop(Fields(), failureSince, clock), trace[i..]);
                  var whole := Run(Settings(), Loop(old(Fields()), None, start), trace);
                  whole.0 == done.0 && whole.1 == reactions + done.1
        decreases |trace| - i
      {
        var tick := trace[i];
        var alive := PidExists(tick.alive);
        if !alive {
          assert Run(Settings(), Loop(Fields(), failureSince, clock), trace[i..]).1 == [];
          break;
        }
        var reaction;
        failureSince, clock, reaction := Round(tick, failureSince, clock);
        assert trace[i..][1..] == trace[i + 1..];
        reactions := reactions + [reaction];
        i := i + 1;
      }
      assert Run(Settings(), Loop(Fields(), failureSince, clock), trace[i..]).0.tree == Fields();
    }
  }
}
