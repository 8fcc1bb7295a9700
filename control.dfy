/**
 * The tree operations of a supervised process (Stop, Resume and Exit in pkg/mf/mf.go),
 * as functions of the process fields they read and write.
 *
 * Every signal goes through stopProcess, resumeProcess or exitProcess, which skip PID 0
 * as a success and otherwise report whether kill(2) failed. Which PIDs kill fails for
 * (because they have exited, or are not ours to signal) is an input: `refused`.
 */
module Control {
  import opened Util
  import opened Discovery

  /** Run state of the supervised process; Running is the zero value. */
  datatype State = Running | Stopped

  /** Why an operation failed. */
  datatype Error = SignalFailed(pid: int) | SnapshotFailed | CheckFailed

  /** The `error` an operation returns: nil, or an error. */
  datatype Outcome = Pass | Fail(error: Error)

  /** The fields of a Process that the tree operations read and write. */
  datatype Tree = Tree(pid: int, children: seq<int>, state: State)

  /** What one tree operation did: its result, the fields afterwards, and the PIDs it signalled, in order. */
  datatype Effect = Effect(result: Outcome, after: Tree, signalled: seq<int>)

  /** One signal to one PID: PID 0 is skipped as a success; any other fails exactly when kill fails for it. */
  function Deliver(pid: int, refused: set<int>): (r: Outcome)
    ensures r.Fail? <==> pid != 0 && pid in refused
    ensures r.Fail? ==> r.error == SignalFailed(pid)
  {
    if pid == 0 || pid !in refused then Pass else Fail(SignalFailed(pid))
  }

  /**
   * Stop: unless there is no PID or it is already stopped, pause the root and, in
   * parallel, find the descendants in a fresh snapshot (recording them as the
   * children) and pause each one. Only the root's signal decides the result and the
   * new state; the descendants are paused even when pausing the root failed. When no
   * snapshot can be taken, no descendant is paused and the children stay as they were.
   */
  function StopTree(t: Tree, snapshot: Option<seq<Entry>>, refused: set<int>): (r: Effect)
    ensures r.after.pid == t.pid
    ensures r.result.Fail? <==> t.pid != 0 && t.state != Stopped && t.pid in refused
    ensures r.after.state == Stopped <==> t.state == Stopped || (t.pid != 0 && t.pid !in refused)
    ensures r.signalled == [] <==> t.pid == 0 || t.state == Stopped
    ensures r.signalled != [] ==> r.signalled[0] == t.pid
  {
    if t.pid == 0 || t.state == Stopped then Effect(Pass, t, [])
    else
      var children := if snapshot.Some? then Descendants(snapshot.value, t.pid) else t.children;
      var descendants := if snapshot.Some? then children else [];
      var root := Deliver(t.pid, refused);
      Effect(root, Tree(t.pid, children, if root.Pass? then Stopped else t.state), [t.pid] + descendants)
  }

  /**
   * Resume: unless there is no PID or it is already running, resume the root; if that
   * fails, stop there. Otherwise resume every recorded child (not rediscovered) and
   * mark the process running.
   */
  function ResumeTree(t: Tree, refused: set<int>): (r: Effect)
    ensures r.after.pid == t.pid && r.after.children == t.children
    ensures r.result.Fail? <==> t.pid != 0 && t.state != Running && t.pid in refused
    ensures r.after.state == Running <==> t.state == Running || (t.pid != 0 && t.pid !in refused)
    ensures r.signalled == [] <==> t.pid == 0 || t.state == Running
    ensures r.signalled != [] ==> r.signalled[0] == t.pid
  {
    if t.pid == 0 || t.state == Running then Effect(Pass, t, [])
    else
      var root := Deliver(t.pid, refused);
      if root.Fail? then Effect(root, t, [t.pid])
      else Effect(Pass, Tree(t.pid, t.children, Running), [t.pid] + t.children)
  }

  /** Exit: terminate the root only, unless there is no PID; the fields never change. */
  function KillRoot(t: Tree, refused: set<int>): (r: Effect)
    ensures r.after == t
    ensures r.result.Fail? <==> t.pid != 0 && t.pid in refused
    ensures forall x :: x in r.signalled ==> x == t.pid
    ensures r.signalled == [] <==> t.pid == 0
  {
    if t.pid == 0 then Effect(Pass, t, [])
    else Effect(Deliver(t.pid, refused), t, [t.pid])
  }

  /** Stop's guards, and the root's signal alone deciding its result and the new state. */
  lemma StopRootDecides(t: Tree, snapshot: Option<seq<Entry>>, refused: set<int>)
    ensures var e := StopTree(t, snapshot, refused);
            e.after.pid == t.pid &&
            (t.pid == 0 || t.state == Stopped ==> e == Effect(Pass, t, [])) &&
            (t.pid != 0 && t.state == Running ==>
               (e.result.Pass? <==> t.pid !in refused) &&
               (e.result.Fail? ==> e.result == Fail(SignalFailed(t.pid)) && e.after.state == Running) &&
               (e.result.Pass? ==> e.after.state == Stopped) &&
               e.signalled[0] == t.pid)
  {
  }

  /**
   * Stop with a snapshot records the descendants found in it and sends each one a
   * pause, whatever happens to the root; failures of the descendants' signals
   * change nothing in what Stop returns or records.
   */
  lemma StopPausesDescendants(t: Tree, list: seq<Entry>, refused: set<int>, refused': set<int>)
    requires t.pid != 0 && t.state == Running
    requires t.pid in refused <==> t.pid in refused'
    ensures var e := StopTree(t, Some(list), refused);
            e.after.children == Descendants(list, t.pid) &&
            e.signalled == [t.pid] + Descendants(list, t.pid) &&
            e == StopTree(t, Some(list), refused')
  {
  }

  /** Stop returns even when no snapshot can be taken: the root is paused and nothing else. */
  lemma StopWithoutSnapshot(t: Tree, refused: set<int>)
    requires t.pid != 0 && t.state == Running
    ensures var e := StopTree(t, None, refused);
            e.signalled == [t.pid] && e.after.children == t.children &&
            (t.pid !in refused ==> e.result == Pass && e.after.state == Stopped)
  {
  }

  /** Resume's guards, and resumption of the recorded children only after the root resumed. */
  lemma ResumeRootDecides(t: Tree, refused: set<int>)
    ensures var e := ResumeTree(t, refused);
            e.after.pid == t.pid && e.after.children == t.children &&
            (t.pid == 0 || t.state == Running ==> e == Effect(Pass, t, [])) &&
            (t.pid != 0 && t.state == Stopped && t.pid in refused ==>
               e == Effect(Fail(SignalFailed(t.pid)), t, [t.pid])) &&
            (t.pid != 0 && t.state == Stopped && t.pid !in refused ==>
               e.result == Pass && e.after.state == Running && e.signalled == [t.pid] + t.children)
  {
  }

  /** Exit signals the root alone and leaves every field as it was. */
  lemma KillRootOnlyRoot(t: Tree, refused: set<int>)
    ensures var e := KillRoot(t, refused);
            e.after == t &&
            e.signalled == (if t.pid == 0 then [] else [t.pid]) &&
            (e.result.Fail? <==> t.pid != 0 && t.pid in refused)
  {
  }

  /**
   * Stop followed by Resume, with both root signals delivered, brings the process back
   * to Running and resumes exactly the PIDs that were paused, in the same order.
   */
  lemma StopThenResume(t: Tree, list: seq<Entry>, refused1: set<int>, refused2: set<int>)
    requires t.pid != 0 && t.state == Running
    requires t.pid !in refused1 && t.pid !in refused2
    ensures var stop := StopTree(t, Some(list), refused1);
            var resume := ResumeTree(stop.after, refused2);
            stop.after.state == Stopped &&
            resume.result == Pass && resume.after.state == Running &&
            resume.signalled == stop.signalled &&
            resume.after.children == Descendants(list, t.pid)
  {
  }
}
