# mf: a verified model of the process-freezing supervisor

`mf` watches one process, called the root. It runs a check command after a
delay, and again after each interval. When the check fails, it freezes the root and every descendant of the
root. The root is paused with SIGTSTP and the descendants come from one `ps`
snapshot. When the check passes again, it thaws them with SIGCONT. If the checks
keep failing for longer than a configured timeout, it terminates the root with
SIGTERM. This project models the package `pkg/mf/mf.go` in Dafny and proves what
that code promises.

The modules follow the structure of the Go package:

- `Discovery` covers `getChildren`, `containsInt` and the corrected level-by-level
  traversal of `GetChildrenRecursive` over one snapshot of `(pid, ppid)` rows
  (Findings rows 1 and 2: the code as written can block instead).
  - Functions specify it: `ChildrenOf`, `Dispatch`, `Gather`, `Explore` and
    `Descendants`.
  - Methods carry it out with loops: `GetChildren`, `ContainsInt`, `Level` and
    `Discover`.
  - Lemmas prove that the descendants returned are exactly the PIDs reachable
    through parent-to-child rows. They also prove that each PID's children are
    looked up at most once, that the corrected traversal ends even on a cyclic
    snapshot, and that the result has no repeats when the snapshot lists each
    PID once.
- `Control` gives `Stop`, `Resume` and `Exit` as functions of the fields they
  read and write (`Tree`: PID, children, run state). Each returns what was
  signalled and the result.
- `Policy` models the `Checker` loop as a step function over those fields, the
  failure-window start (`failureTime`) and an integer clock in nanoseconds. A
  `Run` folds the step over a trace of environment ticks. Lemmas cover when the
  loop ends, how the clock advances, and when the process is terminated.
- `Supervisor.Process` is the Go `Process` struct as a class. Its mutable fields
  are `Pid`, `Children` and `State`. `Stop`, `Resume`, `Exit`, `Round` and
  `Checker` are proved equal to the functions that specify them in `Control` and
  `Policy`. `GetChildrenRecursive` is proved to return and record
  `Discovery.Descendants`. `PidExists` and `Check` state their results directly.
- `AsWritten` models whether `GetChildrenRecursive` and `Stop`, as the Go code
  writes them, return at all, and what they return when they do.
  Counterexample lemmas exhibit the ways they fail to return (see Findings).
  The order of PIDs within a level is only as exact as in `Discovery` (see
  Left out).

`Discovery`'s traversal and `Control.StopTree`, and the `Policy` loop and the
`Supervisor.Process` methods built on them, model the corrected code of the
Findings table: there every Stop returns, so the Checker goes on to later passes
and to `Exit`. In the code as written, a Stop that hangs also hangs the Checker,
and no later pass or escalation happens. `AsWritten` models the code as written.

The operating system is an input everywhere:

- whether `kill` fails for a PID is the set `refused`;
- the `ps` snapshot is an `Option` of rows, with `None` when it cannot be taken;
- the signal-0 liveness probe is `alive`;
- the check command's exit status is `passed`;
- the time a check (and a Stop it triggers) takes is `busy`.

The model follows the code where the code and a stricter reading differ:

- The `-timeout` flag is described as a "timeout for successive failures of
  the check command" (cmd/mf/mf.go:37). A stricter reading would terminate
  exactly once, when the elapsed failure time reaches the timeout (`>=`). The
  code compares with a strict `>` and
  calls `Exit` on every failing pass past the timeout. The model, and the lemmas
  `EscalationFrom`, `FailureWindow` and `TerminatedAfterTimeout`, follow the code.
- Stop's discovery goroutine runs whether or not the root pause succeeds. So the
  descendants are paused and `Children` is recorded even when `Stop` returns the
  root's error. The model keeps this.

## Model

| member | source | states |
|---|---|---|
| Discovery.ChildrenOf | pkg/mf/mf.go:146-164 | getChildren returns nothing for PID 0 and at most one PID per snapshot row |
| Discovery.ChildrenOfMembers | pkg/mf/mf.go:146-164 | a PID is in getChildren's result exactly when the snapshot has a row for it whose parent is `pid`, and never for PID 0 |
| Discovery.ChildrenOfDistinct | pkg/mf/mf.go:146-164 | when the snapshot lists each PID once, getChildren returns no PID twice |
| Discovery.GetChildren | pkg/mf/mf.go:146-164 | the scan loop returns the rows' PIDs whose parent is `pid`, in snapshot order (proved against ChildrenOf) |
| Discovery.ContainsInt | pkg/mf/mf.go:166-173 | the scan returns true exactly when `e` occurs in `s` |
| Discovery.DispatchMembers | pkg/mf/mf.go:224-231 | a level hands out each frontier PID that is not yet checked, once, and nothing else |
| Discovery.DispatchAll | pkg/mf/mf.go:224-236 | a level hands out one PID per frontier entry exactly when the frontier has no repeats and no checked PID |
| Discovery.GatherMembers | pkg/mf/mf.go:175-188 | the next level holds exactly the children of the PIDs handed out |
| Discovery.LevelShrinks | pkg/mf/mf.go:218-239 | in the corrected traversal (Findings rows 1 and 2), after each level either a new PID of the snapshot has been checked or the next level is empty, so the loop ends, even on a cyclic snapshot |
| Discovery.Level | pkg/mf/mf.go:218-239 | one pass of the outer loop of the corrected traversal (Findings rows 1 and 2) checks every unchecked frontier PID, once, and collects their children as the next level |
| Discovery.Discover | pkg/mf/mf.go:200-239 | the traversal loop returns the root's children followed by each later level (proved against Descendants) |
| Discovery.Explore | pkg/mf/mf.go:218-239 | the levels after the first find only PIDs listed in the snapshot |
| Discovery.Descendants | pkg/mf/mf.go:190-243 | GetChildrenRecursive returns only PIDs listed in the snapshot, and nothing for PID 0 |
| Discovery.VisitedOnce | pkg/mf/mf.go:215-231 | the root is checked first, no PID is looked up twice, only the root and PIDs of the snapshot are looked up, and the result is the children of the PIDs looked up |
| Discovery.DescendantsExact | pkg/mf/mf.go:190-243 | a PID is returned exactly when it is reachable from the root through one or more parent-to-child rows of the snapshot |
| Discovery.DescendantsDistinct | pkg/mf/mf.go:190-243 | when the snapshot lists each PID once, the descendants have no repeats |
| Control.Deliver | pkg/mf/mf.go:295-312 | stopProcess (and likewise resumeProcess at 362-379 and exitProcess at 419-436) succeeds for PID 0 without a signal, and otherwise fails, with that PID's error, exactly when kill fails for the PID |
| Control.StopTree | pkg/mf/mf.go:314-360 | Stop keeps the PID, signals the root first and nothing at all on its guards, fails exactly when a running root's pause fails, and leaves the process Stopped exactly when it was stopped or the root pause succeeded |
| Control.ResumeTree | pkg/mf/mf.go:381-417 | Resume keeps the PID and the recorded children, signals the root first and nothing at all on its guards, fails exactly when a stopped root's resume fails, and leaves the process Running exactly when it was running or the root resume succeeded |
| Control.KillRoot | pkg/mf/mf.go:438-455 | Exit changes no field, signals the root only (nothing for PID 0), and fails exactly when kill fails for the root |
| Control.StopRootDecides | pkg/mf/mf.go:314-360 | Stop is a successful no-op without a PID or when already stopped; otherwise only the root pause decides its result, a failure leaves the state Running and a success makes it Stopped |
| Control.StopPausesDescendants | pkg/mf/mf.go:329-349 | with a snapshot, Stop records the descendants as the children and pauses each one after the root, whatever their own signals do |
| Control.StopWithoutSnapshot | pkg/mf/mf.go:329-357 | without a snapshot, Stop pauses the root only, keeps the recorded children, and returns (the corrected behaviour of Findings row 3) |
| Control.ResumeRootDecides | pkg/mf/mf.go:381-417 | Resume is a successful no-op without a PID or when running; a failed root resume returns the error and changes nothing; otherwise the recorded children are resumed, not rediscovered, and the state becomes Running |
| Control.KillRootOnlyRoot | pkg/mf/mf.go:438-455 | Exit signals the root only, fails only when that signal fails, and never changes any field |
| Control.StopThenResume | pkg/mf/mf.go:314-417 | Stop then Resume with both root signals delivered returns to Running and resumes exactly the PIDs that were paused, in the same order |
| Policy.Step | pkg/mf/mf.go:109-142 | one pass keeps the PID and reports the check's verdict, reads the clock at least the delay after the previous pass ended and ends at least the interval later, terminates only on a failed check with a timeout set, and after a passing check leaves the process stopped only when resuming it failed and changed nothing |
| Policy.Run | pkg/mf/mf.go:108-143 | the loop makes at most one pass per tick, never changes the PID, changes nothing when it makes no pass, and makes a pass only with a PID that the first probe finds |
| Policy.Supervise | pkg/mf/mf.go:98-144 | the Checker never changes the PID, makes at most one pass per tick, changes nothing when it makes no pass, and makes a pass only with a check command and a PID that the first probe finds |
| Policy.StepRules | pkg/mf/mf.go:109-142 | one pass: a failure stops only a running process, opens the failure window only if none is open, and terminates exactly when a timeout is set and exceeded; a pass resumes a stopped process and closes the window; a pass while running changes nothing |
| Policy.NoCheckCommand | pkg/mf/mf.go:104-107 | with no check command the Checker returns at once and changes nothing |
| Policy.RunEndsWhenGone | pkg/mf/mf.go:108-116 | the loop makes one pass per tick while the probe finds the PID, ends at the first tick where it does not, and never changes the PID |
| Policy.RunClock | pkg/mf/mf.go:108-143 | each pass reads the clock at least a delay plus an interval after the previous pass, so pass k reads it at least k such gaps after the first |
| Policy.EscalationFrom | pkg/mf/mf.go:118-134 | under failing checks the window start stays put, and each pass terminates exactly when its reading is more than the timeout past that start |
| Policy.FailureWindow | pkg/mf/mf.go:126-134 | from a closed window, under failing checks, a pass terminates exactly when its reading is more than the timeout past the first failing pass |
| Policy.TerminatedAfterTimeout | pkg/mf/mf.go:129-134 | under failing checks with a timeout set, once enough passes have gone by to exceed the timeout, every later pass terminates the process |
| Policy.FreshWindowAfterResume | pkg/mf/mf.go:135-141 | a pass while stopped closes the window even when resuming fails, so the next failure opens a new window and does not terminate |
| Supervisor.Process.constructor | cmd/mf/mf.go:64-70 | a new process has the given PID and settings, no children, and is Running |
| Supervisor.Process.PidExists | pkg/mf/mf.go:71-96 | PID 0 never exists; otherwise the probe decides |
| Supervisor.Process.Check | pkg/mf/mf.go:35-69 | the check passes without a PID or without a check command; otherwise it fails exactly when the command fails |
| Supervisor.Process.GetChildrenRecursive | pkg/mf/mf.go:190-243 | no PID gives nothing and keeps Children; a failed snapshot gives an error and keeps Children; otherwise it returns the descendants and records them as Children |
| Supervisor.Process.Stop | pkg/mf/mf.go:314-360 | the method's result, new fields and signals are those of StopTree |
| Supervisor.Process.Resume | pkg/mf/mf.go:381-417 | the method's result, new state and signals are those of ResumeTree |
| Supervisor.Process.Exit | pkg/mf/mf.go:438-455 | the method's result and signals are those of KillRoot, and it changes nothing |
| Supervisor.Process.Round | pkg/mf/mf.go:109-142 | one pass of the loop body leaves the fields, failure window, clock and reaction that Step gives for the same tick |
| Supervisor.Process.Checker | pkg/mf/mf.go:98-144 | the loop's final fields and the reactions of each pass are those of Supervise over the same ticks |
| AsWritten.LevelAsWritten | pkg/mf/mf.go:218-236 | a level as written returns exactly when its frontier has at most ten entries, no repeats and no checked PID; it has then handed out the whole frontier in order and yields its children as the next level |
| AsWritten.ExploreAsWrittenAgrees | pkg/mf/mf.go:218-239 | where the levels as written return, they find what the corrected levels find |
| AsWritten.DiscoverAsWritten | pkg/mf/mf.go:190-243 | the traversal as written blocks at its first level when the root has more than ten children, a child listed twice, or itself as a child, and returns nothing when the root has no child |
| AsWritten.DiscoverAsWrittenAgrees | pkg/mf/mf.go:190-243 | where the traversal as written returns, it returns the descendants |
| AsWritten.DiscoverAsWrittenNoRepeats | pkg/mf/mf.go:190-243 | where the traversal as written returns, it returns no PID twice and never the root |
| AsWritten.DrainBlocksOnRevisit | pkg/mf/mf.go:233-236 | the snapshot with rows (2, parent 1) and (1, parent 2), where the root is a child of its own child, makes the drain wait forever, while the corrected traversal returns |
| AsWritten.DispatchBlocksPastTenWorkers | pkg/mf/mf.go:220-231 | a root with eleven children blocks on the eleventh hand-out, while the corrected traversal returns all eleven |
| AsWritten.StopReturnsAsWritten | pkg/mf/mf.go:314-360 | Stop as written fails to return only after a successful root pause has left the process Stopped; without a snapshot, or when the root has more than ten children, it returns exactly on its guards or a failed root pause; with a snapshot in which the root has no child it returns |
| AsWritten.StopHangsOnSnapshotFailure | pkg/mf/mf.go:329-357 | when the root pause succeeds but no snapshot can be taken, Stop as written never returns, while the corrected Stop returns with the root paused |
| AsWritten.StopHangsOnBlockedDiscovery | pkg/mf/mf.go:329-357 | when the root pause succeeds and the snapshot gives the root eleven children, Stop as written never returns because its discovery blocks, while the corrected Stop returns with the root and all eleven children paused |

## Left out

- Launching and waiting for the root (`Start`, `Wait`), running the check command,
  splitting command lines on spaces, capturing output, and environment
  inheritance. These are process I/O; the check's verdict is an input.
- The `kill` system calls, the signal-0 probe and `ps.Processes()`. These are
  inputs: `refused`, `alive` and the snapshot.
- Concurrency:
  - The worker goroutines, the per-child signal goroutines and the Checker
    goroutine that runs beside `Wait` are sequential loops here.
  - Signals to descendants are sent one after the other, in the order found.
  - Stop's root pause and its discovery happen one after the other.
  - The Go code collects each level's batches in the order the workers finish;
    the model collects them in the order the PIDs were handed out. So the
    order of `Children` within a level is one of the orders the Go code can
    produce.
- When the root pause fails, Stop returns without waiting for its discovery
  goroutine, and that goroutine then blocks forever on its completion channel.
  The model runs the discovery to the end before returning and does not model
  the leaked goroutine.
- Time:
  - `time.Now` and `time.Since` are one clock reading per pass, taken after the
    check (and any Stop) finished.
  - `time.Duration` overflow and the monotonic-clock detail are not modelled.
  - A negative sleep sleeps for no time.
- Logging, the command-line program in `cmd/mf/mf.go` (flags, duration parsing,
  the start-or-attach choice), and the `Command` field. The attach path's
  `PidExists` check and `State = Running` are what the constructor and
  `PidExists` cover.

## Findings

| source | as written | input that shows it | evidently intended | confidence | as-written member | corrected member |
|---|---|---|---|---|---|---|
| pkg/mf/mf.go:224-236 | the drain waits for `len(newchildren)` results, but only the frontier PIDs that are not checked and not repeated were handed out | snapshot rows (2, parent 1) and (1, parent 2), root 1: the second level hands out nothing but waits for one result | wait for one result per PID handed out, so the traversal ends on every snapshot and returns exactly the PIDs reachable from the root, with no repeats when the snapshot lists each PID once; on a snapshot with a cycle through the root, the root is one of them | not executed; needs a snapshot with a cycle or a repeated row, which a racy `ps` listing can produce | AsWritten.DrainBlocksOnRevisit | Discovery.Discover |
| pkg/mf/mf.go:220-231 | ten workers on unbuffered channels, with results read only after every PID is handed out, so an eleventh hand-out in one level blocks forever | root 1 with children 2 to 12: the eleventh send finds every worker waiting to deliver its result | hand out any number of PIDs per level, for example by reading results while handing out | not executed; any root or level with more than ten children, which also hangs Stop (StopHangsOnBlockedDiscovery) | AsWritten.DispatchBlocksPastTenWorkers | Discovery.Discover |
| pkg/mf/mf.go:329-357 | when the snapshot fails, the discovery goroutine returns without signalling completion, and Stop waits for that signal after a successful root pause | a running root whose pause succeeds while `ps.Processes()` fails | Stop returns with the root paused and no descendant paused | not executed | AsWritten.StopHangsOnSnapshotFailure | Control.StopWithoutSnapshot |
