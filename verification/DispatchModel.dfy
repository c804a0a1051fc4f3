/** The command dispatcher of libopenss-cli as a transition system.

    One step is one region of code between taking and releasing Cmd_EXT_Lock (plus the
    unlocked status test before a command runs, and a status change made by any thread).
    A command is named by its position in submission order.  A condition-variable signal
    wakes one of the threads blocked on it, chosen by the step's extra argument. */
module DispatchModel {

  /** Command_Status. */
  datatype Status = Unknown | Parsed | Executing | Complete | Error | Aborted

  /** What a worker holding a command is doing.
      Fetched: about to test the command's status.  Blocked: inside Wait_For_Previous_Cmds and
      not signalled.  Notified: signalled there, not yet running again. */
  datatype Activity = Fetched | Running | Skipping | Blocked | Notified

  datatype Worker =
    | Starting
    | Asleep
    | Woken
    | Busy(cmd: nat, ticket: nat, released: bool, act: Activity)

  /** The one producer: Parked is blocked on Waiting_For_Main, Roused is signalled there. */
  datatype Producer = Idle | Parked | Roused

  datatype Pool = Pool(
    queue: seq<nat>,        // EXT_Dispatch
    extAllocated: int,         // EXT_Allocated
    extFree: int,              // EXT_Free
    ready: bool,            // Ready_for_Next_Cmd
    executed: int,          // Cmds_Executed
    cmdWaiting: bool,       // Cmd_Waiting
    mainWaiting: bool,      // Main_Waiting
    mainCount: int,         // Main_Waiting_Count
    max: nat,               // OPENSS_MAX_ASYNC_COMMANDS
    workers: seq<Worker>,
    main: Producer,
    status: seq<Status>,    // Cmd_Status of every submitted command
    dispatched: seq<nat>,   // history: commands in the order workers took them
    purged: set<nat>)       // history: commands removed by Purge_Dispatch_Queue

  datatype Step =
    | Submit(drain: bool, initial: Status, k: nat)  // SS_Execute_Cmd up to its wait or return
    | MainResumes
    | Begin(w: nat, q: nat)                         // a new worker takes the lock
    | Resume(w: nat, q: nat)                        // a woken worker takes the lock
    | Check(w: nat)                                 // the unlocked status test
    | Release(w: nat, k: nat)                       // SafeToDoNextCmd
    | Await(w: nat)                                 // Wait_For_Previous_Cmds
    | Reawake(w: nat)                               // a notified waiter tests again
    | Finish(w: nat, q: nat)                        // the region after the command
    | PurgeBy(w: nat)                               // Purge_Dispatch_Queue from a command
    | PurgeOutside                                  // ... from an interrupt
    | Mark(cmd: nat, to: Status)                    // set_Status from any thread

  /** A worker looks for work. */
  predicate Looks(s: Step) { s.Begin? || s.Resume? || s.Finish? }

  /** A worker goes on with the command it has. */
  predicate GoesOn(s: Step) { s.Check? || s.Release? || s.Await? || s.Reawake? }

  predicate IsFree(x: Worker) { x.Asleep? || x.Woken? }

  predicate Doomed(s: Status) { s == Error || s == Aborted }

  /** CommandObject::set_Status: an error or abort is final. */
  function SetStatus(old_: Status, to: Status): (r: Status)
    ensures Doomed(old_) ==> r == old_
    ensures !Doomed(old_) ==> r == to
  {
    if Doomed(old_) then old_ else to
  }

  function Init(max: nat): Pool {
    Pool([], 0, 0, true, 0, false, false, 0, max, [], Idle, [], [], {})
  }

  // ----- signals ------------------------------------------------------------

  ghost predicate SomeAsleep(ws: seq<Worker>) { exists i :: 0 <= i < |ws| && ws[i].Asleep? }

  ghost predicate SomeBlocked(ws: seq<Worker>) { exists i :: 0 <= i < |ws| && IsBlocked(ws[i]) }

  predicate IsBlocked(x: Worker) { x.Busy? && x.act == Blocked }

  /** pthread_cond_signal(&Cmd_EXT_Dispatch) choosing worker k. */
  function Wake(ws: seq<Worker>, k: nat): (r: seq<Worker>)
    ensures |r| == |ws|
  {
    if k < |ws| && ws[k].Asleep? then ws[k := Woken] else ws
  }

  /** pthread_cond_signal(&Waiting_For_Cmds) choosing worker q. */
  function Notify(ws: seq<Worker>, q: nat): (r: seq<Worker>)
    ensures |r| == |ws|
  {
    if q < |ws| && IsBlocked(ws[q]) then ws[q := ws[q].(act := Notified)] else ws
  }

  /** A signal cannot miss: when some thread is blocked, the chosen one is. */
  ghost predicate WakeChoice(ws: seq<Worker>, k: nat) {
    SomeAsleep(ws) ==> k < |ws| && ws[k].Asleep?
  }

  ghost predicate NotifyChoice(ws: seq<Worker>, q: nat) {
    SomeBlocked(ws) ==> q < |ws| && IsBlocked(ws[q])
  }

  // ----- the regions ----------------------------------------------------------

  /** Cmd_EXT_Create from the top of its loop, lock held: go to sleep or take a command. */
  function LoopHead(p: Pool, w: nat, q: nat): Pool
    requires w < |p.workers|
  {
    if !p.ready || p.queue == [] then
      var ws := if p.cmdWaiting && p.extAllocated == p.extFree + 2 then Notify(p.workers, q) else p.workers;
      p.(extFree := p.extFree + 1, workers := ws[w := Asleep])
    else
      p.(queue := p.queue[1..], executed := p.executed + 1, ready := false,
         workers := p.workers[w := Busy(p.queue[0], NextTicket(p.executed), false, Fetched)],
         dispatched := p.dispatched + [p.queue[0]])
  }

  /** ++Cmds_Executed, which is never negative. */
  function NextTicket(executed: int): nat { if executed < 0 then 0 else executed + 1 }

  /** SS_Execute_Cmd: queue the command, find a worker for it, then perhaps stop reading input. */
  function DoSubmit(p: Pool, drain: bool, initial: Status, k: nat): Pool {
    var signals := p.ready && p.extFree != 0;
    var creates := p.ready && p.extFree == 0 && p.extAllocated < p.max;
    var parks := drain || |p.queue| + 1 > p.max * 2;
    p.(queue := p.queue + [|p.status|],
       status := p.status + [initial],
       extAllocated := if creates then p.extAllocated + 1 else p.extAllocated,
       workers := if signals then Wake(p.workers, k) else if creates then p.workers + [Starting] else p.workers,
       mainWaiting := parks || p.mainWaiting,
       mainCount := if drain then 0 else if parks then p.max else p.mainCount,
       main := if parks then Parked else p.main)
  }

  function DoCheck(p: Pool, w: nat): Pool
    requires w < |p.workers| && p.workers[w].Busy?
  {
    var x := p.workers[w];
    var skip := x.cmd < |p.status| && Doomed(p.status[x.cmd]);
    p.(workers := p.workers[w := x.(act := if skip then Skipping else Running)])
  }

  function DoRelease(p: Pool, w: nat, k: nat): Pool
    requires w < |p.workers| && p.workers[w].Busy?
  {
    var ws := if p.queue != [] && p.extFree != 0 then Wake(p.workers, k) else p.workers;
    p.(ready := true, workers := ws[w := p.workers[w].(released := true)])
  }

  /** The test of the loop in Wait_For_Previous_Cmds: block, or return to the command with
      Cmd_Waiting as given. */
  function DoAwait(p: Pool, w: nat, waiting: bool): Pool
    requires w < |p.workers| && p.workers[w].Busy?
  {
    var blocks := p.extAllocated > p.extFree + 1;
    p.(cmdWaiting := blocks || waiting,
       workers := p.workers[w := p.workers[w].(act := if blocks then Blocked else Running)])
  }

  /** After a command: rouse the producer, reopen the gate, look for more work. */
  function DoFinish(p: Pool, w: nat, q: nat): Pool
    requires w < |p.workers| && p.workers[w].Busy?
  {
    LoopHead(AfterCommand(p, p.workers[w].ticket), w, q)
  }

  function AfterCommand(p: Pool, ticket: nat): Pool {
    var rouses := p.mainWaiting && |p.queue| <= p.mainCount;
    p.(mainWaiting := p.mainWaiting && !rouses,
       main := if rouses && p.main.Parked? then Roused else p.main,
       ready := p.ready || ticket == p.executed)
  }

  /** Every listed command that has not failed becomes aborted. */
  function AbortAll(status: seq<Status>, cmds: seq<nat>): seq<Status> {
    seq(|status|, i requires 0 <= i < |status| =>
      if i in cmds then SetStatus(status[i], Aborted) else status[i])
  }

  function DoPurge(p: Pool): Pool {
    p.(queue := [], status := AbortAll(p.status, p.queue), purged := p.purged + set c | c in p.queue)
  }

  // ----- steps -----------------------------------------------------------------

  ghost predicate IsActing(p: Pool, w: nat, a: Activity) {
    w < |p.workers| && p.workers[w].Busy? && p.workers[w].act == a
  }

  ghost predicate Enabled(p: Pool, s: Step) {
    match s
    case Submit(_, _, k) => p.main.Idle? && WakeChoice(p.workers, k)
    case MainResumes => p.main.Roused?
    case Begin(w, q) => w < |p.workers| && p.workers[w].Starting? && NotifyChoice(p.workers, q)
    case Resume(w, q) => w < |p.workers| && p.workers[w].Woken? && NotifyChoice(p.workers, q)
    case Check(w) => IsActing(p, w, Fetched)
    case Release(w, k) => IsActing(p, w, Running) && WakeChoice(p.workers, k)
    case Await(w) => IsActing(p, w, Running)
    case Reawake(w) => IsActing(p, w, Notified)
    case Finish(w, q) =>
      (IsActing(p, w, Running) || IsActing(p, w, Skipping)) && NotifyChoice(p.workers, q)
    case PurgeBy(w) => IsActing(p, w, Running)
    case PurgeOutside => true
    case Mark(c, _) => c < |p.status|
  }

  ghost function Apply(p: Pool, s: Step): Pool
    requires Enabled(p, s)
  {
    match s
    case Submit(drain, initial, k) => DoSubmit(p, drain, initial, k)
    case MainResumes => p.(main := Idle)
    case Begin(w, q) => LoopHead(p, w, q)
    case Resume(w, q) => LoopHead(p.(extFree := p.extFree - 1), w, q)
    case Check(w) => DoCheck(p, w)
    case Release(w, k) => DoRelease(p, w, k)
    case Await(w) => DoAwait(p, w, p.cmdWaiting)
    case Reawake(w) => DoAwait(p, w, false)
    case Finish(w, q) => DoFinish(p, w, q)
    case PurgeBy(w) => DoPurge(p)
    case PurgeOutside => DoPurge(p)
    case Mark(c, to) => p.(status := p.status[c := SetStatus(p.status[c], to)])
  }

  // ----- runs ------------------------------------------------------------------

  ghost predicate IsRun(p: Pool, steps: seq<Step>)
    decreases |steps|
  {
    steps == [] || (Enabled(p, steps[0]) && IsRun(Apply(p, steps[0]), steps[1..]))
  }

  ghost function Exec(p: Pool, steps: seq<Step>): Pool
    requires IsRun(p, steps)
    decreases |steps|
  {
    if steps == [] then p else Exec(Apply(p, steps[0]), steps[1..])
  }

  /** Every command opens the gate early at most once. */
  ghost predicate ReleasesOnce(p: Pool, steps: seq<Step>)
    requires IsRun(p, steps)
    decreases |steps|
  {
    steps == [] ||
    ((steps[0].Release? ==> !p.workers[steps[0].w].released) &&
     ReleasesOnce(Apply(p, steps[0]), steps[1..]))
  }

  /** No command enters the wait after it has opened the gate. */
  ghost predicate WaitsFirst(p: Pool, steps: seq<Step>)
    requires IsRun(p, steps)
    decreases |steps|
  {
    steps == [] ||
    ((steps[0].Await? ==> !p.workers[steps[0].w].released) &&
     WaitsFirst(Apply(p, steps[0]), steps[1..]))
  }

  ghost predicate NoRelease(steps: seq<Step>) {
    forall i :: 0 <= i < |steps| ==> !steps[i].Release?
  }

  ghost predicate NoOutsidePurge(steps: seq<Step>) {
    forall i :: 0 <= i < |steps| ==> !steps[i].PurgeOutside?
  }

  /** Worker w neither calls SafeToDoNextCmd nor finishes its command. */
  ghost predicate KeepsCommand(steps: seq<Step>, w: nat) {
    forall i :: 0 <= i < |steps| ==>
      !(steps[i].Release? && steps[i].w == w) && !(steps[i].Finish? && steps[i].w == w)
  }
}
