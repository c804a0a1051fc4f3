/** The dispatcher's code: each method is one region under Cmd_EXT_Lock (or the unlocked status
    test), changes the shared variables exactly as the step of DispatchModel it names, keeps the
    invariants, and promises its caller what they imply. */
module CommandPool {
  import opened DispatchModel
  import opened DispatchInvariants
  import opened DispatchTheorems
  import opened DispatchLaws

  class CommandPool {
    var extDispatch: seq<nat>
    var extAllocated: int
    var extFree: int
    var readyForNextCmd: bool
    var cmdsExecuted: int
    var cmdWaiting: bool
    var mainWaiting: bool
    var mainWaitingCount: int
    const maxAsyncCommands: nat
    var workers: seq<Worker>        // where each pthread running Cmd_EXT_Create is
    var main: Producer              // where the thread calling SS_Execute_Cmd is
    var status: seq<Status>
    ghost var dispatched: seq<nat>
    ghost var purged: set<nat>

    ghost function View(): Pool
      reads this
    {
      Pool(extDispatch, extAllocated, extFree, readyForNextCmd, cmdsExecuted, cmdWaiting, mainWaiting,
           mainWaitingCount, maxAsyncCommands, workers, main, status, dispatched, purged)
    }

    /** Nothing is lost, stranded or counted wrongly. */
    ghost predicate Valid()
      reads this
    {
      Inv(View())
    }

    constructor (max: nat)
      requires 1 <= max
      ensures View() == Init(max) && Valid()
    {
      extDispatch, extAllocated, extFree, readyForNextCmd, cmdsExecuted := [], 0, 0, true, 0;
      cmdWaiting, mainWaiting, mainWaitingCount, maxAsyncCommands := false, false, 0, max;
      workers, main, status, dispatched, purged := [], Idle, [], [], {};
    }

    /** SS_Execute_Cmd up to its return or its wait on Waiting_For_Main. */
    method ExecuteCmd(drain: bool, initial: Status, k: nat)
      requires Valid() && Enabled(View(), Submit(drain, initial, k))
      modifies this
      ensures View() == Apply(old(View()), Submit(drain, initial, k)) && Valid()
      ensures |extDispatch| <= 2 * maxAsyncCommands + 1
      ensures main.Parked? <==> drain || |extDispatch| > 2 * maxAsyncCommands
      ensures readyForNextCmd && SomeAsleep(workers) ==> OnTheWay(workers)
    {
      StepKeepsInv(View(), Submit(drain, initial, k));
      ParksIff(View(), Submit(drain, initial, k));
      Enqueue(drain, initial, k);
    }

    method Enqueue(drain: bool, initial: Status, k: nat)
      modifies this
      ensures View() == DoSubmit(old(View()), drain, initial, k)
    {
      extDispatch := extDispatch + [|status|];
      status := status + [initial];
      CallWorker(k);
      StopReading(drain);
    }

    /** Wait for an empty queue, or for the backlog to go down to the limit, or read on. */
    method StopReading(drain: bool)
      modifies this`mainWaiting, this`mainWaitingCount, this`main
      ensures drain ==> mainWaiting && mainWaitingCount == 0 && main == Parked
      ensures !drain && |extDispatch| > maxAsyncCommands * 2 ==>
                mainWaiting && mainWaitingCount == maxAsyncCommands && main == Parked
      ensures !drain && |extDispatch| <= maxAsyncCommands * 2 ==>
                mainWaiting == old(mainWaiting) && mainWaitingCount == old(mainWaitingCount) && main == old(main)
    {
      if drain {
        mainWaiting, mainWaitingCount, main := true, 0, Parked;
      } else if |extDispatch| > maxAsyncCommands * 2 {
        mainWaiting, mainWaitingCount, main := true, maxAsyncCommands, Parked;
      }
    }

    /** Wake a worker for a new command, or create one; neither while the gate is closed. */
    method CallWorker(k: nat)
      modifies this`extAllocated, this`workers
      ensures readyForNextCmd && extFree != 0 ==> extAllocated == old(extAllocated) && workers == Wake(old(workers), k)
      ensures readyForNextCmd && extFree == 0 && old(extAllocated) < maxAsyncCommands ==>
                extAllocated == old(extAllocated) + 1 && workers == old(workers) + [Starting]
      ensures !readyForNextCmd || (extFree == 0 && old(extAllocated) >= maxAsyncCommands) ==>
                extAllocated == old(extAllocated) && workers == old(workers)
    {
      if readyForNextCmd {
        if extFree != 0 {
          workers := Wake(workers, k);
        } else if extAllocated < maxAsyncCommands {
          extAllocated := extAllocated + 1;
          workers := workers + [Starting];
        }
      }
    }

    /** The loop head of Cmd_EXT_Create, up to the next wait or unlock. */
    method LookForWork(w: nat, q: nat)
      requires w < |workers|
      modifies this
      ensures View() == LoopHead(old(View()), w, q)
    {
      if !readyForNextCmd || extDispatch == [] {
        GoToSleep(w, q);
      } else {
        TakeCommand(w);
      }
    }

    method GoToSleep(w: nat, q: nat)
      requires w < |workers|
      requires !readyForNextCmd || extDispatch == []
      modifies this`extFree, this`workers
      ensures View() == LoopHead(old(View()), w, q)
    {
      extFree := extFree + 1;
      if cmdWaiting && extAllocated == extFree + 1 {
        workers := Notify(workers, q);
      }
      workers := workers[w := Asleep];
    }

    method TakeCommand(w: nat)
      requires w < |workers|
      requires readyForNextCmd && extDispatch != []
      modifies this
      ensures forall q :: View() == LoopHead(old(View()), w, q)
    {
      var cmd := extDispatch[0];
      dispatched := dispatched + [cmd];
      workers := workers[w := Busy(cmd, NextTicket(cmdsExecuted), false, Fetched)];
      cmdsExecuted := cmdsExecuted + 1;
      extDispatch := extDispatch[1..];
      readyForNextCmd := false;
    }

    method WorkerStarts(w: nat, q: nat)
      requires Valid() && Enabled(View(), Begin(w, q))
      modifies this
      ensures View() == Apply(old(View()), Begin(w, q)) && Valid()
    {
      StepKeepsInv(View(), Begin(w, q));
      LookForWork(w, q);
    }

    method WorkerResumes(w: nat, q: nat)
      requires Valid() && Enabled(View(), Resume(w, q))
      modifies this
      ensures View() == Apply(old(View()), Resume(w, q)) && Valid()
    {
      StepKeepsInv(View(), Resume(w, q));
      extFree := extFree - 1;
      assert View() == old(View()).(extFree := extFree);
      LookForWork(w, q);
    }

    /** The unlocked test between taking a command and Cmd_Execute. */
    method TestStatus(w: nat)
      requires Valid() && Enabled(View(), Check(w))
      modifies this
      ensures View() == Apply(old(View()), Check(w)) && Valid()
      ensures workers[w].act == Running <==> !(workers[w].cmd < |status| && Doomed(status[workers[w].cmd]))
    {
      StepKeepsInv(View(), Check(w));
      var x := workers[w];
      if x.cmd < |status| && Doomed(status[x.cmd]) {
        workers := workers[w := x.(act := Skipping)];
      } else {
        workers := workers[w := x.(act := Running)];
      }
    }

    method SafeToDoNextCmd(w: nat, k: nat)
      requires Valid() && Enabled(View(), Release(w, k))
      modifies this
      ensures View() == Apply(old(View()), Release(w, k)) && Valid()
      ensures extDispatch != [] && SomeAsleep(workers) ==> OnTheWay(workers)
    {
      StepKeepsInv(View(), Release(w, k));
      OpenGate(w, k);
    }

    method OpenGate(w: nat, k: nat)
      requires w < |workers| && workers[w].Busy?
      modifies this`readyForNextCmd, this`workers
      ensures View() == DoRelease(old(View()), w, k)
    {
      var x := workers[w].(released := true);
      readyForNextCmd := true;
      if extDispatch != [] && extFree != 0 {
        workers := Wake(workers, k);
      }
      workers := workers[w := x];
    }

    /** One test of the loop in Wait_For_Previous_Cmds. */
    method TestQuiescence(w: nat)
      requires w < |workers| && workers[w].Busy?
      modifies this
      ensures View() == DoAwait(old(View()), w, old(cmdWaiting))
    {
      if extAllocated > extFree + 1 {
        cmdWaiting := true;
        workers := workers[w := workers[w].(act := Blocked)];
      } else {
        workers := workers[w := workers[w].(act := Running)];
      }
    }

    method WaitForPreviousCmds(w: nat)
      requires Valid() && Enabled(View(), Await(w))
      modifies this
      ensures View() == Apply(old(View()), Await(w)) && Valid()
      ensures workers[w].act == Running <==> Solo(View(), w)
    {
      StepKeepsInv(View(), Await(w));
      WaitReturnsIffSolo(View(), Await(w), w);
      TestQuiescence(w);
    }

    method WaiterResumes(w: nat)
      requires Valid() && Enabled(View(), Reawake(w))
      modifies this
      ensures View() == Apply(old(View()), Reawake(w)) && Valid()
      ensures workers[w].act == Running <==> Solo(View(), w)
    {
      StepKeepsInv(View(), Reawake(w));
      WaitReturnsIffSolo(View(), Reawake(w), w);
      cmdWaiting := false;
      TestQuiescence(w);
    }

    /** The region of Cmd_EXT_Create after a command, which runs on into the loop head. */
    method CommandDone(w: nat, q: nat)
      requires Valid() && Enabled(View(), Finish(w, q))
      modifies this
      ensures View() == Apply(old(View()), Finish(w, q)) && Valid()
      ensures !old(Stranded(View())) ==> !Stranded(View())
      ensures old(main).Parked? ==>
        (main.Roused? <==> |old(extDispatch)| <= old(mainWaitingCount)) && (main.Parked? <==> !main.Roused?)
    {
      StepKeepsInv(View(), Finish(w, q));
      if !Stranded(View()) { StepKeepsCompany(View(), Finish(w, q)); }
      if main.Parked? { RousedIff(View(), w, q); }
      EndCommand(workers[w].ticket);
      LookForWork(w, q);
    }

    method EndCommand(ticket: nat)
      modifies this`mainWaiting, this`main, this`readyForNextCmd
      ensures View() == AfterCommand(old(View()), ticket)
    {
      if mainWaiting && |extDispatch| <= mainWaitingCount {
        mainWaiting := false;
        if main.Parked? { main := Roused; }
      }
      if !readyForNextCmd && ticket == cmdsExecuted {
        readyForNextCmd := true;
      }
    }

    method ProducerResumes()
      requires Valid() && Enabled(View(), MainResumes)
      modifies this
      ensures View() == Apply(old(View()), MainResumes) && Valid()
      ensures |extDispatch| <= mainWaitingCount <= maxAsyncCommands
    {
      StepKeepsInv(View(), MainResumes);
      main := Idle;
    }

    /** Purge_Dispatch_Queue: abort every queued command, one at a time. */
    method PurgeDispatchQueue()
      requires Valid()
      modifies this`extDispatch, this`status, this`purged
      ensures View() == Apply(old(View()), PurgeOutside) && Valid()
      ensures forall c :: c in old(extDispatch) ==> c < |status| && Doomed(status[c]) && c in purged
      ensures |status| == |old(status)| && forall c :: 0 <= c < |status| ==>
        status[c] == if c in old(extDispatch) && old(status)[c] != Error then Aborted else old(status)[c]
    {
      StepKeepsInv(View(), PurgeOutside);
      QueueNamesCommands(View());
      AbortIsFinal(status, extDispatch);
      PurgeAborts(View());
      EmptyQueue();
    }

    method EmptyQueue()
      requires forall c :: c in extDispatch ==> c < |status|
      modifies this`extDispatch, this`status, this`purged
      ensures View() == DoPurge(old(View()))
    {
      ghost var taken: seq<nat> := [];
      assert status == AbortAll(old(status), []);
      while extDispatch != []
        invariant old(extDispatch) == taken + extDispatch
        invariant status == AbortAll(old(status), taken)
        invariant purged == old(purged) + set c | c in taken
      {
        assert extDispatch[0] in old(extDispatch);
        AbortOneMore(old(status), taken, extDispatch[0]);
        taken := taken + [extDispatch[0]];
        PurgeHead();
      }
      assert taken == old(extDispatch);
    }

    method PurgeHead()
      requires extDispatch != [] && extDispatch[0] < |status|
      modifies this`extDispatch, this`status, this`purged
      ensures extDispatch == old(extDispatch)[1..] && purged == old(purged) + {old(extDispatch)[0]}
      ensures var cmd := old(extDispatch)[0]; status == old(status)[cmd := SetStatus(old(status)[cmd], Aborted)]
    {
      var cmd := extDispatch[0];
      extDispatch := extDispatch[1..];
      status := status[cmd := SetStatus(status[cmd], Aborted)];
      purged := purged + {cmd};
    }

    /** set_Status from whatever thread. */
    method MarkStatus(cmd: nat, to: Status)
      requires Valid() && Enabled(View(), Mark(cmd, to))
      modifies this
      ensures View() == Apply(old(View()), Mark(cmd, to)) && Valid()
      ensures |status| == |old(status)| && forall c :: 0 <= c < |status| ==>
        status[c] == if c == cmd && old(status)[c] != Error && old(status)[c] != Aborted then to else old(status)[c]
    {
      StepKeepsInv(View(), Mark(cmd, to));
      if !Doomed(status[cmd]) && status[cmd] != to {
        status := status[cmd := to];
      }
    }
  }

  lemma AbortIsFinal(status: seq<Status>, cmds: seq<nat>)
    ensures forall c :: c in cmds && c < |status| ==> Doomed(AbortAll(status, cmds)[c])
  {
  }

  lemma AbortOneMore(status: seq<Status>, taken: seq<nat>, cmd: nat)
    requires cmd < |status|
    ensures var s := AbortAll(status, taken);
      AbortAll(status, taken + [cmd]) == s[cmd := SetStatus(s[cmd], Aborted)]
  {
  }

  /** What PurgeDispatchQueue asks for holds in every reachable state. */
  lemma QueueNamesCommands(p: Pool)
    requires History(p)
    ensures forall c :: c in p.queue ==> c < |p.status|
  {
    SurvivorsAre(|p.status|, p.purged);
    forall c | c in p.queue ensures c < |p.status| {
      assert c in p.dispatched + p.queue;
    }
  }
}
