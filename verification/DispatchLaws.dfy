/** What single regions of the dispatcher do, said of workers, queue and producer rather than of the
    counters they consult; and how far the backlog falls before the producer reads on. */
module DispatchLaws {
  import opened DispatchModel
  import opened DispatchInvariants
  import opened DispatchTheorems
  import opened DispatchProgress

  // ----- calling workers -------------------------------------------------------------

  /** Some sleeper of p is on its way in p'. */
  ghost predicate Woke(p: Pool, p': Pool) {
    exists i :: 0 <= i < |p.workers| && i < |p'.workers| && p.workers[i].Asleep? && p'.workers[i].Woken?
  }

  /** Everybody but perhaps one sleeper is where he was. */
  ghost predicate OneWokeAtMost(p: Pool, p': Pool) {
    && |p.workers| <= |p'.workers|
    && (forall i :: 0 <= i < |p.workers| ==>
          p'.workers[i] == p.workers[i] || (p.workers[i].Asleep? && p'.workers[i].Woken?))
    && (forall i, j :: 0 <= i < j < |p.workers| ==> p'.workers[i] == p.workers[i] || p'.workers[j] == p.workers[j])
  }

  lemma {:induction false} FreeIsCounted(ws: seq<Worker>, i: nat)
    requires i < |ws| && IsFree(ws[i])
    ensures CountFree(ws) > 0
  {
    if i < |ws| - 1 { FreeIsCounted(ws[..|ws| - 1], i); }
  }

  lemma SleeperIsCounted(p: Pool)
    requires Counters(p) && SomeAsleep(p.workers)
    ensures p.extFree > 0
  {
    var i :| 0 <= i < |p.workers| && p.workers[i].Asleep?;
    FreeIsCounted(p.workers, i);
  }

  /** A new command is queued last, with its status. With the gate open it wakes a sleeper if there is
      one; if nobody is free and the limit allows it, it creates a worker; nothing else moves. */
  lemma SubmitCalls(p: Pool, s: Step)
    requires Inv(p) && s.Submit? && Enabled(p, s)
    ensures var p' := Apply(p, s);
      && p'.queue == p.queue + [|p.status|] && p'.status == p.status + [s.initial]
      && OneWokeAtMost(p, p')
      && (Woke(p, p') <==> p.ready && SomeAsleep(p.workers))
      && (|p'.workers| > |p.workers| <==>
            p.ready && |p.workers| < p.max && forall i :: 0 <= i < |p.workers| ==> !IsFree(p.workers[i]))
      && (|p'.workers| > |p.workers| ==> p'.workers == p.workers + [Starting])
  {
    if SomeAsleep(p.workers) {
      SleeperIsCounted(p);
      assert p.ready ==> Apply(p, s).workers[s.k].Woken?;
    }
    if p.extFree == 0 {
      CountZero(p.workers);
    } else if i :| 0 <= i < |p.workers| && IsFree(p.workers[i]) {
    } else {
      CountNone(p.workers);
    }
  }

  lemma {:induction false} CountNone(ws: seq<Worker>)
    requires forall i :: 0 <= i < |ws| ==> !IsFree(ws[i])
    ensures CountFree(ws) == 0
  {
    if ws != [] { CountNone(ws[..|ws| - 1]); }
  }

  /** An early release opens the gate and wakes a sleeper exactly if there is one and work for it. */
  lemma ReleaseWakes(p: Pool, w: nat, k: nat)
    requires Inv(p) && Enabled(p, Release(w, k))
    ensures var p' := Apply(p, Release(w, k));
      p'.ready && p'.queue == p.queue && (Woke(p, p') <==> p.queue != [] && SomeAsleep(p.workers))
  {
    if SomeAsleep(p.workers) {
      SleeperIsCounted(p);
      assert p.queue != [] ==> Apply(p, Release(w, k)).workers[k].Woken?;
    }
  }

  /** A worker that looks for work takes a command exactly if there is one and the gate is open, or
      opened by the end of the newest command; otherwise it goes to sleep. */
  lemma LookTakesIff(p: Pool, s: Step)
    requires Looks(s) && Enabled(p, s)
    ensures var p' := Apply(p, s);
      if p.queue != [] && Serves(p, s.w) then
        p'.dispatched == p.dispatched + [p.queue[0]] && p'.queue == p.queue[1..] &&
        p'.workers[s.w].Busy? && p'.workers[s.w].cmd == p.queue[0] && !p'.workers[s.w].released
      else
        p'.dispatched == p.dispatched && p'.queue == p.queue && p'.workers[s.w].Asleep?
  {
  }

  // ----- the waiter ---------------------------------------------------------------------

  predicate IsNotified(x: Worker) { x.Busy? && x.act == Notified }

  /** Only the last worker but one to go to sleep signals the waiter. */
  lemma LoopHeadNotifies(p: Pool, w: nat, q: nat, i: nat)
    requires w < |p.workers| && i < |p.workers| && w != i && IsBlocked(p.workers[i])
    ensures var p' := LoopHead(p, w, q);
      && |p'.workers| == |p.workers| && (IsNotified(p'.workers[i]) || IsBlocked(p'.workers[i]))
      && (IsNotified(p'.workers[i]) ==> p'.extAllocated == p'.extFree + 1)
  {
  }

  lemma LookNotifies(p: Pool, s: Step, i: nat)
    requires Looks(s) && Enabled(p, s) && i < |p.workers| && IsBlocked(p.workers[i])
    ensures var p' := Apply(p, s);
      && |p'.workers| == |p.workers| && (IsNotified(p'.workers[i]) || IsBlocked(p'.workers[i]))
      && (IsNotified(p'.workers[i]) ==> p'.extAllocated == p'.extFree + 1)
  {
    match s
    case Begin(w, q) => LoopHeadNotifies(p, w, q, i);
    case Resume(w, q) => LoopHeadNotifies(p.(extFree := p.extFree - 1), w, q, i);
    case Finish(w, q) => LoopHeadNotifies(AfterCommand(p, p.workers[w].ticket), w, q, i);
  }

  lemma LastIsAlone(p: Pool, i: nat)
    requires Counters(p) && Quiescence(p) && i < |p.workers| && (IsNotified(p.workers[i]) || IsBlocked(p.workers[i]))
    ensures p.extAllocated == p.extFree + 1 ==> Solo(p, i)
    ensures Solo(p, i) ==> IsNotified(p.workers[i])
  {
    if p.extAllocated == p.extFree + 1 { CountAllButOne(p.workers, i); }
    if Solo(p, i) {
      CountSolo(p.workers, i);
      assert !SomeBlocked(p.workers);
    }
  }

  /** A worker blocked in the quiescence wait is signalled by exactly the step that leaves it alone. */
  lemma WaiterIsNotifiedIff(p: Pool, s: Step, i: nat)
    requires Inv(p) && Looks(s) && Enabled(p, s) && i < |p.workers| && IsBlocked(p.workers[i])
    ensures i < |Apply(p, s).workers|
    ensures IsNotified(Apply(p, s).workers[i]) <==> Solo(Apply(p, s), i)
  {
    LookNotifies(p, s, i);
    StepKeepsCounters(p, s);
    StepKeepsQuiescence(p, s);
    LastIsAlone(Apply(p, s), i);
  }

  ghost predicate SomeInWait(ws: seq<Worker>) { exists i :: 0 <= i < |ws| && InWait(ws[i]) }

  /** Cmd_Waiting says whether anybody is inside the quiescence wait. */
  ghost predicate WaitFlagExact(p: Pool) { p.cmdWaiting <==> SomeInWait(p.workers) }

  lemma AwaitKeepsFlag(p: Pool, s: Step)
    requires Inv(p) && WaitFlagExact(p) && (s.Await? || s.Reawake?) && Enabled(p, s)
    ensures WaitFlagExact(Apply(p, s))
  {
    var p' := Apply(p, s);
    if p'.workers[s.w].act == Blocked {
      assert InWait(p'.workers[s.w]);
    } else {
      WaitReturnsIffSolo(p, s, s.w);
      NobodyElseWaits(p, p', s.w);
    }
  }

  lemma NobodyElseWaits(p: Pool, p': Pool, w: nat)
    requires Solo(p', w) && !InWait(p'.workers[w]) && w < |p.workers| && p'.workers == p.workers[w := p'.workers[w]]
    ensures !SomeInWait(p'.workers) && (SomeInWait(p.workers) <==> InWait(p.workers[w]))
  {
    forall i | 0 <= i < |p.workers| && i != w ensures !InWait(p.workers[i]) {
      assert p.workers[i] == p'.workers[i] && IsFree(p'.workers[i]);
    }
  }

  /** A step by which nobody enters or leaves the wait. */
  lemma SameWaiters(p: Pool, p': Pool)
    requires WaitFlagExact(p) && p'.cmdWaiting == p.cmdWaiting && |p.workers| <= |p'.workers|
    requires forall i :: 0 <= i < |p'.workers| ==> (InWait(p'.workers[i]) <==> i < |p.workers| && InWait(p.workers[i]))
    ensures WaitFlagExact(p')
  {
    if SomeInWait(p.workers) {
      var i :| 0 <= i < |p.workers| && InWait(p.workers[i]);
      assert InWait(p'.workers[i]);
    }
  }

  lemma LoopHeadKeepsFlag(p: Pool, w: nat, q: nat)
    requires w < |p.workers| && !InWait(p.workers[w]) && WaitFlagExact(p)
    ensures WaitFlagExact(LoopHead(p, w, q))
  {
    SameWaiters(p, LoopHead(p, w, q));
  }

  lemma LookKeepsFlag(p: Pool, s: Step)
    requires Looks(s) && Enabled(p, s) && WaitFlagExact(p)
    ensures WaitFlagExact(Apply(p, s))
  {
    match s
    case Begin(w, q) => LoopHeadKeepsFlag(p, w, q);
    case Resume(w, q) =>
      SameWaiters(p, p.(extFree := p.extFree - 1));
      LoopHeadKeepsFlag(p.(extFree := p.extFree - 1), w, q);
    case Finish(w, q) =>
      SameWaiters(p, AfterCommand(p, p.workers[w].ticket));
      LoopHeadKeepsFlag(AfterCommand(p, p.workers[w].ticket), w, q);
  }

  lemma OtherKeepsFlag(p: Pool, s: Step)
    requires !Looks(s) && !s.Await? && !s.Reawake? && Enabled(p, s) && WaitFlagExact(p)
    ensures WaitFlagExact(Apply(p, s))
  {
    SameWaiters(p, Apply(p, s));
  }

  lemma {:induction false} RunKeepsWaitFlag(p: Pool, steps: seq<Step>)
    requires Inv(p) && WaitFlagExact(p) && IsRun(p, steps)
    ensures WaitFlagExact(Exec(p, steps))
    decreases |steps|
  {
    if steps != [] {
      var s := steps[0];
      StepKeepsInv(p, s);
      if Looks(s) {
        LookKeepsFlag(p, s);
      } else if s.Await? || s.Reawake? {
        AwaitKeepsFlag(p, s);
      } else {
        OtherKeepsFlag(p, s);
      }
      RunKeepsWaitFlag(Apply(p, s), steps[1..]);
    }
  }

  /** In every run Cmd_Waiting is set exactly while somebody is inside the quiescence wait. */
  lemma WaitFlagInTime(max: nat, steps: seq<Step>)
    requires 1 <= max && IsRun(Init(max), steps)
    ensures WaitFlagExact(Exec(Init(max), steps))
  {
    InitInv(max);
    RunKeepsWaitFlag(Init(max), steps);
  }

  // ----- the purge -------------------------------------------------------------------------

  /** A purge aborts every queued command that has not failed, and changes no other status. */
  lemma PurgeAborts(p: Pool)
    requires Inv(p)
    ensures var p' := DoPurge(p);
      && p'.queue == [] && p'.workers == p.workers && p'.dispatched == p.dispatched && |p'.status| == |p.status|
      && forall c :: 0 <= c < |p.status| ==>
           p'.status[c] == if c in p.queue && p.status[c] != Error then Aborted else p.status[c]
  {
  }

  // ----- rousing the producer -----------------------------------------------------------------

  /** The producer stops reading for a command that must be finished first, and when the new command
      makes more than twice the limit; it then waits for an empty queue, or for the limit. */
  lemma ParksIff(p: Pool, s: Step)
    requires s.Submit? && Enabled(p, s)
    ensures var p' := Apply(p, s);
      && (p'.main.Parked? <==> s.drain || |p'.queue| > 2 * p.max)
      && (p'.main.Parked? ==> p'.mainCount == if s.drain then 0 else p.max)
  {
  }

  /** The end of a command rouses a waiting producer exactly if no more are queued than it waits for. */
  lemma RousedIff(p: Pool, w: nat, q: nat)
    requires Inv(p) && p.main.Parked? && Enabled(p, Finish(w, q))
    ensures Apply(p, Finish(w, q)).main.Roused? <==> |p.queue| <= p.mainCount
    ensures Apply(p, Finish(w, q)).main.Parked? <==> |p.queue| > p.mainCount
  {
  }

  /** Nothing else rouses it. */
  lemma OnlyEndsRouse(p: Pool, s: Step)
    requires Enabled(p, s) && p.main.Parked? && !s.Finish?
    ensures Apply(p, s).main.Parked? && Apply(p, s).mainCount == p.mainCount
  {
  }

  // ----- the backlog --------------------------------------------------------------------------

  ghost predicate NoPurge(steps: seq<Step>) {
    forall i :: 0 <= i < |steps| ==> !steps[i].PurgeBy? && !steps[i].PurgeOutside?
  }

  /** Waiting for the limit, the producer leaves at least that many queued; they stand at one more
      than twice the limit until the first of them is taken. */
  ghost predicate Backlog(p: Pool) {
    p.main.Parked? && p.mainCount == p.max ==>
      p.max <= |p.queue| && (SomeBusy(p.workers) || |p.queue| == 2 * p.max + 1)
  }

  lemma SubmitKeepsBacklog(p: Pool, s: Step)
    requires Inv(p) && s.Submit? && Enabled(p, s)
    ensures Backlog(Apply(p, s))
  {
  }

  lemma TakeKeepsBacklog(p: Pool, w: nat, q: nat)
    requires w < |p.workers| && p.max >= 1 && |p.queue| > p.max && p.ready
    ensures Backlog(LoopHead(p, w, q))
  {
    assert LoopHead(p, w, q).workers[w].Busy?;
  }

  lemma SleepKeepsBacklog(p: Pool, w: nat, q: nat)
    requires w < |p.workers| && !p.workers[w].Busy? && Backlog(p) && (!p.ready || p.queue == [])
    ensures Backlog(LoopHead(p, w, q))
  {
    if SomeBusy(p.workers) {
      var i :| 0 <= i < |p.workers| && p.workers[i].Busy?;
      assert LoopHead(p, w, q).workers[i].Busy?;
    }
  }

  lemma LookKeepsBacklog(p: Pool, w: nat, q: nat)
    requires w < |p.workers| && !p.workers[w].Busy? && SerialInv(p) && p.max >= 1 && Backlog(p)
    ensures Backlog(LoopHead(p, w, q))
  {
    if p.ready && p.queue != [] {
      if p.main.Parked? && p.mainCount == p.max { TakeKeepsBacklog(p, w, q); }
    } else {
      SleepKeepsBacklog(p, w, q);
    }
  }

  lemma FinishKeepsBacklog(p: Pool, w: nat, q: nat)
    requires Inv(p) && SerialInv(p) && Backlog(p) && w < |p.workers| && p.workers[w].Busy?
    ensures Backlog(DoFinish(p, w, q))
  {
    var p1 := AfterCommand(p, p.workers[w].ticket);
    if p1.main.Parked? && p1.mainCount == p1.max { TakeKeepsBacklog(p1, w, q); }
  }

  lemma OtherKeepsBacklog(p: Pool, s: Step)
    requires !Looks(s) && !s.Submit? && !s.PurgeBy? && !s.PurgeOutside? && Enabled(p, s) && Backlog(p)
    ensures Backlog(Apply(p, s))
  {
    if SomeBusy(p.workers) {
      var i :| 0 <= i < |p.workers| && p.workers[i].Busy?;
      assert Apply(p, s).workers[i].Busy?;
    }
  }

  lemma ResumeKeepsBacklog(p: Pool, w: nat, q: nat)
    requires w < |p.workers| && p.workers[w].Woken? && SerialInv(p) && p.max >= 1 && Backlog(p)
    ensures Backlog(LoopHead(p.(extFree := p.extFree - 1), w, q))
  {
    LookKeepsBacklog(p.(extFree := p.extFree - 1), w, q);
  }

  lemma StepKeepsBacklog(p: Pool, s: Step)
    requires Inv(p) && SerialInv(p) && Backlog(p) && Enabled(p, s) && !s.PurgeBy? && !s.PurgeOutside?
    ensures Backlog(Apply(p, s))
  {
    match s
    case Submit(_, _, _) => SubmitKeepsBacklog(p, s);
    case Begin(w, q) => LookKeepsBacklog(p, w, q);
    case Resume(w, q) => ResumeKeepsBacklog(p, w, q);
    case Finish(w, q) => FinishKeepsBacklog(p, w, q);
    case _ => OtherKeepsBacklog(p, s);
  }

  lemma {:induction false} RunKeepsBacklog(p: Pool, steps: seq<Step>)
    requires Inv(p) && SerialInv(p) && Backlog(p) && IsRun(p, steps) && NoRelease(steps) && NoPurge(steps)
    ensures Backlog(Exec(p, steps))
    decreases |steps|
  {
    if steps != [] {
      assert !steps[0].Release? && !steps[0].PurgeBy? && !steps[0].PurgeOutside?;
      StepKeepsInv(p, steps[0]);
      StepKeepsSerial(p, steps[0]);
      StepKeepsBacklog(p, steps[0]);
      RunKeepsBacklog(Apply(p, steps[0]), steps[1..]);
    }
  }

  /** Without early release and purge, a producer that stopped for the backlog reads on when exactly
      the limit is queued, and not before or after. */
  lemma BacklogFallsToLimit(max: nat, steps: seq<Step>, w: nat, q: nat)
    requires 1 <= max && IsRun(Init(max), steps) && NoRelease(steps) && NoPurge(steps)
    requires var p := Exec(Init(max), steps);
      p.main.Parked? && p.mainCount == max && Enabled(p, Finish(w, q))
    ensures var p := Exec(Init(max), steps);
      Apply(p, Finish(w, q)).main.Roused? <==> |p.queue| == max
  {
    InitInv(max);
    Reachable(max, steps);
    RunKeepsBacklog(Init(max), steps);
    RousedIff(Exec(Init(max), steps), w, q);
  }

  /** A producer waits for an empty queue or for the limit. */
  ghost predicate Patience(p: Pool) { p.main.Parked? ==> p.mainCount == 0 || p.mainCount == p.max }

  lemma {:induction false} RunKeepsPatience(p: Pool, steps: seq<Step>)
    requires Inv(p) && Patience(p) && IsRun(p, steps)
    ensures Patience(Exec(p, steps))
    decreases |steps|
  {
    if steps != [] {
      StepKeepsInv(p, steps[0]);
      StepKeepsPatience(p, steps[0]);
      RunKeepsPatience(Apply(p, steps[0]), steps[1..]);
    }
  }

  lemma StepKeepsPatience(p: Pool, s: Step)
    requires Inv(p) && Patience(p) && Enabled(p, s)
    ensures Patience(Apply(p, s))
  {
    if s.Submit? {
      ParksIff(p, s);
    } else if !s.Finish? {
      if p.main.Parked? { OnlyEndsRouse(p, s); }
    }
  }

  /** In every run the end of a command rouses a waiting producer exactly if the queue is empty, when
      it waits for its command, and exactly if at most the limit is queued, when it stopped for the
      backlog. */
  lemma RousedInTime(max: nat, steps: seq<Step>, w: nat, q: nat)
    requires 1 <= max && IsRun(Init(max), steps)
    requires var p := Exec(Init(max), steps); p.main.Parked? && Enabled(p, Finish(w, q))
    ensures var p := Exec(Init(max), steps);
      && (p.mainCount == 0 || p.mainCount == max)
      && (p.mainCount == 0 ==> (Apply(p, Finish(w, q)).main.Roused? <==> p.queue == []))
      && (p.mainCount == max ==> (Apply(p, Finish(w, q)).main.Roused? <==> |p.queue| <= max))
  {
    InitInv(max);
    Reachable(max, steps);
    RunKeepsPatience(Init(max), steps);
    RousedIff(Exec(Init(max), steps), w, q);
  }
}
