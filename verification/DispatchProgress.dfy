/** When the dispatcher finishes what it has: exactly as long as no two workers are inside
    Wait_For_Previous_Cmds at once; and when it can rouse a producer that waits. */
module DispatchProgress {
  import opened DispatchModel
  import opened DispatchInvariants
  import opened DispatchTheorems

  predicate InWait(x: Worker) { x.Busy? && (x.act == Blocked || x.act == Notified) }

  ghost predicate BothWait(p: Pool, i: nat, j: nat) {
    i < |p.workers| && j < |p.workers| && i != j && InWait(p.workers[i]) && InWait(p.workers[j])
  }

  /** Two workers wait for each other to finish. */
  ghost predicate MutualWait(p: Pool) { exists i: nat, j: nat :: BothWait(p, i, j) }

  /** Nothing queued and no command in hand. */
  ghost predicate Drained(p: Pool) { p.queue == [] && !SomeBusy(p.workers) }

  // ----- a mutual wait never ends ---------------------------------------------------

  lemma LoopHeadLeavesInWait(p: Pool, w: nat, q: nat, i: nat)
    requires w < |p.workers| && !InWait(p.workers[w]) && i < |p.workers| && InWait(p.workers[i])
    ensures i < |LoopHead(p, w, q).workers| && InWait(LoopHead(p, w, q).workers[i])
  {
  }

  lemma LookLeavesInWait(p: Pool, s: Step, i: nat)
    requires Enabled(p, s) && Looks(s) && i < |p.workers| && InWait(p.workers[i])
    ensures i < |Apply(p, s).workers| && InWait(Apply(p, s).workers[i])
  {
    match s
    case Begin(w, q) => LoopHeadLeavesInWait(p, w, q, i);
    case Resume(w, q) => LoopHeadLeavesInWait(p.(extFree := p.extFree - 1), w, q, i);
    case Finish(w, q) => LoopHeadLeavesInWait(AfterCommand(p, p.workers[w].ticket), w, q, i);
  }

  lemma OwnLeavesInWait(p: Pool, s: Step, i: nat)
    requires Enabled(p, s) && GoesOn(s) && i < |p.workers| && InWait(p.workers[i]) && p.extAllocated > p.extFree + 1
    ensures i < |Apply(p, s).workers| && InWait(Apply(p, s).workers[i])
  {
  }

  /** As long as anybody else is busy, a worker inside the wait stays there. */
  lemma StaysInWait(p: Pool, s: Step, i: nat)
    requires Enabled(p, s) && i < |p.workers| && InWait(p.workers[i]) && p.extAllocated > p.extFree + 1
    ensures i < |Apply(p, s).workers| && InWait(Apply(p, s).workers[i])
  {
    if Looks(s) { LookLeavesInWait(p, s, i); } else if GoesOn(s) { OwnLeavesInWait(p, s, i); }
  }

  lemma StepKeepsWaiting(p: Pool, s: Step, i: nat, j: nat)
    requires Inv(p) && Enabled(p, s) && BothWait(p, i, j)
    ensures BothWait(Apply(p, s), i, j)
  {
    CountBusy(p.workers, i, j);
    StaysInWait(p, s, i);
    StaysInWait(p, s, j);
  }

  /** Two workers inside the wait stay there in every continuation, whatever anybody does. */
  lemma {:induction false} MutualWaitIsForever(p: Pool, steps: seq<Step>, i: nat, j: nat)
    requires Inv(p) && IsRun(p, steps) && BothWait(p, i, j)
    ensures BothWait(Exec(p, steps), i, j)
    decreases |steps|
  {
    if steps != [] {
      StepKeepsInv(p, steps[0]);
      StepKeepsWaiting(p, steps[0], i, j);
      MutualWaitIsForever(Apply(p, steps[0]), steps[1..], i, j);
    }
  }

  // ----- otherwise the pool drains, however it is scheduled -----------------------------

  function Weight(x: Worker): nat {
    match x
    case Asleep => 0
    case Starting => 2
    case Woken => 2
    case Busy(_, _, _, act) =>
      match act
      case Running => 2
      case Skipping => 2
      case Fetched => 3
      case Blocked => 3
      case Notified => 4
  }

  function Total(ws: seq<Worker>): nat {
    if ws == [] then 0 else Total(ws[..|ws| - 1]) + Weight(ws[|ws| - 1])
  }

  lemma {:induction false} TotalUpdate(ws: seq<Worker>, i: nat, x: Worker)
    requires i < |ws|
    ensures Total(ws[i := x]) == Total(ws) + Weight(x) - Weight(ws[i])
  {
    var n := |ws| - 1;
    if i < n {
      TotalUpdate(ws[..n], i, x);
      assert ws[i := x][..n] == ws[..n][i := x];
    } else {
      assert ws[i := x][..n] == ws[..n];
    }
  }

  /** How much is left to do: no more plain steps than this are possible. */
  function Left(p: Pool): nat { 2 * |p.queue| + Total(p.workers) }

  /** A worker's own step that neither opens the gate nor enters the wait. */
  predicate Plain(s: Step) { s.Begin? || s.Resume? || s.Check? || s.Reawake? || s.Finish? }

  ghost predicate AllPlain(steps: seq<Step>) { forall i :: 0 <= i < |steps| ==> Plain(steps[i]) }

  /** No worker can take a plain step. */
  ghost predicate AtRest(p: Pool) { forall s :: Plain(s) ==> !Enabled(p, s) }

  /** Going to sleep may notify a waiter, which weighs one more then. */
  lemma NotifyTotal(ws: seq<Worker>, q: nat)
    ensures Total(Notify(ws, q)) <= Total(ws) + 1
  {
    if q < |ws| && IsBlocked(ws[q]) { TotalUpdate(ws, q, ws[q].(act := Notified)); }
  }

  lemma LoopHeadLowers(p: Pool, w: nat, q: nat)
    requires w < |p.workers| && !InWait(p.workers[w]) && Weight(p.workers[w]) == 2
    ensures Left(LoopHead(p, w, q)) < Left(p)
  {
    NotifyTotal(p.workers, q);
    TotalUpdate(Notify(p.workers, q), w, Asleep);
    TotalUpdate(p.workers, w, Asleep);
    TotalUpdate(p.workers, w, LoopHead(p, w, q).workers[w]);
  }

  lemma PlainStepLowers(p: Pool, s: Step)
    requires Enabled(p, s) && Plain(s)
    ensures Left(Apply(p, s)) < Left(p)
  {
    match s
    case Begin(w, q) => LoopHeadLowers(p, w, q);
    case Resume(w, q) => LoopHeadLowers(p.(extFree := p.extFree - 1), w, q);
    case Check(w) => TotalUpdate(p.workers, w, Apply(p, s).workers[w]);
    case Reawake(w) => TotalUpdate(p.workers, w, Apply(p, s).workers[w]);
    case Finish(w, q) => LoopHeadLowers(AfterCommand(p, p.workers[w].ticket), w, q);
  }

  /** Nobody is inside the wait in p' who was not in p. */
  ghost predicate NoNewWaiter(p: Pool, p': Pool) {
    |p'.workers| == |p.workers| && forall i :: 0 <= i < |p.workers| && InWait(p'.workers[i]) ==> InWait(p.workers[i])
  }

  lemma LookAddsNoWaiter(p: Pool, s: Step)
    requires Enabled(p, s) && Looks(s)
    ensures NoNewWaiter(p, Apply(p, s))
  {
  }

  lemma OwnAddsNoWaiter(p: Pool, s: Step)
    requires Enabled(p, s) && (s.Check? || s.Reawake?)
    ensures NoNewWaiter(p, Apply(p, s))
  {
  }

  lemma NoNewMutualWait(p: Pool, p': Pool)
    requires NoNewWaiter(p, p')
    ensures MutualWait(p') ==> MutualWait(p)
  {
    if i: nat, j: nat :| BothWait(p', i, j) { assert BothWait(p, i, j); }
  }

  lemma PlainStepAddsNoWaiter(p: Pool, s: Step)
    requires Enabled(p, s) && Plain(s)
    ensures MutualWait(Apply(p, s)) ==> MutualWait(p)
  {
    if Looks(s) { LookAddsNoWaiter(p, s); } else { OwnAddsNoWaiter(p, s); }
    NoNewMutualWait(p, Apply(p, s));
  }

  /** Every run of plain steps ends: it is no longer than what was left to do. */
  lemma {:induction false} PlainRunIsBounded(p: Pool, steps: seq<Step>)
    requires Inv(p) && IsRun(p, steps) && AllPlain(steps)
    ensures |steps| + Left(Exec(p, steps)) <= Left(p)
    ensures Inv(Exec(p, steps)) && (MutualWait(Exec(p, steps)) ==> MutualWait(p))
    decreases |steps|
  {
    if steps != [] {
      assert Plain(steps[0]);
      StepKeepsInv(p, steps[0]);
      PlainStepLowers(p, steps[0]);
      PlainStepAddsNoWaiter(p, steps[0]);
      PlainRunIsBounded(Apply(p, steps[0]), steps[1..]);
    }
  }

  lemma ChooseNotified(p: Pool) returns (q: nat)
    ensures NotifyChoice(p.workers, q)
  {
    q := 0;
    if SomeBlocked(p.workers) {
      var j :| 0 <= j < |p.workers| && IsBlocked(p.workers[j]);
      q := j;
    }
  }

  /** A worker can go on unless it sleeps or is blocked in the wait. */
  lemma CanGoOn(p: Pool, w: nat) returns (s: Step)
    requires w < |p.workers| && !p.workers[w].Asleep? && !IsBlocked(p.workers[w])
    ensures Plain(s) && Enabled(p, s) && s.w == w
  {
    var q := ChooseNotified(p);
    s := match p.workers[w]
      case Starting => Begin(w, q)
      case Woken => Resume(w, q)
      case Busy(_, _, _, act) => if act == Fetched then Check(w) else if act == Notified then Reawake(w) else Finish(w, q)
      case Asleep => Begin(w, q);
  }

  /** At rest, with something left to do, somebody is blocked in the wait. */
  lemma BlockedIsLeft(p: Pool) returns (w: nat)
    requires Inv(p) && !Drained(p)
    requires forall i :: 0 <= i < |p.workers| ==> p.workers[i].Asleep? || IsBlocked(p.workers[i])
    ensures w < |p.workers| && IsBlocked(p.workers[w])
  {
    assert p.queue != [] ==> p.workers[0].Asleep? || IsBlocked(p.workers[0]);
    if !p.ready {
      var i :| HoldsGate(p, i);
      w := i;
    } else if SomeBusy(p.workers) {
      var i :| 0 <= i < |p.workers| && p.workers[i].Busy?;
      w := i;
    } else {
      assert false;
    }
  }

  /** Without a mutual wait the workers come to rest only when everything is finished. */
  lemma RestIsDrained(p: Pool)
    requires Inv(p) && AtRest(p) && !MutualWait(p)
    ensures Drained(p)
  {
    forall i | 0 <= i < |p.workers| ensures p.workers[i].Asleep? || IsBlocked(p.workers[i]) {
      if !p.workers[i].Asleep? && !IsBlocked(p.workers[i]) { var s := CanGoOn(p, i); }
    }
    if !Drained(p) {
      var w := BlockedIsLeft(p);
      forall i | 0 <= i < |p.workers| && i != w ensures IsFree(p.workers[i]) {
        if IsBlocked(p.workers[i]) { assert BothWait(p, i, w); }
      }
      CountSolo(p.workers, w);
    }
  }

  /** A run of plain steps that no worker can continue. */
  ghost predicate Completes(p: Pool, steps: seq<Step>) {
    IsRun(p, steps) && AllPlain(steps) && AtRest(Exec(p, steps))
  }

  lemma {:induction false} SomeRunCompletes(p: Pool) returns (steps: seq<Step>)
    ensures Completes(p, steps)
    decreases Left(p)
  {
    steps := [];
    if s :| Plain(s) && Enabled(p, s) {
      PlainStepLowers(p, s);
      var rest := SomeRunCompletes(Apply(p, s));
      steps := [s] + rest;
      assert steps[1..] == rest;
    }
  }

  /** Every schedule of the workers' own steps ends, and in every one of them everything at hand is
      finished at the end, if and only if no two workers are inside the wait. */
  lemma EveryScheduleDrainsIff(p: Pool)
    requires Inv(p)
    ensures forall steps :: IsRun(p, steps) && AllPlain(steps) ==> |steps| <= Left(p)
    ensures (forall steps :: Completes(p, steps) ==> Drained(Exec(p, steps))) <==> !MutualWait(p)
  {
    forall steps | IsRun(p, steps) && AllPlain(steps)
      ensures |steps| <= Left(p)
      ensures !MutualWait(p) && Completes(p, steps) ==> Drained(Exec(p, steps))
    {
      PlainRunIsBounded(p, steps);
      if !MutualWait(p) && Completes(p, steps) { RestIsDrained(Exec(p, steps)); }
    }
    if MutualWait(p) {
      var steps := SomeRunCompletes(p);
      NeverDrains(p, steps);
    }
  }

  lemma NeverDrains(p: Pool, steps: seq<Step>)
    requires Inv(p) && IsRun(p, steps) && MutualWait(p)
    ensures !Drained(Exec(p, steps)) && MutualWait(Exec(p, steps))
  {
    var i: nat, j: nat :| BothWait(p, i, j);
    MutualWaitIsForever(p, steps, i, j);
    assert Exec(p, steps).workers[i].Busy?;
  }

  ghost predicate Drains(p: Pool, steps: seq<Step>) { IsRun(p, steps) && Drained(Exec(p, steps)) }

  /** A run of workers' own steps that finishes every queued and running command. */
  lemma Drain(p: Pool) returns (steps: seq<Step>)
    requires Inv(p) && !MutualWait(p)
    ensures Completes(p, steps) && Drains(p, steps)
  {
    steps := SomeRunCompletes(p);
    EveryScheduleDrainsIff(p);
  }

  /** Whatever steps are allowed, the commands at hand can all be finished if and only if no two
      workers are inside the wait. */
  lemma CanDrainIff(p: Pool)
    requires Inv(p)
    ensures (exists steps :: Drains(p, steps)) <==> !MutualWait(p)
  {
    if !MutualWait(p) {
      var steps := Drain(p);
    } else {
      forall steps | IsRun(p, steps) ensures !Drained(Exec(p, steps)) { NeverDrains(p, steps); }
    }
  }

  // ----- the producer that waits ------------------------------------------------------------

  /** Some worker has a command and is not inside the wait. */
  ghost predicate SomeoneActs(p: Pool) {
    exists i :: 0 <= i < |p.workers| && p.workers[i].Busy? && !InWait(p.workers[i])
  }

  /** Some worker is about to be given a command. */
  ghost predicate SomeoneStarts(p: Pool) { p.ready && p.queue != [] && OnTheWay(p.workers) }

  ghost predicate Rouses(p: Pool, steps: seq<Step>) { IsRun(p, steps) && !Exec(p, steps).main.Parked? }

  lemma OneMore(p: Pool, s: Step, rest: seq<Step>)
    requires Enabled(p, s) && Rouses(Apply(p, s), rest)
    ensures Rouses(p, [s] + rest)
  {
    assert ([s] + rest)[1..] == rest;
  }

  /** A worker that acts can end with the queue purged, which rouses any producer. */
  lemma ActingRouses(p: Pool) returns (steps: seq<Step>)
    requires Inv(p) && p.main.Parked? && SomeoneActs(p)
    ensures Rouses(p, steps)
  {
    var i: int :| 0 <= i < |p.workers| && p.workers[i].Busy? && !InWait(p.workers[i]);
    if p.workers[i].act == Fetched {
      StepKeepsInv(p, Check(i));
      var rest := EndingRouses(Apply(p, Check(i)), i);
      OneMore(p, Check(i), rest);
      steps := [Check(i)] + rest;
    } else {
      steps := EndingRouses(p, i);
    }
  }

  lemma EndingRouses(p: Pool, w: nat) returns (steps: seq<Step>)
    requires Inv(p) && p.main.Parked? && (IsActing(p, w, Running) || IsActing(p, w, Skipping))
    ensures Rouses(p, steps)
  {
    var p1 := Apply(p, PurgeOutside);
    var q := ChooseNotified(p1);
    assert Rouses(Apply(p1, Finish(w, q)), []);
    OneMore(p1, Finish(w, q), []);
    OneMore(p, PurgeOutside, [Finish(w, q)] + []);
    steps := [PurgeOutside] + ([Finish(w, q)] + []);
  }

  lemma StartingRouses(p: Pool) returns (steps: seq<Step>)
    requires Inv(p) && p.main.Parked? && SomeoneStarts(p)
    ensures Rouses(p, steps)
  {
    var s := SomeoneDispatches(p);
    StepKeepsInv(p, s);
    var p1 := Apply(p, s);
    assert p1.workers[s.w].Busy? && !InWait(p1.workers[s.w]);
    var rest := ActingRouses(p1);
    OneMore(p, s, rest);
    steps := [s] + rest;
  }

  /** Two workers inside the wait, and nobody who acts or could come to act. */
  ghost predicate Hopeless(p: Pool) {
    p.main.Parked? && MutualWait(p) && !SomeoneActs(p) && !SomeoneStarts(p)
  }

  lemma LoopHeadStaysHopeless(p: Pool, w: nat, q: nat)
    requires w < |p.workers| && (p.workers[w].Starting? || p.workers[w].Woken?)
    requires !SomeoneActs(p) && !SomeoneStarts(p)
    ensures var p' := LoopHead(p, w, q); !SomeoneActs(p') && !SomeoneStarts(p')
  {
  }

  lemma WaitersStayHopeless(p: Pool, p': Pool)
    requires !SomeoneActs(p) && !SomeoneStarts(p) && |p'.workers| == |p.workers|
    requires forall i :: 0 <= i < |p.workers| ==>
      p'.workers[i] == p.workers[i] || (InWait(p.workers[i]) && InWait(p'.workers[i]))
    requires p'.ready == p.ready && (p'.queue == p.queue || p'.queue == [])
    ensures !SomeoneActs(p') && !SomeoneStarts(p')
  {
    if OnTheWay(p'.workers) { assert OnTheWay(p.workers); }
  }

  lemma LookStaysHopeless(p: Pool, s: Step)
    requires Enabled(p, s) && Looks(s) && !SomeoneActs(p) && !SomeoneStarts(p)
    ensures !SomeoneActs(Apply(p, s)) && !SomeoneStarts(Apply(p, s))
  {
    match s
    case Begin(w, q) => LoopHeadStaysHopeless(p, w, q);
    case Resume(w, q) => LoopHeadStaysHopeless(p.(extFree := p.extFree - 1), w, q);
    case Finish(_, _) =>
  }

  lemma OtherStaysHopeless(p: Pool, s: Step)
    requires Enabled(p, s) && !Looks(s) && p.main.Parked? && !SomeoneActs(p) && !SomeoneStarts(p)
    requires p.extAllocated > p.extFree + 1
    ensures !SomeoneActs(Apply(p, s)) && !SomeoneStarts(Apply(p, s)) && Apply(p, s).main.Parked?
  {
    WaitersStayHopeless(p, Apply(p, s));
  }

  lemma StepStaysHopeless(p: Pool, s: Step)
    requires Inv(p) && Hopeless(p) && Enabled(p, s)
    ensures Hopeless(Apply(p, s))
  {
    var i: nat, j: nat :| BothWait(p, i, j);
    StepKeepsWaiting(p, s, i, j);
    CountBusy(p.workers, i, j);
    if Looks(s) {
      LookStaysHopeless(p, s);
      LookLeavesParked(p, s);
    } else {
      OtherStaysHopeless(p, s);
    }
  }

  lemma LookLeavesParked(p: Pool, s: Step)
    requires Enabled(p, s) && Looks(s) && p.main.Parked? && !SomeoneActs(p)
    ensures Apply(p, s).main.Parked?
  {
  }

  lemma {:induction false} HopelessForever(p: Pool, steps: seq<Step>)
    requires Inv(p) && Hopeless(p) && IsRun(p, steps)
    ensures Exec(p, steps).main.Parked?
    decreases |steps|
  {
    if steps != [] {
      StepKeepsInv(p, steps[0]);
      StepStaysHopeless(p, steps[0]);
      HopelessForever(Apply(p, steps[0]), steps[1..]);
    }
  }

  /** Without a mutual wait, every schedule of the workers' own steps rouses a producer that is not
      stranded, whatever it waits for. */
  lemma EveryScheduleRouses(p: Pool, steps: seq<Step>)
    requires Inv(p) && !Stranded(p) && !MutualWait(p) && Completes(p, steps)
    ensures !Exec(p, steps).main.Parked?
  {
    EveryScheduleDrainsIff(p);
    NoStrandedProducer(p, steps);
  }

  /** A producer that waits can still be roused if and only if it is not stranded and either no two
      workers are inside the wait, or somebody acts, or somebody is about to be given a command. */
  lemma CanRouseIff(p: Pool)
    requires Inv(p) && p.main.Parked?
    ensures (exists steps :: Rouses(p, steps)) <==>
              !Stranded(p) && (!MutualWait(p) || SomeoneActs(p) || SomeoneStarts(p))
    ensures !MutualWait(p) ==>
              ((forall steps :: Completes(p, steps) ==> Rouses(p, steps)) <==> !Stranded(p))
  {
    if Stranded(p) {
      forall steps | IsRun(p, steps) ensures !Rouses(p, steps) { StrandedForever(p, steps); }
      var steps := SomeRunCompletes(p);
    } else if !MutualWait(p) {
      forall steps | Completes(p, steps) ensures Rouses(p, steps) { EveryScheduleRouses(p, steps); }
      var steps := SomeRunCompletes(p);
    } else if SomeoneActs(p) {
      var steps := ActingRouses(p);
    } else if SomeoneStarts(p) {
      var steps := StartingRouses(p);
    } else {
      forall steps | IsRun(p, steps) ensures !Rouses(p, steps) { HopelessForever(p, steps); }
    }
  }

  /** After a purge from outside a waiting producer can still be roused exactly when some command is
      in hand and either no two workers are inside the wait or somebody is outside it. */
  lemma OutsidePurgeLeavesHopeIff(p: Pool)
    requires Inv(p) && p.main.Parked?
    ensures (exists steps :: Rouses(Apply(p, PurgeOutside), steps)) <==>
              SomeBusy(p.workers) && (!MutualWait(p) || SomeoneActs(p))
  {
    var p1 := Apply(p, PurgeOutside);
    StepKeepsInv(p, PurgeOutside);
    OutsidePurgeStrandsIff(p);
    CanRouseIff(p1);
    if MutualWait(p) {
      var i: nat, j: nat :| BothWait(p, i, j);
      assert BothWait(p1, i, j);
    }
    if MutualWait(p1) {
      var i: nat, j: nat :| BothWait(p1, i, j);
      assert BothWait(p, i, j);
    }
  }

  // ----- commands that wait before they release -------------------------------------------

  ghost predicate WaitersUnreleased(p: Pool) {
    forall i :: 0 <= i < |p.workers| && InWait(p.workers[i]) ==> !p.workers[i].released
  }

  lemma LookKeepsWaiters(p: Pool, s: Step)
    requires Enabled(p, s) && Looks(s) && WaitersUnreleased(p)
    ensures WaitersUnreleased(Apply(p, s))
  {
  }

  lemma StepKeepsWaiters(p: Pool, s: Step)
    requires Enabled(p, s) && WaitersUnreleased(p)
    requires s.Await? ==> !p.workers[s.w].released
    ensures WaitersUnreleased(Apply(p, s))
  {
    if Looks(s) { LookKeepsWaiters(p, s); }
  }

  lemma {:induction false} RunKeepsWaiters(p: Pool, steps: seq<Step>)
    requires WaitersUnreleased(p) && IsRun(p, steps) && WaitsFirst(p, steps)
    ensures WaitersUnreleased(Exec(p, steps))
    decreases |steps|
  {
    if steps != [] {
      StepKeepsWaiters(p, steps[0]);
      RunKeepsWaiters(Apply(p, steps[0]), steps[1..]);
    }
  }

  lemma NoMutualWait(p: Pool)
    requires GateExact(p) && WaitersUnreleased(p)
    ensures !MutualWait(p)
  {
    if i: nat, j: nat :| BothWait(p, i, j) { assert Unreleased(p, i) && Unreleased(p, j); }
  }

  /** If every command waits only before it releases, and releases at most once, then from every
      reachable state every schedule of the workers' own steps ends, with everything finished and,
      if only commands have purged the queue, with the producer not left waiting. */
  lemma AlwaysDrains(max: nat, steps: seq<Step>, more: seq<Step>)
    requires 1 <= max && IsRun(Init(max), steps)
    requires ReleasesOnce(Init(max), steps) && WaitsFirst(Init(max), steps)
    requires IsRun(Exec(Init(max), steps), more) && AllPlain(more)
    ensures var p := Exec(Init(max), steps);
      && |more| <= Left(p)
      && (AtRest(Exec(p, more)) ==> Drained(Exec(p, more)))
      && (AtRest(Exec(p, more)) && NoOutsidePurge(steps) ==> !Exec(p, more).main.Parked?)
  {
    var p := Exec(Init(max), steps);
    InitInv(max);
    Reachable(max, steps);
    OneUnreleased(max, steps);
    RunKeepsWaiters(Init(max), steps);
    NoMutualWait(p);
    EveryScheduleDrainsIff(p);
    if AtRest(Exec(p, more)) && NoOutsidePurge(steps) {
      NoStrandedProducer(Init(max), steps);
      EveryScheduleRouses(p, more);
    }
  }

  // ----- runs that deadlock -----------------------------------------------------------------

  /** Releasing first and waiting then deadlocks: the first command waits for the second, which
      waits for the first. */
  lemma WaitAfterReleaseDeadlocks(max: nat) returns (steps: seq<Step>)
    requires 2 <= max
    ensures IsRun(Init(max), steps) && ReleasesOnce(Init(max), steps) && MutualWait(Exec(Init(max), steps))
  {
    steps := ReachSecondWaits(max);
    RunSnoc(Init(max), steps, Await(0));
    steps := steps + [Await(0)];
    assert BothWait(Exec(Init(max), steps), 0, 1);
  }

  /** So does releasing twice, as expCreate does, although no command waits after releasing: the
      first command's second release lets a third command in beside the second, which waits
      already, and the third waits too. */
  lemma SecondReleaseDeadlocks(max: nat) returns (steps: seq<Step>, p: Pool)
    requires 2 <= max
    ensures Leads(max, steps, p, false) && BothWait(p, 0, 1)
    ensures p.main.Idle? && !p.ready && p.queue == [] && NoOutsidePurge(steps)
    ensures forall i :: 2 <= i < |p.workers| ==> p.workers[i].Starting?
  {
    steps, p := ThirdIsTaken(max);
    steps, p := Extend(max, steps, p, false, Check(0));
    assert p.workers[0] == Busy(2, 3, false, Running);
    steps, p := Extend(max, steps, p, false, Await(0));
  }

  /** The first worker ends and takes the third command. */
  lemma ThirdIsTaken(max: nat) returns (steps: seq<Step>, p: Pool)
    requires 2 <= max
    ensures Leads(max, steps, p, false) && NoOutsidePurge(steps)
    ensures |p.workers| >= 2 && p.workers[0] == Busy(2, 3, false, Fetched) && p.workers[1] == Busy(1, 2, false, Blocked)
    ensures p.extAllocated > p.extFree + 1 && p.main.Idle? && !p.ready && p.queue == [] && |p.status| == 3
    ensures p.status[2] == Parsed && forall i :: 2 <= i < |p.workers| ==> p.workers[i].Starting?
  {
    steps, p := ThirdIsQueued(max);
    steps, p := Extend(max, steps, p, false, Finish(0, 1));
  }

  /** The first command releases again, and a third one is submitted. */
  lemma ThirdIsQueued(max: nat) returns (steps: seq<Step>, p: Pool)
    requires 2 <= max
    ensures Leads(max, steps, p, false) && NoOutsidePurge(steps)
    ensures |p.workers| >= 2 && p.workers[0] == Busy(0, 1, true, Running) && p.workers[1] == Busy(1, 2, false, Blocked)
    ensures p.extAllocated > p.extFree + 1 && p.ready && p.queue == [2] && p.executed == 2
    ensures p.main.Idle? && !p.mainWaiting && p.status == [Parsed, Parsed, Parsed]
    ensures forall i :: 2 <= i < |p.workers| ==> p.workers[i].Starting?
  {
    steps := ReachSecondWaits(max);
    p := TwoInHand(max, false, Blocked);
    steps, p := Extend(max, steps, p, false, Release(0, 0));
    assert p.workers == [Busy(0, 1, true, Running), Busy(1, 2, false, Blocked)];
    steps, p := Extend(max, steps, p, false, Submit(false, Parsed, 0));
    assert p.workers[..2] == [Busy(0, 1, true, Running), Busy(1, 2, false, Blocked)];
  }

  /** Such a deadlock holds up the producer for good, with a command queued and no purge from
      outside. */
  lemma DeadlockHoldsProducer(max: nat) returns (steps: seq<Step>)
    requires 2 <= max
    ensures IsRun(Init(max), steps) && WaitsFirst(Init(max), steps) && NoOutsidePurge(steps)
    ensures var p := Exec(Init(max), steps);
      p.main.Parked? && !Stranded(p) && forall more :: IsRun(p, more) ==> Exec(p, more).main.Parked?
  {
    var p;
    steps, p := SecondReleaseDeadlocks(max);
    steps, p := Extend(max, steps, p, false, Submit(true, Parsed, 0));
    assert BothWait(p, 0, 1);
    Reachable(max, steps);
    assert p.workers[0].Busy?;
    forall more | IsRun(p, more) ensures Exec(p, more).main.Parked? { HopelessForever(p, more); }
  }
}
