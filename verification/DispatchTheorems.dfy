/** What the dispatcher guarantees over whole runs. */
module DispatchTheorems {
  import opened DispatchModel
  import opened DispatchInvariants

  // ----- runs ---------------------------------------------------------------

  lemma {:induction false} RunKeepsInv(p: Pool, steps: seq<Step>)
    requires Inv(p) && IsRun(p, steps)
    ensures Inv(Exec(p, steps)) && Exec(p, steps).max == p.max
    decreases |steps|
  {
    if steps != [] {
      StepKeepsInv(p, steps[0]);
      RunKeepsInv(Apply(p, steps[0]), steps[1..]);
    }
  }

  lemma Reachable(max: nat, steps: seq<Step>)
    requires 1 <= max && IsRun(Init(max), steps)
    ensures Inv(Exec(Init(max), steps)) && Exec(Init(max), steps).max == max
  {
    InitInv(max);
    RunKeepsInv(Init(max), steps);
  }

  lemma {:induction false} RunSnoc(p: Pool, steps: seq<Step>, s: Step)
    requires IsRun(p, steps) && Enabled(Exec(p, steps), s)
    ensures IsRun(p, steps + [s]) && Exec(p, steps + [s]) == Apply(Exec(p, steps), s)
    ensures ReleasesOnce(p, steps) && (s.Release? ==> !Exec(p, steps).workers[s.w].released) ==>
              ReleasesOnce(p, steps + [s])
    ensures WaitsFirst(p, steps) && (s.Await? ==> !Exec(p, steps).workers[s.w].released) ==>
              WaitsFirst(p, steps + [s])
    decreases |steps|
  {
    if steps != [] {
      RunSnoc(Apply(p, steps[0]), steps[1..], s);
      assert (steps + [s])[1..] == steps[1..] + [s];
    } else {
      assert [s][1..] == [];
    }
  }

  // ----- no stranded work ---------------------------------------------------------

  /** Worker i will take the head of the queue when it next looks for work. */
  ghost predicate Serves(p: Pool, i: int) {
    0 <= i < |p.workers| &&
    match p.workers[i]
    case Asleep => false
    case Starting => p.ready
    case Woken => p.ready
    case Busy(_, ticket, _, _) => p.ready || ticket == p.executed
  }

  /** In every reachable state, queued work implies a worker that is not asleep and whose next look
      for work, if it comes now, takes the head of the queue. */
  lemma NoStrandedWork(max: nat, steps: seq<Step>)
    requires 1 <= max && IsRun(Init(max), steps)
    ensures var p := Exec(Init(max), steps);
      p.queue != [] ==> exists i :: Serves(p, i) && Takes(p, i)
  {
    Reachable(max, steps);
    var p := Exec(Init(max), steps);
    if p.queue != [] {
      var i := Server(p);
      ServerTakes(p, i);
    }
  }

  ghost predicate Takes(p: Pool, i: int)
    requires p.queue != []
  {
    forall s :: Looks(s) && s.w == i && Enabled(p, s) ==>
      Apply(p, s).dispatched == p.dispatched + [p.queue[0]] && Apply(p, s).queue == p.queue[1..]
  }

  lemma Server(p: Pool) returns (i: int)
    requires Inv(p) && p.queue != []
    ensures Serves(p, i)
  {
    if !p.ready {
      i :| HoldsGate(p, i);
    } else if SomeAsleep(p.workers) {
      i :| 0 <= i < |p.workers| && (p.workers[i].Starting? || p.workers[i].Woken?);
    } else {
      i := 0;
    }
  }

  lemma ServerTakes(p: Pool, i: int)
    requires p.queue != [] && Serves(p, i)
    ensures Takes(p, i)
  {
  }

  lemma SomeoneDispatches(p: Pool) returns (s: Step)
    requires p.ready && p.queue != [] && OnTheWay(p.workers)
    ensures s.Begin? || s.Resume?
    ensures s.w < |p.workers| && (p.workers[s.w].Starting? || p.workers[s.w].Woken?)
    ensures Enabled(p, s) && Apply(p, s).dispatched == p.dispatched + [p.queue[0]]
    ensures Apply(p, s).workers == p.workers[s.w := Busy(p.queue[0], NextTicket(p.executed), false, Fetched)]
  {
    var i: int :| 0 <= i < |p.workers| && (p.workers[i].Starting? || p.workers[i].Woken?);
    var q: nat := 0;
    if SomeBlocked(p.workers) {
      var j :| 0 <= j < |p.workers| && IsBlocked(p.workers[j]);
      q := j;
    }
    s := if p.workers[i].Starting? then Begin(i, q) else Resume(i, q);
  }

  // ----- quiescence -------------------------------------------------------------------

  /** Worker w holds a command and every other worker is idle. */
  ghost predicate Solo(p: Pool, w: nat) {
    && w < |p.workers| && p.workers[w].Busy?
    && forall i :: 0 <= i < |p.workers| && i != w ==> IsFree(p.workers[i])
  }

  lemma {:induction false} CountSolo(ws: seq<Worker>, w: nat)
    requires w < |ws| && !IsFree(ws[w])
    requires forall i :: 0 <= i < |ws| && i != w ==> IsFree(ws[i])
    ensures CountFree(ws) == |ws| - 1
  {
    var n := |ws| - 1;
    if w < n { CountSolo(ws[..n], w); } else { CountAll(ws[..n]); }
  }

  lemma {:induction false} CountAll(ws: seq<Worker>)
    requires forall i :: 0 <= i < |ws| ==> IsFree(ws[i])
    ensures CountFree(ws) == |ws|
  {
    if ws != [] { CountAll(ws[..|ws| - 1]); }
  }

  /** Step s is worker w passing the loop of Wait_For_Previous_Cmds. */
  ghost predicate ReturnsFromWait(p: Pool, s: Step, w: nat) {
    && (s == Await(w) || s == Reawake(w)) && Enabled(p, s)
    && IsActing(Apply(p, s), w, Running)
  }

  /** The wait returns exactly when nobody else holds a command or is about to look for one. */
  lemma WaitReturnsIffSolo(p: Pool, s: Step, w: nat)
    requires Counters(p) && (s == Await(w) || s == Reawake(w)) && Enabled(p, s)
    ensures ReturnsFromWait(p, s, w) <==> Solo(Apply(p, s), w)
  {
    StepKeepsCounters(p, s);
    var p' := Apply(p, s);
    if ReturnsFromWait(p, s, w) { CountAllButOne(p'.workers, w); }
    if Solo(p', w) { CountSolo(p'.workers, w); }
  }

  /** No lost quiescence wake-up: a worker blocked unsignalled in the wait is still waiting for
      another worker that is starting or holds a command. */
  lemma NoLostQuiescence(max: nat, steps: seq<Step>, w: nat)
    requires 1 <= max && IsRun(Init(max), steps)
    requires IsActing(Exec(Init(max), steps), w, Blocked)
    ensures var p := Exec(Init(max), steps);
      && p.extAllocated > p.extFree + 1 && p.cmdWaiting
      && exists v :: 0 <= v < |p.workers| && v != w && !IsFree(p.workers[v])
  {
    Reachable(max, steps);
    var p := Exec(Init(max), steps);
    assert IsBlocked(p.workers[w]);
    if forall v :: 0 <= v < |p.workers| && v != w ==> IsFree(p.workers[v]) {
      CountSolo(p.workers, w);
    }
  }

  // ----- exclusion ------------------------------------------------------------------------

  /** Somebody else can be given a command while w keeps its own. */
  ghost predicate Breakable(p: Pool) {
    p.ready && ((|p.workers| >= 2 && p.queue != []) || (p.max >= 2 && !p.main.Parked?))
  }

  /** p' is p after a step that leaves w alone with its command. */
  ghost predicate StillAlone(p: Pool, p': Pool, w: nat) {
    && Solo(p', w) && !Breakable(p') && p'.dispatched == p.dispatched
    && w < |p.workers| && p.workers[w].Busy?
    && p'.workers[w].ticket == p.workers[w].ticket && p'.workers[w].released == p.workers[w].released
  }

  lemma LookKeepsExclusion(p: Pool, s: Step, w: nat)
    requires Counters(p) && Enabled(p, s) && Looks(s) && !s.Finish? && Solo(p, w) && !Breakable(p)
    ensures StillAlone(p, Apply(p, s), w)
  {
    if |p.workers| == 1 { CountSolo(p.workers, w); }
  }

  lemma SubmitKeepsExclusion(p: Pool, s: Step, w: nat)
    requires Counters(p) && BackPressure(p) && Enabled(p, s) && s.Submit? && Solo(p, w) && !Breakable(p)
    ensures StillAlone(p, Apply(p, s), w)
  {
    if p.extFree == 0 { CountZero(p.workers); }
    if |p.workers| == 1 { CountSolo(p.workers, w); }
  }

  lemma OwnKeepsExclusion(p: Pool, s: Step, w: nat)
    requires Enabled(p, s) && GoesOn(s) && !s.Release? && Solo(p, w) && !Breakable(p)
    ensures StillAlone(p, Apply(p, s), w)
  {
  }

  lemma OtherKeepsExclusion(p: Pool, s: Step, w: nat)
    requires Enabled(p, s) && !Looks(s) && !GoesOn(s) && !s.Submit? && Solo(p, w) && !Breakable(p)
    ensures StillAlone(p, Apply(p, s), w)
  {
  }

  lemma StepKeepsExclusion(p: Pool, s: Step, w: nat)
    requires Counters(p) && BackPressure(p) && Enabled(p, s) && Solo(p, w) && !Breakable(p)
    requires KeepsCommand([s], w)
    ensures StillAlone(p, Apply(p, s), w)
  {
    assert [s][0] == s;
    if Looks(s) {
      LookKeepsExclusion(p, s, w);
    } else if GoesOn(s) {
      OwnKeepsExclusion(p, s, w);
    } else if s.Submit? {
      SubmitKeepsExclusion(p, s, w);
    } else {
      OtherKeepsExclusion(p, s, w);
    }
  }

  lemma {:induction false} RunKeepsExclusion(p: Pool, steps: seq<Step>, w: nat)
    requires Inv(p) && Solo(p, w) && !Breakable(p) && IsRun(p, steps) && KeepsCommand(steps, w)
    ensures var p' := Exec(p, steps);
      && Solo(p', w) && p'.dispatched == p.dispatched && |p'.workers| >= |p.workers|
      && p'.workers[w].ticket == p.workers[w].ticket && p'.workers[w].released == p.workers[w].released
    decreases |steps|
  {
    if steps != [] {
      assert KeepsCommand([steps[0]], w);
      StepKeepsInv(p, steps[0]);
      StepKeepsExclusion(p, steps[0], w);
      RunKeepsExclusion(Apply(p, steps[0]), steps[1..], w);
    }
  }

  /** From a breakable state, a run in which somebody else gets a command and w keeps its own. */
  lemma Intrude(p: Pool, w: nat) returns (steps: seq<Step>)
    requires Inv(p) && Solo(p, w) && Breakable(p)
    ensures IsRun(p, steps) && KeepsCommand(steps, w) && !Solo(Exec(p, steps), w)
  {
    if |p.workers| >= 2 && p.queue != [] {
      assert OnTheWay(p.workers) by {
        var v := if w == 0 then 1 else 0;
        assert p.workers[v].Asleep? || p.workers[v].Woken?;
      }
      var s := SomeoneDispatches(p);
      steps := [s];
      RunSnoc(p, [], s);
      assert [] + [s] == [s];
      assert Apply(p, s).workers[s.w].Busy?;
    } else if p.main.Roused? {
      var p1 := Apply(p, MainResumes);
      StepKeepsInv(p, MainResumes);
      var rest := SubmitIntrudes(p1, w);
      steps := [MainResumes] + rest;
      assert steps[1..] == rest;
    } else {
      steps := SubmitIntrudes(p, w);
    }
  }

  /** A submission to an open pool of at least two workers leaves somebody on the way to it. */
  lemma SubmitCallsSomeone(p: Pool, w: nat) returns (s: Step)
    requires Inv(p) && Solo(p, w) && p.ready && p.max >= 2 && p.main.Idle?
    ensures s.Submit? && Enabled(p, s) && OnTheWay(Apply(p, s).workers) && Apply(p, s).ready
    ensures Apply(p, s).queue != [] && w < |Apply(p, s).workers| && Apply(p, s).workers[w] == p.workers[w]
  {
    CountSolo(p.workers, w);
    var k: nat := 0;
    if SomeAsleep(p.workers) {
      var j :| 0 <= j < |p.workers| && p.workers[j].Asleep?;
      k := j;
    }
    s := Submit(false, Parsed, k);
    var ws := Apply(p, s).workers;
    if |p.workers| == 1 {
      assert ws[1].Starting?;
    } else if SomeAsleep(p.workers) {
      assert ws[k].Woken?;
    } else {
      assert ws[if w == 0 then 1 else 0].Woken?;
    }
  }

  lemma SubmitIntrudes(p: Pool, w: nat) returns (steps: seq<Step>)
    requires Inv(p) && Solo(p, w) && p.ready && p.max >= 2 && p.main.Idle?
    ensures IsRun(p, steps) && KeepsCommand(steps, w) && !Solo(Exec(p, steps), w)
  {
    var s := SubmitCallsSomeone(p, w);
    var p1 := Apply(p, s);
    var s2 := SomeoneDispatches(p1);
    steps := [s, s2];
    assert steps[1..] == [s2] && [s2][1..] == [];
    assert Exec(p, steps) == Exec(p1, [s2]) == Exec(Apply(p1, s2), []);
    assert Apply(p1, s2).workers[s2.w].Busy?;
  }

  /** Exclusion, exactly: after Wait_For_Previous_Cmds returns to w, no other worker gets a
      command while w keeps its own if and only if the state is not breakable. */
  lemma ExclusionIff(p: Pool, s: Step, w: nat)
    requires Inv(p) && ReturnsFromWait(p, s, w)
    ensures (forall steps :: IsRun(Apply(p, s), steps) && KeepsCommand(steps, w) ==>
               Solo(Exec(Apply(p, s), steps), w))
        <==> !Breakable(Apply(p, s))
  {
    var p' := Apply(p, s);
    StepKeepsInv(p, s);
    WaitReturnsIffSolo(p, s, w);
    if Breakable(p') {
      var steps := Intrude(p', w);
    } else {
      forall steps | IsRun(p', steps) && KeepsCommand(steps, w) ensures Solo(Exec(p', steps), w) {
        RunKeepsExclusion(p', steps, w);
      }
    }
  }

  // ----- commands that release at most once --------------------------------------------------

  /** An unreleased command is the newest one and keeps the gate closed. */
  ghost predicate Disciplined(p: Pool) {
    forall i :: 0 <= i < |p.workers| && p.workers[i].Busy? && !p.workers[i].released ==>
      !p.ready && p.workers[i].ticket == p.executed
  }

  lemma LoopHeadKeepsDiscipline(p: Pool, w: nat, q: nat)
    requires w < |p.workers| && Tickets(p)
    requires forall i :: 0 <= i < |p.workers| && i != w && p.workers[i].Busy? && !p.workers[i].released ==>
      !p.ready && p.workers[i].ticket == p.executed
    ensures Disciplined(LoopHead(p, w, q))
  {
  }

  lemma SameDiscipline(p: Pool, p': Pool)
    requires Disciplined(p) && p'.executed == p.executed && p'.ready == p.ready
    requires |p.workers| <= |p'.workers|
    requires forall i :: 0 <= i < |p'.workers| && p'.workers[i].Busy? ==>
      i < |p.workers| && p.workers[i].Busy? && p.workers[i].ticket == p'.workers[i].ticket &&
      (p.workers[i].released ==> p'.workers[i].released)
    ensures Disciplined(p')
  {
  }

  lemma OwnKeepsDiscipline(p: Pool, s: Step)
    requires GoesOn(s) && !s.Release? && Enabled(p, s) && Disciplined(p)
    ensures Disciplined(Apply(p, s))
  {
    SameDiscipline(p, Apply(p, s));
  }

  lemma OtherKeepsDiscipline(p: Pool, s: Step)
    requires !GoesOn(s) && !Looks(s) && Enabled(p, s) && Disciplined(p)
    ensures Disciplined(Apply(p, s))
  {
    SameDiscipline(p, Apply(p, s));
  }

  lemma LookKeepsDiscipline(p: Pool, s: Step)
    requires Looks(s) && Enabled(p, s) && Tickets(p) && Disciplined(p)
    ensures Disciplined(Apply(p, s))
  {
    match s
    case Begin(w, q) => LoopHeadKeepsDiscipline(p, w, q);
    case Resume(w, q) =>
      var p1 := p.(extFree := p.extFree - 1);
      SameTickets(p, p1);
      LoopHeadKeepsDiscipline(p1, w, q);
    case Finish(w, q) =>
      var p1 := AfterCommand(p, p.workers[w].ticket);
      SameTickets(p, p1);
      LoopHeadKeepsDiscipline(p1, w, q);
  }

  lemma StepKeepsDiscipline(p: Pool, s: Step)
    requires Enabled(p, s) && Tickets(p) && Disciplined(p)
    requires s.Release? ==> !p.workers[s.w].released
    ensures Disciplined(Apply(p, s))
  {
    if Looks(s) {
      LookKeepsDiscipline(p, s);
    } else if s.Release? {
      ReleaseKeepsDiscipline(p, s.w, s.k);
    } else if GoesOn(s) {
      OwnKeepsDiscipline(p, s);
    } else {
      OtherKeepsDiscipline(p, s);
    }
  }

  lemma ReleaseKeepsDiscipline(p: Pool, w: nat, k: nat)
    requires w < |p.workers| && p.workers[w].Busy? && !p.workers[w].released && Tickets(p) && Disciplined(p)
    ensures Disciplined(DoRelease(p, w, k))
  {
    forall i | 0 <= i < |p.workers| && i != w && p.workers[i].Busy? ensures p.workers[i].released {
      assert p.workers[i].ticket != p.workers[w].ticket;
    }
  }

  lemma {:induction false} RunKeepsDiscipline(p: Pool, steps: seq<Step>)
    requires Inv(p) && Disciplined(p) && IsRun(p, steps) && ReleasesOnce(p, steps)
    ensures Disciplined(Exec(p, steps))
    decreases |steps|
  {
    if steps != [] {
      StepKeepsInv(p, steps[0]);
      StepKeepsDiscipline(p, steps[0]);
      RunKeepsDiscipline(Apply(p, steps[0]), steps[1..]);
    }
  }

  ghost predicate Unreleased(p: Pool, i: int) {
    0 <= i < |p.workers| && p.workers[i].Busy? && !p.workers[i].released
  }

  /** At most one command is unreleased, it is the one numbered Cmds_Executed, and the gate is
      closed exactly while it exists. */
  ghost predicate GateExact(p: Pool) {
    && (!p.ready <==> exists i :: HoldsGate(p, i))
    && (forall i, j :: Unreleased(p, i) && Unreleased(p, j) ==> i == j && HoldsGate(p, i))
  }

  lemma DisciplineMakesGateExact(p: Pool)
    requires Tickets(p) && Gate(p) && Disciplined(p)
    ensures GateExact(p)
  {
  }

  /** With at most one release per command the gate is exact in every reachable state. */
  lemma OneUnreleased(max: nat, steps: seq<Step>)
    requires 1 <= max && IsRun(Init(max), steps) && ReleasesOnce(Init(max), steps)
    ensures GateExact(Exec(Init(max), steps))
  {
    Reachable(max, steps);
    InitInv(max);
    RunKeepsDiscipline(Init(max), steps);
    DisciplineMakesGateExact(Exec(Init(max), steps));
  }

  /** Exclusion for such commands: once Wait_For_Previous_Cmds has returned to a command that has
      not released, every later state up to its release or end has all other workers idle. */
  lemma Exclusion(max: nat, before: seq<Step>, s: Step, w: nat, after: seq<Step>)
    requires 1 <= max && IsRun(Init(max), before) && ReleasesOnce(Init(max), before)
    requires ReturnsFromWait(Exec(Init(max), before), s, w)
    requires !Exec(Init(max), before).workers[w].released
    requires IsRun(Apply(Exec(Init(max), before), s), after) && KeepsCommand(after, w)
    ensures var p := Apply(Exec(Init(max), before), s);
      Solo(Exec(p, after), w) && Exec(p, after).dispatched == p.dispatched
  {
    var p := Exec(Init(max), before);
    InitInv(max);
    Reachable(max, before);
    RunKeepsDiscipline(Init(max), before);
    StepKeepsInv(p, s);
    WaitReturnsIffSolo(p, s, w);
    RunKeepsExclusion(Apply(p, s), after, w);
  }

  // ----- without early release ------------------------------------------------------------------

  /** Nobody has released, so at most one command is in hand; and a producer roused from a wait
      for an empty queue finds every earlier command finished. */
  ghost predicate SerialInv(p: Pool) {
    && Disciplined(p)
    && (forall i :: 0 <= i < |p.workers| && p.workers[i].Busy? ==> !p.workers[i].released)
    && (p.main.Roused? && p.mainCount == 0 ==> forall i :: 0 <= i < |p.workers| ==> !p.workers[i].Busy?)
  }

  lemma FinishKeepsSerial(p: Pool, w: nat, q: nat)
    requires Inv(p) && SerialInv(p) && w < |p.workers| && p.workers[w].Busy? && !IsBlocked(p.workers[w])
    ensures SerialInv(DoFinish(p, w, q))
  {
    var p1 := AfterCommand(p, p.workers[w].ticket);
    SameTickets(p, p1);
    LoopHeadKeepsDiscipline(p1, w, q);
    forall i | 0 <= i < |p.workers| && p.workers[i].Busy? ensures i == w {
      assert p.workers[i].ticket == p.workers[w].ticket;
    }
  }

  lemma LoopHeadKeepsSerial(p: Pool, w: nat, q: nat)
    requires Tickets(p) && BackPressure(p) && SerialInv(p) && w < |p.workers|
    ensures SerialInv(LoopHead(p, w, q))
  {
    LoopHeadKeepsDiscipline(p, w, q);
  }

  lemma OwnKeepsSerial(p: Pool, s: Step)
    requires GoesOn(s) && !s.Release? && Enabled(p, s) && SerialInv(p) && Disciplined(Apply(p, s))
    ensures SerialInv(Apply(p, s))
  {
  }

  lemma OtherKeepsSerial(p: Pool, s: Step)
    requires !GoesOn(s) && !Looks(s) && Enabled(p, s) && BackPressure(p) && SerialInv(p) && Disciplined(Apply(p, s))
    ensures SerialInv(Apply(p, s))
  {
  }

  lemma LookKeepsSerial(p: Pool, s: Step)
    requires Looks(s) && Enabled(p, s) && Inv(p) && SerialInv(p)
    ensures SerialInv(Apply(p, s))
  {
    match s
    case Begin(w, q) => LoopHeadKeepsSerial(p, w, q);
    case Resume(w, q) =>
      var p1 := p.(extFree := p.extFree - 1);
      SameTickets(p, p1);
      LoopHeadKeepsSerial(p1, w, q);
    case Finish(w, q) => FinishKeepsSerial(p, w, q);
  }

  lemma StepKeepsSerial(p: Pool, s: Step)
    requires Enabled(p, s) && Inv(p) && SerialInv(p) && !s.Release?
    ensures SerialInv(Apply(p, s))
  {
    if Looks(s) {
      LookKeepsSerial(p, s);
    } else {
      StepKeepsDiscipline(p, s);
      if GoesOn(s) { OwnKeepsSerial(p, s); } else { OtherKeepsSerial(p, s); }
    }
  }

  lemma {:induction false} RunKeepsSerial(p: Pool, steps: seq<Step>)
    requires Inv(p) && SerialInv(p) && IsRun(p, steps) && NoRelease(steps)
    ensures SerialInv(Exec(p, steps))
    decreases |steps|
  {
    if steps != [] {
      assert !steps[0].Release?;
      StepKeepsInv(p, steps[0]);
      StepKeepsSerial(p, steps[0]);
      RunKeepsSerial(Apply(p, steps[0]), steps[1..]);
    }
  }

  /** Without SafeToDoNextCmd execution is serial, and a serialized command has finished by the
      time the producer that waited for it is roused. */
  lemma Serial(max: nat, steps: seq<Step>)
    requires 1 <= max && IsRun(Init(max), steps) && NoRelease(steps)
    ensures var p := Exec(Init(max), steps);
      && (forall i, j :: 0 <= i < |p.workers| && 0 <= j < |p.workers| && p.workers[i].Busy? && p.workers[j].Busy?
            ==> i == j)
      && (p.main.Roused? && p.mainCount == 0 ==>
            p.queue == [] && forall i :: 0 <= i < |p.workers| ==> !p.workers[i].Busy?)
  {
    InitInv(max);
    Reachable(max, steps);
    RunKeepsSerial(Init(max), steps);
  }

  // ----- conservation and order ---------------------------------------------------------------------

  /** Every submitted command is in exactly one of waiting, dispatched and purged; dispatch order
      is submission order; a worker's ticket is its command's place in the dispatch order. */
  lemma Conservation(max: nat, steps: seq<Step>)
    requires 1 <= max && IsRun(Init(max), steps)
    ensures var p := Exec(Init(max), steps);
      && (forall c :: 0 <= c < |p.status| ==>
            (c in p.queue && c !in p.dispatched && c !in p.purged) ||
            (c !in p.queue && c in p.dispatched && c !in p.purged) ||
            (c !in p.queue && c !in p.dispatched && c in p.purged && Doomed(p.status[c])))
      && (forall i, j :: 0 <= i < j < |p.dispatched + p.queue| ==> (p.dispatched + p.queue)[i] < (p.dispatched + p.queue)[j])
      && (forall i :: 0 <= i < |p.workers| && p.workers[i].Busy? ==>
            1 <= p.workers[i].ticket <= |p.dispatched| && p.dispatched[p.workers[i].ticket - 1] == p.workers[i].cmd)
  {
    Reachable(max, steps);
    EachInOne(Exec(Init(max), steps));
  }

  lemma EachInOne(p: Pool)
    requires Inv(p)
    ensures forall c :: 0 <= c < |p.status| ==>
              (c in p.queue && c !in p.dispatched && c !in p.purged) ||
              (c !in p.queue && c in p.dispatched && c !in p.purged) ||
              (c !in p.queue && c !in p.dispatched && c in p.purged && Doomed(p.status[c]))
    ensures forall i, j :: 0 <= i < j < |p.dispatched + p.queue| ==> (p.dispatched + p.queue)[i] < (p.dispatched + p.queue)[j]
    ensures forall i :: 0 <= i < |p.workers| && p.workers[i].Busy? ==> TicketOk(p.dispatched, p.workers[i])
  {
    var all := p.dispatched + p.queue;
    SurvivorsAre(|p.status|, p.purged);
    forall i, j | 0 <= i < |p.dispatched| && 0 <= j < |p.queue| ensures p.dispatched[i] != p.queue[j] {
      assert all[i] == p.dispatched[i] && all[|p.dispatched| + j] == p.queue[j];
    }
    forall c | 0 <= c < |p.status| ensures c in all <==> c !in p.purged {
    }
  }

  /** What a run adds to the histories, and that errors and aborts are final. */
  lemma {:induction false} HistoryGrows(p: Pool, steps: seq<Step>)
    requires IsRun(p, steps)
    ensures Grows(p, Exec(p, steps))
    decreases |steps|
  {
    if steps != [] {
      StepGrows(p, steps[0]);
      HistoryGrows(Apply(p, steps[0]), steps[1..]);
    }
  }

  /** The histories of p are prefixes and subsets of those of p', and final statuses are the same. */
  ghost predicate Grows(p: Pool, p': Pool) {
    && p.dispatched <= p'.dispatched && p.purged <= p'.purged && |p.status| <= |p'.status|
    && forall c :: 0 <= c < |p.status| && Doomed(p.status[c]) ==> p'.status[c] == p.status[c]
  }

  lemma WorkerGrows(p: Pool, s: Step)
    requires Enabled(p, s) && (Looks(s) || GoesOn(s))
    ensures Grows(p, Apply(p, s))
  {
  }

  lemma StepGrows(p: Pool, s: Step)
    requires Enabled(p, s)
    ensures Grows(p, Apply(p, s))
  {
    if Looks(s) || GoesOn(s) { WorkerGrows(p, s); }
  }

  // ----- bounds -----------------------------------------------------------------------------------------

  lemma Bounds(max: nat, steps: seq<Step>)
    requires 1 <= max && IsRun(Init(max), steps)
    ensures var p := Exec(Init(max), steps);
      && p.extAllocated == |p.workers| && p.extFree == CountFree(p.workers)
      && 0 <= p.extFree <= p.extAllocated <= max
      && |p.queue| <= 2 * max + 1
      && (!p.main.Parked? ==> |p.queue| <= 2 * max)
  {
    Reachable(max, steps);
    CountAtMost(Exec(Init(max), steps).workers);
  }

  // ----- the producer's own wait -----------------------------------------------------------------------------

  ghost predicate SomeBusy(ws: seq<Worker>) { exists i :: 0 <= i < |ws| && ws[i].Busy? }

  /** The producer waits to be roused, but the queue is empty and no command is in hand. */
  ghost predicate Stranded(p: Pool) {
    p.main.Parked? && p.queue == [] && !SomeBusy(p.workers)
  }

  lemma LoopHeadKeepsCompany(p: Pool, w: nat, q: nat)
    requires w < |p.workers|
    requires p.main.Parked? ==> p.queue != [] || exists i :: 0 <= i < |p.workers| && i != w && p.workers[i].Busy?
    requires Gate(p) && (!p.ready ==> exists i :: HoldsGate(p, i) && i != w)
    ensures !Stranded(LoopHead(p, w, q))
  {
    var p' := LoopHead(p, w, q);
    if p.main.Parked? {
      if p.ready && p.queue != [] {
        assert p'.workers[w].Busy?;
      } else if p.queue == [] {
        var i :| 0 <= i < |p.workers| && i != w && p.workers[i].Busy?;
        assert p'.workers[i].Busy?;
      }
    }
  }

  lemma FinishKeepsCompany(p: Pool, w: nat, q: nat)
    requires w < |p.workers| && p.workers[w].Busy? && Tickets(p) && Gate(p) && BackPressure(p)
    ensures !Stranded(DoFinish(p, w, q))
  {
    var p1 := AfterCommand(p, p.workers[w].ticket);
    SameTickets(p, p1);
    if !p1.ready {
      var i :| HoldsGate(p, i);
      assert HoldsGate(p1, i) && i != w;
    }
    LoopHeadKeepsCompany(p1, w, q);
  }

  /** A worker that was looking for work leaves a waiting producer its company. */
  lemma LookingKeepsCompany(p: Pool, w: nat, q: nat)
    requires w < |p.workers| && !p.workers[w].Busy? && Gate(p) && !Stranded(p)
    ensures !Stranded(LoopHead(p, w, q))
  {
    if !p.ready {
      var i :| HoldsGate(p, i);
      assert i != w;
    }
    LoopHeadKeepsCompany(p, w, q);
  }

  lemma SameCompany(p: Pool, p': Pool)
    requires !Stranded(p) && (p.main.Parked? || !p'.main.Parked? || p'.queue != [])
    requires p'.queue == [] ==> p.queue == []
    requires |p.workers| <= |p'.workers|
    requires forall i :: 0 <= i < |p.workers| && p.workers[i].Busy? ==> p'.workers[i].Busy?
    ensures !Stranded(p')
  {
    if SomeBusy(p.workers) {
      var i :| 0 <= i < |p.workers| && p.workers[i].Busy?;
      assert p'.workers[i].Busy?;
    }
  }

  lemma OwnKeepsCompany(p: Pool, s: Step)
    requires GoesOn(s) && Enabled(p, s) && !Stranded(p)
    ensures !Stranded(Apply(p, s))
  {
    SameCompany(p, Apply(p, s));
  }

  lemma OtherKeepsCompany(p: Pool, s: Step)
    requires (s.Submit? || s.MainResumes? || s.Mark?) && Enabled(p, s) && !Stranded(p)
    ensures !Stranded(Apply(p, s))
  {
    SameCompany(p, Apply(p, s));
  }

  lemma LookKeepsCompany(p: Pool, s: Step)
    requires Looks(s) && Enabled(p, s) && Inv(p) && !Stranded(p)
    ensures !Stranded(Apply(p, s))
  {
    match s
    case Begin(w, q) => LookingKeepsCompany(p, w, q);
    case Resume(w, q) =>
      var p1 := p.(extFree := p.extFree - 1);
      SameGate(p, p1);
      LookingKeepsCompany(p1, w, q);
    case Finish(w, q) => FinishKeepsCompany(p, w, q);
  }

  lemma StepKeepsCompany(p: Pool, s: Step)
    requires Enabled(p, s) && Inv(p) && !Stranded(p) && !s.PurgeOutside?
    ensures !Stranded(Apply(p, s))
  {
    if Looks(s) {
      LookKeepsCompany(p, s);
    } else if GoesOn(s) {
      OwnKeepsCompany(p, s);
    } else if s.PurgeBy? {
      assert Apply(p, s).workers[s.w].Busy?;
    } else {
      OtherKeepsCompany(p, s);
    }
  }

  /** As long as only commands purge the queue, a waiting producer always has a queued command or
      a running one to rouse it. */
  lemma {:induction false} NoStrandedProducer(p: Pool, steps: seq<Step>)
    requires Inv(p) && !Stranded(p) && IsRun(p, steps) && NoOutsidePurge(steps)
    ensures !Stranded(Exec(p, steps))
    decreases |steps|
  {
    if steps != [] {
      assert !steps[0].PurgeOutside?;
      StepKeepsInv(p, steps[0]);
      StepKeepsCompany(p, steps[0]);
      NoStrandedProducer(Apply(p, steps[0]), steps[1..]);
    }
  }

  /** A purge from outside strands the producer exactly when it is waiting and no command is in hand. */
  lemma OutsidePurgeStrandsIff(p: Pool)
    ensures Stranded(Apply(p, PurgeOutside)) <==> p.main.Parked? && !SomeBusy(p.workers)
  {
  }

  /** A stranded producer stays stranded in every continuation. */
  lemma {:induction false} StrandedForever(p: Pool, steps: seq<Step>)
    requires Stranded(p) && IsRun(p, steps)
    ensures Stranded(Exec(p, steps))
    decreases |steps|
  {
    if steps != [] {
      StepStaysStranded(p, steps[0]);
      StrandedForever(Apply(p, steps[0]), steps[1..]);
    }
  }

  lemma StepStaysStranded(p: Pool, s: Step)
    requires Stranded(p) && Enabled(p, s)
    ensures Stranded(Apply(p, s))
  {
  }

  // ----- runs that show what fails -----------------------------------------------------------------

  /** steps is a run from Init(max) to p in which every command waits only before it releases and,
      if once is set, no command releases twice. */
  ghost predicate Leads(max: nat, steps: seq<Step>, p: Pool, once: bool) {
    && IsRun(Init(max), steps) && Exec(Init(max), steps) == p
    && WaitsFirst(Init(max), steps) && (once ==> ReleasesOnce(Init(max), steps))
  }

  lemma Extend(max: nat, steps: seq<Step>, p: Pool, once: bool, s: Step) returns (more: seq<Step>, p': Pool)
    requires Leads(max, steps, p, once) && Enabled(p, s)
    requires s.Await? || (once && s.Release?) ==> !p.workers[s.w].released
    ensures more == steps + [s] && p' == Apply(p, s) && Leads(max, more, p', once)
  {
    RunSnoc(Init(max), steps, s);
    more, p' := steps + [s], Apply(p, s);
  }

  /** A drained producer whose command is purged from outside before anybody takes it is stranded. */
  lemma OutsidePurgeCanStrand(max: nat) returns (steps: seq<Step>)
    requires 1 <= max
    ensures IsRun(Init(max), steps) && Stranded(Exec(Init(max), steps))
  {
    var p := Init(max);
    steps, p := Extend(max, [], p, true, Submit(true, Parsed, 0));
    assert p.workers == [Starting];
    steps, p := Extend(max, steps, p, true, PurgeOutside);
  }

  /** One command that has released early and still runs. */
  function OneReleased(max: nat): Pool {
    Pool([], 1, 0, true, 1, false, false, 0, max, [Busy(0, 1, true, Running)], Idle, [Parsed], [0], {})
  }

  lemma ReachOneReleased(max: nat) returns (steps: seq<Step>)
    requires 1 <= max
    ensures Leads(max, steps, OneReleased(max), true) && NoOutsidePurge(steps)
  {
    var p;
    steps, p := ReachOneRunning(max);
    steps, p := Extend(max, steps, p, true, Release(0, 0));
    assert p.workers == [Busy(0, 1, true, Running)];
  }

  lemma ReachOneRunning(max: nat) returns (steps: seq<Step>, p: Pool)
    requires 1 <= max
    ensures Leads(max, steps, p, true) && NoOutsidePurge(steps)
    ensures p == OneReleased(max).(ready := false, workers := [Busy(0, 1, false, Running)])
  {
    p := Init(max);
    steps, p := Extend(max, [], p, true, Submit(false, Parsed, 0));
    assert p.workers == [Starting];
    steps, p := Extend(max, steps, p, true, Begin(0, 0));
    assert p.workers == [Busy(0, 1, false, Fetched)];
    steps, p := Extend(max, steps, p, true, Check(0));
    assert p.workers == [Busy(0, 1, false, Running)];
  }

  /** It still runs while a second command, which the producer may wait for, is in hand. */
  function TwoInHand(max: nat, drain: bool, act: Activity): Pool {
    Pool([], 2, 0, false, 2, act == Blocked, drain, 0, max, [Busy(0, 1, true, Running), Busy(1, 2, false, act)],
         if drain then Parked else Idle, [Parsed, Parsed], [0, 1], {})
  }

  lemma ReachTwoInHand(max: nat, drain: bool) returns (steps: seq<Step>)
    requires 2 <= max
    ensures Leads(max, steps, TwoInHand(max, drain, Fetched), true) && NoOutsidePurge(steps)
  {
    steps := ReachOneReleased(max);
    var p := OneReleased(max);
    steps, p := Extend(max, steps, p, true, Submit(drain, Parsed, 0));
    assert p.workers == [Busy(0, 1, true, Running), Starting];
    steps, p := Extend(max, steps, p, true, Begin(1, 0));
    assert p.workers == [Busy(0, 1, true, Running), Busy(1, 2, false, Fetched)];
  }

  /** With early release, a producer can be roused while the command it waited for is in hand. */
  lemma RousedTooEarly(max: nat) returns (steps: seq<Step>)
    requires 2 <= max
    ensures IsRun(Init(max), steps) && ReleasesOnce(Init(max), steps)
    ensures var p := Exec(Init(max), steps); p.main.Roused? && p.mainCount == 0 && SomeBusy(p.workers)
  {
    steps := ReachTwoInHand(max, true);
    var p := TwoInHand(max, true, Fetched);
    steps, p := Extend(max, steps, p, true, Finish(0, 0));
    assert p.workers[1].Busy?;
  }

  /** The second command waits for the first. */
  lemma ReachSecondWaits(max: nat) returns (steps: seq<Step>)
    requires 2 <= max
    ensures Leads(max, steps, TwoInHand(max, false, Blocked), true) && NoOutsidePurge(steps)
  {
    steps := ReachTwoInHand(max, false);
    var p := TwoInHand(max, false, Fetched);
    steps, p := Extend(max, steps, p, true, Check(1));
    assert p.workers == [Busy(0, 1, true, Running), Busy(1, 2, false, Running)];
    steps, p := Extend(max, steps, p, true, Await(1));
    assert p.workers == [Busy(0, 1, true, Running), Busy(1, 2, false, Blocked)];
  }

  /** Releasing twice breaks exclusion: the first command releases again (as expCreate does) while
      the second waits for it, and ends.  The second's wait then returns with the gate open, and a
      third command can join it before it releases or ends. */
  lemma SecondReleaseBreaksExclusion(max: nat) returns (steps: seq<Step>, more: seq<Step>)
    requires 2 <= max
    ensures IsRun(Init(max), steps)
    ensures ReturnsFromWait(Exec(Init(max), steps), Reawake(1), 1) && !Exec(Init(max), steps).workers[1].released
    ensures var p := Apply(Exec(Init(max), steps), Reawake(1));
      IsRun(p, more) && KeepsCommand(more, 1) && !Solo(Exec(p, more), 1)
  {
    steps := ReachSecondWaits(max);
    var p := TwoInHand(max, false, Blocked);
    steps, p := Extend(max, steps, p, false, Release(0, 0));
    assert p.workers == [Busy(0, 1, true, Running), Busy(1, 2, false, Blocked)];
    steps, p := Extend(max, steps, p, false, Finish(0, 1));
    assert p.workers == [Asleep, Busy(1, 2, false, Notified)];
    Reachable(max, steps);
    StepKeepsInv(p, Reawake(1));
    WaitReturnsIffSolo(p, Reawake(1), 1);
    more := Intrude(Apply(p, Reawake(1)), 1);
  }
}
