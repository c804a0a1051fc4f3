/** What every step of the dispatcher keeps, one group of variables at a time. */
module DispatchInvariants {
  import opened DispatchModel

  // ----- counters -----------------------------------------------------------

  function CountFree(ws: seq<Worker>): nat {
    if ws == [] then 0 else CountFree(ws[..|ws| - 1]) + if IsFree(ws[|ws| - 1]) then 1 else 0
  }

  lemma {:induction false} CountUpdate(ws: seq<Worker>, i: nat, x: Worker)
    requires i < |ws|
    ensures CountFree(ws[i := x])
         == CountFree(ws) + (if IsFree(x) then 1 else 0) - (if IsFree(ws[i]) then 1 else 0)
  {
    var n := |ws| - 1;
    if i < n {
      CountUpdate(ws[..n], i, x);
      assert ws[i := x][..n] == ws[..n][i := x];
    } else {
      assert ws[i := x][..n] == ws[..n];
    }
  }

  /** Distinct workers that are not free are missing from the count. */
  lemma {:induction false} CountBusy(ws: seq<Worker>, i: nat, j: nat)
    requires i < |ws| && j < |ws| && !IsFree(ws[i]) && !IsFree(ws[j])
    ensures CountFree(ws) + (if i == j then 1 else 2) <= |ws|
  {
    var n := |ws| - 1;
    CountAtMost(ws[..n]);
    if i < n && j < n {
      CountBusy(ws[..n], i, j);
    } else if i < n {
      CountBusy(ws[..n], i, i);
    } else if j < n {
      CountBusy(ws[..n], j, j);
    }
  }

  lemma {:induction false} CountAtMost(ws: seq<Worker>)
    ensures CountFree(ws) <= |ws|
  {
    if ws != [] { CountAtMost(ws[..|ws| - 1]); }
  }

  /** If all but one are counted free, everyone else is free. */
  lemma {:induction false} CountAllButOne(ws: seq<Worker>, w: nat)
    requires w < |ws| && !IsFree(ws[w]) && CountFree(ws) + 1 >= |ws|
    ensures forall i :: 0 <= i < |ws| && i != w ==> IsFree(ws[i])
  {
    forall i | 0 <= i < |ws| && i != w ensures IsFree(ws[i]) {
      if !IsFree(ws[i]) { CountBusy(ws, i, w); }
    }
  }

  lemma {:induction false} CountZero(ws: seq<Worker>)
    requires CountFree(ws) == 0
    ensures forall i :: 0 <= i < |ws| ==> !IsFree(ws[i])
  {
    if ws != [] { CountZero(ws[..|ws| - 1]); }
  }

  lemma CountWakeNotify(ws: seq<Worker>, k: nat)
    ensures CountFree(Wake(ws, k)) == CountFree(ws) == CountFree(Notify(ws, k))
  {
    if k < |ws| {
      CountUpdate(ws, k, Woken);
      if IsBlocked(ws[k]) { CountUpdate(ws, k, ws[k].(act := Notified)); }
    }
  }

  ghost predicate Counters(p: Pool) {
    p.extAllocated == |p.workers| && p.extFree == CountFree(p.workers) && |p.workers| <= p.max && 1 <= p.max
  }

  lemma LoopHeadKeepsCounters(p: Pool, w: nat, q: nat)
    requires w < |p.workers| && !IsFree(p.workers[w]) && Counters(p)
    ensures Counters(LoopHead(p, w, q))
  {
    CountWakeNotify(p.workers, q);
    CountUpdate(p.workers, w, Asleep);
    CountUpdate(Notify(p.workers, q), w, Asleep);
    CountUpdate(p.workers, w, Busy(if p.queue == [] then 0 else p.queue[0], NextTicket(p.executed), false, Fetched));
  }

  lemma SetBusyKeepsCount(ws: seq<Worker>, w: nat, x: Worker)
    requires w < |ws| && ws[w].Busy? && x.Busy?
    ensures CountFree(ws[w := x]) == CountFree(ws)
  {
    CountUpdate(ws, w, x);
  }

  /** A woken worker leaves the free count before it reaches the loop head. */
  lemma ResumeKeepsCounters(p: Pool, w: nat, q: nat)
    requires w < |p.workers| && p.workers[w].Woken? && Counters(p)
    ensures Counters(LoopHead(p.(extFree := p.extFree - 1), w, q))
  {
    CountWakeNotify(p.workers, q);
    CountUpdate(p.workers, w, Asleep);
    CountUpdate(Notify(p.workers, q), w, Asleep);
    CountUpdate(p.workers, w, Busy(if p.queue == [] then 0 else p.queue[0], NextTicket(p.executed), false, Fetched));
  }

  lemma SubmitKeepsCounters(p: Pool, s: Step)
    requires s.Submit? && Enabled(p, s) && Counters(p)
    ensures Counters(Apply(p, s))
  {
    CountWakeNotify(p.workers, s.k);
    assert (p.workers + [Starting])[..|p.workers|] == p.workers;
  }

  lemma ReleaseKeepsCounters(p: Pool, s: Step)
    requires s.Release? && Enabled(p, s) && Counters(p)
    ensures Counters(Apply(p, s))
  {
    CountWakeNotify(p.workers, s.k);
    SetBusyKeepsCount(p.workers, s.w, p.workers[s.w].(released := true));
    SetBusyKeepsCount(Wake(p.workers, s.k), s.w, p.workers[s.w].(released := true));
  }

  lemma OwnKeepsCounters(p: Pool, s: Step)
    requires (s.Check? || s.Await? || s.Reawake?) && Enabled(p, s) && Counters(p)
    ensures Counters(Apply(p, s)) && Apply(p, s).max == p.max
  {
    SetBusyKeepsCount(p.workers, s.w, Apply(p, s).workers[s.w]);
  }

  lemma LookKeepsCounters(p: Pool, s: Step)
    requires Looks(s) && Enabled(p, s) && Counters(p)
    ensures Counters(Apply(p, s)) && Apply(p, s).max == p.max
  {
    match s
    case Begin(w, q) => LoopHeadKeepsCounters(p, w, q);
    case Resume(w, q) => ResumeKeepsCounters(p, w, q);
    case Finish(w, q) => LoopHeadKeepsCounters(AfterCommand(p, p.workers[w].ticket), w, q);
  }

  lemma StepKeepsCounters(p: Pool, s: Step)
    requires Enabled(p, s) && Counters(p)
    ensures Counters(Apply(p, s)) && Apply(p, s).max == p.max
  {
    if Looks(s) {
      LookKeepsCounters(p, s);
    } else if s.Submit? {
      SubmitKeepsCounters(p, s);
    } else if s.Release? {
      ReleaseKeepsCounters(p, s);
    } else if GoesOn(s) {
      OwnKeepsCounters(p, s);
    }
  }

  // ----- tickets and the gate --------------------------------------------------

  ghost predicate TicketOk(dispatched: seq<nat>, x: Worker) {
    x.Busy? ==> 1 <= x.ticket <= |dispatched| && dispatched[x.ticket - 1] == x.cmd
  }

  /** Tickets number the dispatches, and no two workers hold the same one. */
  ghost predicate Tickets(p: Pool) {
    && p.executed == |p.dispatched|
    && (forall i :: 0 <= i < |p.workers| ==> TicketOk(p.dispatched, p.workers[i]))
    && (forall i, j :: 0 <= i < j < |p.workers| && p.workers[i].Busy? && p.workers[j].Busy?
          ==> p.workers[i].ticket != p.workers[j].ticket)
  }

  ghost predicate HoldsGate(p: Pool, i: int) {
    0 <= i < |p.workers| && p.workers[i].Busy? && p.workers[i].ticket == p.executed && !p.workers[i].released
  }

  /** The gate is closed only while the newest command runs without having opened it. */
  ghost predicate Gate(p: Pool) { !p.ready ==> exists i :: HoldsGate(p, i) }

  lemma LoopHeadKeepsTickets(p: Pool, w: nat, q: nat)
    requires w < |p.workers| && Tickets(p)
    ensures Tickets(LoopHead(p, w, q))
  {
  }

  /** Workers that keep their command and ticket, or hold none, keep Tickets. */
  lemma SameTickets(p: Pool, p': Pool)
    requires Tickets(p) && p'.executed == p.executed && p'.dispatched == p.dispatched
    requires |p.workers| <= |p'.workers|
    requires forall i :: 0 <= i < |p'.workers| && p'.workers[i].Busy? ==>
      i < |p.workers| && p.workers[i].Busy? && p.workers[i].ticket == p'.workers[i].ticket &&
      p.workers[i].cmd == p'.workers[i].cmd
    ensures Tickets(p')
  {
    forall i | 0 <= i < |p'.workers| ensures TicketOk(p'.dispatched, p'.workers[i]) {
      if p'.workers[i].Busy? { assert TicketOk(p.dispatched, p.workers[i]); }
    }
  }

  lemma OwnKeepsTickets(p: Pool, s: Step)
    requires GoesOn(s) && Enabled(p, s) && Tickets(p)
    ensures Tickets(Apply(p, s))
  {
    SameTickets(p, Apply(p, s));
  }

  lemma OtherKeepsTickets(p: Pool, s: Step)
    requires !GoesOn(s) && !Looks(s) && Enabled(p, s) && Tickets(p)
    ensures Tickets(Apply(p, s))
  {
    SameTickets(p, Apply(p, s));
  }

  lemma LookKeepsTickets(p: Pool, s: Step)
    requires Looks(s) && Enabled(p, s) && Tickets(p)
    ensures Tickets(Apply(p, s))
  {
    match s
    case Begin(w, q) => LoopHeadKeepsTickets(p, w, q);
    case Resume(w, q) => LoopHeadKeepsTickets(p.(extFree := p.extFree - 1), w, q);
    case Finish(w, q) =>
      SameTickets(p, AfterCommand(p, p.workers[w].ticket));
      LoopHeadKeepsTickets(AfterCommand(p, p.workers[w].ticket), w, q);
  }

  lemma StepKeepsTickets(p: Pool, s: Step)
    requires Enabled(p, s) && Tickets(p)
    ensures Tickets(Apply(p, s))
  {
    if Looks(s) { LookKeepsTickets(p, s); } else if GoesOn(s) { OwnKeepsTickets(p, s); } else { OtherKeepsTickets(p, s); }
  }

  lemma LoopHeadKeepsGate(p: Pool, w: nat, q: nat)
    requires w < |p.workers| && Tickets(p)
    requires !p.ready ==> exists i :: HoldsGate(p, i) && i != w
    ensures Gate(LoopHead(p, w, q))
  {
    var p' := LoopHead(p, w, q);
    if !p.ready {
      var i :| HoldsGate(p, i) && i != w;
      assert HoldsGate(p', i);
    } else if p.queue != [] {
      assert HoldsGate(p', w);
    }
  }

  /** A step that does not close the gate, take tickets or release keeps it. */
  lemma SameGate(p: Pool, p': Pool)
    requires Gate(p) && p'.executed == p.executed && (p.ready ==> p'.ready)
    requires |p.workers| <= |p'.workers|
    requires !p'.ready ==> forall i :: 0 <= i < |p.workers| && p.workers[i].Busy? ==>
      p'.workers[i].Busy? && p.workers[i].ticket == p'.workers[i].ticket &&
      p.workers[i].released == p'.workers[i].released
    ensures Gate(p')
  {
    if !p'.ready {
      var i :| HoldsGate(p, i);
      assert HoldsGate(p', i);
    }
  }

  lemma FinishKeepsGate(p: Pool, w: nat, q: nat)
    requires w < |p.workers| && p.workers[w].Busy? && Tickets(p) && Gate(p)
    ensures Gate(DoFinish(p, w, q))
  {
    var p1 := AfterCommand(p, p.workers[w].ticket);
    SameTickets(p, p1);
    if !p1.ready {
      var i :| HoldsGate(p, i);
      assert HoldsGate(p1, i) && i != w;
    }
    LoopHeadKeepsGate(p1, w, q);
  }

  lemma ResumeKeepsGate(p: Pool, w: nat, q: nat)
    requires w < |p.workers| && p.workers[w].Woken? && Tickets(p) && Gate(p)
    ensures Gate(LoopHead(p.(extFree := p.extFree - 1), w, q))
  {
    var p1 := p.(extFree := p.extFree - 1);
    if !p.ready {
      var i :| HoldsGate(p, i);
      assert HoldsGate(p1, i);
    }
    LoopHeadKeepsGate(p1, w, q);
  }

  lemma OwnKeepsGate(p: Pool, s: Step)
    requires GoesOn(s) && Enabled(p, s) && Gate(p)
    ensures Gate(Apply(p, s))
  {
    SameGate(p, Apply(p, s));
  }

  lemma OtherKeepsGate(p: Pool, s: Step)
    requires !GoesOn(s) && !Looks(s) && Enabled(p, s) && Gate(p)
    ensures Gate(Apply(p, s))
  {
    SameGate(p, Apply(p, s));
  }

  lemma StepKeepsGate(p: Pool, s: Step)
    requires Enabled(p, s) && Tickets(p) && Gate(p)
    ensures Gate(Apply(p, s))
  {
    if GoesOn(s) {
      OwnKeepsGate(p, s);
    } else if Looks(s) {
      LookKeepsGate(p, s);
    } else {
      OtherKeepsGate(p, s);
    }
  }

  lemma LookKeepsGate(p: Pool, s: Step)
    requires Looks(s) && Enabled(p, s) && Tickets(p) && Gate(p)
    ensures Gate(Apply(p, s))
  {
    match s
    case Begin(w, q) => LoopHeadKeepsGate(p, w, q);
    case Resume(w, q) => ResumeKeepsGate(p, w, q);
    case Finish(w, q) => FinishKeepsGate(p, w, q);
  }

  // ----- work -------------------------------------------------------------------

  ghost predicate OnTheWay(ws: seq<Worker>) {
    exists i :: 0 <= i < |ws| && (ws[i].Starting? || ws[i].Woken?)
  }

  /** No lost wake-up: runnable work and a sleeper imply a worker that will look at the queue. */
  ghost predicate Work(p: Pool) {
    && (p.queue != [] ==> p.workers != [])
    && (p.ready && p.queue != [] && SomeAsleep(p.workers) ==> OnTheWay(p.workers))
  }

  lemma LoopHeadKeepsWork(p: Pool, w: nat, q: nat)
    requires w < |p.workers|
    ensures Work(LoopHead(p, w, q))
  {
  }

  lemma SubmitKeepsWork(p: Pool, s: Step)
    requires s.Submit? && Enabled(p, s) && Counters(p) && Gate(p) && Work(p)
    ensures Work(Apply(p, s))
  {
    var p' := Apply(p, s);
    if !p.ready {
      var i :| HoldsGate(p, i);
      assert p.workers != [];
    } else if p.extFree != 0 {
      if SomeAsleep(p.workers) { assert p'.workers[s.k].Woken?; }
    } else {
      CountZero(p.workers);
      if |p.workers| < p.max { assert p'.workers[|p.workers|].Starting?; }
    }
  }

  lemma ReleaseKeepsWork(p: Pool, s: Step)
    requires s.Release? && Enabled(p, s) && Counters(p) && Work(p)
    ensures Work(Apply(p, s))
  {
    var p' := Apply(p, s);
    if p.queue != [] {
      if p.extFree == 0 {
        CountZero(p.workers);
      } else if SomeAsleep(p.workers) {
        assert p'.workers[s.k].Woken?;
      }
    }
  }

  /** Rewriting one busy worker as busy moves nobody in or out of sleep. */
  lemma SetBusyKeepsWork(p: Pool, w: nat, p': Pool)
    requires w < |p.workers| && p.workers[w].Busy? && Work(p)
    requires |p'.workers| == |p.workers| && p'.workers == p.workers[w := p'.workers[w]]
    requires p'.workers[w].Busy? && p'.queue == p.queue && p'.ready == p.ready
    ensures Work(p')
  {
    if OnTheWay(p.workers) {
      var i :| 0 <= i < |p.workers| && (p.workers[i].Starting? || p.workers[i].Woken?);
      assert p'.workers[i] == p.workers[i];
    }
  }

  lemma StepKeepsWork(p: Pool, s: Step)
    requires Enabled(p, s) && Counters(p) && Gate(p) && Work(p)
    ensures Work(Apply(p, s))
  {
    match s
    case Submit(_, _, _) => SubmitKeepsWork(p, s);
    case Begin(w, q) => LoopHeadKeepsWork(p, w, q);
    case Resume(w, q) => LoopHeadKeepsWork(p.(extFree := p.extFree - 1), w, q);
    case Release(_, _) => ReleaseKeepsWork(p, s);
    case Finish(w, q) => LoopHeadKeepsWork(AfterCommand(p, p.workers[w].ticket), w, q);
    case Check(w) => SetBusyKeepsWork(p, w, Apply(p, s));
    case Await(w) => SetBusyKeepsWork(p, w, Apply(p, s));
    case Reawake(w) => SetBusyKeepsWork(p, w, Apply(p, s));
    case _ =>
  }

  // ----- quiescence ---------------------------------------------------------------

  /** Whoever is blocked in Wait_For_Previous_Cmds still has something to wait for. */
  ghost predicate Quiescence(p: Pool) {
    SomeBlocked(p.workers) ==> p.cmdWaiting && p.extAllocated > p.extFree + 1
  }

  /** Going to sleep notifies the waiter exactly when it is the last one not free. */
  lemma LoopHeadKeepsQuiescence(p: Pool, w: nat, q: nat)
    requires w < |p.workers| && !IsFree(p.workers[w]) && !IsBlocked(p.workers[w])
    requires Counters(p) && NotifyChoice(p.workers, q)
    requires SomeBlocked(p.workers) ==> p.cmdWaiting
    ensures Quiescence(LoopHead(p, w, q))
  {
    var p' := LoopHead(p, w, q);
    if i: int :| 0 <= i < |p'.workers| && IsBlocked(p'.workers[i]) {
      assert i != w && IsBlocked(p.workers[i]);
      CountBusy(p.workers, i, w);
      assert IsBlocked(p.workers[q]);
      if p.extAllocated == p.extFree + 2 && p'.extFree == p.extFree + 1 {
        assert i != q;
        LoopHeadKeepsCounters(p, w, q);
        CountBusy(p'.workers, i, q);
      }
    }
  }

  lemma ResumeKeepsQuiescence(p: Pool, w: nat, q: nat)
    requires w < |p.workers| && p.workers[w].Woken? && Counters(p) && Quiescence(p)
    requires NotifyChoice(p.workers, q)
    ensures Quiescence(LoopHead(p.(extFree := p.extFree - 1), w, q))
  {
    var p' := LoopHead(p.(extFree := p.extFree - 1), w, q);
    if i: int :| 0 <= i < |p'.workers| && IsBlocked(p'.workers[i]) {
      assert i != w && IsBlocked(p.workers[i]);
    }
  }

  lemma AwaitKeepsQuiescence(p: Pool, w: nat, waiting: bool)
    requires w < |p.workers| && p.workers[w].Busy? && !IsBlocked(p.workers[w]) && Counters(p)
    requires SomeBlocked(p.workers) ==> p.extAllocated > p.extFree + 1
    ensures Quiescence(DoAwait(p, w, waiting))
  {
    var p' := DoAwait(p, w, waiting);
    if i: int :| 0 <= i < |p'.workers| && IsBlocked(p'.workers[i]) {
      if i != w { assert IsBlocked(p.workers[i]); }
    }
  }

  lemma FewerBlocked(p: Pool, p': Pool)
    requires Quiescence(p) && p'.cmdWaiting == p.cmdWaiting && p'.extFree == p.extFree
    requires p'.extAllocated >= p.extAllocated && |p.workers| <= |p'.workers|
    requires forall i :: 0 <= i < |p'.workers| && IsBlocked(p'.workers[i]) ==> i < |p.workers| && IsBlocked(p.workers[i])
    ensures Quiescence(p')
  {
    if i: int :| 0 <= i < |p'.workers| && IsBlocked(p'.workers[i]) {
      assert IsBlocked(p.workers[i]);
    }
  }

  lemma OwnKeepsQuiescence(p: Pool, s: Step)
    requires (s.Check? || s.Release?) && Enabled(p, s) && Quiescence(p)
    ensures Quiescence(Apply(p, s))
  {
    FewerBlocked(p, Apply(p, s));
  }

  lemma OtherKeepsQuiescence(p: Pool, s: Step)
    requires !GoesOn(s) && !Looks(s) && Enabled(p, s) && Quiescence(p)
    ensures Quiescence(Apply(p, s))
  {
    FewerBlocked(p, Apply(p, s));
  }

  lemma LookKeepsQuiescence(p: Pool, s: Step)
    requires Looks(s) && Enabled(p, s) && Counters(p) && Quiescence(p)
    ensures Quiescence(Apply(p, s))
  {
    match s
    case Begin(w, q) => LoopHeadKeepsQuiescence(p, w, q);
    case Resume(w, q) => ResumeKeepsQuiescence(p, w, q);
    case Finish(w, q) => LoopHeadKeepsQuiescence(AfterCommand(p, p.workers[w].ticket), w, q);
  }

  lemma StepKeepsQuiescence(p: Pool, s: Step)
    requires Enabled(p, s) && Counters(p) && Quiescence(p)
    ensures Quiescence(Apply(p, s))
  {
    if Looks(s) {
      LookKeepsQuiescence(p, s);
    } else if s.Await? {
      AwaitKeepsQuiescence(p, s.w, p.cmdWaiting);
    } else if s.Reawake? {
      AwaitKeepsQuiescence(p, s.w, false);
    } else if GoesOn(s) {
      OwnKeepsQuiescence(p, s);
    } else {
      OtherKeepsQuiescence(p, s);
    }
  }

  // ----- the producer ----------------------------------------------------------------

  /** Back-pressure: at most 2*max commands wait while the producer is reading input. */
  ghost predicate BackPressure(p: Pool) {
    && p.mainWaiting == p.main.Parked?
    && 0 <= p.mainCount <= p.max
    && match p.main
       case Idle => |p.queue| <= 2 * p.max
       case Parked => |p.queue| <= 2 * p.max + 1
       case Roused => |p.queue| <= p.mainCount
  }

  lemma StepKeepsBackPressure(p: Pool, s: Step)
    requires Enabled(p, s) && BackPressure(p)
    ensures BackPressure(Apply(p, s))
  {
  }

  // ----- history -------------------------------------------------------------------------

  /** The first n submissions without the purged ones, in submission order. */
  ghost function Survivors(n: nat, purged: set<nat>): seq<nat> {
    if n == 0 then []
    else Survivors(n - 1, purged) + if n - 1 in purged then [] else [n - 1]
  }

  lemma {:induction false} SurvivorsAre(n: nat, purged: set<nat>)
    ensures forall c :: c in Survivors(n, purged) <==> 0 <= c < n && c !in purged
    ensures forall i, j :: 0 <= i < j < |Survivors(n, purged)| ==> Survivors(n, purged)[i] < Survivors(n, purged)[j]
  {
    if n > 0 {
      SurvivorsAre(n - 1, purged);
      var s := Survivors(n - 1, purged);
      forall i | 0 <= i < |s| ensures s[i] < n - 1 { assert s[i] in s; }
    }
  }

  lemma {:induction false} SurvivorsLocal(n: nat, a: set<nat>, b: set<nat>)
    requires forall c :: 0 <= c < n ==> (c in a <==> c in b)
    ensures Survivors(n, a) == Survivors(n, b)
  {
    if n > 0 { SurvivorsLocal(n - 1, a, b); }
  }

  /** Purging the whole queue leaves exactly what was dispatched. */
  lemma {:induction false} SurvivorsPurge(n: nat, purged: set<nat>, done: seq<nat>, queue: seq<nat>)
    requires done + queue == Survivors(n, purged)
    ensures done == Survivors(n, purged + (set c | c in queue))
  {
    var all := purged + set c | c in queue;
    if n == 0 || queue == [] {
      SurvivorsLocal(n, purged, all);
      assert done + queue == done;
    } else if n - 1 in purged {
      SurvivorsPurge(n - 1, purged, done, queue);
    } else {
      var rest := queue[..|queue| - 1];
      assert (done + queue)[..|done + queue| - 1] == done + rest;
      assert (done + queue)[|done + queue| - 1] == n - 1;
      SurvivorsPurge(n - 1, purged, done, rest);
      SurvivorsLocal(n - 1, purged + (set c | c in rest), all);
      assert n - 1 in queue;
    }
  }

  /** Every command is waiting, dispatched or purged, and order is submission order. */
  ghost predicate History(p: Pool) {
    && p.dispatched + p.queue == Survivors(|p.status|, p.purged)
    && (forall c :: c in p.purged ==> 0 <= c < |p.status| && Doomed(p.status[c]))
  }

  lemma LoopHeadKeepsHistory(p: Pool, w: nat, q: nat)
    requires w < |p.workers| && History(p)
    ensures History(LoopHead(p, w, q))
  {
    if p.queue != [] {
      assert p.dispatched + p.queue == (p.dispatched + [p.queue[0]]) + p.queue[1..];
    }
  }

  lemma SubmitKeepsHistory(p: Pool, s: Step)
    requires s.Submit? && Enabled(p, s) && History(p)
    ensures History(Apply(p, s))
  {
    var n := |p.status|;
    assert p.dispatched + (p.queue + [n]) == (p.dispatched + p.queue) + [n];
  }

  lemma PurgeKeepsHistory(p: Pool)
    requires History(p)
    ensures History(DoPurge(p))
  {
    SurvivorsPurge(|p.status|, p.purged, p.dispatched, p.queue);
    SurvivorsAre(|p.status|, p.purged);
    forall c | c in p.queue ensures 0 <= c < |p.status| {
      assert c in p.dispatched + p.queue;
    }
    assert p.dispatched + [] == p.dispatched;
  }

  lemma StepKeepsHistory(p: Pool, s: Step)
    requires Enabled(p, s) && History(p)
    ensures History(Apply(p, s))
  {
    match s
    case Submit(_, _, _) => SubmitKeepsHistory(p, s);
    case Begin(w, q) => LoopHeadKeepsHistory(p, w, q);
    case Resume(w, q) => LoopHeadKeepsHistory(p.(extFree := p.extFree - 1), w, q);
    case Finish(w, q) => LoopHeadKeepsHistory(AfterCommand(p, p.workers[w].ticket), w, q);
    case PurgeBy(_) => PurgeKeepsHistory(p);
    case PurgeOutside => PurgeKeepsHistory(p);
    case _ =>
  }

  // ----- all of them -------------------------------------------------------------------------

  ghost predicate Inv(p: Pool) {
    Counters(p) && Tickets(p) && Gate(p) && Work(p) && Quiescence(p) && BackPressure(p) && History(p)
  }

  lemma InitInv(max: nat)
    requires 1 <= max
    ensures Inv(Init(max))
  {
  }

  lemma StepKeepsInv(p: Pool, s: Step)
    requires Enabled(p, s) && Inv(p)
    ensures Inv(Apply(p, s)) && Apply(p, s).max == p.max
  {
    StepKeepsCounters(p, s);
    StepKeepsTickets(p, s);
    StepKeepsGate(p, s);
    StepKeepsWork(p, s);
    StepKeepsQuiescence(p, s);
    StepKeepsBackPressure(p, s);
    StepKeepsHistory(p, s);
  }
}
