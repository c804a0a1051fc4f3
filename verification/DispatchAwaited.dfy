/** A producer that waits for the command it submitted: what it finds when it is roused. */
module DispatchAwaited {
  import opened DispatchModel
  import opened DispatchInvariants
  import opened DispatchTheorems

  ghost predicate Holds(p: Pool, i: nat, c: nat) {
    i < |p.workers| && p.workers[i].Busy? && p.workers[i].cmd == c
  }

  /** Some worker has command c. */
  ghost predicate InHand(p: Pool, c: int) { exists i: nat :: c >= 0 && Holds(p, i, c) }

  /** The producer waits for an empty queue, after the last command submitted. */
  predicate Draining(p: Pool) { p.main.Parked? && p.mainCount == 0 }

  ghost predicate NewestHolds(p: Pool, c: int) {
    exists i: nat :: c >= 0 && Holds(p, i, c) && p.workers[i].ticket == p.executed
  }

  /** The awaited command is queued, purged, or in the hands of the worker with the newest ticket. */
  ghost predicate Awaited(p: Pool) {
    Draining(p) ==>
      var c := |p.status| - 1;
      c in p.queue || c in p.purged || NewestHolds(p, c)
  }

  /** Once it has been dispatched nothing is queued behind it. */
  lemma NothingBehind(p: Pool)
    requires Tickets(p) && History(p) && NewestHolds(p, |p.status| - 1)
    ensures p.queue == []
  {
    var c := |p.status| - 1;
    var i: nat :| Holds(p, i, c) && p.workers[i].ticket == p.executed;
    assert TicketOk(p.dispatched, p.workers[i]);
    InOrder(p, p.executed - 1);
    if p.queue != [] { InOrder(p, p.executed); }
  }

  /** The command at place k in dispatch order is one of those submitted, was not purged, and comes
      before all later ones. */
  lemma InOrder(p: Pool, k: nat)
    requires History(p) && k < |p.dispatched + p.queue|
    ensures var all := p.dispatched + p.queue;
      && all[k] < |p.status| && all[k] !in p.purged
      && forall j :: k < j < |all| ==> all[k] < all[j]
  {
    var all := p.dispatched + p.queue;
    SurvivorsAre(|p.status|, p.purged);
    assert all[k] in all;
  }

  lemma SubmitKeepsAwaited(p: Pool, s: Step)
    requires s.Submit? && Enabled(p, s) && p.max >= 1
    ensures Awaited(Apply(p, s))
  {
    var q := Apply(p, s).queue;
    assert q[|q| - 1] == |p.status|;
  }

  /** A worker that looks for work takes the awaited command, or leaves it where it is. */
  lemma LoopHeadKeepsAwaited(p: Pool, w: nat, q: nat)
    requires w < |p.workers| && Tickets(p) && 0 <= p.executed
    requires Draining(p) ==> var c := |p.status| - 1;
      c in p.queue || c in p.purged || (p.queue == [] && NewestHolds(p, c) && !Holds(p, w, c))
    ensures Awaited(LoopHead(p, w, q))
  {
    var p' := LoopHead(p, w, q);
    var c := |p.status| - 1;
    if Draining(p) && c !in p.purged {
      if c in p.queue {
        if p.ready && p.queue[0] == c { assert Holds(p', w, c); }
      } else {
        var i: nat :| Holds(p, i, c) && p.workers[i].ticket == p.executed;
        assert Holds(p', i, c);
      }
    }
  }

  /** The end of a command rouses the producer or leaves the awaited command where it is. */
  lemma FinishKeepsAwaited(p: Pool, w: nat, q: nat)
    requires w < |p.workers| && p.workers[w].Busy? && Tickets(p) && BackPressure(p) && History(p) && Awaited(p)
    ensures Awaited(DoFinish(p, w, q))
  {
    var p1 := AfterCommand(p, p.workers[w].ticket);
    var c := |p.status| - 1;
    SameTickets(p, p1);
    if Draining(p1) && c !in p.queue && c !in p.purged { NothingBehind(p); }
    LoopHeadKeepsAwaited(p1, w, q);
  }

  lemma BeginKeepsAwaited(p: Pool, w: nat, q: nat)
    requires w < |p.workers| && !p.workers[w].Busy? && Tickets(p) && History(p) && Awaited(p)
    ensures Awaited(LoopHead(p, w, q))
  {
    var c := |p.status| - 1;
    if Draining(p) && c !in p.queue && c !in p.purged { NothingBehind(p); }
    LoopHeadKeepsAwaited(p, w, q);
  }

  lemma SameAwaited(p: Pool, p': Pool)
    requires Awaited(p) && (Draining(p') ==> Draining(p)) && |p'.status| == |p.status| && p'.executed == p.executed
    requires p.purged <= p'.purged && forall c :: c in p.queue ==> c in p'.queue || c in p'.purged
    requires |p.workers| <= |p'.workers|
    requires forall i :: 0 <= i < |p.workers| && p.workers[i].Busy? ==>
      p'.workers[i].Busy? && p'.workers[i].cmd == p.workers[i].cmd && p'.workers[i].ticket == p.workers[i].ticket
    ensures Awaited(p')
  {
    var c := |p.status| - 1;
    if Draining(p) && NewestHolds(p, c) {
      var i: nat :| Holds(p, i, c) && p.workers[i].ticket == p.executed;
      assert Holds(p', i, c);
    }
  }

  lemma ResumeKeepsAwaited(p: Pool, w: nat, q: nat)
    requires w < |p.workers| && p.workers[w].Woken? && Tickets(p) && History(p) && Awaited(p)
    ensures Awaited(LoopHead(p.(extFree := p.extFree - 1), w, q))
  {
    var p1 := p.(extFree := p.extFree - 1);
    SameTickets(p, p1);
    SameAwaited(p, p1);
    BeginKeepsAwaited(p1, w, q);
  }

  lemma OwnKeepsAwaited(p: Pool, s: Step)
    requires GoesOn(s) && Enabled(p, s) && Awaited(p)
    ensures Awaited(Apply(p, s))
  {
    SameAwaited(p, Apply(p, s));
  }

  lemma OtherKeepsAwaited(p: Pool, s: Step)
    requires !GoesOn(s) && !Looks(s) && !s.Submit? && Enabled(p, s) && Awaited(p)
    ensures Awaited(Apply(p, s))
  {
    SameAwaited(p, Apply(p, s));
  }

  lemma StepKeepsAwaited(p: Pool, s: Step)
    requires Inv(p) && Awaited(p) && Enabled(p, s)
    ensures Awaited(Apply(p, s))
  {
    match s
    case Submit(_, _, _) => SubmitKeepsAwaited(p, s);
    case Begin(w, q) => BeginKeepsAwaited(p, w, q);
    case Resume(w, q) => ResumeKeepsAwaited(p, w, q);
    case Finish(w, q) => FinishKeepsAwaited(p, w, q);
    case _ => if GoesOn(s) { OwnKeepsAwaited(p, s); } else { OtherKeepsAwaited(p, s); }
  }

  lemma {:induction false} RunKeepsAwaited(p: Pool, steps: seq<Step>)
    requires Inv(p) && Awaited(p) && IsRun(p, steps)
    ensures Awaited(Exec(p, steps))
    decreases |steps|
  {
    if steps != [] {
      StepKeepsInv(p, steps[0]);
      StepKeepsAwaited(p, steps[0]);
      RunKeepsAwaited(Apply(p, steps[0]), steps[1..]);
    }
  }

  /** In every run, when the end of w's command rouses a producer that waits for the command it
      submitted, that command is still in hand if and only if it has not been purged and w's is not
      the newest: the test the code makes a moment later to reopen the gate. */
  lemma RousedTooEarlyIff(max: nat, steps: seq<Step>, w: nat, q: nat)
    requires 1 <= max && IsRun(Init(max), steps)
    requires var p := Exec(Init(max), steps);
      Draining(p) && Enabled(p, Finish(w, q)) && Apply(p, Finish(w, q)).main.Roused?
    ensures var p := Exec(Init(max), steps);
      var c := |p.status| - 1;
      && (c in p.dispatched <==> c !in p.purged)
      && (InHand(Apply(p, Finish(w, q)), c) <==> c !in p.purged && p.workers[w].ticket != p.executed)
  {
    InitInv(max);
    Reachable(max, steps);
    RunKeepsAwaited(Init(max), steps);
    RousedAt(Exec(Init(max), steps), w, q);
  }

  lemma RousedAt(p: Pool, w: nat, q: nat)
    requires Inv(p) && Awaited(p) && Draining(p) && Enabled(p, Finish(w, q)) && Apply(p, Finish(w, q)).main.Roused?
    ensures var c := |p.status| - 1;
      && (c in p.dispatched <==> c !in p.purged)
      && (InHand(Apply(p, Finish(w, q)), c) <==> c !in p.purged && p.workers[w].ticket != p.executed)
  {
    var c := |p.status| - 1;
    FinishLeaves(p, w, q);
    EachInOne(p);
    if i: nat :| i != w && c >= 0 && Holds(p, i, c) {
      HeldIsNotPurged(p, i, c);
    } else if c !in p.purged {
      var i: nat :| Holds(p, i, c) && p.workers[i].ticket == p.executed;
      assert i == w;
    }
  }

  /** The end of w's command that rouses a draining producer leaves all other commands in hand. */
  lemma FinishLeaves(p: Pool, w: nat, q: nat)
    requires BackPressure(p) && Draining(p) && Enabled(p, Finish(w, q)) && Apply(p, Finish(w, q)).main.Roused?
    ensures p.queue == []
    ensures forall c :: InHand(Apply(p, Finish(w, q)), c) <==> c >= 0 && exists i: nat :: i != w && Holds(p, i, c)
  {
    var p' := Apply(p, Finish(w, q));
    forall c ensures InHand(p', c) <==> c >= 0 && exists i: nat :: i != w && Holds(p, i, c) {
      if i: nat :| c >= 0 && Holds(p', i, c) { assert i != w && Holds(p, i, c); }
      if i: nat :| c >= 0 && i != w && Holds(p, i, c) { assert Holds(p', i, c); }
    }
  }

  /** A command in hand has not been purged, and the last one submitted has the newest ticket. */
  lemma HeldIsNotPurged(p: Pool, i: nat, c: nat)
    requires Tickets(p) && History(p) && Holds(p, i, c)
    ensures c !in p.purged && (c == |p.status| - 1 ==> p.workers[i].ticket == p.executed)
  {
    assert TicketOk(p.dispatched, p.workers[i]);
    var t := p.workers[i].ticket;
    InOrder(p, t - 1);
    if t < p.executed { InOrder(p, t); }
  }
}
