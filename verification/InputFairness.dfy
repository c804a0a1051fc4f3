/** How long a window with input waits for the others, and when producers go for the lock. */
module InputFairness {
  import opened InputSweep
  import opened ReaderHandshake

  // ----- the round robin is fair ------------------------------------------------------

  /** Choices from window last on until v is chosen. */
  function Ahead(list: seq<WindowId>, last: WindowId, v: WindowId): (k: nat)
    requires last in list && v in list
    ensures k < |list| && (last == v ==> k == 0)
  {
    var i, j := Position(list, last), Position(list, v);
    if j <= i then i - j else i + |list| - j
  }

  lemma PositionAt(list: seq<WindowId>, i: nat)
    requires Distinct(list) && i < |list|
    ensures Position(list, list[i]) == i + 1
  {
  }

  lemma SelectComesCloser(list: seq<WindowId>, last: WindowId, v: WindowId)
    requires Distinct(list) && last in list && v in list
    ensures var w := Select(list, last, false);
      w in list && Ahead(list, w, v) == if last == v then |list| - 1 else Ahead(list, last, v) - 1
  {
    var k := Position(list, last);
    var b := if k <= 1 then |list| - 1 else k - 2;
    PositionAt(list, b);
    if last != v { assert Position(list, v) != k; }
  }

  /** How many calls can begin before a line of v is read. */
  function Budget(s: State, v: WindowId): nat
    requires v in s.list
  {
    if s.last !in s.list || ((s.reader.Away? || s.reader.Found?) && s.last == v) then |s.list|
    else Ahead(s.list, s.last, v)
  }

  function Calls(run: seq<Step>): nat {
    if run == [] then 0 else (if run[0].Call? then 1 else 0) + Calls(run[1..])
  }

  /** No complex statement begins, and no line of v is read. */
  ghost predicate PassesOver(s: State, run: seq<Step>, v: WindowId)
    requires IsRun(s, run)
    decreases |run|
  {
    run == [] ||
    ((run[0].Call? ==> !run[0].isMore) && (run[0].Read? ==> s.last != v || s.queues[v] == []) &&
     PassesOver(Apply(s, run[0]), run[1..], v))
  }

  lemma CallSpends(s: State, v: WindowId)
    requires Inv(s) && v in s.list && Enabled(s, Call(false))
    ensures Budget(Apply(s, Call(false)), v) + 1 <= Budget(s, v)
  {
    if s.last in s.list {
      SelectComesCloser(s.list, s.last, v);
    } else {
      assert Position(s.list, s.last) == 0;
    }
  }

  lemma MissSpends(s: State, v: WindowId)
    requires Inv(s) && v in s.list && Enabled(s, Read) && s.last != v && s.queues[s.last] == []
    ensures Budget(ReadNext(s), v) <= Budget(s, v)
  {
    if !s.isMore { SelectComesCloser(s.list, s.last, v); }
  }

  lemma OtherSpends(s: State, t: Step, v: WindowId)
    requires Inv(s) && v in s.list && Enabled(s, t) && !t.Call? && !t.Read?
    ensures Budget(Apply(s, t), v) <= Budget(s, v)
  {
  }

  lemma StepSpends(s: State, t: Step, v: WindowId)
    requires Inv(s) && v in s.list && Enabled(s, t) && s.queues[v] != []
    requires (t.Call? ==> !t.isMore) && (t.Read? ==> s.last != v)
    ensures Budget(Apply(s, t), v) + (if t.Call? then 1 else 0) <= Budget(s, v)
    ensures Apply(s, t).list == s.list && v in Apply(s, t).queues && Apply(s, t).queues[v] != []
  {
    if t.Call? {
      CallSpends(s, v);
    } else if t.Read? {
      if s.queues[s.last] == [] { MissSpends(s, v); }
    } else {
      OtherSpends(s, t, v);
    }
  }

  /** As long as a window holds input and none of it is read, fewer calls begin than its budget, which
      is at most the number of windows: other windows cannot starve it. */
  lemma {:induction false} BoundedBypass(s: State, run: seq<Step>, v: WindowId)
    requires Inv(s) && v in s.list && s.queues[v] != [] && IsRun(s, run) && PassesOver(s, run, v)
    ensures Calls(run) <= Budget(s, v) <= |s.list|
    decreases |run|
  {
    if run != [] {
      StepSpends(s, run[0], v);
      StepKeepsInv(s, run[0]);
      BoundedBypass(Apply(s, run[0]), run[1..], v);
    }
  }

  // ----- the flag ------------------------------------------------------------------------

  /** Producers are asked to signal exactly while the reader sweeps under the lock or sleeps. */
  ghost predicate FlagExact(s: State) { s.looking <==> Locked(s.reader) || s.reader.Waiting? }

  ghost predicate NoSpurious(run: seq<Step>) { forall i :: 0 <= i < |run| ==> !run[i].Spurious? }

  lemma StepKeepsFlag(s: State, t: Step)
    requires FlagExact(s) && Enabled(s, t) && !t.Spurious?
    ensures FlagExact(Apply(s, t))
  {
  }

  lemma {:induction false} RunKeepsFlag(s: State, run: seq<Step>)
    requires FlagExact(s) && IsRun(s, run) && NoSpurious(run)
    ensures FlagExact(Exec(s, run))
    decreases |run|
  {
    if run != [] {
      assert !run[0].Spurious?;
      StepKeepsFlag(s, run[0]);
      RunKeepsFlag(Apply(s, run[0]), run[1..]);
    }
  }

  /** Unless a wait ended by itself, a producer that adds input goes for the lock exactly if the reader
      is sweeping under it or asleep. */
  lemma ProducersCallInTime(list: seq<WindowId>, last: WindowId, producers: nat, run: seq<Step>, i: nat)
    requires IsRun(Init(list, last, producers), run) && NoSpurious(run)
    requires Enabled(Exec(Init(list, last, producers), run), Test(i))
    ensures var s := Exec(Init(list, last, producers), run);
      Apply(s, Test(i)).producers[i].Calling? <==> Locked(s.reader) || s.reader.Waiting?
  {
    RunKeepsFlag(Init(list, last, producers), run);
  }
}
