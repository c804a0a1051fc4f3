/** What becomes of every line that is added to a window: read once, in order, and returned exactly
    if it is a command. */
module InputDelivery {
  import opened InputSweep
  import opened ReaderHandshake

  /** The line a step removes from a window. */
  ghost function TakenBy(s: State, t: Step): seq<Line>
    requires Enabled(s, t)
  {
    if t.Read? && s.queues[s.last] != [] then [s.queues[s.last][0]] else []
  }

  ghost function ReturnedBy(s: State, t: Step): seq<Line>
    requires Enabled(s, t)
  {
    if t.Return? then [s.reader.line] else []
  }

  function PostedBy(t: Step, w: WindowId): seq<Line> { if t.Post? && t.w == w then t.lines else [] }

  /** The lines read from window w, in the order they were read. */
  ghost function Taken(s: State, run: seq<Step>, w: WindowId): seq<Line>
    requires IsRun(s, run)
    decreases |run|
  {
    if run == [] then []
    else (if s.last == w then TakenBy(s, run[0]) else []) + Taken(Apply(s, run[0]), run[1..], w)
  }

  /** All lines read, from whatever window. */
  ghost function AllTaken(s: State, run: seq<Step>): seq<Line>
    requires IsRun(s, run)
    decreases |run|
  {
    if run == [] then [] else TakenBy(s, run[0]) + AllTaken(Apply(s, run[0]), run[1..])
  }

  /** What SpeedShop_ReadLine has returned, call by call. */
  ghost function Returned(s: State, run: seq<Step>): seq<Line>
    requires IsRun(s, run)
    decreases |run|
  {
    if run == [] then [] else ReturnedBy(s, run[0]) + Returned(Apply(s, run[0]), run[1..])
  }

  /** The lines added to window w, in the order they were added. */
  function Posted(run: seq<Step>, w: WindowId): seq<Line> {
    if run == [] then [] else PostedBy(run[0], w) + Posted(run[1..], w)
  }

  /** Nothing is pushed in front. */
  ghost predicate Appends(run: seq<Step>) { forall i :: 0 <= i < |run| ==> run[i].Post? ==> !run[i].front }

  function Commands(ls: seq<Line>): seq<Line> {
    if ls == [] then [] else (if ls[0].command then [ls[0]] else []) + Commands(ls[1..])
  }

  function InHand(r: Reader): seq<Line> { if r.Found? then [r.line] else [] }

  lemma Bags(a: seq<Line>, b: seq<Line>)
    ensures multiset(a + b) == multiset(a) + multiset(b)
  {
  }

  /** A step takes a line from the front of a window's lines, or adds some at an end, or neither. */
  lemma StepKeepsLines(s: State, t: Step, w: WindowId)
    requires Enabled(s, t) && w in s.queues
    ensures var taken, q, r := if s.last == w then TakenBy(s, t) else [], s.queues[w], Apply(s, t).queues;
      && w in r
      && (if t.Post? && t.w == w then taken == [] && r[w] == (if t.front then t.lines + q else q + t.lines)
          else q == taken + r[w])
  {
    if t.Read? && s.last == w && s.queues[w] != [] {
      assert s.queues[w] == [s.queues[w][0]] + s.queues[w][1..];
    }
  }

  lemma Regroup(a: seq<Line>, b: seq<Line>, c: seq<Line>)
    ensures a + (b + c) == (a + b) + c
  {
  }

  /** What goes in at the back and comes out at the front, one step after another. */
  lemma Splice(q: seq<Line>, p: seq<Line>, ps: seq<Line>, t: seq<Line>, q': seq<Line>, ts: seq<Line>, q'': seq<Line>)
    requires q + p == t + q' && q' + ps == ts + q''
    ensures q + (p + ps) == (t + ts) + q''
  {
    Regroup(q, p, ps);
    Regroup(t, q', ps);
    Regroup(t, ts, q'');
  }

  lemma SpliceCounts(q: multiset<Line>, p: multiset<Line>, ps: multiset<Line>, t: multiset<Line>,
                     q': multiset<Line>, ts: multiset<Line>, q'': multiset<Line>)
    requires q + p == t + q' && q' + ps == ts + q''
    ensures q + (p + ps) == (t + ts) + q''
  {
    forall l ensures (q + (p + ps))[l] == ((t + ts) + q'')[l] {
      assert (q + p)[l] == (t + q')[l] && (q' + ps)[l] == (ts + q'')[l];
    }
  }

  lemma StepCounts(s: State, t: Step, w: WindowId)
    requires Enabled(s, t) && w in s.queues
    ensures w in Apply(s, t).queues
    ensures var taken := if s.last == w then TakenBy(s, t) else [];
      multiset(s.queues[w]) + multiset(PostedBy(t, w)) == multiset(taken) + multiset(Apply(s, t).queues[w])
  {
    StepKeepsLines(s, t, w);
    var taken := if s.last == w then TakenBy(s, t) else [];
    if t.Post? && t.w == w {
      Bags(t.lines, s.queues[w]);
      Bags(s.queues[w], t.lines);
    } else {
      Bags(taken, Apply(s, t).queues[w]);
    }
  }

  /** A window's lines are read in the order they were appended, each once: read so far and still
      waiting together are what was there and what was added since. */
  lemma {:induction false} LinesKeepOrder(s: State, run: seq<Step>, w: WindowId)
    requires IsRun(s, run) && Appends(run) && w in s.queues
    ensures w in Exec(s, run).queues
    ensures s.queues[w] + Posted(run, w) == Taken(s, run, w) + Exec(s, run).queues[w]
    decreases |run|
  {
    if run != [] {
      var t, rest := run[0], run[1..];
      var r := Apply(s, t);
      var taken := if s.last == w then TakenBy(s, t) else [];
      StepKeepsLines(s, t, w);
      LinesKeepOrder(r, rest, w);
      Splice(s.queues[w], PostedBy(t, w), Posted(rest, w), taken, r.queues[w], Taken(r, rest, w), Exec(s, run).queues[w]);
    }
  }

  /** With lines pushed in front as well, none is lost or read twice. */
  lemma {:induction false} LinesAreConserved(s: State, run: seq<Step>, w: WindowId)
    requires IsRun(s, run) && w in s.queues
    ensures w in Exec(s, run).queues
    ensures multiset(s.queues[w]) + multiset(Posted(run, w)) == multiset(Taken(s, run, w)) + multiset(Exec(s, run).queues[w])
    decreases |run|
  {
    if run != [] {
      var t, rest := run[0], run[1..];
      var r := Apply(s, t);
      var taken := if s.last == w then TakenBy(s, t) else [];
      StepCounts(s, t, w);
      LinesAreConserved(r, rest, w);
      Bags(PostedBy(t, w), Posted(rest, w));
      Bags(taken, Taken(r, rest, w));
      SpliceCounts(multiset(s.queues[w]), multiset(PostedBy(t, w)), multiset(Posted(rest, w)), multiset(taken),
                   multiset(r.queues[w]), multiset(Taken(r, rest, w)), multiset(Exec(s, run).queues[w]));
    }
  }

  lemma {:induction false} CommandsConcat(a: seq<Line>, b: seq<Line>)
    ensures Commands(a + b) == Commands(a) + Commands(b)
  {
    if a == [] {
      assert a + b == b;
    } else {
      assert (a + b)[1..] == a[1..] + b && (a + b)[0] == a[0];
      CommandsConcat(a[1..], b);
      Regroup(if a[0].command then [a[0]] else [], Commands(a[1..]), Commands(b));
    }
  }

  lemma StepReturnsCommands(s: State, t: Step)
    requires Enabled(s, t)
    ensures InHand(s.reader) + Commands(TakenBy(s, t)) == ReturnedBy(s, t) + InHand(Apply(s, t).reader)
  {
  }

  /** The reader returns exactly the commands among the lines it reads, in the order it reads them. */
  lemma {:induction false} ReturnsTheCommands(s: State, run: seq<Step>)
    requires IsRun(s, run)
    ensures InHand(s.reader) + Commands(AllTaken(s, run)) == Returned(s, run) + InHand(Exec(s, run).reader)
    decreases |run|
  {
    if run != [] {
      var t, rest := run[0], run[1..];
      var r := Apply(s, t);
      StepReturnsCommands(s, t);
      ReturnsTheCommands(r, rest);
      CommandsConcat(TakenBy(s, t), AllTaken(r, rest));
      Regroup(InHand(s.reader), Commands(TakenBy(s, t)), Commands(AllTaken(r, rest)));
      Regroup(ReturnedBy(s, t), InHand(r.reader), Commands(AllTaken(r, rest)));
      Regroup(ReturnedBy(s, t), Returned(r, rest), InHand(Exec(s, run).reader));
    }
  }
}
