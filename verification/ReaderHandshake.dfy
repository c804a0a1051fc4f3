/** SpeedShop_ReadLine and Wake_Up_Reader (Commander.cxx): one reader sweeps the windows for input
    and sleeps when it finds none; any number of producers add input and wake it. One step is one
    access to shared state, or one region between taking and releasing Async_Input_Lock when
    nobody else can see inside it. */
module ReaderHandshake {
  import opened InputSweep

  /** command is what Isa_SS_Command answers for the line: other lines are used up by the read. */
  datatype Line = Line(text: string, command: bool)

  /** tried are the windows that gave nothing in this pass; locked is I_HAVE_ASYNC_INPUT_LOCK. */
  datatype Reader =
    | Away
    | Reading(tried: seq<WindowId>, locked: bool)
    | Missed(tried: seq<WindowId>, locked: bool)   // the sweep came back to its first window
    | Found(line: Line, locked: bool)
    | Waiting(tried: seq<WindowId>)
    | Signalled

  datatype Producer =
    | Idle
    | Posted(w: WindowId)       // has added input, has not tested Looking_for_Async_Inputs yet
    | Calling(w: WindowId)      // saw it set, wants Async_Input_Lock

  datatype State = State(
    list: seq<WindowId>,                    // CommandWindowID_list
    queues: map<WindowId, seq<Line>>,       // what the input list of each window still holds
    last: WindowId,                         // Last_ReadWindow
    first: WindowId,                        // firstreadwindow
    isMore: bool,
    looking: bool,                          // Looking_for_Async_Inputs
    reader: Reader,
    producers: seq<Producer>)

  datatype Step =
    | Call(isMore: bool)                    // SpeedShop_ReadLine is entered
    | Read                                  // Read_Command, then the next select_input_window
    | Lock                                  // first empty sweep: take the lock, set the flag
    | Sleep                                 // second empty sweep: pthread_cond_wait
    | Wake                                  // signalled: take the lock back, release it, sweep again
    | Spurious                              // the wait ends without a producer's signal
    | Return                                // clear the flag and release the lock if held
    | Post(i: nat, w: WindowId, lines: seq<Line>, front: bool)   // Append_ or Push_Input_Source
    | Test(i: nat)                          // the unlocked test in Wake_Up_Reader
    | Signal(i: nat)                        // its locked region

  function Init(list: seq<WindowId>, last: WindowId, producers: nat): State {
    State(list, map w | w in list :: [], last, last, false, false, Away, seq(producers, i => Idle))
  }

  predicate Locked(r: Reader) { (r.Reading? || r.Missed? || r.Found?) && r.locked }

  ghost predicate Enabled(s: State, t: Step) {
    match t
    case Call(isMore) => s.reader.Away? && s.list != [] && (isMore ==> s.last in s.list)
    case Read => s.reader.Reading? && s.list != [] && s.last in s.queues
    case Lock => s.reader.Missed? && !s.reader.locked
    case Sleep => s.reader.Missed? && s.reader.locked
    case Wake => s.reader.Signalled?
    case Spurious => s.reader.Waiting?
    case Return => s.reader.Found?
    case Post(i, w, _, _) => i < |s.producers| && s.producers[i].Idle? && w in s.queues
    case Test(i) => i < |s.producers| && s.producers[i].Posted?
    case Signal(i) => i < |s.producers| && s.producers[i].Calling? && !Locked(s.reader)
  }

  function ReadNext(s: State): State
    requires s.reader.Reading? && s.list != [] && s.last in s.queues
  {
    var q := s.queues[s.last];
    if q == [] then
      var next := Select(s.list, s.last, s.isMore);
      var tried := s.reader.tried + [s.last];
      s.(last := next, reader := if next != s.first then Reading(tried, s.reader.locked) else Missed(tried, s.reader.locked))
    else
      s.(queues := s.queues[s.last := q[1..]],
         reader := if q[0].command then Found(q[0], s.reader.locked) else s.reader)
  }

  function Apply(s: State, t: Step): State
    requires Enabled(s, t)
  {
    match t
    case Call(isMore) =>
      var w := Select(s.list, s.last, isMore);
      s.(last := w, first := w, isMore := isMore, reader := Reading([], false))
    case Read => ReadNext(s)
    case Lock => s.(looking := true, reader := Reading([], true))
    case Sleep => s.(reader := Waiting(s.reader.tried))
    case Wake => s.(reader := Reading([], false))
    case Spurious => s.(reader := Reading([], false))
    case Return => s.(looking := s.looking && !s.reader.locked, reader := Away)
    case Post(i, w, lines, front) =>
      s.(queues := s.queues[w := if front then lines + s.queues[w] else s.queues[w] + lines],
         producers := s.producers[i := Posted(w)])
    case Test(i) =>
      s.(producers := s.producers[i := if s.looking then Calling(s.producers[i].w) else Idle])
    case Signal(i) =>
      s.(looking := false,
         reader := if s.looking && s.reader.Waiting? then Signalled else s.reader,
         producers := s.producers[i := Idle])
  }

  ghost predicate IsRun(s: State, run: seq<Step>)
    decreases |run|
  {
    run == [] || (Enabled(s, run[0]) && IsRun(Apply(s, run[0]), run[1..]))
  }

  ghost function Exec(s: State, run: seq<Step>): State
    requires IsRun(s, run)
    decreases |run|
  {
    if run == [] then s else Exec(Apply(s, run[0]), run[1..])
  }

  // ----- the invariant --------------------------------------------------------

  /** A pass is over when every one of these has been tried. */
  function Swept(s: State): seq<WindowId> { if s.isMore then [s.first] else s.list }

  /** k steps of the sweep. */
  function Tour(s: State, k: nat): WindowId
    requires s.list != []
  {
    if s.isMore then s.first else Selects(s.list, s.first, k)
  }

  ghost predicate Toured(s: State, tried: seq<WindowId>)
    requires s.list != []
  {
    && |tried| <= |Swept(s)| && s.first in s.list
    && s.last == Tour(s, |tried|)
    && forall j :: 0 <= j < |tried| ==> tried[j] == Tour(s, j)
  }

  /** The sweep is a prefix of one tour of the windows, and a missed one is the whole tour. */
  ghost predicate Touring(s: State) {
    && Distinct(s.list) && (forall w :: w in s.list <==> w in s.queues)
    && (!s.reader.Away? ==> s.list != [])
    && (s.reader.Reading? ==> Toured(s, s.reader.tried) && |s.reader.tried| < |Swept(s)|)
    && (s.reader.Missed? || s.reader.Waiting? ==> Toured(s, s.reader.tried) && |s.reader.tried| == |Swept(s)|)
    && (s.reader.Signalled? ==> Toured(s, []))
  }

  ghost predicate Pending(s: State, w: WindowId) {
    exists i :: 0 <= i < |s.producers| && Brings(s.producers[i], w)
  }

  predicate Brings(p: Producer, w: WindowId) { !p.Idle? && p.w == w }

  /** Input that came after its window was tried has a producer that has yet to signal. */
  ghost predicate Watched(s: State, tried: seq<WindowId>) {
    forall w :: w in tried && w in s.queues ==> s.queues[w] == [] || Pending(s, w)
  }

  ghost predicate Watch(s: State) {
    && (Locked(s.reader) || s.reader.Waiting? ==> s.looking)
    && ((s.reader.Reading? || s.reader.Missed?) && s.reader.locked ==> Watched(s, s.reader.tried))
    && (s.reader.Waiting? ==> Watched(s, s.reader.tried))
  }

  ghost predicate Inv(s: State) { Touring(s) && Watch(s) }

  lemma InitInv(list: seq<WindowId>, last: WindowId, producers: nat)
    requires Distinct(list)
    ensures Inv(Init(list, last, producers))
  {
  }

  /** A tour of as many steps as there are windows to sweep is back at its first window, and not before. */
  lemma TourEnds(s: State, k: nat)
    requires s.list != [] && Distinct(s.list) && s.first in s.list && k <= |Swept(s)|
    ensures k > 0 ==> (Tour(s, k) == s.first <==> k == |Swept(s)|)
    ensures Tour(s, 0) == s.first
  {
    SweepVisitsEachOnce(s.list, s.first);
    if k > 0 && !s.isMore {
      assert Selects(s.list, s.first, 0) == s.first;
    }
  }

  /** One more window tried, and on to the next of the tour. */
  lemma MissTours(s: State)
    requires Touring(s) && Enabled(s, Read) && s.queues[s.last] == []
    ensures Toured(ReadNext(s), s.reader.tried + [s.last])
  {
  }

  lemma MissKeepsTouring(s: State)
    requires Touring(s) && Enabled(s, Read) && s.queues[s.last] == []
    ensures Touring(ReadNext(s))
  {
    MissTours(s);
    TourEnds(s, |s.reader.tried| + 1);
  }

  lemma StepKeepsTouring(s: State, t: Step)
    requires Touring(s) && Enabled(s, t)
    ensures Touring(Apply(s, t))
  {
    match t
    case Read => if s.queues[s.last] == [] { MissKeepsTouring(s); }
    case Call(isMore) => TourEnds(Apply(s, t), 0);
    case Lock => TourEnds(s, |Swept(s)|); assert Toured(Apply(s, t), []);
    case Spurious => TourEnds(s, |Swept(s)|); assert Toured(Apply(s, t), []);
    case Signal(_) => if s.reader.Waiting? { TourEnds(s, |Swept(s)|); assert Toured(Apply(s, t), []); }
    case Sleep =>
    case Wake =>
    case Return =>
    case Post(_, _, _, _) =>
    case Test(_) =>
  }

  lemma StillPending(s: State, ps: seq<Producer>, i: nat, w: WindowId)
    requires Pending(s, w) && |ps| == |s.producers| && i < |ps| && ps == s.producers[i := ps[i]]
    requires Brings(s.producers[i], w) ==> Brings(ps[i], w)
    ensures exists j :: 0 <= j < |ps| && Brings(ps[j], w)
  {
    var j :| 0 <= j < |s.producers| && Brings(s.producers[j], w);
    assert Brings(ps[j], w);
  }

  /** A producer's step never leaves input that a sleeping or locked reader has passed unannounced. */
  lemma ProducerKeepsWatch(s: State, t: Step)
    requires Inv(s) && Enabled(s, t) && (t.Post? || t.Test? || t.Signal?)
    ensures Watch(Apply(s, t))
  {
    var r := Apply(s, t);
    if Locked(r.reader) || r.reader.Waiting? {
      assert !t.Signal? && s.looking && r.reader == s.reader;
      if !r.reader.Found? {
        forall w | w in r.reader.tried && w in r.queues ensures r.queues[w] == [] || Pending(r, w) {
          if Pending(s, w) {
            StillPending(s, r.producers, t.i, w);
          } else if t.Post? && t.w == w {
            assert Brings(r.producers[t.i], w);
          }
        }
      }
    }
  }

  /** Reading changes no window that was tried before, but for making it emptier. */
  lemma ReadKeepsWatch(s: State)
    requires Watch(s) && Enabled(s, Read)
    ensures Watch(ReadNext(s))
  {
    assert forall w :: Pending(s, w) ==> Pending(ReadNext(s), w);
  }

  lemma ReaderKeepsWatch(s: State, t: Step)
    requires Inv(s) && Enabled(s, t) && !t.Post? && !t.Test? && !t.Signal?
    ensures Watch(Apply(s, t))
  {
    if t.Read? {
      ReadKeepsWatch(s);
    } else {
      assert forall w :: Pending(s, w) ==> Pending(Apply(s, t), w);
    }
  }

  lemma StepKeepsInv(s: State, t: Step)
    requires Inv(s) && Enabled(s, t)
    ensures Inv(Apply(s, t))
  {
    StepKeepsTouring(s, t);
    if t.Post? || t.Test? || t.Signal? { ProducerKeepsWatch(s, t); } else { ReaderKeepsWatch(s, t); }
  }

  lemma {:induction false} RunKeepsInv(s: State, run: seq<Step>)
    requires Inv(s) && IsRun(s, run)
    ensures Inv(Exec(s, run)) && Exec(s, run).list == s.list
    decreases |run|
  {
    if run != [] {
      StepKeepsInv(s, run[0]);
      RunKeepsInv(Apply(s, run[0]), run[1..]);
    }
  }

  // ----- no lost input ------------------------------------------------------------

  lemma SweptIsTried(s: State, tried: seq<WindowId>, w: WindowId)
    requires Touring(s) && s.list != [] && Toured(s, tried) && |tried| == |Swept(s)| && w in Swept(s)
    ensures w in tried && w in s.queues
  {
    if s.isMore {
      assert tried[0] == s.first;
    } else {
      SweepVisitsEachOnce(s.list, s.first);
      assert Visited(s.list, s.first, w);
      var k: nat :| k < |s.list| && Selects(s.list, s.first, k) == w;
      assert tried[k] == w;
    }
  }

  /** A sweep that came back to its first window has tried all it had to. */
  lemma TriedAll(s: State)
    requires Touring(s)
    ensures s.reader.Missed? ==> forall w :: w in Swept(s) ==> w in s.reader.tried
  {
    if s.reader.Missed? {
      forall w | w in Swept(s) ensures w in s.reader.tried { SweptIsTried(s, s.reader.tried, w); }
    }
  }

  lemma SleeperIsWatched(s: State)
    requires Inv(s) && s.reader.Waiting?
    ensures s.looking
    ensures forall w :: w in Swept(s) ==> w in s.queues && (s.queues[w] == [] || Pending(s, w))
  {
    forall w | w in Swept(s) ensures w in s.queues && (s.queues[w] == [] || Pending(s, w)) {
      SweptIsTried(s, s.reader.tried, w);
    }
  }

  /** In every run, while the reader sleeps unsignalled the flag is set, every window of its sweep
      that holds input has a producer that has yet to signal, and two steps of that producer wake it. */
  lemma NoLostInput(list: seq<WindowId>, last: WindowId, producers: nat, run: seq<Step>)
    requires Distinct(list) && IsRun(Init(list, last, producers), run)
    ensures var s := Exec(Init(list, last, producers), run);
      s.reader.Waiting? ==>
        && s.looking
        && forall w :: w in Swept(s) ==> w in s.queues && (s.queues[w] == [] || (Pending(s, w) && CanWake(s)))
  {
    InitInv(list, last, producers);
    RunKeepsInv(Init(list, last, producers), run);
    var s := Exec(Init(list, last, producers), run);
    if s.reader.Waiting? {
      SleeperIsWatched(s);
      forall w | w in Swept(s) && s.queues[w] != [] ensures CanWake(s) { PendingWakes(s, w); }
    }
  }

  /** Some producer's own next steps, at most two, signal the reader. */
  ghost predicate CanWake(s: State) {
    exists i: nat :: WakesBy(s, [Signal(i)]) || WakesBy(s, [Test(i), Signal(i)])
  }

  ghost predicate WakesBy(s: State, run: seq<Step>) {
    IsRun(s, run) && Exec(s, run).reader.Signalled?
  }

  lemma PendingWakes(s: State, w: WindowId)
    requires s.reader.Waiting? && s.looking && Pending(s, w)
    ensures CanWake(s)
  {
    var i :| 0 <= i < |s.producers| && Brings(s.producers[i], w);
    if s.producers[i].Posted? {
      var t := Apply(s, Test(i));
      OneStep(t, Signal(i));
      assert [Test(i), Signal(i)][1..] == [Signal(i)];
      assert WakesBy(s, [Test(i), Signal(i)]);
    } else {
      OneStep(s, Signal(i));
      assert WakesBy(s, [Signal(i)]);
    }
  }

  lemma OneStep(s: State, t: Step)
    requires Enabled(s, t)
    ensures IsRun(s, [t]) && Exec(s, [t]) == Apply(s, t)
  {
    assert [t][1..] == [];
    assert Exec(Apply(s, t), []) == Apply(s, t);
  }

  /** A complex statement reads from the window it began in, whatever the others hold. */
  lemma ComplexReadsOneWindow(list: seq<WindowId>, last: WindowId, producers: nat, run: seq<Step>, w: WindowId)
    requires Distinct(list) && IsRun(Init(list, last, producers), run)
    requires var s := Exec(Init(list, last, producers), run);
      s.isMore && Enabled(s, Read) && w in s.queues && w != s.first
    ensures var s := Exec(Init(list, last, producers), run);
      s.last == s.first && Apply(s, Read).queues.Keys == s.queues.Keys && Apply(s, Read).queues[w] == s.queues[w]
  {
    InitInv(list, last, producers);
    RunKeepsInv(Init(list, last, producers), run);
  }

  // ----- input is returned ------------------------------------------------------------

  /** What the reader does next when nobody else moves. */
  function Next(s: State): Step
    requires s.reader.Reading? || s.reader.Missed? || s.reader.Signalled?
  {
    match s.reader
    case Reading(_, _) => Read
    case Missed(_, locked) => if locked then Sleep else Lock
    case Signalled => Wake
  }

  ghost predicate HoldsCommand(s: State, w: WindowId) {
    w in Swept(s) && w in s.queues && exists j :: 0 <= j < |s.queues[w]| && s.queues[w][j].command
  }

  predicate Quiet(s: State) { forall i :: 0 <= i < |s.producers| ==> s.producers[i].Idle? }

  /** n steps of the reader, on its own, end with a line to return. */
  ghost predicate Returns(s: State, n: nat)
    decreases n
  {
    s.reader.Found? ||
    (n > 0 && (s.reader.Reading? || s.reader.Missed? || s.reader.Signalled?) && Enabled(s, Next(s)) &&
     Returns(Apply(s, Next(s)), n - 1))
  }

  function Backlog(list: seq<WindowId>, queues: map<WindowId, seq<Line>>): nat {
    if list == [] then 0
    else (if list[0] in queues then |queues[list[0]]| else 0) + Backlog(list[1..], queues)
  }

  lemma {:induction false} BacklogFalls(list: seq<WindowId>, queues: map<WindowId, seq<Line>>, w: WindowId, q: seq<Line>)
    requires Distinct(list) && w in queues && |q| < |queues[w]|
    ensures w in list ==> Backlog(list, queues[w := q]) < Backlog(list, queues)
    ensures w !in list ==> Backlog(list, queues[w := q]) == Backlog(list, queues)
  {
    if list != [] { BacklogFalls(list[1..], queues, w, q); }
  }

  function Stage(r: Reader): nat {
    match r
    case Signalled => 4
    case Reading(_, locked) => if locked then 1 else 3
    case Missed(_, locked) => if locked then 1 else 3
    case _ => 0
  }

  function Left(s: State): int {
    match s.reader
    case Reading(tried, _) => |Swept(s)| + 1 - |tried|
    case _ => 0
  }

  lemma QuietSweepIsEmpty(s: State, tried: seq<WindowId>, w: WindowId)
    requires Inv(s) && Quiet(s) && s.list != [] && Toured(s, tried) && |tried| == |Swept(s)| && Watched(s, tried)
    ensures !HoldsCommand(s, w)
  {
    if w in Swept(s) { SweptIsTried(s, tried, w); }
  }

  /** r is what a read that returns nothing made of s: fewer lines, or a shorter sweep. */
  ghost predicate Progress(s: State, r: State) {
    && r.list == s.list && (r.reader.Reading? || r.reader.Missed?) && Stage(r.reader) == Stage(s.reader)
    && (Backlog(r.list, r.queues) < Backlog(s.list, s.queues) || (r.queues == s.queues && Left(r) < Left(s)))
  }

  lemma MissMakesProgress(s: State)
    requires Touring(s) && Enabled(s, Read) && s.queues[s.last] == []
    ensures Progress(s, ReadNext(s))
  {
  }

  lemma PopMakesProgress(s: State)
    requires Touring(s) && Enabled(s, Read) && s.queues[s.last] != [] && s.last in s.list
    ensures ReadNext(s).reader.Found? || Progress(s, ReadNext(s))
  {
    BacklogFalls(s.list, s.queues, s.last, s.queues[s.last][1..]);
  }

  lemma ReadMakesProgress(s: State)
    requires Touring(s) && s.reader.Reading?
    ensures Enabled(s, Read) && (ReadNext(s).reader.Found? || Progress(s, ReadNext(s)))
  {
    SweepVisitsEachOnce(s.list, s.first);
    assert s.last in s.list;
    if s.queues[s.last] == [] { MissMakesProgress(s); } else { PopMakesProgress(s); }
  }

  lemma ReadKeepsCommand(s: State, w: WindowId)
    requires Enabled(s, Read) && HoldsCommand(s, w) && !ReadNext(s).reader.Found?
    ensures HoldsCommand(ReadNext(s), w)
  {
    var q := s.queues[s.last];
    var j :| 0 <= j < |s.queues[w]| && s.queues[w][j].command;
    if w == s.last { assert q[1..][j - 1].command; }
    else { assert ReadNext(s).queues[w][j].command; }
  }

  /** Once producers are quiet, a reader that is not asleep returns a line, and does not sleep,
      whenever a window of its sweep holds a command. */
  lemma {:induction false} QuietReaderReturns(s: State, w: WindowId) returns (n: nat)
    requires Inv(s) && Quiet(s) && HoldsCommand(s, w)
    requires s.reader.Reading? || s.reader.Missed? || s.reader.Signalled?
    ensures Returns(s, n)
    decreases Backlog(s.list, s.queues), Stage(s.reader), Left(s)
  {
    if s.reader.Missed? && s.reader.locked { QuietSweepIsEmpty(s, s.reader.tried, w); }
    if s.reader.Reading? { ReadMakesProgress(s); }
    var r := Apply(s, Next(s));
    StepKeepsInv(s, Next(s));
    n := 1;
    if !r.reader.Found? {
      if s.reader.Reading? { ReadKeepsCommand(s, w); }
      var m := QuietReaderReturns(r, w);
      n := m + 1;
    }
  }

  /** The two together: a producer that finds the reader asleep and is the last one busy makes it
      return a line, if a window of the sweep holds a command. */
  lemma WokenReaderReturns(s: State, i: nat, w: WindowId) returns (n: nat)
    requires Inv(s) && s.reader.Waiting? && HoldsCommand(s, w)
    requires i < |s.producers| && s.producers[i].Calling? && Quiet(s.(producers := s.producers[i := Idle]))
    ensures Enabled(s, Signal(i)) && Returns(Apply(s, Signal(i)), n)
  {
    var r := Apply(s, Signal(i));
    StepKeepsInv(s, Signal(i));
    var j :| 0 <= j < |s.queues[w]| && s.queues[w][j].command;
    assert r.queues[w][j].command;
    n := QuietReaderReturns(r, w);
  }
}
