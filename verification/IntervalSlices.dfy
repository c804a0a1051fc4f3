/** Parse_Interval_Specification (SS_Cmd_Execution.cxx): time slices of an experiment, given as
    percentages or as offsets in some unit. */
module IntervalSlices {
  import opened Wrappers

  datatype Num = Int(n: int) | Double(x: real)

  datatype ParseInterval = ParseInterval(start: Num, end: Num)

  datatype Units = Percent | S | Ms | Us | Ns

  /** Whole runs from the beginning to the end of time; a slice has its begin and not its end. */
  datatype Slice = Whole | Slice(begin: int, end: int)

  function Lower(s: string): (r: string)
    ensures |r| == |s|
    ensures forall i :: 0 <= i < |s| ==> r[i] == if 'A' <= s[i] <= 'Z' then s[i] - 'A' + 'a' else s[i]
  {
    if s == "" then "" else [if 'A' <= s[0] <= 'Z' then s[0] - 'A' + 'a' else s[0]] + Lower(s[1..])
  }

  /** The interval attribute, letter case ignored; milliseconds when there is none. */
  function UnitsOf(attribute: Option<string>): Option<Units> {
    if attribute.None? then Some(Ms)
    else
      match Lower(attribute.value)
      case "%" => Some(Percent)
      case "s" => Some(S)
      case "ms" => Some(Ms)
      case "us" => Some(Us)
      case "ns" => Some(Ns)
      case _ => None
  }

  function Value(n: Num): real { if n.Int? then n.n as real else n.x }

  /** static_cast<int64_t>: toward zero. */
  function Trunc(x: real): int { if x >= 0.0 then x.Floor else -(-x).Floor }

  /** An offset of n units in nanoseconds. */
  function Nanoseconds(u: Units, n: Num): int {
    match u
    case S => Trunc(Value(n) * 1000000000.0)
    case Ms => Trunc(Value(n) * 1000000.0)
    case Us => Trunc(Value(n) * 1000.0)
    case _ => Trunc(Value(n))
  }

  function Portion(span: int, percent: real): int { Trunc(span as real * percent / 100.0) }

  function Start(first: int, last: int, u: Units, n: Num): int {
    if u == Percent then first + Portion(last - first, Value(n))
    else first + Nanoseconds(u, n)
  }

  function End(first: int, last: int, u: Units, n: Num): int {
    if u == Percent && Value(n) == 100.0 then last else Start(first, last, u, n)
  }

  function SliceOf(first: int, last: int, u: Units, p: ParseInterval): Slice {
    var e := End(first, last, u, p.end);
    Slice(Start(first, last, u, p.start), if e == last then e + 1 else e)
  }

  predicate Collapsed(first: int, last: int, u: Units, p: ParseInterval) {
    Start(first, last, u, p.start) >= End(first, last, u, p.end)
  }

  /** The fall-through switch: every unit above nanoseconds multiplies once more. */
  method Offset(u: Units, n: Num) returns (offset: int)
    requires u != Percent
    ensures offset == Nanoseconds(u, n)
  {
    match n
    case Int(k) => offset := IntOffset(u, k);
    case Double(x) => offset := DoubleOffset(u, x);
  }

  method IntOffset(u: Units, k: int) returns (offset: int)
    requires u != Percent
    ensures offset == Nanoseconds(u, Int(k))
  {
    offset := k;
    if u == S { offset := offset * 1000; }
    if u == S || u == Ms { offset := offset * 1000; }
    if u == S || u == Ms || u == Us { offset := offset * 1000; }
    TruncInt(offset);
  }

  method DoubleOffset(u: Units, x: real) returns (offset: int)
    requires u != Percent
    ensures offset == Nanoseconds(u, Double(x))
  {
    var f := x;
    if u == S { f := f * 1000.0; }
    if u == S || u == Ms { f := f * 1000.0; }
    if u == S || u == Ms || u == Us { f := f * 1000.0; }
    offset := Trunc(f);
  }

  lemma TruncInt(k: int)
    ensures Trunc(k as real) == k
  {
  }

  /** The whole of time, with a soft error, for an attribute that is no unit and as soon as one
      slice would be empty or inverted; otherwise one slice for each entry, in order. */
  method ParseIntervalSpecification(list: seq<ParseInterval>, attribute: Option<string>, first: int, last: int)
    returns (intervals: seq<Slice>, softError: bool)
    ensures var units := UnitsOf(attribute);
      softError <==> list != [] && (units.None? || exists i :: 0 <= i < |list| && Collapsed(first, last, units.value, list[i]))
    ensures list == [] || softError ==> intervals == [Whole]
    ensures list != [] && !softError ==> UnitsOf(attribute).Some? && |intervals| == |list|
    ensures list != [] && !softError ==>
              forall i :: 0 <= i < |list| ==> intervals[i] == SliceOf(first, last, UnitsOf(attribute).value, list[i])
    ensures list != [] && UnitsOf(attribute) == Some(Percent) ==> intervals == Sliced(list, first, last)
    ensures forall i :: 0 <= i < |intervals| ==> intervals[i].Whole? || intervals[i].begin < intervals[i].end
  {
    if list == [] { return [Whole], false; }
    var units := UnitsOf(attribute);
    if units.None? { return [Whole], true; }
    intervals, softError := [], false;
    for k := 0 to |list|
      invariant |intervals| == k
      invariant forall i :: 0 <= i < k ==> !Collapsed(first, last, units.value, list[i])
      invariant forall i :: 0 <= i < k ==> intervals[i] == SliceOf(first, last, units.value, list[i])
    {
      var start, end := Bounds(list[k], units.value, first, last);
      if start >= end {
        assert Collapsed(first, last, units.value, list[k]);
        return [Whole], true;
      }
      intervals := intervals + [Slice(start, if end == last then end + 1 else end)];
    }
  }

  method Bounds(p: ParseInterval, u: Units, first: int, last: int) returns (start: int, end: int)
    ensures start == Start(first, last, u, p.start) && end == End(first, last, u, p.end)
  {
    if u == Percent {
      start, end := PercentBounds(p, first, last);
    } else {
      var offset := Offset(u, p.start);
      start := first + offset;
      offset := Offset(u, p.end);
      end := first + offset;
    }
  }

  method PercentBounds(p: ParseInterval, first: int, last: int) returns (start: int, end: int)
    ensures start == Start(first, last, Percent, p.start) && end == End(first, last, Percent, p.end)
  {
    start, end := first + Portion(last - first, Value(p.start)), last;
    if Value(p.end) != 100.0 { end := first + Portion(last - first, Value(p.end)); }
  }

  // ----- what a unit is worth ---------------------------------------------------------

  predicate IsLetter(c: char, lower: char, upper: char) { c == lower || c == upper }

  /** The units by name; without one, milliseconds. */
  lemma UnitNames(a: string)
    ensures UnitsOf(None) == Some(Ms)
    ensures UnitsOf(Some(a)) == Some(Percent) <==> a == "%"
    ensures UnitsOf(Some(a)) == Some(S) <==> |a| == 1 && IsLetter(a[0], 's', 'S')
    ensures UnitsOf(Some(a)) == Some(Ms) <==> |a| == 2 && IsLetter(a[0], 'm', 'M') && IsLetter(a[1], 's', 'S')
    ensures UnitsOf(Some(a)) == Some(Us) <==> |a| == 2 && IsLetter(a[0], 'u', 'U') && IsLetter(a[1], 's', 'S')
    ensures UnitsOf(Some(a)) == Some(Ns) <==> |a| == 2 && IsLetter(a[0], 'n', 'N') && IsLetter(a[1], 's', 'S')
  {
    var b := Lower(a);
    assert b == "%" <==> |b| == 1 && b[0] == '%';
    assert b == "s" <==> |b| == 1 && b[0] == 's';
    assert b == "ms" <==> |b| == 2 && b[0] == 'm' && b[1] == 's';
    assert b == "us" <==> |b| == 2 && b[0] == 'u' && b[1] == 's';
    assert b == "ns" <==> |b| == 2 && b[0] == 'n' && b[1] == 's';
    assert a == "%" <==> |a| == 1 && a[0] == '%';
  }

  /** Whole offsets: a second is a thousand milliseconds, and so on down to one nanosecond. */
  lemma UnitsAreWorth(first: int, last: int, n: int)
    ensures Start(first, last, Ns, Int(n)) == first + n
    ensures Start(first, last, Us, Int(n)) == Start(first, last, Ns, Int(1000 * n))
    ensures Start(first, last, Ms, Int(n)) == Start(first, last, Us, Int(1000 * n))
    ensures Start(first, last, S, Int(n)) == Start(first, last, Ms, Int(1000 * n))
  {
    TruncInt(n);
    TruncInt(1000 * n);
    TruncInt(1000000 * n);
    TruncInt(1000000000 * n);
  }

  /** Fractions are cut off toward the beginning: less than a nanosecond is lost. */
  lemma FractionsAreCut(first: int, last: int, x: real)
    requires x >= 0.0
    ensures Start(first, last, Ns, Double(x)) <= first + x.Floor < Start(first, last, Ns, Double(x)) + 1
    ensures Start(first, last, S, Double(x)) == Start(first, last, Ns, Double(x * 1000000000.0))
    ensures Start(first, last, Ms, Double(x)) == Start(first, last, Ns, Double(x * 1000000.0))
    ensures Start(first, last, Us, Double(x)) == Start(first, last, Ns, Double(x * 1000.0))
  {
  }

  /** Before the beginning they are cut off toward it too. */
  lemma NegativeOffsetsMirror(first: int, last: int, u: Units, x: real)
    requires u != Percent && x >= 0.0
    ensures first - Start(first, last, u, Double(-x)) == Start(first, last, u, Double(x)) - first
  {
  }

  /** A percentage is that part of the span, less than one nanosecond being lost; 100 is the end. */
  lemma PercentageIsPortion(first: int, last: int, n: Num)
    requires first <= last && Value(n) >= 0.0
    ensures var t := Start(first, last, Percent, n) - first;
      100.0 * t as real <= (last - first) as real * Value(n) < 100.0 * t as real + 100.0
    ensures Value(n) == 100.0 ==> End(first, last, Percent, n) == last == Start(first, last, Percent, n)
    ensures Value(n) != 100.0 ==> End(first, last, Percent, n) == Start(first, last, Percent, n)
  {
    var x := (last - first) as real * Value(n);
    NotNegative((last - first) as real, Value(n));
    if Value(n) == 100.0 { FullPortion(last - first); }
  }

  lemma NotNegative(x: real, y: real)
    requires x >= 0.0 && y >= 0.0
    ensures x * y >= 0.0
  {
  }

  // ----- slicing by percentages ---------------------------------------------------

  /** Percentages from 0 to 100, each slice starting where the one before it ends. */
  predicate Adjacent(list: seq<ParseInterval>) {
    && list != [] && Value(list[0].start) == 0.0 && Value(list[|list| - 1].end) == 100.0
    && forall i :: 0 <= i < |list| - 1 ==> Value(list[i].end) == Value(list[i + 1].start)
  }

  predicate Rising(list: seq<ParseInterval>) {
    forall i :: 0 <= i < |list| ==> list[i].start.Int? && list[i].end.Int? && list[i].start.n < list[i].end.n
  }

  predicate In(t: int, s: Slice) { s.Slice? && s.begin <= t < s.end }

  /** Every time from first to last is in exactly one of the slices, and no other time in any. */
  ghost predicate Tiles(slices: seq<Slice>, first: int, last: int) {
    && (forall t :: first <= t <= last ==> InOne(slices, t))
    && (forall t, i :: 0 <= i < |slices| && In(t, slices[i]) ==> first <= t <= last)
  }

  ghost predicate InOne(slices: seq<Slice>, t: int) {
    exists i :: 0 <= i < |slices| && In(t, slices[i]) && forall j :: 0 <= j < |slices| && In(t, slices[j]) ==> j == i
  }

  /** What the method returns for percentages. */
  function Sliced(list: seq<ParseInterval>, first: int, last: int): seq<Slice> {
    if exists i :: 0 <= i < |list| && Collapsed(first, last, Percent, list[i]) then [Whole]
    else seq(|list|, i requires 0 <= i < |list| => SliceOf(first, last, Percent, list[i]))
  }

  /** Where slice i begins; one past the last, where the last one ends. */
  function Mark(list: seq<ParseInterval>, first: int, last: int, i: nat): int
    requires list != []
  {
    if i < |list| then Start(first, last, Percent, list[i].start) else last
  }

  lemma Marks(list: seq<ParseInterval>, first: int, last: int, i: nat)
    requires Adjacent(list) && i < |list|
    ensures Mark(list, first, last, 0) == first
    ensures End(first, last, Percent, list[i].end) == Mark(list, first, last, i + 1)
  {
    if i + 1 < |list| && Value(list[i].end) == 100.0 {
      FullPortion(last - first);
    }
  }

  // Slices between strictly rising cuts, the last of them closed.

  predicate Rise(cuts: seq<int>) { |cuts| > 0 && forall i :: 0 <= i < |cuts| - 1 ==> cuts[i] < cuts[i + 1] }

  predicate Between(slices: seq<Slice>, cuts: seq<int>) {
    |cuts| == |slices| + 1 && Rise(cuts) &&
    forall i :: 0 <= i < |slices| ==>
      slices[i] == Slice(cuts[i], cuts[i + 1] + if i + 1 == |slices| then 1 else 0)
  }

  lemma {:induction false} CutsRise(cuts: seq<int>, i: nat, j: nat)
    requires Rise(cuts) && i <= j < |cuts|
    ensures cuts[i] + (j - i) <= cuts[j]
    decreases j
  {
    if i < j { CutsRise(cuts, i, j - 1); }
  }

  lemma {:induction false} FindCut(cuts: seq<int>, t: int, n: nat) returns (i: nat)
    requires n < |cuts| && cuts[0] <= t < cuts[n]
    ensures i < n && cuts[i] <= t < cuts[i + 1]
  {
    if cuts[n - 1] <= t { i := n - 1; } else { i := FindCut(cuts, t, n - 1); }
  }

  lemma CutsTile(slices: seq<Slice>, cuts: seq<int>)
    requires Between(slices, cuts) && slices != []
    ensures Tiles(slices, cuts[0], cuts[|slices|])
  {
    var n := |slices|;
    forall t | cuts[0] <= t <= cuts[n] ensures InOne(slices, t) {
      var i := n - 1;
      if t < cuts[n] { i := FindCut(cuts, t, n); } else { CutsRise(cuts, i, n); }
      assert In(t, slices[i]);
      forall j | 0 <= j < n && In(t, slices[j]) ensures j == i {
        assert slices[j] == Slice(cuts[j], cuts[j + 1] + if j + 1 == n then 1 else 0);
        if i < j { CutsRise(cuts, i + 1, j); }
        if j < i { CutsRise(cuts, j + 1, i); }
      }
    }
    forall t, i | 0 <= i < n && In(t, slices[i]) ensures cuts[0] <= t <= cuts[n] {
      CutsRise(cuts, 0, i);
      CutsRise(cuts, i + 1, n);
    }
  }

  lemma SlicesBetweenMarks(list: seq<ParseInterval>, first: int, last: int) returns (cuts: seq<int>)
    requires Adjacent(list)
    requires forall k :: 0 <= k < |list| ==> !Collapsed(first, last, Percent, list[k])
    ensures Between(Sliced(list, first, last), cuts) && cuts[0] == first && cuts[|list|] == last
  {
    cuts := seq(|list| + 1, i requires 0 <= i <= |list| => Mark(list, first, last, i));
    Marks(list, first, last, 0);
    forall i | 0 <= i < |list| ensures cuts[i] < cuts[i + 1] && End(first, last, Percent, list[i].end) == cuts[i + 1] {
      Marks(list, first, last, i);
      assert !Collapsed(first, last, Percent, list[i]);
    }
    forall i | 0 <= i < |list| ensures cuts[i] < last { CutsRise(cuts, i, |list|); }
  }

  /** Adjacent percentages cut the experiment into slices that hold every time exactly once,
      precisely when no slice collapses; otherwise the result is the whole of time. */
  lemma PercentagesTileIff(list: seq<ParseInterval>, first: int, last: int)
    requires Adjacent(list) && first <= last
    ensures Tiles(Sliced(list, first, last), first, last) <==>
              forall i :: 0 <= i < |list| ==> !Collapsed(first, last, Percent, list[i])
    ensures !Tiles(Sliced(list, first, last), first, last) ==> Sliced(list, first, last) == [Whole]
  {
    var slices := Sliced(list, first, last);
    if forall i :: 0 <= i < |list| ==> !Collapsed(first, last, Percent, list[i]) {
      var cuts := SlicesBetweenMarks(list, first, last);
      CutsTile(slices, cuts);
    } else {
      assert slices == [Whole];
      assert !InOne(slices, first);
    }
  }

  lemma PortionRises(span: int, a: int, b: int)
    requires span >= 100 && 0 <= a < b
    ensures Portion(span, a as real) < Portion(span, b as real)
  {
    var x, y := span as real * a as real / 100.0, span as real * b as real / 100.0;
    assert span as real * (b - a) as real >= 100.0 by { Product(span, b - a); }
    assert y >= x + 1.0;
    assert 0.0 <= x;
  }

  lemma Product(span: int, d: int)
    requires span >= 100 && d >= 1
    ensures span as real * d as real >= 100.0
  {
  }

  lemma {:induction false} StartsAreNotNegative(list: seq<ParseInterval>, i: nat)
    requires Adjacent(list) && Rising(list) && i < |list|
    ensures 0 <= list[i].start.n
  {
    if i > 0 {
      StartsAreNotNegative(list, i - 1);
      assert Value(list[i - 1].end) == Value(list[i].start);
    }
  }

  /** A span of at least one hundred is cut by every list of adjacent rising whole percentages,
      and a smaller one is not: 0, 1, 100 collapses. */
  lemma HundredIsExact(first: int, last: int)
    requires first <= last
    ensures last - first >= 100 <==>
              forall list :: Adjacent(list) && Rising(list) ==> Tiles(Sliced(list, first, last), first, last)
  {
    if last - first >= 100 {
      forall list | Adjacent(list) && Rising(list) ensures Tiles(Sliced(list, first, last), first, last) {
        RisingDoNotCollapse(list, first, last);
        PercentagesTileIff(list, first, last);
      }
    } else {
      var list := [ParseInterval(Int(0), Int(1)), ParseInterval(Int(1), Int(100))];
      assert Adjacent(list) && Rising(list);
      assert Collapsed(first, last, Percent, list[0]);
      PercentagesTileIff(list, first, last);
    }
  }

  lemma RisingDoNotCollapse(list: seq<ParseInterval>, first: int, last: int)
    requires last - first >= 100 && Adjacent(list) && Rising(list)
    ensures forall i :: 0 <= i < |list| ==> !Collapsed(first, last, Percent, list[i])
  {
    forall i | 0 <= i < |list| ensures !Collapsed(first, last, Percent, list[i]) {
      StartsAreNotNegative(list, i);
      PortionRises(last - first, list[i].start.n, list[i].end.n);
      if Value(list[i].end) == 100.0 { FullPortion(last - first); }
    }
  }

  lemma FullPortion(span: int)
    ensures Portion(span, 100.0) == span
  {
    assert span as real * 100.0 / 100.0 == span as real;
    TruncInt(span);
  }
}
