/** How many rows the two passes of Print_Header need for a header (CommandObject.cxx), and what
    the rows show. */
module HeaderRows {
  import opened HeaderWrap

  // ----- what Count_Partitions counts ------------------------------------------------

  /** The slices of the counting loop: leading blanks belong to the slice they start. */
  function CountSlices(s: string, start: nat, width: nat): (slices: seq<(nat, nat)>)
    requires start <= |s|
    decreases |s| - start
  {
    if start == |s| then []
    else
      var to := NextScan(s, start, width);
      [(start, to)] + CountSlices(s, to, width)
  }

  /** Non-empty slices, each starting where the one before it ends, from start to end. */
  ghost predicate Consecutive(slices: seq<(nat, nat)>, start: nat, end: nat)
    decreases |slices|
  {
    if slices == [] then start == end
    else slices[0].0 == start < slices[0].1 && Consecutive(slices[1..], slices[0].1, end)
  }

  /** What is counted: text that fits as one, any other text by slices that cut it up completely. */
  lemma {:induction false} CountIsNumberOfSlices(s: string, start: nat, width: nat)
    requires start <= |s|
    ensures Consecutive(CountSlices(s, start, width), start, |s|)
    ensures |CountSlices(s, start, width)| == CountFrom(s, start, width)
    decreases |s| - start
  {
    if start < |s| {
      var to := NextScan(s, start, width);
      assert CountSlices(s, start, width)[1..] == CountSlices(s, to, width);
      CountIsNumberOfSlices(s, to, width);
    }
  }

  // ----- a slice that starts with blanks ------------------------------------------------

  lemma {:induction false} FitFromBlanks(s: string, start: nat, seg: nat, width: nat)
    requires start < seg < |s| && AllBlank(s, start, seg) && s[seg] != BLANK
    ensures LastFit(s, start, seg, width) ==
      if NextBlank(s, seg + 1) - seg > width then seg - 1 else LastFit(s, seg, seg, width)
    decreases seg - start
  {
    assert NextBlank(s, seg) == NextBlank(s, seg + 1);
    if start + 1 < seg {
      assert NextBlank(s, start + 1) == start + 1;
      FitFromBlanks(s, start + 1, seg, width);
    }
  }

  lemma BreakBeforeLongWord(s: string, start: nat, seg: nat, width: nat)
    requires start < seg < |s| && AllBlank(s, start, seg) && s[seg] != BLANK && SkipBlanks(s, start) == seg
    requires NextBlank(s, seg + 1) - seg > width
    ensures NextScan(s, start, width) == seg
  {
    FitFromBlanks(s, start, seg, width);
    assert TrimBlanks(s, seg - 1, seg) == seg - 1;
  }

  lemma BreakAtSameFit(s: string, start: nat, seg: nat, width: nat)
    requires start < seg < |s| && AllBlank(s, start, seg) && s[seg] != BLANK && SkipBlanks(s, start) == seg
    requires !Forced(s, seg, width)
    ensures NextScan(s, start, width) == NextScan(s, seg, width)
  {
    FitFromBlanks(s, start, seg, width);
    NotTrimmedAway(s, seg, width);
  }

  /** Where the break is not forced something is left after trimming. */
  lemma NotTrimmedAway(s: string, a: nat, width: nat)
    requires a < |s| && s[a] != BLANK && !Forced(s, a, width)
    ensures SkipBlanks(s, a) == a
    ensures var fit := LastFit(s, a, a, width); fit < |s| ==> TrimBlanks(s, fit, a) != a
  {
    FragmentShape(s, a, width);
  }

  /** From blanks the counting loop breaks where the printing loop does, unless the word behind them
      is forced: before a word that does not fit it stops and counts the blanks alone, and after a
      single character it counts the width from the blanks. */
  lemma BreakFromBlanks(s: string, start: nat, width: nat)
    requires start < |s| && s[start] == BLANK
    ensures NextScan(s, start, width) ==
      var seg := SkipBlanks(s, start);
      if seg == |s| then |s|
      else if NextBlank(s, seg + 1) - seg > width then seg
      else if Forced(s, seg, width) then start + width + 1
      else NextScan(s, seg, width)
  {
    var seg := SkipBlanks(s, start);
    if seg == |s| {
      FittingText(s, start, width);
    } else if NextBlank(s, seg + 1) - seg > width {
      BreakBeforeLongWord(s, start, seg, width);
    } else if Forced(s, seg, width) {
      BreakAfterSingle(s, start, seg, width);
    } else {
      BreakAtSameFit(s, start, seg, width);
    }
  }

  lemma BreakAfterSingle(s: string, start: nat, seg: nat, width: nat)
    requires start < seg < |s| && AllBlank(s, start, seg) && s[seg] != BLANK && SkipBlanks(s, start) == seg
    requires NextBlank(s, seg + 1) - seg <= width && Forced(s, seg, width)
    ensures NextScan(s, start, width) == start + width + 1
  {
    FitFromBlanks(s, start, seg, width);
    FitBeforeSuccessor(s, seg, width, LastFit(s, seg, seg, width));
  }

  /** A fragment whose break is not forced takes as many words as fit: one more would not. */
  lemma FragmentIsGreedy(s: string, a: nat, width: nat)
    requires a < |s| && s[a] != BLANK && !Forced(s, a, width) && NextScan(s, a, width) < |s|
    ensures NextBlank(s, SkipBlanks(s, NextScan(s, a, width))) - a > width
  {
    FragmentShape(s, a, width);
    var fit := LastFit(s, a, a, width);
    var to := NextScan(s, a, width);
    assert to <= fit && AllBlank(s, to, fit);
    BlankRunIsSkipped(s, to, fit);
  }

  lemma BlankRunIsSkipped(s: string, to: nat, fit: nat)
    requires to <= fit < |s| && AllBlank(s, to, fit) && s[fit] == BLANK
    ensures NextBlank(s, SkipBlanks(s, to)) >= NextBlank(s, fit + 1)
  {
    var n := SkipBlanks(s, to);
    assert n > fit;
    if n == fit + 1 {
    } else {
      assert s[fit + 1] == BLANK;
    }
  }

  // ----- when the two passes agree ------------------------------------------------------

  /** The printing loop from start on never skips blanks to a word whose break is forced. */
  predicate Unforced(s: string, start: nat, width: nat)
    requires start <= |s|
    decreases |s| - start
  {
    start == |s| ||
    (var from := SkipBlanks(s, start);
     (start < from < |s| ==> !Forced(s, from, width)) && Unforced(s, NextScan(s, from, width), width))
  }

  /** The first such word, if there is one, does not fit the width. */
  predicate LongAfterBlanks(s: string, start: nat, width: nat)
    requires start <= |s|
    decreases |s| - start
  {
    start < |s| &&
    (var from := SkipBlanks(s, start);
     if start < from < |s| && Forced(s, from, width) then NextBlank(s, from + 1) - from > width
     else LongAfterBlanks(s, NextScan(s, from, width), width))
  }

  lemma CutsFromWord(s: string, start: nat, width: nat)
    requires start < |s|
    ensures SkipBlanks(s, start) < |s| ==> Cuts(s, start, width) == Cuts(s, SkipBlanks(s, start), width)
  {
  }

  /** The two loops, at the same place, break at the same place. */
  lemma SameBreak(s: string, start: nat, width: nat)
    requires start < |s|
    requires var from := SkipBlanks(s, start); start < from < |s| ==> !Forced(s, from, width)
    ensures NextScan(s, start, width) == NextScan(s, SkipBlanks(s, start), width)
  {
    if start < SkipBlanks(s, start) { BreakFromBlanks(s, start, width); }
  }

  lemma BlanksAreCounted(s: string, start: nat, width: nat)
    requires start < |s|
    requires var from := SkipBlanks(s, start); start < from < |s| && NextBlank(s, from + 1) - from > width
    ensures CountFrom(s, start, width) > |Cuts(s, start, width)|
  {
    var from := SkipBlanks(s, start);
    BreakFromBlanks(s, start, width);
    CutsFromWord(s, start, width);
    CutsAtMostCount(s, from, from, width);
  }

  lemma BothStep(s: string, start: nat, width: nat)
    requires start < |s| && NextScan(s, start, width) == NextScan(s, SkipBlanks(s, start), width)
    ensures var to := NextScan(s, start, width);
      CountFrom(s, start, width) == 1 + CountFrom(s, to, width) &&
      |Cuts(s, start, width)| == 1 + |Cuts(s, to, width)|
  {
  }

  /** Without forced words behind blanks the passes make the same number of fragments. */
  lemma {:induction false} CountsAgree(s: string, start: nat, width: nat)
    requires start <= |s| && Unforced(s, start, width)
    ensures CountFrom(s, start, width) == |Cuts(s, start, width)|
    decreases |s| - start
  {
    if start < |s| {
      SameBreak(s, start, width);
      BothStep(s, start, width);
      CountsAgree(s, NextScan(s, start, width), width);
    }
  }

  /** If the first forced word behind blanks does not fit, the counting pass makes more. */
  lemma {:induction false} CountsDiffer(s: string, start: nat, width: nat)
    requires start <= |s| && LongAfterBlanks(s, start, width)
    ensures CountFrom(s, start, width) > |Cuts(s, start, width)|
    decreases |s| - start
  {
    var from := SkipBlanks(s, start);
    if start < from < |s| && Forced(s, from, width) {
      BlanksAreCounted(s, start, width);
    } else {
      SameBreak(s, start, width);
      BothStep(s, start, width);
      CountsDiffer(s, NextScan(s, start, width), width);
    }
  }

  /** For a header that is not empty the two passes agree if no forced word follows skipped blanks,
      and the first counts too many rows if the first such word does not fit. */
  lemma PassesAgree(s: string, width: nat)
    requires s != ""
    ensures Unforced(s, 0, width) ==> Partitions(s, width) == |Cuts(s, 0, width)|
    ensures |s| > width && LongAfterBlanks(s, 0, width) ==> Partitions(s, width) > |Cuts(s, 0, width)|
  {
    if Unforced(s, 0, width) { CountsAgree(s, 0, width); }
    if LongAfterBlanks(s, 0, width) { CountsDiffer(s, 0, width); }
    if |s| <= width { FittingText(s, SkipBlanks(s, 0), width); }
  }

  /** No word that follows a blank is forced: so it is in text without blanks. */
  predicate NoForcedAfterBlank(s: string, width: nat) {
    forall a :: 0 < a < |s| && s[a - 1] == BLANK && s[a] != BLANK ==> !Forced(s, a, width)
  }

  lemma {:induction false} NoneForcedIsUnforced(s: string, start: nat, width: nat)
    requires start <= |s| && NoForcedAfterBlank(s, width)
    ensures Unforced(s, start, width)
    decreases |s| - start
  {
    if start < |s| {
      var from := SkipBlanks(s, start);
      if start < from { assert s[from - 1] == BLANK; }
      NoneForcedIsUnforced(s, NextScan(s, from, width), width);
    }
  }

  /** Words that fit are not enough: here the passes differ by a row. */
  lemma FittingWordsCanDisagree()
    ensures Partitions(" x x", 2) == 2 && |Cuts(" x x", 0, 2)| == 1
  {
    var s := " x x";
    assert NextBlank(s, 2) == 2 && NextBlank(s, 3) == 4;
    assert NextScan(s, 0, 2) == 3 && NextScan(s, 3, 2) == 4;
    assert NextScan(s, 1, 2) == 4;
  }

  // ----- what the rows show ----------------------------------------------------------------

  function Concat(cells: seq<string>): string {
    if cells == [] then "" else cells[0] + Concat(cells[1..])
  }

  function Column(rows: seq<seq<string>>, c: nat): (cells: seq<string>)
    requires forall r :: 0 <= r < |rows| ==> c < |rows[r]|
    ensures |cells| == |rows| && forall r :: 0 <= r < |rows| ==> cells[r] == rows[r][c]
  {
    seq(|rows|, r requires 0 <= r < |rows| => rows[r][c])
  }

  /** Cells that show the fragments in order and then nothing show the joined fragments. */
  lemma {:induction false} CellsJoin(s: string, cuts: seq<(nat, nat)>, cells: seq<string>)
    requires forall i :: 0 <= i < |cuts| ==> cuts[i].0 <= cuts[i].1 <= |s|
    requires |cuts| <= |cells|
    requires forall r :: 0 <= r < |cells| ==> cells[r] == if r < |cuts| then s[cuts[r].0..cuts[r].1] else ""
    ensures Concat(cells) == Joined(s, cuts)
    decreases |cells|
  {
    if cells != [] {
      forall r | 0 <= r < |cells| - 1
        ensures cells[1..][r] == if r + 1 < |cuts| then s[cuts[r + 1].0..cuts[r + 1].1] else ""
      {
        assert cells[1..][r] == cells[r + 1];
      }
      CellsJoin(s, if cuts == [] then [] else cuts[1..], cells[1..]);
    }
  }

  lemma CutIsNarrow(s: string, start: nat, width: nat)
    requires start < |s|
    ensures NextScan(s, SkipBlanks(s, start), width) - SkipBlanks(s, start) <= width + 1
  {
    var from := SkipBlanks(s, start);
    if from < |s| { FragmentShape(s, from, width); }
  }

  lemma {:induction false} CutsAreNarrow(s: string, start: nat, width: nat, r: nat)
    requires start <= |s| && r < |Cuts(s, start, width)|
    ensures var cut := Cuts(s, start, width)[r]; cut.0 <= cut.1 <= |s| && cut.1 - cut.0 <= width + 1
    decreases |s| - start
  {
    CutIsNarrow(s, start, width);
    if r > 0 { CutsAreNarrow(s, NextScan(s, SkipBlanks(s, start), width), width, r - 1); }
  }

  ghost predicate Rectangular(rows: seq<seq<string>>, n: nat) { forall r :: 0 <= r < |rows| ==> |rows[r]| == n }

  /** In the rows each column shows its header's text, blanks aside, in cells at most one wider than
      the column; the last header stands on the first row alone. */
  ghost predicate Shows(rows: seq<seq<string>>, headers: seq<string>, widths: seq<nat>) {
    && headers != [] && |headers| <= |widths| + 1 && Rectangular(rows, |headers|)
    && (forall c :: 0 <= c < |headers| - 1 ==> ShowsColumn(rows, c, headers[c], widths[c]))
    && ShowsLast(rows, headers[|headers| - 1])
  }

  ghost predicate ShowsLast(rows: seq<seq<string>>, last: string) {
    forall r :: 0 <= r < |rows| ==> rows[r] != [] && rows[r][|rows[r]| - 1] == if r == 0 then last else ""
  }

  ghost predicate ShowsColumn(rows: seq<seq<string>>, c: nat, header: string, width: nat)
    requires forall r :: 0 <= r < |rows| ==> c < |rows[r]|
  {
    && NonBlanks(Concat(Column(rows, c))) == NonBlanks(header)
    && forall r :: 0 <= r < |rows| ==> |rows[r][c]| <= width + 1
  }

  /** cells show the fragments of s. */
  lemma FragmentsShow(rows: seq<seq<string>>, c: nat, s: string, width: nat)
    requires (forall r :: 0 <= r < |rows| ==> c < |rows[r]|) && |Cuts(s, 0, width)| <= |rows|
    requires forall r :: 0 <= r < |rows| ==>
      rows[r][c] == var cuts := Cuts(s, 0, width); if r < |cuts| then s[cuts[r].0..cuts[r].1] else ""
    ensures ShowsColumn(rows, c, s, width)
  {
    CellsJoin(s, Cuts(s, 0, width), Column(rows, c));
    WrappingKeepsContent(s, 0, width);
    assert s[0..] == s;
    forall r | 0 <= r < |rows| ensures |rows[r][c]| <= width + 1 {
      if r < |Cuts(s, 0, width)| { CutsAreNarrow(s, 0, width, r); }
    }
  }

  /** The last fragment of text that does not end in a blank is not empty. */
  lemma {:induction false} LastCutIsNotEmpty(s: string, start: nat, width: nat)
    requires start < |s| && s[|s| - 1] != BLANK
    ensures var cuts := Cuts(s, start, width); cuts != [] && cuts[|cuts| - 1].0 < cuts[|cuts| - 1].1
    decreases |s| - start
  {
    var from := SkipBlanks(s, start);
    var to := NextScan(s, from, width);
    assert from < |s|;
    if to < |s| { LastCutIsNotEmpty(s, to, width); }
  }
}
