/** Header word-wrap in CommandObject.cxx: where a column header is broken, how many rows the
    first pass counts, and that the second pass, which breaks the same text differently, never
    needs more. */
module HeaderWrap {

  const BLANK: char := ' '

  predicate IsBlank(s: string, i: int) { 0 <= i < |s| && s[i] == BLANK }

  // ----- specification of Break_At ------------------------------------------------

  /** The first position from i on that is not blank, or the end. */
  function SkipBlanks(s: string, i: nat): (r: nat)
    requires i <= |s|
    ensures i <= r <= |s| && (r < |s| ==> s[r] != BLANK)
    ensures forall j :: i <= j < r ==> s[j] == BLANK
    decreases |s| - i
  {
    if i < |s| && s[i] == BLANK then SkipBlanks(s, i + 1) else i
  }

  /** The first blank from i on, or the end. */
  function NextBlank(s: string, i: nat): (r: nat)
    requires i <= |s|
    ensures i <= r <= |s| && (r < |s| ==> s[r] == BLANK)
    ensures forall j :: i <= j < r ==> s[j] != BLANK
    decreases |s| - i
  {
    if i < |s| && s[i] != BLANK then NextBlank(s, i + 1) else i
  }

  /** The last break, stepping from one blank to the next, before text counted from seg
      overflows the width; the end of the text when nothing overflows. */
  function LastFit(s: string, end: nat, seg: nat, width: nat): (r: nat)
    requires end <= |s|
    ensures end <= r <= |s|
    ensures r == end || (r - seg <= width && (r < |s| ==> s[r] == BLANK))
    ensures r < |s| ==> NextBlank(s, r + 1) - seg > width
    decreases |s| - end
  {
    if end == |s| then end
    else
      var next := NextBlank(s, end + 1);
      if next - seg > width then end else LastFit(s, next, seg, width)
  }

  /** Back from end over blanks, but not past seg. */
  function TrimBlanks(s: string, end: nat, seg: nat): (r: nat)
    requires end < |s|
    ensures r <= end && (end <= seg ==> r == end) && (seg < end ==> seg <= r)
    ensures r <= seg || s[r] != BLANK
    ensures forall j :: r < j <= end ==> s[j] == BLANK
  {
    if end > seg && s[end] == BLANK then TrimBlanks(s, end - 1, seg) else end
  }

  /** Break_At: the last position of the fragment that starts at start (-1 for an empty text). */
  function BreakAt(s: string, start: nat, width: nat): int
    requires start <= |s|
  {
    var seg := SkipBlanks(s, start);
    var fit := LastFit(s, start, seg, width);
    if fit == |s| then |s| - 1
    else
      var end := TrimBlanks(s, fit, seg);
      if seg == end then start + width else end
  }

  /** Where scanning continues after the fragment that starts at start. */
  function NextScan(s: string, start: nat, width: nat): (r: nat)
    requires start <= |s|
    ensures start <= r <= |s| && (start < |s| ==> start < r)
  {
    BreakAt(s, start, width) + 1
  }

  /** Text that fits the width is never broken. */
  lemma FittingText(s: string, start: nat, width: nat)
    requires start <= |s| && |s| - SkipBlanks(s, start) <= width
    ensures NextScan(s, start, width) == |s|
  {
  }

  // ----- the two passes ---------------------------------------------------------------

  /** Count_Partitions' loop from start on: leading blanks are left to Break_At. */
  function CountFrom(s: string, start: nat, width: nat): nat
    requires start <= |s|
    decreases |s| - start
  {
    if start == |s| then 0 else 1 + CountFrom(s, NextScan(s, start, width), width)
  }

  function Partitions(s: string, width: nat): nat {
    if |s| <= width then 1 else CountFrom(s, 0, width)
  }

  /** Print_Header's loop from start on, as slices [from, to): blanks are skipped first. */
  function Cuts(s: string, start: nat, width: nat): (cuts: seq<(nat, nat)>)
    requires start <= |s|
    ensures forall i :: 0 <= i < |cuts| ==> start <= cuts[i].0 <= cuts[i].1 <= |s|
    decreases |s| - start
  {
    if start == |s| then []
    else
      var from := SkipBlanks(s, start);
      var to := NextScan(s, from, width);
      [(from, to)] + Cuts(s, to, width)
  }

  /** Every fitting word end up to which text is scanned is reached: x is a blank, or the end. */
  lemma FitReaches(s: string, start: nat, width: nat, x: nat)
    requires start < x <= |s| && !IsBlank(s, start) && (x < |s| ==> s[x] == BLANK) && x - start <= width
    ensures LastFit(s, start, start, width) >= x
  {
    var r := LastFit(s, start, start, width);
    if r < |s| { assert NextBlank(s, r + 1) > start + width; }
  }

  /** Scanning from a non-blank b gets past every non-blank y before a fitting x. */
  lemma ScanPasses(s: string, b: nat, width: nat, y: nat, x: nat)
    requires b <= y < x <= |s| && !IsBlank(s, b) && s[y] != BLANK
    requires (x < |s| ==> s[x] == BLANK) && x - b <= width
    ensures NextScan(s, b, width) > y
  {
    FitReaches(s, b, width, x);
  }

  /** From a later, non-blank position the next break is no earlier. */
  lemma NextScanMonotone(s: string, a: nat, b: nat, width: nat)
    requires a <= b <= |s| && !IsBlank(s, b)
    ensures NextScan(s, a, width) <= NextScan(s, b, width)
  {
    var seg := SkipBlanks(s, a);
    var fit := LastFit(s, a, seg, width);
    if b == |s| || a == b {
    } else if fit == |s| {
      FittingText(s, b, width);
    } else {
      var end := TrimBlanks(s, fit, seg);
      if end != seg {
        if b <= end { ScanPasses(s, b, width, end, fit); }
      } else {
        ForcedIsEarliest(s, a, b, width);
      }
    }
  }

  /** A first word that does not fit is cut at the width. */
  lemma LongWord(s: string, b: nat, width: nat)
    requires b < |s| && s[b] != BLANK && NextBlank(s, b + 1) - b > width
    ensures NextScan(s, b, width) == b + width + 1
  {
  }

  /** A forced break is no later than any break made from further on. */
  lemma ForcedIsEarliest(s: string, a: nat, b: nat, width: nat)
    requires a < b < |s| && s[b] != BLANK
    requires var seg := SkipBlanks(s, a);
      var fit := LastFit(s, a, seg, width); fit < |s| && TrimBlanks(s, fit, seg) == seg
    ensures a + width + 1 <= NextScan(s, b, width)
  {
    var seg := SkipBlanks(s, a);
    var fit := LastFit(s, a, seg, width);
    var next := NextBlank(s, fit + 1);
    assert next > seg + width && seg >= a;
    if fit < b < next {
      WithinWord(s, a, b, width, next);
    } else if b <= fit {
      ForcedAgain(s, b, width, fit, next);
    }
  }

  lemma WithinWord(s: string, a: nat, b: nat, width: nat, next: nat)
    requires a < b < next <= |s| && next - a > width && (next < |s| ==> s[next] == BLANK)
    requires forall j :: b <= j < next ==> s[j] != BLANK
    ensures a + width + 1 <= NextScan(s, b, width)
  {
    if next - b <= width {
      ScanPasses(s, b, width, next - 1, next);
    } else {
      LongWord(s, b, width);
    }
  }

  /** A break is forced where only blanks lie before what fits. */
  lemma BreakIsForced(s: string, b: nat, width: nat)
    requires b < |s| && s[b] != BLANK
    requires var fit := LastFit(s, b, b, width); fit < |s| && forall j :: b < j <= fit ==> s[j] == BLANK
    ensures NextScan(s, b, width) == b + width + 1
  {
    assert TrimBlanks(s, LastFit(s, b, b, width), b) == b;
  }

  /** Without the leading blanks the same break is forced again. */
  lemma ForcedAgain(s: string, b: nat, width: nat, fit: nat, next: nat)
    requires b < fit < next <= |s| && s[b] != BLANK && next - b > width
    requires forall j :: b < j <= fit ==> s[j] == BLANK
    requires forall j :: fit < j < next ==> s[j] != BLANK
    ensures b + width + 1 <= NextScan(s, b, width)
  {
    var fit' := LastFit(s, b, b, width);
    if fit' < |s| {
      assert fit' <= fit;
      BreakIsForced(s, b, width);
    }
  }

  /** Starting no earlier, the printing loop makes no more fragments than the counting loop. */
  lemma {:induction false} CutsAtMostCount(s: string, c: nat, p: nat, width: nat)
    requires c <= p <= |s|
    ensures |Cuts(s, p, width)| <= CountFrom(s, c, width)
    decreases |s| - p
  {
    if p < |s| {
      var from := SkipBlanks(s, p);
      NextScanMonotone(s, c, from, width);
      CutsAtMostCount(s, NextScan(s, c, width), NextScan(s, from, width), width);
    }
  }

  /** Print_Header's second pass never needs more rows than its first pass counted. */
  lemma SecondPassFits(s: string, width: nat)
    ensures |Cuts(s, 0, width)| <= Partitions(s, width)
  {
    CutsAtMostCount(s, 0, 0, width);
    if |s| <= width && s != "" {
      FittingText(s, SkipBlanks(s, 0), width);
    }
  }

  // ----- what a fragment looks like -----------------------------------------------------

  /** The end of the word after the one-character word at a, or the end of the text. */
  function SuccessorEnd(s: string, a: nat): (r: nat)
    requires a < |s|
    ensures a < r <= |s|
  {
    var next := SkipBlanks(s, a + 1);
    if next == |s| then |s| else NextBlank(s, next + 1)
  }

  /** The word at a does not fit, or it is a single character whose successor does not fit. */
  predicate Forced(s: string, a: nat, width: nat)
    requires a < |s|
  {
    NextBlank(s, a + 1) - a > width || (NextBlank(s, a + 1) == a + 1 && SuccessorEnd(s, a) - a > width)
  }

  /** A fragment that starts at a word is one longer than the width exactly when the break is
      forced; otherwise it fits, and ends at the end of a word. */
  lemma FragmentShape(s: string, a: nat, width: nat)
    requires a < |s| && s[a] != BLANK
    ensures var to := NextScan(s, a, width);
      && (Forced(s, a, width) ==> to - a == width + 1)
      && (!Forced(s, a, width) ==> to == |s| || (to - a <= width && s[to - 1] != BLANK && s[to] == BLANK))
      && (to - a <= width + 1)
      && (to - a == width + 1 <==> Forced(s, a, width))
  {
    if NextBlank(s, a + 1) - a > width {
      LongWord(s, a, width);
    } else if Forced(s, a, width) {
      SingleForced(s, a, width);
    } else {
      FirstWordFits(s, a, width);
    }
  }

  lemma SingleForced(s: string, a: nat, width: nat)
    requires a < |s| && s[a] != BLANK && NextBlank(s, a + 1) == a + 1 <= a + width
    requires SuccessorEnd(s, a) - a > width
    ensures NextScan(s, a, width) == a + width + 1
  {
    FitBeforeSuccessor(s, a, width, LastFit(s, a, a, width));
    BreakIsForced(s, a, width);
  }

  lemma FitBeforeSuccessor(s: string, a: nat, width: nat, fit: nat)
    requires a < |s| && a <= fit <= |s| && SuccessorEnd(s, a) - a > width
    requires fit == a || (fit - a <= width && (fit < |s| ==> s[fit] == BLANK))
    ensures fit < |s| && forall j :: a < j <= fit ==> s[j] == BLANK
  {
    var next, end := SkipBlanks(s, a + 1), SuccessorEnd(s, a);
    assert end > a + width && forall j :: next < j < end ==> s[j] != BLANK;
  }

  lemma FirstWordFits(s: string, a: nat, width: nat)
    requires a < |s| && s[a] != BLANK && !Forced(s, a, width)
    ensures var to := NextScan(s, a, width);
      to - a <= width && (to == |s| || (s[to - 1] != BLANK && s[to] == BLANK))
  {
    FitReaches(s, a, width, NextBlank(s, a + 1));
    if NextBlank(s, a + 1) == a + 1 {
      FitReaches(s, a, width, SuccessorEnd(s, a));
      if SuccessorEnd(s, a) < |s| { TrimmedFit(s, a, width, SkipBlanks(s, a + 1)); }
    } else {
      TrimmedFit(s, a, width, a + 1);
    }
  }

  /** A fit beyond a non-blank y is trimmed to the end of a word, which lies beyond a. */
  lemma TrimmedFit(s: string, a: nat, width: nat, y: nat)
    requires a < y < |s| && s[a] != BLANK && s[y] != BLANK && LastFit(s, a, a, width) > y
    ensures var to := NextScan(s, a, width);
      to == |s| || (to - a <= width && s[to - 1] != BLANK && s[to] == BLANK)
  {
    var fit := LastFit(s, a, a, width);
    if fit < |s| { assert TrimBlanks(s, fit, a) >= y; }
  }

  predicate AllBlank(s: string, from: nat, to: nat)
    requires from <= to <= |s|
  {
    forall j :: from <= j < to ==> s[j] == BLANK
  }

  /** The fragments are consecutive slices from start to the end of the text, with only blanks in
      the gaps; each starts at a word (or is empty, at the end), is at most one longer than the
      width, and exceeds it only where the break is forced. */
  ghost predicate Covers(s: string, start: nat, width: nat, cuts: seq<(nat, nat)>)
    requires start <= |s|
    decreases |cuts|
  {
    if cuts == [] then start == |s|
    else
      var (from, to) := cuts[0];
      && start <= from <= to <= |s| && AllBlank(s, start, from)
      && (from == to ==> to == |s|)
      && (from < to ==> s[from] != BLANK && to - from <= width + 1 &&
                        (to - from > width <==> Forced(s, from, width)))
      && Covers(s, to, width, cuts[1..])
  }

  lemma {:induction false} CutsCover(s: string, start: nat, width: nat)
    requires start <= |s|
    ensures Covers(s, start, width, Cuts(s, start, width))
    decreases |s| - start
  {
    if start < |s| {
      var from := SkipBlanks(s, start);
      if from < |s| { FragmentShape(s, from, width); }
      CutsCover(s, NextScan(s, from, width), width);
    }
  }

  function NonBlanks(s: string): string {
    if s == "" then "" else (if s[0] == BLANK then "" else [s[0]]) + NonBlanks(s[1..])
  }

  lemma {:induction false} NonBlanksConcat(a: string, b: string)
    ensures NonBlanks(a + b) == NonBlanks(a) + NonBlanks(b)
  {
    if a == "" {
      assert a + b == b;
    } else {
      assert (a + b)[1..] == a[1..] + b;
      NonBlanksConcat(a[1..], b);
    }
  }

  lemma {:induction false} NonBlanksOfBlanks(s: string)
    requires AllBlank(s, 0, |s|)
    ensures NonBlanks(s) == ""
  {
    if s != "" { NonBlanksOfBlanks(s[1..]); }
  }

  function Joined(s: string, cuts: seq<(nat, nat)>): string
    requires forall i :: 0 <= i < |cuts| ==> cuts[i].0 <= cuts[i].1 <= |s|
  {
    if cuts == [] then "" else s[cuts[0].0..cuts[0].1] + Joined(s, cuts[1..])
  }

  lemma SplitThree(s: string, a: nat, b: nat, c: nat)
    requires a <= b <= c <= |s|
    ensures s[a..] == s[a..b] + (s[b..c] + s[c..])
  {
  }

  /** Wrapping loses and adds nothing but blanks, and keeps the order of the characters. */
  lemma {:induction false} WrappingKeepsContent(s: string, start: nat, width: nat)
    requires start <= |s|
    ensures NonBlanks(Joined(s, Cuts(s, start, width))) == NonBlanks(s[start..])
    decreases |s| - start
  {
    if start < |s| {
      var from := SkipBlanks(s, start);
      var to := NextScan(s, from, width);
      WrappingKeepsContent(s, to, width);
      FragmentAndRest(s, start, from, to, Joined(s, Cuts(s, to, width)));
    }
  }

  /** Blanks, a fragment, and what has the characters of the rest. */
  lemma FragmentAndRest(s: string, start: nat, from: nat, to: nat, rest: string)
    requires start <= from <= to <= |s| && AllBlank(s, start, from) && NonBlanks(rest) == NonBlanks(s[to..])
    ensures NonBlanks(s[from..to] + rest) == NonBlanks(s[start..])
  {
    SplitThree(s, start, from, to);
    NonBlanksConcat(s[start..from], s[from..to] + s[to..]);
    NonBlanksOfBlanks(s[start..from]);
    NonBlanksConcat(s[from..to], s[to..]);
    NonBlanksConcat(s[from..to], rest);
  }
}
