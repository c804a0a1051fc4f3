/** The code that wraps and prints column headers (CommandObject.cxx). */
module HeaderPrint {
  import opened HeaderWrap
  import opened HeaderRows

  /** Break_At. */
  method FindBreak(s: string, start: nat, width: nat) returns (at: int)
    requires start <= |s|
    ensures at + 1 == NextScan(s, start, width)
  {
    var last := |s| - 1;
    ghost var first := SkipBlanks(s, start);
    var seg := start;
    while seg <= last && s[seg] == BLANK
      invariant start <= seg <= |s| && SkipBlanks(s, seg) == first
    {
      seg := seg + 1;
    }
    ghost var fit := LastFit(s, start, seg, width);
    var end := start;
    while end <= last
      invariant start <= end <= |s| && LastFit(s, end, seg, width) == fit
      decreases |s| - end
    {
      var next := WordEnd(s, end + 1);
      if next - seg > width {
        end := TrimLoop(s, end, seg);
        return if seg == end then start + width else end;
      }
      end := next;
    }
    return last;
  }

  /** Break_At's search for the next blank. */
  method WordEnd(s: string, from: nat) returns (next: nat)
    requires from <= |s|
    ensures next == NextBlank(s, from)
  {
    next := from;
    while next < |s| && s[next] != BLANK
      invariant next <= |s| && NextBlank(s, next) == NextBlank(s, from)
    {
      next := next + 1;
    }
  }

  /** Break_At's walk back over trailing blanks. */
  method TrimLoop(s: string, fit: nat, seg: nat) returns (end: nat)
    requires fit < |s|
    ensures end == TrimBlanks(s, fit, seg)
  {
    end := fit;
    while end > seg && s[end] == BLANK
      invariant end <= fit && TrimBlanks(s, end, seg) == TrimBlanks(s, fit, seg)
    {
      end := end - 1;
    }
  }

  /** Count_Partitions: one for text that fits, otherwise the number of slices that cut it up. */
  method CountPartitions(s: string, width: nat) returns (count: nat)
    ensures count == Partitions(s, width)
    ensures |s| <= width ==> count == 1
    ensures |s| > width ==> count == |CountSlices(s, 0, width)|
  {
    CountIsNumberOfSlices(s, 0, width);
    if |s| <= width { return 1; }
    ghost var total := CountFrom(s, 0, width);
    count := 0;
    var start := 0;
    while start < |s|
      invariant start <= |s| && count + CountFrom(s, start, width) == total
      decreases |s| - start
    {
      var at := FindBreak(s, start, width);
      start := at + 1;
      count := count + 1;
    }
  }

  /** What Print_Header sends on: the headers as given, the rewritten rows, or nothing because it
      would index an empty row vector. */
  datatype Printed = AsGiven | Rewritten(rows: seq<seq<string>>) | OutOfRange

  /** The row count of the first pass over the first n headers. */
  function MaxBreaks(headers: seq<string>, widths: seq<nat>, n: nat): (m: nat)
    requires n <= |headers| && n <= |widths|
    ensures m == 0 <==> forall c :: 0 <= c < n ==> headers[c] == ""
    ensures forall c :: 0 <= c < n && headers[c] != "" ==> Partitions(headers[c], widths[c]) <= m
    ensures m != 0 ==> exists c :: 0 <= c < n && headers[c] != "" && Partitions(headers[c], widths[c]) == m
  {
    if n == 0 then 0
    else
      var m := MaxBreaks(headers, widths, n - 1);
      if headers[n - 1] == "" then m
      else
        PartitionsPositive(headers[n - 1], widths[n - 1]);
        var k := Partitions(headers[n - 1], widths[n - 1]);
        if m < k then k else m
  }

  lemma PartitionsPositive(s: string, width: nat)
    requires s != ""
    ensures Partitions(s, width) >= 1
  {
  }

  /** Row r of column c: the r-th fragment of a wrapped header, and the last header on row 0. */
  function Cell(headers: seq<string>, widths: seq<nat>, r: nat, c: nat): string
    requires c < |headers| && |headers| <= |widths| + 1
  {
    if c == |headers| - 1 then (if r == 0 then headers[c] else "")
    else
      var cuts := Cuts(headers[c], 0, widths[c]);
      if r < |cuts| then headers[c][cuts[r].0..cuts[r].1] else ""
  }

  function Row(headers: seq<string>, widths: seq<nat>, r: nat, n: nat): seq<string>
    requires n <= |headers| <= |widths| + 1
  {
    seq(n, c requires 0 <= c < n => Cell(headers, widths, r, c))
  }

  lemma RowGrows(headers: seq<string>, widths: seq<nat>, r: nat, i: nat)
    requires i < |headers| <= |widths| + 1
    ensures Row(headers, widths, r, i + 1) == Row(headers, widths, r, i) + [Cell(headers, widths, r, i)]
  {
  }

  /** Print_Header's first pass, over every header but the last. */
  method FirstPass(headers: seq<string>, widths: seq<nat>) returns (maxBreaks: nat)
    requires 0 < |headers| <= |widths| + 1
    ensures maxBreaks == MaxBreaks(headers, widths, |headers| - 1)
  {
    maxBreaks := 0;
    for i := 0 to |headers| - 1
      invariant maxBreaks == MaxBreaks(headers, widths, i)
    {
      if headers[i] != "" {
        var k := CountPartitions(headers[i], widths[i]);
        if maxBreaks < k { maxBreaks := k; }
      }
    }
  }

  /** Print_Header's second pass: one entry on every row for every header. */
  method SecondPass(headers: seq<string>, widths: seq<nat>, maxBreaks: nat) returns (rows: seq<seq<string>>)
    requires 0 < |headers| <= |widths| + 1
    requires 0 < maxBreaks == MaxBreaks(headers, widths, |headers| - 1)
    ensures |rows| == maxBreaks
    ensures forall r :: 0 <= r < maxBreaks ==> rows[r] == Row(headers, widths, r, |headers|)
  {
    rows := seq(maxBreaks, r => []);
    for i := 0 to |headers| - 1
      invariant |rows| == maxBreaks
      invariant forall r :: 0 <= r < maxBreaks ==> rows[r] == Row(headers, widths, r, i)
    {
      rows := AddColumn(headers[i], widths[i], rows);
      forall r | 0 <= r < maxBreaks ensures rows[r] == Row(headers, widths, r, i + 1) {
        RowGrows(headers, widths, r, i);
      }
    }
    rows := AddLastColumn(headers[|headers| - 1], rows);
    forall r | 0 <= r < maxBreaks ensures rows[r] == Row(headers, widths, r, |headers|) {
      RowGrows(headers, widths, r, |headers| - 1);
    }
  }

  /** Print_Header without its output stream.  No row index can be out of range once some header
      other than the last is not empty. */
  method PrintHeader(headers: seq<string>, widths: seq<nat>) returns (out: Printed)
    requires |headers| <= |widths| + 1
    ensures out.OutOfRange? <==> forall c :: 0 <= c < |headers| - 1 ==> headers[c] == ""
    ensures out.AsGiven? <==> |headers| > 0 && MaxBreaks(headers, widths, |headers| - 1) == 1
    ensures out.Rewritten? ==>
      && |headers| > 0 && |out.rows| == MaxBreaks(headers, widths, |headers| - 1)
      && forall r :: 0 <= r < |out.rows| ==> out.rows[r] == Row(headers, widths, r, |headers|)
    ensures out.Rewritten? ==> Shows(out.rows, headers, widths)
    ensures out.Rewritten? && AllAgree(headers, widths) ==> SomeCell(out.rows[|out.rows| - 1])
  {
    if headers == [] { return OutOfRange; }
    var maxBreaks := FirstPass(headers, widths);
    if maxBreaks == 1 { return AsGiven; }
    if maxBreaks == 0 { return OutOfRange; }
    var rows := SecondPass(headers, widths, maxBreaks);
    RowsShow(headers, widths, rows);
    if AllAgree(headers, widths) { LastRowIsNotBlank(headers, widths, rows); }
    return Rewritten(rows);
  }

  /** The rows are those of the second pass. */
  ghost predicate AreRows(headers: seq<string>, widths: seq<nat>, rows: seq<seq<string>>)
    requires |headers| <= |widths| + 1
  {
    forall r :: 0 <= r < |rows| ==> rows[r] == Row(headers, widths, r, |headers|)
  }

  lemma ColumnShows(headers: seq<string>, widths: seq<nat>, rows: seq<seq<string>>, c: nat)
    requires c < |headers| - 1 <= |widths| && AreRows(headers, widths, rows)
    requires |Cuts(headers[c], 0, widths[c])| <= |rows|
    ensures ShowsColumn(rows, c, headers[c], widths[c])
  {
    FragmentsShow(rows, c, headers[c], widths[c]);
  }

  lemma LastColumnShows(headers: seq<string>, widths: seq<nat>, rows: seq<seq<string>>)
    requires 0 < |headers| <= |widths| + 1 && AreRows(headers, widths, rows)
    ensures Rectangular(rows, |headers|) && ShowsLast(rows, headers[|headers| - 1])
  {
    forall r | 0 <= r < |rows|
      ensures |rows[r]| == |headers| && rows[r][|headers| - 1] == if r == 0 then headers[|headers| - 1] else ""
    {
      assert Row(headers, widths, r, |headers|)[|headers| - 1] == Cell(headers, widths, r, |headers| - 1);
    }
  }

  lemma ColumnsShow(headers: seq<string>, widths: seq<nat>, rows: seq<seq<string>>)
    requires 0 < |headers| <= |widths| + 1 && |rows| == MaxBreaks(headers, widths, |headers| - 1) > 0
    requires AreRows(headers, widths, rows) && Rectangular(rows, |headers|)
    ensures forall c :: 0 <= c < |headers| - 1 ==> ShowsColumn(rows, c, headers[c], widths[c])
  {
    forall c | 0 <= c < |headers| - 1 ensures ShowsColumn(rows, c, headers[c], widths[c]) {
      SecondPassFits(headers[c], widths[c]);
      ColumnShows(headers, widths, rows, c);
    }
  }

  lemma RowsShow(headers: seq<string>, widths: seq<nat>, rows: seq<seq<string>>)
    requires 0 < |headers| <= |widths| + 1 && |rows| == MaxBreaks(headers, widths, |headers| - 1) > 0
    requires AreRows(headers, widths, rows)
    ensures Shows(rows, headers, widths)
  {
    LastColumnShows(headers, widths, rows);
    ColumnsShow(headers, widths, rows);
  }

  /** The headers that are wrapped end in no blank, and no forced word follows skipped blanks. */
  ghost predicate AllAgree(headers: seq<string>, widths: seq<nat>)
    requires |headers| <= |widths| + 1
  {
    forall c :: 0 <= c < |headers| - 1 && headers[c] != "" ==>
      headers[c][|headers[c]| - 1] != BLANK && Unforced(headers[c], 0, widths[c])
  }

  predicate SomeCell(row: seq<string>) { exists c :: 0 <= c < |row| && row[c] != "" }

  lemma LastCellIsShown(headers: seq<string>, widths: seq<nat>, rows: seq<seq<string>>, c: nat)
    requires c < |headers| - 1 <= |widths| && AreRows(headers, widths, rows)
    requires headers[c] != "" && headers[c][|headers[c]| - 1] != BLANK && |Cuts(headers[c], 0, widths[c])| == |rows|
    ensures rows != [] && SomeCell(rows[|rows| - 1])
  {
    LastCutIsNotEmpty(headers[c], 0, widths[c]);
    assert rows[|rows| - 1][c] == Cell(headers, widths, |rows| - 1, c);
  }

  /** Then no row is printed in vain. */
  lemma LastRowIsNotBlank(headers: seq<string>, widths: seq<nat>, rows: seq<seq<string>>)
    requires 0 < |headers| <= |widths| + 1 && |rows| == MaxBreaks(headers, widths, |headers| - 1) > 0
    requires AreRows(headers, widths, rows) && AllAgree(headers, widths)
    ensures SomeCell(rows[|rows| - 1])
  {
    var c :| 0 <= c < |headers| - 1 && headers[c] != "" && Partitions(headers[c], widths[c]) == |rows|;
    PassesAgree(headers[c], widths[c]);
    LastCellIsShown(headers, widths, rows, c);
  }

  /** The slice on row r of a column, "" past its last fragment. */
  ghost function Piece(s: string, cuts: seq<(nat, nat)>, r: nat): string
    requires forall i :: 0 <= i < |cuts| ==> cuts[i].0 <= cuts[i].1 <= |s|
  {
    if r < |cuts| then s[cuts[r].0..cuts[r].1] else ""
  }

  /** Print_Header's scan for one fragment: over leading blanks, then to the break. */
  method ScanFragment(s: string, start: nat, width: nat) returns (from: nat, to: nat)
    requires start < |s|
    ensures from == SkipBlanks(s, start) && to == NextScan(s, from, width)
  {
    ghost var first := SkipBlanks(s, start);
    from := start;
    while from < |s| && s[from] == BLANK
      invariant start <= from <= |s| && SkipBlanks(s, from) == first
    {
      from := from + 1;
    }
    var at := FindBreak(s, from, width);
    to := at + 1;
  }

  method NextFragment(s: string, start: nat, width: nat) returns (from: nat, to: nat)
    requires start < |s|
    ensures from <= to <= |s| && start < to
    ensures Cuts(s, start, width) == [(from, to)] + Cuts(s, to, width)
  {
    from, to := ScanFragment(s, start, width);
    CutsStep(s, start, width);
  }

  lemma CutsStep(s: string, start: nat, width: nat)
    requires start < |s|
    ensures var from := SkipBlanks(s, start);
      var to := NextScan(s, from, width);
      start < to && Cuts(s, start, width) == [(from, to)] + Cuts(s, to, width)
  {
  }

  /** The right-most header goes on the first row only. */
  method AddLastColumn(last: string, given: seq<seq<string>>) returns (rows: seq<seq<string>>)
    requires given != []
    ensures |rows| == |given|
    ensures forall r :: 0 <= r < |rows| ==> rows[r] == given[r] + [if r == 0 then last else ""]
  {
    rows := given[0 := given[0] + [last]];
    var r := 1;
    while r < |given|
      invariant 1 <= r <= |given| == |rows|
      invariant forall j :: 0 <= j < r ==> rows[j] == given[j] + [if j == 0 then last else ""]
      invariant forall j :: r <= j < |given| ==> rows[j] == given[j]
    {
      rows := rows[r := rows[r] + [""]];
      r := r + 1;
    }
  }

  /** The first n rows have received their piece of the column, the others have not. */
  ghost predicate Filled(rows: seq<seq<string>>, given: seq<seq<string>>, s: string, cuts: seq<(nat, nat)>, n: nat)
    requires forall i :: 0 <= i < |cuts| ==> cuts[i].0 <= cuts[i].1 <= |s|
  {
    && |rows| == |given|
    && (forall r :: 0 <= r < n && r < |rows| ==> rows[r] == given[r] + [Piece(s, cuts, r)])
    && (forall r :: n <= r < |rows| ==> rows[r] == given[r])
  }

  lemma FillOne(rows: seq<seq<string>>, given: seq<seq<string>>, s: string, cuts: seq<(nat, nat)>, n: nat)
    requires forall i :: 0 <= i < |cuts| ==> cuts[i].0 <= cuts[i].1 <= |s|
    requires Filled(rows, given, s, cuts, n) && n < |rows|
    ensures Filled(rows[n := rows[n] + [Piece(s, cuts, n)]], given, s, cuts, n + 1)
  {
  }

  /** One header of the second pass: a fragment on each row it needs, "" on the others. */
  method AddColumn(s: string, width: nat, given: seq<seq<string>>) returns (rows: seq<seq<string>>)
    requires s != "" ==> Partitions(s, width) <= |given|
    ensures Filled(rows, given, s, Cuts(s, 0, width), |given|)
  {
    SecondPassFits(s, width);
    ghost var cuts := Cuts(s, 0, width);
    ghost var left := cuts;
    rows := given;
    var nextH := 0;
    var start := 0;
    while start < |s|
      invariant start <= |s| && nextH <= |cuts| && Filled(rows, given, s, cuts, nextH)
      invariant left == Cuts(s, start, width) && left == cuts[nextH..]
      decreases |s| - start
    {
      var from, to := NextFragment(s, start, width);
      assert left[0] == cuts[nextH] == (from, to);
      FillOne(rows, given, s, cuts, nextH);
      rows := rows[nextH := rows[nextH] + [s[from..to]]];
      left := left[1..];
      nextH := nextH + 1;
      start := to;
    }
    while nextH < |rows|
      invariant |cuts| <= nextH && Filled(rows, given, s, cuts, nextH)
    {
      FillOne(rows, given, s, cuts, nextH);
      rows := rows[nextH := rows[nextH] + [""]];
      nextH := nextH + 1;
    }
  }
}
