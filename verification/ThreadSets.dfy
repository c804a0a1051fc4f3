/** Thread descriptions: their order, and their compression to ranges (SS_ThreadInfo.cxx). */
module ThreadSets {

  datatype ThreadInfo = ThreadInfo(host: string, pid: int, tid: int, rank: int)

  /** Inclusive ranges of one field's values. */
  type Ranges = seq<(int, int)>

  datatype RangeInfo = RangeInfo(host: string, pids: Ranges, tids: Ranges, ranks: Ranges)

  // ----- operator< -----------------------------------------------------------

  /** std::string's operator<. */
  predicate StringLess(a: string, b: string) {
    b != "" && (a == "" || a[0] < b[0] || (a[0] == b[0] && StringLess(a[1..], b[1..])))
  }

  predicate Less(a: ThreadInfo, b: ThreadInfo) {
    if a.rank != b.rank then a.rank < b.rank
    else if a.pid != b.pid then a.pid < b.pid
    else if a.tid != b.tid then a.tid < b.tid
    else StringLess(a.host, b.host)
  }

  lemma {:induction false} StringLessTotal(a: string, b: string)
    ensures (a == b && !StringLess(a, b) && !StringLess(b, a)) ||
            (a != b && StringLess(a, b) && !StringLess(b, a)) ||
            (a != b && !StringLess(a, b) && StringLess(b, a))
  {
    if a != "" && b != "" && a[0] == b[0] {
      StringLessTotal(a[1..], b[1..]);
      assert a == [a[0]] + a[1..] && b == [b[0]] + b[1..];
    }
  }

  lemma {:induction false} StringLessTransitive(a: string, b: string, c: string)
    requires StringLess(a, b) && StringLess(b, c)
    ensures StringLess(a, c)
  {
    if a != "" && a[0] == b[0] == c[0] {
      StringLessTransitive(a[1..], b[1..], c[1..]);
    }
  }

  /** operator< is a strict total order: exactly one of a < b, a == b and b < a. */
  lemma LessTotal(a: ThreadInfo, b: ThreadInfo)
    ensures !(Less(a, b) && Less(b, a)) && (a == b <==> !Less(a, b) && !Less(b, a))
  {
    StringLessTotal(a.host, b.host);
  }

  lemma LessTransitive(a: ThreadInfo, b: ThreadInfo, c: ThreadInfo)
    requires Less(a, b) && Less(b, c)
    ensures Less(a, c)
  {
    if a.rank == b.rank == c.rank && a.pid == b.pid == c.pid && a.tid == b.tid == c.tid {
      StringLessTransitive(a.host, b.host, c.host);
    }
  }

  // ----- std::sort --------------------------------------------------------------

  ghost predicate IsSorted(xs: seq<ThreadInfo>) {
    forall i, j :: 0 <= i < j < |xs| ==> !Less(xs[j], xs[i])
  }

  function Insert(x: ThreadInfo, xs: seq<ThreadInfo>): seq<ThreadInfo> {
    if xs == [] || !Less(xs[0], x) then [x] + xs else [xs[0]] + Insert(x, xs[1..])
  }

  /** The effect of std::sort with operator<. */
  function Sorted(xs: seq<ThreadInfo>): seq<ThreadInfo> {
    if xs == [] then [] else Insert(xs[0], Sorted(xs[1..]))
  }

  lemma {:induction false} InsertSorts(x: ThreadInfo, xs: seq<ThreadInfo>)
    requires IsSorted(xs)
    ensures IsSorted(Insert(x, xs)) && multiset(Insert(x, xs)) == multiset(xs) + multiset{x}
  {
    if xs != [] {
      if !Less(xs[0], x) {
        forall j | 0 <= j < |xs| ensures !Less(xs[j], x) {
          if Less(xs[j], x) { HeadIsLeast(xs, j, x); }
        }
      } else {
        InsertSorts(x, xs[1..]);
        assert xs == [xs[0]] + xs[1..];
        HeadFirst(xs[0], x, xs[1..], Insert(x, xs[1..]));
      }
    }
  }

  /** Inserting something larger leaves the head in front. */
  lemma HeadFirst(head: ThreadInfo, x: ThreadInfo, xs: seq<ThreadInfo>, rest: seq<ThreadInfo>)
    requires IsSorted([head] + xs) && IsSorted(rest) && Less(head, x) && multiset(rest) == multiset(xs) + multiset{x}
    ensures IsSorted([head] + rest)
  {
    LessTotal(x, head);
    var all := [head] + xs;
    assert all[0] == head;
    forall y | y in rest ensures !Less(y, head) {
      assert y in multiset(rest);
      if y in xs {
        var j :| 0 <= j < |xs| && xs[j] == y;
        assert all[j + 1] == y;
      } else {
        assert y in multiset(xs) + multiset{x} && y == x;
      }
    }
  }

  /** In a sorted sequence whose head is not below x, nothing is. */
  lemma HeadIsLeast(xs: seq<ThreadInfo>, j: nat, x: ThreadInfo)
    requires IsSorted(xs) && j < |xs| && Less(xs[j], x)
    ensures Less(xs[0], x)
  {
    if j > 0 {
      LessTotal(xs[0], xs[j]);
      if Less(xs[0], xs[j]) { LessTransitive(xs[0], xs[j], x); }
    }
  }

  lemma {:induction false} SortedSorts(xs: seq<ThreadInfo>)
    ensures IsSorted(Sorted(xs)) && multiset(Sorted(xs)) == multiset(xs)
  {
    if xs != [] {
      SortedSorts(xs[1..]);
      InsertSorts(xs[0], Sorted(xs[1..]));
      assert xs == [xs[0]] + xs[1..];
    }
  }

  /** What is in order already stays as it is. */
  lemma {:induction false} SortedIsSame(xs: seq<ThreadInfo>)
    requires IsSorted(xs)
    ensures Sorted(xs) == xs
  {
    if xs != [] {
      SortedIsSame(xs[1..]);
      assert xs == [xs[0]] + xs[1..];
    }
  }

  // ----- what ranges stand for ------------------------------------------------------

  function Span(lo: int, hi: int): (r: seq<int>)
    ensures forall v :: v in r <==> lo <= v <= hi
    decreases hi - lo
  {
    if lo > hi then [] else Span(lo, hi - 1) + [hi]
  }

  function Values(rs: Ranges): seq<int> {
    if rs == [] then [] else Values(rs[..|rs| - 1]) + Span(rs[|rs| - 1].0, rs[|rs| - 1].1)
  }

  function OverTids(host: string, pid: int, tids: seq<int>, rank: int): seq<ThreadInfo> {
    if tids == [] then []
    else OverTids(host, pid, tids[..|tids| - 1], rank) + [ThreadInfo(host, pid, tids[|tids| - 1], rank)]
  }

  function OverPids(host: string, pids: seq<int>, tids: seq<int>, rank: int): seq<ThreadInfo> {
    if pids == [] then []
    else OverPids(host, pids[..|pids| - 1], tids, rank) + OverTids(host, pids[|pids| - 1], tids, rank)
  }

  function OverRanks(host: string, pids: seq<int>, tids: seq<int>, ranks: seq<int>): seq<ThreadInfo> {
    if ranks == [] then []
    else OverRanks(host, pids, tids, ranks[..|ranks| - 1]) + OverPids(host, pids, tids, ranks[|ranks| - 1])
  }

  /** The threads an entry describes: every combination of its ranges' values, rank first. */
  function Members(e: RangeInfo): seq<ThreadInfo> {
    OverRanks(e.host, Values(e.pids), Values(e.tids), Values(e.ranks))
  }

  function AllMembers(out: seq<RangeInfo>): seq<ThreadInfo> {
    if out == [] then [] else AllMembers(out[..|out| - 1]) + Members(out[|out| - 1])
  }

  // ----- Compress_ThreadInfo as a function ---------------------------------------------

  /** The one field that is merged. */
  datatype Mode = MergeRanks | MergeTids | MergePids | MergeNothing

  function Count(xs: seq<ThreadInfo>, has: ThreadInfo -> bool): nat {
    if xs == [] then 0 else Count(xs[..|xs| - 1], has) + if has(xs[|xs| - 1]) then 1 else 0
  }

  const HasHost := (x: ThreadInfo) => x.host != ""
  const HasPid := (x: ThreadInfo) => x.pid != 0
  const HasTid := (x: ThreadInfo) => x.tid != 0
  const HasRank := (x: ThreadInfo) => x.rank >= 0

  function ModeOf(xs: seq<ThreadInfo>): Mode {
    if Count(xs, HasRank) > 1 then MergeRanks
    else if Count(xs, HasTid) > 1 then MergeTids
    else if Count(xs, HasPid) > 1 then MergePids
    else MergeNothing
  }

  /** current_host, end_pid, end_thread, end_rank, and where currentTRI points. */
  datatype Scan = Scan(out: seq<RangeInfo>, cur: nat, last: ThreadInfo)

  function Single(x: ThreadInfo): RangeInfo {
    RangeInfo(x.host, [(x.pid, x.pid)], [(x.tid, x.tid)], [(x.rank, x.rank)])
  }

  predicate StartsEntry(m: Mode, haveHosts: bool, last: ThreadInfo, x: ThreadInfo) {
    || (haveHosts && x.host != last.host)
    || (m != MergePids && x.pid != last.pid)
    || (m != MergeTids && x.tid != last.tid)
    || (m != MergeRanks && x.rank != last.rank)
  }

  /** Extend the last range by its successor, or add a new range. */
  function AddValue(rs: Ranges, end: int, v: int): (r: Ranges)
    ensures rs != [] ==> r != []
  {
    if v == end + 1 && rs != [] then rs[|rs| - 1 := (rs[|rs| - 1].0, v)] else rs + [(v, v)]
  }

  /** The current entry and the end values after x joins the current entry. */
  function Grow(m: Mode, e: RangeInfo, last: ThreadInfo, x: ThreadInfo): (RangeInfo, ThreadInfo) {
    match m
    case MergeRanks => (e.(ranks := AddValue(e.ranks, last.rank, x.rank)), last.(rank := x.rank))
    case MergeTids => (e.(tids := AddValue(e.tids, last.tid, x.tid)), last.(tid := x.tid))
    case MergePids => (e.(pids := AddValue(e.pids, last.pid, x.pid)), last.(pid := x.pid))
    case MergeNothing => (e, last)
  }

  function ScanOne(m: Mode, haveHosts: bool, st: Scan, x: ThreadInfo): (r: Scan)
    requires st.cur < |st.out|
    ensures r.cur < |r.out|
  {
    if StartsEntry(m, haveHosts, st.last, x) then Scan(st.out + [Single(x)], |st.out|, x)
    else
      var (e, last) := Grow(m, st.out[st.cur], st.last, x);
      Scan(st.out[st.cur := e], st.cur, last)
  }

  /** The scan: the first input starts an entry, the rest follow one by one. */
  function ScanAll(m: Mode, haveHosts: bool, xs: seq<ThreadInfo>): (r: Scan)
    requires xs != []
    ensures r.cur < |r.out|
  {
    if |xs| == 1 then Scan([Single(xs[0])], 0, xs[0])
    else ScanOne(m, haveHosts, ScanAll(m, haveHosts, xs[..|xs| - 1]), xs[|xs| - 1])
  }

  /** Compress_ThreadInfo of a sorted input into an empty Out. */
  function Compressed(xs: seq<ThreadInfo>): seq<RangeInfo> {
    if xs == [] then [] else ScanAll(ModeOf(xs), Count(xs, HasHost) > 1, xs).out
  }

  // ----- nothing lost, added or repeated ---------------------------------------------------

  ghost predicate Ends(rs: Ranges, v: int) { rs != [] && rs[|rs| - 1].1 == v && rs[|rs| - 1].0 <= v }

  /** The merged field of e ends in the value of x, its other fields are the values of x alone. */
  ghost predicate Entry(m: Mode, e: RangeInfo, x: ThreadInfo) {
    && e.host == x.host
    && (if m == MergePids then Ends(e.pids, x.pid) else e.pids == [(x.pid, x.pid)])
    && (if m == MergeTids then Ends(e.tids, x.tid) else e.tids == [(x.tid, x.tid)])
    && (if m == MergeRanks then Ends(e.ranks, x.rank) else e.ranks == [(x.rank, x.rank)])
  }

  ghost predicate AtLast(m: Mode, st: Scan) {
    st.cur + 1 == |st.out| && Entry(m, st.out[st.cur], st.last)
  }

  lemma ValuesSingle(v: int)
    ensures Values([(v, v)]) == [v]
  {
    assert Span(v, v) == Span(v, v - 1) + [v];
    assert [(v, v)][..0] == [];
  }

  lemma TidsSnoc(host: string, pid: int, tids: seq<int>, tid: int, rank: int)
    ensures OverTids(host, pid, tids + [tid], rank) == OverTids(host, pid, tids, rank) + [ThreadInfo(host, pid, tid, rank)]
  {
    assert (tids + [tid])[..|tids|] == tids;
  }

  lemma PidsSnoc(host: string, pids: seq<int>, pid: int, tids: seq<int>, rank: int)
    ensures OverPids(host, pids + [pid], tids, rank) == OverPids(host, pids, tids, rank) + OverTids(host, pid, tids, rank)
  {
    assert (pids + [pid])[..|pids|] == pids;
  }

  lemma RanksSnoc(host: string, pids: seq<int>, tids: seq<int>, ranks: seq<int>, rank: int)
    ensures OverRanks(host, pids, tids, ranks + [rank]) == OverRanks(host, pids, tids, ranks) + OverPids(host, pids, tids, rank)
  {
    assert (ranks + [rank])[..|ranks|] == ranks;
  }

  /** A single value of each of the inner fields contributes one thread per outer value. */
  lemma InnerSingles(x: ThreadInfo, pids: seq<int>, tids: seq<int>)
    ensures OverRanks(x.host, pids, tids, [x.rank]) == OverPids(x.host, pids, tids, x.rank)
    ensures OverPids(x.host, [x.pid], tids, x.rank) == OverTids(x.host, x.pid, tids, x.rank)
    ensures OverTids(x.host, x.pid, [x.tid], x.rank) == [x]
  {
    assert [] + [x.rank] == [x.rank] && [] + [x.pid] == [x.pid] && [] + [x.tid] == [x.tid];
    RanksSnoc(x.host, pids, tids, [], x.rank);
    PidsSnoc(x.host, [], x.pid, tids, x.rank);
    TidsSnoc(x.host, x.pid, [], x.tid, x.rank);
  }

  lemma MembersSingle(x: ThreadInfo)
    ensures Members(Single(x)) == [x]
  {
    ValuesSingle(x.pid);
    ValuesSingle(x.tid);
    ValuesSingle(x.rank);
    InnerSingles(x, [x.pid], [x.tid]);
  }

  lemma AddValueAppends(rs: Ranges, end: int, v: int)
    requires Ends(rs, end)
    ensures Ends(AddValue(rs, end, v), v) && Values(AddValue(rs, end, v)) == Values(rs) + [v]
  {
    var n := |rs| - 1;
    if v == end + 1 {
      var r := rs[n := (rs[n].0, v)];
      assert r[..n] == rs[..n];
      assert Span(rs[n].0, v) == Span(rs[n].0, end) + [v];
    } else {
      assert (rs + [(v, v)])[..|rs|] == rs;
      ValuesSingle(v);
      assert Span(v, v) == Span(v, v - 1) + [v];
    }
  }

  /** e becomes e' when x, which agrees with last on all but the merged field, joins it. */
  ghost predicate Joins(m: Mode, e: RangeInfo, last: ThreadInfo, x: ThreadInfo, e': RangeInfo) {
    Grow(m, e, last, x) == (e', x) && Entry(m, e', x) && Members(e') == Members(e) + if m == MergeNothing then [] else [x]
  }

  lemma RanksJoin(e: RangeInfo, last: ThreadInfo, x: ThreadInfo)
    requires Entry(MergeRanks, e, last) && !StartsEntry(MergeRanks, true, last, x)
    ensures Joins(MergeRanks, e, last, x, Grow(MergeRanks, e, last, x).0)
  {
    ValuesSingle(x.pid);
    ValuesSingle(x.tid);
    AddValueAppends(e.ranks, last.rank, x.rank);
    GrowRanks(x, Values(e.ranks));
  }

  lemma TidsJoin(e: RangeInfo, last: ThreadInfo, x: ThreadInfo)
    requires Entry(MergeTids, e, last) && !StartsEntry(MergeTids, true, last, x)
    ensures Joins(MergeTids, e, last, x, Grow(MergeTids, e, last, x).0)
  {
    ValuesSingle(x.pid);
    ValuesSingle(x.rank);
    AddValueAppends(e.tids, last.tid, x.tid);
    GrowTids(x, Values(e.tids));
  }

  lemma PidsJoin(e: RangeInfo, last: ThreadInfo, x: ThreadInfo)
    requires Entry(MergePids, e, last) && !StartsEntry(MergePids, true, last, x)
    ensures Joins(MergePids, e, last, x, Grow(MergePids, e, last, x).0)
  {
    ValuesSingle(x.tid);
    ValuesSingle(x.rank);
    AddValueAppends(e.pids, last.pid, x.pid);
    GrowPids(x, Values(e.pids));
  }

  lemma NothingJoins(e: RangeInfo, last: ThreadInfo, x: ThreadInfo)
    requires Entry(MergeNothing, e, last) && !StartsEntry(MergeNothing, true, last, x)
    ensures Joins(MergeNothing, e, last, x, Grow(MergeNothing, e, last, x).0)
  {
    assert Members(e) + [] == Members(e);
  }

  /** Adding a value to the one merged field adds one thread at the end. */
  lemma GrowAppends(m: Mode, e: RangeInfo, last: ThreadInfo, x: ThreadInfo)
    requires Entry(m, e, last) && !StartsEntry(m, true, last, x)
    ensures Joins(m, e, last, x, Grow(m, e, last, x).0)
  {
    match m
    case MergeRanks => RanksJoin(e, last, x);
    case MergeTids => TidsJoin(e, last, x);
    case MergePids => PidsJoin(e, last, x);
    case MergeNothing => NothingJoins(e, last, x);
  }

  lemma GrowRanks(x: ThreadInfo, ranks: seq<int>)
    ensures OverRanks(x.host, [x.pid], [x.tid], ranks + [x.rank]) == OverRanks(x.host, [x.pid], [x.tid], ranks) + [x]
  {
    RanksSnoc(x.host, [x.pid], [x.tid], ranks, x.rank);
    InnerSingles(x, [x.pid], [x.tid]);
  }

  lemma GrowPids(x: ThreadInfo, pids: seq<int>)
    ensures OverRanks(x.host, pids + [x.pid], [x.tid], [x.rank]) == OverRanks(x.host, pids, [x.tid], [x.rank]) + [x]
  {
    PidsSnoc(x.host, pids, x.pid, [x.tid], x.rank);
    InnerSingles(x, pids + [x.pid], [x.tid]);
    InnerSingles(x, pids, [x.tid]);
  }

  lemma GrowTids(x: ThreadInfo, tids: seq<int>)
    ensures OverRanks(x.host, [x.pid], tids + [x.tid], [x.rank]) == OverRanks(x.host, [x.pid], tids, [x.rank]) + [x]
  {
    TidsSnoc(x.host, x.pid, tids, x.tid, x.rank);
    InnerSingles(x, [x.pid], tids + [x.tid]);
    InnerSingles(x, [x.pid], tids);
  }

  lemma AllMembersSnoc(out: seq<RangeInfo>, e: RangeInfo)
    ensures AllMembers(out + [e]) == AllMembers(out) + Members(e)
  {
    assert (out + [e])[..|out|] == out;
  }

  /** What the scan's ranges list is what they listed before, and then xs. */
  ghost predicate Adds(m: Mode, st: Scan, x: ThreadInfo, st': Scan, xs: seq<ThreadInfo>) {
    AtLast(m, st') && st'.last == x && AllMembers(st'.out) == AllMembers(st.out) + xs
  }

  lemma StartAdds(m: Mode, st: Scan, x: ThreadInfo)
    requires AtLast(m, st) && StartsEntry(m, true, st.last, x)
    ensures Adds(m, st, x, ScanOne(m, true, st, x), [x])
  {
    AllMembersSnoc(st.out, Single(x));
    MembersSingle(x);
  }

  lemma LastReplaced(out: seq<RangeInfo>, e: RangeInfo, xs: seq<ThreadInfo>)
    requires out != [] && Members(e) == Members(out[|out| - 1]) + xs
    ensures AllMembers(out[|out| - 1 := e]) == AllMembers(out) + xs
  {
    var n := |out| - 1;
    assert out == out[..n] + [out[n]] && out[n := e] == out[..n] + [e];
    AllMembersSnoc(out[..n], out[n]);
    AllMembersSnoc(out[..n], e);
    assert AllMembers(out[..n]) + (Members(out[n]) + xs) == AllMembers(out[..n]) + Members(out[n]) + xs;
  }

  lemma GrowAdds(m: Mode, st: Scan, x: ThreadInfo)
    requires AtLast(m, st) && !StartsEntry(m, true, st.last, x)
    ensures Adds(m, st, x, ScanOne(m, true, st, x), if m == MergeNothing then [] else [x])
    ensures m == MergeNothing ==> x == st.last
  {
    var e := Grow(m, st.out[st.cur], st.last, x).0;
    GrowAppends(m, st.out[st.cur], st.last, x);
    LastReplaced(st.out, e, if m == MergeNothing then [] else [x]);
  }

  /** One input adds exactly itself, unless nothing is merged and it repeats the one before. */
  lemma ScanOneAdds(m: Mode, st: Scan, x: ThreadInfo)
    requires AtLast(m, st)
    ensures Adds(m, st, x, ScanOne(m, true, st, x), if m == MergeNothing && x == st.last then [] else [x])
  {
    if StartsEntry(m, true, st.last, x) {
      StartDiffers(m, st.last, x);
      StartAdds(m, st, x);
    } else {
      GrowAdds(m, st, x);
    }
  }

  lemma StartDiffers(m: Mode, last: ThreadInfo, x: ThreadInfo)
    requires StartsEntry(m, true, last, x)
    ensures x != last
  {
  }

  /** The inputs that get into the output: with nothing to merge, an input equal to the one
      before it is dropped. */
  ghost function Kept(m: Mode, xs: seq<ThreadInfo>): seq<ThreadInfo> {
    if |xs| <= 1 then xs
    else
      var n := |xs| - 1;
      Kept(m, xs[..n]) + (if m == MergeNothing && xs[n] == xs[n - 1] then [] else [xs[n]])
  }

  /** The scan has come to last, and its ranges list kept. */
  ghost predicate HasListed(m: Mode, st: Scan, last: ThreadInfo, kept: seq<ThreadInfo>) {
    AtLast(m, st) && st.last == last && AllMembers(st.out) == kept
  }

  lemma FirstIsListed(m: Mode, x: ThreadInfo)
    ensures HasListed(m, Scan([Single(x)], 0, x), x, [x])
  {
    AllMembersSnoc([], Single(x));
    MembersSingle(x);
    assert [] + [Single(x)] == [Single(x)];
  }

  lemma NextIsListed(m: Mode, st: Scan, last: ThreadInfo, kept: seq<ThreadInfo>, x: ThreadInfo)
    requires HasListed(m, st, last, kept)
    ensures HasListed(m, ScanOne(m, true, st, x), x, kept + if m == MergeNothing && x == last then [] else [x])
  {
    ScanOneAdds(m, st, x);
  }

  lemma KeptSnoc(m: Mode, xs: seq<ThreadInfo>)
    requires |xs| > 1
    ensures var n := |xs| - 1;
      Kept(m, xs) == Kept(m, xs[..n]) + if m == MergeNothing && xs[n] == xs[n - 1] then [] else [xs[n]]
  {
  }

  ghost predicate AllListed(m: Mode, xs: seq<ThreadInfo>)
    requires xs != []
  {
    HasListed(m, ScanAll(m, true, xs), xs[|xs| - 1], Kept(m, xs))
  }

  lemma OneListed(m: Mode, xs: seq<ThreadInfo>)
    requires |xs| == 1
    ensures AllListed(m, xs)
  {
    FirstIsListed(m, xs[0]);
    assert xs == [xs[0]];
  }

  lemma OneMoreListed(m: Mode, xs: seq<ThreadInfo>)
    requires |xs| > 1 && AllListed(m, xs[..|xs| - 1])
    ensures AllListed(m, xs)
  {
    var n := |xs| - 1;
    KeptSnoc(m, xs);
    NextIsListed(m, ScanAll(m, true, xs[..n]), xs[n - 1], Kept(m, xs[..n]), xs[n]);
  }

  /** The ranges of a scan list the kept inputs, and the last entry ends in the last input. */
  lemma {:induction false} ScanAllAdds(m: Mode, xs: seq<ThreadInfo>)
    requires xs != []
    ensures AllListed(m, xs)
  {
    if |xs| == 1 {
      OneListed(m, xs);
    } else {
      ScanAllAdds(m, xs[..|xs| - 1]);
      OneMoreListed(m, xs);
    }
  }

  ghost predicate Repeats(xs: seq<ThreadInfo>) {
    exists i :: 0 < i < |xs| && xs[i] == xs[i - 1]
  }

  lemma {:induction false} KeptIsAll(m: Mode, xs: seq<ThreadInfo>)
    ensures |Kept(m, xs)| <= |xs|
    ensures m == MergeNothing && Repeats(xs) ==> |Kept(m, xs)| < |xs|
    ensures !(m == MergeNothing && Repeats(xs)) ==> Kept(m, xs) == xs
  {
    if |xs| > 1 {
      var n := |xs| - 1;
      KeptIsAll(m, xs[..n]);
      RepeatsSnoc(xs);
      assert xs == xs[..n] + [xs[n]];
    }
  }

  lemma RepeatsSnoc(xs: seq<ThreadInfo>)
    requires |xs| > 1
    ensures Repeats(xs) <==> Repeats(xs[..|xs| - 1]) || xs[|xs| - 1] == xs[|xs| - 2]
  {
    var shorter := xs[..|xs| - 1];
    if Repeats(xs) {
      var i :| 0 < i < |xs| && xs[i] == xs[i - 1];
      assert i < |shorter| ==> shorter[i] == shorter[i - 1];
    }
    if Repeats(shorter) {
      var i :| 0 < i < |shorter| && shorter[i] == shorter[i - 1];
      assert xs[i] == xs[i - 1];
    }
  }

  lemma {:induction false} KeptKeepsMembers(m: Mode, xs: seq<ThreadInfo>, x: ThreadInfo)
    ensures x in Kept(m, xs) <==> x in xs
  {
    if |xs| > 1 {
      var n := |xs| - 1;
      KeptKeepsMembers(m, xs[..n], x);
      KeptKeepsMembers(m, xs[..n], xs[n - 1]);
      assert xs[..n][n - 1] == xs[n - 1];
      assert xs == xs[..n] + [xs[n]];
    }
  }

  ghost predicate AllHosts(xs: seq<ThreadInfo>) { forall i :: 0 <= i < |xs| ==> xs[i].host != "" }

  lemma {:induction false} CountEveryHost(xs: seq<ThreadInfo>)
    requires AllHosts(xs)
    ensures Count(xs, HasHost) == |xs|
  {
    if xs != [] { CountEveryHost(xs[..|xs| - 1]); }
  }

  lemma CompressedIsScan(xs: seq<ThreadInfo>)
    requires xs != [] && AllHosts(xs)
    ensures Compressed(xs) == ScanAll(ModeOf(xs), true, xs).out
  {
    CountEveryHost(xs);
    if |xs| == 1 { assert Compressed(xs) == [Single(xs[0])]; }
  }

  /** The ranges list the inputs in order, nothing lost, added or repeated, exactly unless no
      field is merged and some input repeats its predecessor; in every case they describe the
      same set of threads. */
  lemma CompressionIsExact(xs: seq<ThreadInfo>)
    requires AllHosts(xs)
    ensures AllMembers(Compressed(xs)) == xs <==> !(ModeOf(xs) == MergeNothing && Repeats(xs))
    ensures forall x :: x in AllMembers(Compressed(xs)) <==> x in xs
  {
    if xs != [] {
      CompressedIsScan(xs);
      ScanAllAdds(ModeOf(xs), xs);
      KeptIsAll(ModeOf(xs), xs);
      forall x ensures x in Kept(ModeOf(xs), xs) <==> x in xs {
        KeptKeepsMembers(ModeOf(xs), xs, x);
      }
    }
  }

  // ----- ranges are as long as they can be -----------------------------------------------------

  /** Between neighbouring ranges at least one value is missing. */
  ghost predicate Gapped(rs: Ranges) {
    && (forall i :: 0 <= i < |rs| ==> rs[i].0 <= rs[i].1)
    && (forall i :: 0 < i < |rs| ==> rs[i - 1].1 + 1 < rs[i].0)
  }

  ghost predicate EntryGapped(e: RangeInfo) { Gapped(e.pids) && Gapped(e.tids) && Gapped(e.ranks) }

  ghost predicate AllGapped(out: seq<RangeInfo>) { forall i :: 0 <= i < |out| ==> EntryGapped(out[i]) }

  lemma ScanOneGapped(m: Mode, st: Scan, x: ThreadInfo)
    requires AtLast(m, st) && Less(st.last, x)
    requires AllGapped(st.out)
    ensures AllGapped(ScanOne(m, true, st, x).out)
  {
    var out := ScanOne(m, true, st, x).out;
    if StartsEntry(m, true, st.last, x) {
      assert EntryGapped(Single(x));
    } else {
      LessTotal(st.last, x);
      assert EntryGapped(out[st.cur]);
    }
  }

  ghost predicate Increasing(xs: seq<ThreadInfo>) {
    forall i :: 0 < i < |xs| ==> Less(xs[i - 1], xs[i])
  }

  lemma {:induction false} ScanAllGapped(m: Mode, xs: seq<ThreadInfo>)
    requires xs != [] && Increasing(xs)
    ensures AllGapped(ScanAll(m, true, xs).out)
  {
    var n := |xs| - 1;
    if n > 0 {
      ScanAllGapped(m, xs[..n]);
      ScanAllAdds(m, xs[..n]);
      assert Less(xs[n - 1], xs[n]);
      ScanOneGapped(m, ScanAll(m, true, xs[..n]), xs[n]);
    }
  }

  /** For distinct inputs in order, no two neighbouring ranges of an entry could be merged. */
  lemma CompressionIsTight(xs: seq<ThreadInfo>)
    requires AllHosts(xs) && IsSorted(xs) && !Repeats(xs)
    ensures AllGapped(Compressed(xs))
  {
    if xs != [] {
      CompressedIsScan(xs);
      forall i | 0 < i < |xs| ensures Less(xs[i - 1], xs[i]) {
        LessTotal(xs[i - 1], xs[i]);
        assert !Less(xs[i], xs[i - 1]);
      }
      ScanAllGapped(ModeOf(xs), xs);
    }
  }

  // ----- the code --------------------------------------------------------------------------------

  /** Compress_ThreadInfo: sorts its input in place and returns the entries for it. */
  method CompressThreadInfo(a: array<ThreadInfo>) returns (out: seq<RangeInfo>)
    modifies a
    ensures a[..] == Sorted(old(a[..])) && out == Compressed(a[..])
  {
    out := [];
    if a.Length == 0 { return; }
    SortInPlace(a);
    var mergingRanks, mergingTids, mergingPids, haveHosts := ChooseField(a[..]);
    out := [Single(a[0])];
    var last, cur: nat := a[0], 0;
    ghost var xs := a[..];
    ghost var m := ModeOf(xs);
    assert xs[..1] == [a[0]];
    var i := 1;
    while i < a.Length
      invariant 1 <= i <= a.Length && a[..] == xs && cur < |out|
      invariant Scan(out, cur, last) == ScanAll(m, haveHosts, xs[..i])
    {
      ScanAllSnoc(m, haveHosts, xs, i);
      out, cur, last := ScanNext(out, cur, last, a[i], mergingRanks, mergingTids, mergingPids, haveHosts, m);
      i := i + 1;
    }
    assert xs[..i] == xs;
  }

  lemma ScanAllSnoc(m: Mode, haveHosts: bool, xs: seq<ThreadInfo>, i: nat)
    requires 0 < i < |xs|
    ensures ScanAll(m, haveHosts, xs[..i + 1]) == ScanOne(m, haveHosts, ScanAll(m, haveHosts, xs[..i]), xs[i])
  {
    assert xs[..i + 1][..i] == xs[..i];
  }

  /** One round of the loop: a new entry, or one more value in the merged field of the current one. */
  method ScanNext(given: seq<RangeInfo>, at: nat, end: ThreadInfo, next: ThreadInfo,
                  mergingRanks: bool, mergingTids: bool, mergingPids: bool, haveHosts: bool, ghost m: Mode)
    returns (out: seq<RangeInfo>, cur: nat, last: ThreadInfo)
    requires at < |given|
    requires (mergingRanks <==> m == MergeRanks) && (mergingTids <==> m == MergeTids) && (mergingPids <==> m == MergePids)
    ensures Scan(out, cur, last) == ScanOne(m, haveHosts, Scan(given, at, end), next)
  {
    out, cur, last := given, at, end;
    if (haveHosts && next.host != end.host) || (!mergingPids && next.pid != end.pid) ||
       (!mergingTids && next.tid != end.tid) || (!mergingRanks && next.rank != end.rank) {
      cur, last := |given|, next;
      out := given + [Single(next)];
    } else if mergingRanks {
      out := given[at := given[at].(ranks := AddValue(given[at].ranks, end.rank, next.rank))];
      last := end.(rank := next.rank);
    } else if mergingTids {
      out := given[at := given[at].(tids := AddValue(given[at].tids, end.tid, next.tid))];
      last := end.(tid := next.tid);
    } else if mergingPids {
      out := given[at := given[at].(pids := AddValue(given[at].pids, end.pid, next.pid))];
      last := end.(pid := next.pid);
    }
  }

  /** The effect of std::sort on the vector. */
  method SortInPlace(a: array<ThreadInfo>)
    modifies a
    ensures a[..] == Sorted(old(a[..]))
  {
    var sorted := Sorted(a[..]);
    SortedSorts(a[..]);
    assert |multiset(sorted)| == |multiset(a[..])|;
    forall i | 0 <= i < a.Length { a[i] := sorted[i]; }
  }

  /** The counting loop, and the choice of the one field to merge. */
  method ChooseField(xs: seq<ThreadInfo>) returns (ranks: bool, tids: bool, pids: bool, haveHosts: bool)
    ensures ranks <==> ModeOf(xs) == MergeRanks
    ensures tids <==> ModeOf(xs) == MergeTids
    ensures pids <==> ModeOf(xs) == MergePids
    ensures haveHosts <==> Count(xs, HasHost) > 1
  {
    var hostCount, pidCount, tidCount, rankCount := 0, 0, 0, 0;
    for i := 0 to |xs|
      invariant hostCount == Count(xs[..i], HasHost) && pidCount == Count(xs[..i], HasPid)
      invariant tidCount == Count(xs[..i], HasTid) && rankCount == Count(xs[..i], HasRank)
    {
      assert xs[..i + 1][..i] == xs[..i];
      if xs[i].host != "" { hostCount := hostCount + 1; }
      if xs[i].pid != 0 { pidCount := pidCount + 1; }
      if xs[i].tid != 0 { tidCount := tidCount + 1; }
      if xs[i].rank >= 0 { rankCount := rankCount + 1; }
    }
    assert xs[..|xs|] == xs;
    ranks := rankCount > 1;
    tids := !ranks && tidCount > 1;
    pids := !tids && !ranks && pidCount > 1;
    haveHosts := hostCount > 1;
  }
}
