/** Which threads Compress_ThreadInfo puts into one entry: the field that is merged, and that
    everything that agrees on the others is. */
module ThreadMerge {
  import opened ThreadSets

  // At least two inputs have the thing.

  ghost predicate TwoRanked(xs: seq<ThreadInfo>) { exists i, j :: 0 <= i < j < |xs| && xs[i].rank >= 0 && xs[j].rank >= 0 }

  ghost predicate TwoThreaded(xs: seq<ThreadInfo>) { exists i, j :: 0 <= i < j < |xs| && xs[i].tid != 0 && xs[j].tid != 0 }

  ghost predicate TwoPids(xs: seq<ThreadInfo>) { exists i, j :: 0 <= i < j < |xs| && xs[i].pid != 0 && xs[j].pid != 0 }

  ghost predicate TwoNamed(xs: seq<ThreadInfo>) { exists i, j :: 0 <= i < j < |xs| && xs[i].host != "" && xs[j].host != "" }

  ghost predicate Two(xs: seq<ThreadInfo>, has: ThreadInfo -> bool) {
    exists i, j :: 0 <= i < j < |xs| && has(xs[i]) && has(xs[j])
  }

  ghost predicate One(xs: seq<ThreadInfo>, has: ThreadInfo -> bool) { exists i :: 0 <= i < |xs| && has(xs[i]) }

  lemma OneSnoc(xs: seq<ThreadInfo>, has: ThreadInfo -> bool)
    requires xs != []
    ensures var n := |xs| - 1; One(xs, has) <==> One(xs[..n], has) || has(xs[n])
  {
    var n := |xs| - 1;
    if One(xs[..n], has) {
      var i :| 0 <= i < n && has(xs[..n][i]);
      assert has(xs[i]);
    }
    assert forall i :: 0 <= i < n ==> xs[..n][i] == xs[i];
  }

  lemma TwoSplits(xs: seq<ThreadInfo>, has: ThreadInfo -> bool)
    requires Two(xs, has)
    ensures var n := |xs| - 1; Two(xs[..n], has) || (One(xs[..n], has) && has(xs[n]))
  {
    var n := |xs| - 1;
    var i, j :| 0 <= i < j < |xs| && has(xs[i]) && has(xs[j]);
    assert has(xs[..n][i]);
    if j < n { assert has(xs[..n][j]); }
  }

  lemma TwoSnoc(xs: seq<ThreadInfo>, has: ThreadInfo -> bool)
    requires xs != []
    ensures var n := |xs| - 1; Two(xs, has) <==> Two(xs[..n], has) || (One(xs[..n], has) && has(xs[n]))
  {
    var n := |xs| - 1;
    if Two(xs[..n], has) {
      var i, j :| 0 <= i < j < n && has(xs[..n][i]) && has(xs[..n][j]);
      assert has(xs[i]) && has(xs[j]);
    } else if One(xs[..n], has) && has(xs[n]) {
      var i :| 0 <= i < n && has(xs[..n][i]);
      assert has(xs[i]);
    }
    if Two(xs, has) { TwoSplits(xs, has); }
  }

  lemma {:induction false} CountIsTwo(xs: seq<ThreadInfo>, has: ThreadInfo -> bool)
    ensures Count(xs, has) > 0 <==> One(xs, has)
    ensures Count(xs, has) > 1 <==> Two(xs, has)
  {
    if xs != [] {
      CountIsTwo(xs[..|xs| - 1], has);
      OneSnoc(xs, has);
      TwoSnoc(xs, has);
    }
  }

  /** Ranks are merged if two inputs have one, otherwise thread ids, otherwise process ids. */
  lemma MergedField(xs: seq<ThreadInfo>)
    ensures ModeOf(xs) == if TwoRanked(xs) then MergeRanks else if TwoThreaded(xs) then MergeTids
                          else if TwoPids(xs) then MergePids else MergeNothing
    ensures Count(xs, HasHost) > 1 <==> TwoNamed(xs)
  {
    CountIsTwo(xs, HasRank);
    CountIsTwo(xs, HasTid);
    CountIsTwo(xs, HasPid);
    CountIsTwo(xs, HasHost);
    TwoAre(xs);
  }

  lemma TwoAre(xs: seq<ThreadInfo>)
    ensures Two(xs, HasRank) <==> TwoRanked(xs)
    ensures Two(xs, HasTid) <==> TwoThreaded(xs)
    ensures Two(xs, HasPid) <==> TwoPids(xs)
    ensures Two(xs, HasHost) <==> TwoNamed(xs)
  {
    assert forall i :: 0 <= i < |xs| ==> HasRank(xs[i]) == (xs[i].rank >= 0) && HasTid(xs[i]) == (xs[i].tid != 0);
    assert forall i :: 0 <= i < |xs| ==> HasPid(xs[i]) == (xs[i].pid != 0) && HasHost(xs[i]) == (xs[i].host != "");
  }

  // ----- neighbouring entries could not have been one ------------------------------------

  /** Two entries that agree on everything but the field that is merged for xs; hosts count only if
      two inputs have one. */
  ghost predicate Mergeable(xs: seq<ThreadInfo>, e: RangeInfo, f: RangeInfo) {
    && (TwoNamed(xs) ==> e.host == f.host)
    && (if TwoRanked(xs) then e.pids == f.pids && e.tids == f.tids
        else if TwoThreaded(xs) then e.pids == f.pids && e.ranks == f.ranks
        else if TwoPids(xs) then e.tids == f.tids && e.ranks == f.ranks
        else e.pids == f.pids && e.tids == f.tids && e.ranks == f.ranks)
  }

  ghost predicate Apart(m: Mode, haveHosts: bool, e: RangeInfo, f: RangeInfo) {
    || (haveHosts && e.host != f.host) || (m != MergePids && e.pids != f.pids)
    || (m != MergeTids && e.tids != f.tids) || (m != MergeRanks && e.ranks != f.ranks)
  }

  ghost predicate NeighboursApart(m: Mode, haveHosts: bool, out: seq<RangeInfo>) {
    forall k :: 0 <= k < |out| - 1 ==> Apart(m, haveHosts, out[k], out[k + 1])
  }

  lemma ScanOneStaysAtLast(m: Mode, haveHosts: bool, st: Scan, x: ThreadInfo)
    requires AtLast(m, st)
    ensures AtLast(m, ScanOne(m, haveHosts, st, x))
  {
  }

  lemma ScanOneApart(m: Mode, haveHosts: bool, st: Scan, x: ThreadInfo)
    requires AtLast(m, st) && NeighboursApart(m, haveHosts, st.out)
    ensures NeighboursApart(m, haveHosts, ScanOne(m, haveHosts, st, x).out)
  {
  }

  lemma {:induction false} ScanAllApart(m: Mode, haveHosts: bool, xs: seq<ThreadInfo>)
    requires xs != []
    ensures var st := ScanAll(m, haveHosts, xs); AtLast(m, st) && NeighboursApart(m, haveHosts, st.out)
  {
    if |xs| > 1 {
      var n := |xs| - 1;
      ScanAllApart(m, haveHosts, xs[..n]);
      ScanOneStaysAtLast(m, haveHosts, ScanAll(m, haveHosts, xs[..n]), xs[n]);
      ScanOneApart(m, haveHosts, ScanAll(m, haveHosts, xs[..n]), xs[n]);
    }
  }

  /** Whatever the inputs, no two neighbouring entries could have been one. */
  lemma EntriesAreApart(xs: seq<ThreadInfo>)
    ensures var out := Compressed(xs); forall k :: 0 <= k < |out| - 1 ==> !Mergeable(xs, out[k], out[k + 1])
  {
    if xs != [] {
      MergedField(xs);
      ScanAllApart(ModeOf(xs), Count(xs, HasHost) > 1, xs);
    }
  }

  // ----- what agrees on the rest is one entry -----------------------------------------------

  function Field(m: Mode, x: ThreadInfo): int {
    match m
    case MergeRanks => x.rank
    case MergeTids => x.tid
    case MergePids => x.pid
    case MergeNothing => 0
  }

  function FieldRanges(m: Mode, e: RangeInfo): Ranges {
    match m
    case MergeRanks => e.ranks
    case MergeTids => e.tids
    case MergePids => e.pids
    case MergeNothing => []
  }

  /** x and y agree on everything but the field m, and on the host if it counts. */
  predicate AgreeBut(m: Mode, haveHosts: bool, x: ThreadInfo, y: ThreadInfo) {
    && (haveHosts ==> x.host == y.host) && (m != MergePids ==> x.pid == y.pid)
    && (m != MergeTids ==> x.tid == y.tid) && (m != MergeRanks ==> x.rank == y.rank)
  }

  function Fields(m: Mode, xs: seq<ThreadInfo>): (vs: seq<int>)
    ensures |vs| == |xs| && forall i :: 0 <= i < |xs| ==> vs[i] == Field(m, xs[i])
  {
    seq(|xs|, i requires 0 <= i < |xs| => Field(m, xs[i]))
  }

  /** One entry, which lists vs in the field m and one value, first's, in the others. */
  ghost predicate OneEntry(m: Mode, out: seq<RangeInfo>, first: ThreadInfo, vs: seq<int>) {
    && |out| == 1 && out[0].host == first.host
    && Values(FieldRanges(m, out[0])) == vs
    && (m != MergePids ==> out[0].pids == [(first.pid, first.pid)])
    && (m != MergeTids ==> out[0].tids == [(first.tid, first.tid)])
    && (m != MergeRanks ==> out[0].ranks == [(first.rank, first.rank)])
  }

  lemma JoinsOneEntry(m: Mode, haveHosts: bool, st: Scan, first: ThreadInfo, vs: seq<int>, x: ThreadInfo)
    requires m != MergeNothing && AtLast(m, st) && OneEntry(m, st.out, first, vs) && st.last.host == first.host
    requires AgreeBut(m, haveHosts, first, st.last) && AgreeBut(m, haveHosts, first, x)
    ensures var r := ScanOne(m, haveHosts, st, x);
      OneEntry(m, r.out, first, vs + [Field(m, x)]) && r.last.host == first.host && AgreeBut(m, haveHosts, first, r.last)
  {
    AddValueAppends(FieldRanges(m, st.out[0]), Field(m, st.last), Field(m, x));
  }

  /** The scan of xs has made one entry of them. */
  ghost predicate ScannedAsOne(m: Mode, haveHosts: bool, st: Scan, first: ThreadInfo, vs: seq<int>) {
    && AtLast(m, st) && OneEntry(m, st.out, first, vs)
    && st.last.host == first.host && AgreeBut(m, haveHosts, first, st.last)
  }

  lemma FirstIsOneEntry(m: Mode, haveHosts: bool, x: ThreadInfo)
    requires m != MergeNothing
    ensures ScannedAsOne(m, haveHosts, Scan([Single(x)], 0, x), x, [Field(m, x)])
  {
    ValuesSingle(Field(m, x));
  }

  lemma NextIsInEntry(m: Mode, haveHosts: bool, st: Scan, first: ThreadInfo, vs: seq<int>, x: ThreadInfo)
    requires m != MergeNothing && ScannedAsOne(m, haveHosts, st, first, vs) && AgreeBut(m, haveHosts, first, x)
    ensures ScannedAsOne(m, haveHosts, ScanOne(m, haveHosts, st, x), first, vs + [Field(m, x)])
  {
    ScanOneStaysAtLast(m, haveHosts, st, x);
    JoinsOneEntry(m, haveHosts, st, first, vs, x);
  }

  lemma FieldsSnoc(m: Mode, xs: seq<ThreadInfo>)
    requires xs != []
    ensures Fields(m, xs) == Fields(m, xs[..|xs| - 1]) + [Field(m, xs[|xs| - 1])]
  {
  }

  lemma {:induction false} AgreeingAreOneEntry(m: Mode, haveHosts: bool, xs: seq<ThreadInfo>)
    requires xs != [] && m != MergeNothing
    requires forall i :: 0 <= i < |xs| ==> AgreeBut(m, haveHosts, xs[0], xs[i])
    ensures ScannedAsOne(m, haveHosts, ScanAll(m, haveHosts, xs), xs[0], Fields(m, xs))
  {
    var n := |xs| - 1;
    FieldsSnoc(m, xs);
    if n == 0 {
      FirstIsOneEntry(m, haveHosts, xs[0]);
    } else {
      AgreeingAreOneEntry(m, haveHosts, xs[..n]);
      NextIsInEntry(m, haveHosts, ScanAll(m, haveHosts, xs[..n]), xs[0], Fields(m, xs[..n]), xs[n]);
    }
  }

  /** Hosts agree, or at most one input has any. */
  ghost predicate SameHost(xs: seq<ThreadInfo>) {
    TwoNamed(xs) ==> forall i :: 0 <= i < |xs| ==> xs[i].host == xs[0].host
  }

  /** The threads of one process, with ranks or without: one entry that lists exactly their thread
      ids, in order. */
  lemma {:induction false} ThreadsOfOneProcess(xs: seq<ThreadInfo>)
    requires !TwoRanked(xs) && TwoThreaded(xs) && SameHost(xs)
    requires forall i :: 0 <= i < |xs| ==> xs[i].pid == xs[0].pid && xs[i].rank == xs[0].rank
    ensures var out := Compressed(xs);
      && |out| == 1 && out[0].host == xs[0].host
      && out[0].pids == [(xs[0].pid, xs[0].pid)] && out[0].ranks == [(xs[0].rank, xs[0].rank)]
      && |Values(out[0].tids)| == |xs| && forall i :: 0 <= i < |xs| ==> Values(out[0].tids)[i] == xs[i].tid
  {
    MergedField(xs);
    AgreeingAreOneEntry(MergeTids, Count(xs, HasHost) > 1, xs);
  }

  /** Ranks that agree on the rest: one entry that lists exactly the ranks, in order, whatever thread
      and process ids there are. */
  lemma {:induction false} RanksOfOneThread(xs: seq<ThreadInfo>)
    requires TwoRanked(xs) && SameHost(xs)
    requires forall i :: 0 <= i < |xs| ==> xs[i].pid == xs[0].pid && xs[i].tid == xs[0].tid
    ensures var out := Compressed(xs);
      && |out| == 1 && out[0].host == xs[0].host
      && out[0].pids == [(xs[0].pid, xs[0].pid)] && out[0].tids == [(xs[0].tid, xs[0].tid)]
      && |Values(out[0].ranks)| == |xs| && forall i :: 0 <= i < |xs| ==> Values(out[0].ranks)[i] == xs[i].rank
  {
    MergedField(xs);
    AgreeingAreOneEntry(MergeRanks, Count(xs, HasHost) > 1, xs);
  }

  /** Processes without ranks and thread ids: one entry that lists exactly their ids, in order. */
  lemma {:induction false} PlainProcesses(xs: seq<ThreadInfo>)
    requires !TwoRanked(xs) && !TwoThreaded(xs) && TwoPids(xs) && SameHost(xs)
    requires forall i :: 0 <= i < |xs| ==> xs[i].tid == xs[0].tid && xs[i].rank == xs[0].rank
    ensures var out := Compressed(xs);
      && |out| == 1 && out[0].host == xs[0].host
      && out[0].tids == [(xs[0].tid, xs[0].tid)] && out[0].ranks == [(xs[0].rank, xs[0].rank)]
      && |Values(out[0].pids)| == |xs| && forall i :: 0 <= i < |xs| ==> Values(out[0].pids)[i] == xs[i].pid
  {
    MergedField(xs);
    AgreeingAreOneEntry(MergePids, Count(xs, HasHost) > 1, xs);
  }

  // ----- processes without thread ids -------------------------------------------------------

  function Singles(xs: seq<ThreadInfo>): (out: seq<RangeInfo>)
    ensures |out| == |xs| && forall i :: 0 <= i < |xs| ==> out[i] == Single(xs[i])
  {
    seq(|xs|, i requires 0 <= i < |xs| => Single(xs[i]))
  }

  ghost predicate ScannedApart(st: Scan, xs: seq<ThreadInfo>) {
    xs != [] && st == Scan(Singles(xs), |xs| - 1, xs[|xs| - 1])
  }

  lemma NextStaysApart(haveHosts: bool, st: Scan, xs: seq<ThreadInfo>)
    requires |xs| > 1 && ScannedApart(st, xs[..|xs| - 1]) && xs[|xs| - 2].pid != xs[|xs| - 1].pid
    ensures ScannedApart(ScanOne(MergeTids, haveHosts, st, xs[|xs| - 1]), xs)
  {
    assert Singles(xs) == Singles(xs[..|xs| - 1]) + [Single(xs[|xs| - 1])];
  }

  lemma {:induction false} ScansApart(haveHosts: bool, xs: seq<ThreadInfo>)
    requires xs != [] && forall i :: 0 < i < |xs| ==> xs[i - 1].pid != xs[i].pid
    ensures ScannedApart(ScanAll(MergeTids, haveHosts, xs), xs)
  {
    var n := |xs| - 1;
    if n == 0 {
      assert Singles(xs) == [Single(xs[0])];
    } else {
      ScansApart(haveHosts, xs[..n]);
      NextStaysApart(haveHosts, ScanAll(MergeTids, haveHosts, xs[..n]), xs);
    }
  }

  /** A missing thread id is described by -1, which counts as one: so process ids are not merged, and
      each process has an entry of its own. */
  lemma MissingIdsCount(xs: seq<ThreadInfo>)
    requires |xs| >= 2 && forall i :: 0 <= i < |xs| ==> xs[i].tid == -1 && xs[i].rank == -1
    requires forall i :: 0 < i < |xs| ==> xs[i - 1].pid != xs[i].pid
    ensures Compressed(xs) == Singles(xs)
  {
    MergedField(xs);
    assert xs[0].tid != 0 && xs[1].tid != 0 && TwoThreaded(xs);
    ScansApart(Count(xs, HasHost) > 1, xs);
  }
}
