/** Target lists: building one for a cluster of threads (SS_cvClusters) and selecting threads by
    one (Filter_ThreadGroup), and that the second undoes the first. */
module ThreadFilter {
  import opened Wrappers
  import opened ThreadSets
  import opened ThreadMerge

  /** A thread of an experiment; a serial process has no thread id and no MPI rank. */
  datatype Thread = Thread(host: string, pid: int, tid: Option<int>, rank: Option<int>)

  /** Build_ThreadInfo for one thread: -1 stands for an id it does not have. */
  function Info(t: Thread): ThreadInfo {
    ThreadInfo(t.host, t.pid, if t.tid.Some? then t.tid.value else -1, if t.rank.Some? then t.rank.value else -1)
  }

  /** parse_range_t holding numbers, or host names. */
  datatype NumRange = NumPoint(v: int) | NumSpan(lo: int, hi: int)
  datatype HostRange = HostPoint(name: string) | HostSpan(first: string, last: string)

  datatype Target = Target(hosts: seq<HostRange>, pids: seq<NumRange>, tids: seq<NumRange>, ranks: seq<NumRange>)

  // ----- within_range ----------------------------------------------------------

  predicate NumWithin(v: int, r: NumRange) {
    match r
    case NumPoint(x) => v == x
    case NumSpan(lo, hi) => lo <= v <= hi
  }

  /** canon is Experiment::getCanonicalName. */
  predicate HostWithin(s: string, r: HostRange, canon: string -> string) {
    match r
    case HostPoint(name) => s == canon(name)
    case HostSpan(first, last) => !StringLess(s, canon(first)) && !StringLess(canon(last), s)
  }

  // ----- Filter_ThreadGroup ---------------------------------------------------------

  ghost predicate NumSelected(v: int, rs: seq<NumRange>) {
    exists i :: 0 <= i < |rs| && NumWithin(v, rs[i])
  }

  ghost predicate HostSelected(s: string, rs: seq<HostRange>, canon: string -> string) {
    exists i :: 0 <= i < |rs| && HostWithin(s, rs[i], canon)
  }

  /** Each list a target gives must match, except that a thread without an id passes that list. */
  ghost predicate Matches(t: Thread, g: Target, canon: string -> string) {
    && (g.ranks != [] && t.rank.Some? ==> NumSelected(t.rank.value, g.ranks))
    && (g.tids != [] && t.tid.Some? ==> NumSelected(t.tid.value, g.tids))
    && (g.pids != [] ==> NumSelected(t.pid, g.pids))
    && (g.hosts != [] ==> HostSelected(t.host, g.hosts, canon))
  }

  ghost predicate Selected(t: Thread, targets: seq<Target>, canon: string -> string) {
    targets == [] || exists k :: 0 <= k < |targets| && Matches(t, targets[k], canon)
  }

  // ----- what users write: targets with few lists ------------------------------------------

  /** A target is as good as its four lists one by one, and an empty list asks for nothing. */
  lemma ListsAreIndependent(t: Thread, g: Target, canon: string -> string)
    ensures Matches(t, g, canon) <==>
      && Matches(t, Target(g.hosts, [], [], []), canon) && Matches(t, Target([], g.pids, [], []), canon)
      && Matches(t, Target([], [], g.tids, []), canon) && Matches(t, Target([], [], [], g.ranks), canon)
    ensures Matches(t, Target([], [], [], []), canon)
  {
  }

  /** With one list a thread is selected exactly if the list has an element for it, or if the thread
      has no such id. */
  lemma OneListSelects(t: Thread, hosts: seq<HostRange>, nums: seq<NumRange>, canon: string -> string)
    requires hosts != [] && nums != []
    ensures Selected(t, [Target(hosts, [], [], [])], canon) <==>
      exists i :: 0 <= i < |hosts| && HostWithin(t.host, hosts[i], canon)
    ensures Selected(t, [Target([], nums, [], [])], canon) <==>
      exists i :: 0 <= i < |nums| && NumWithin(t.pid, nums[i])
    ensures Selected(t, [Target([], [], nums, [])], canon) <==>
      t.tid.None? || exists i :: 0 <= i < |nums| && NumWithin(t.tid.value, nums[i])
    ensures Selected(t, [Target([], [], [], nums)], canon) <==>
      t.rank.None? || exists i :: 0 <= i < |nums| && NumWithin(t.rank.value, nums[i])
  {
    OneTarget(t, Target(hosts, [], [], []), canon);
    OneTarget(t, Target([], nums, [], []), canon);
    OneTarget(t, Target([], [], nums, []), canon);
    OneTarget(t, Target([], [], [], nums), canon);
  }

  lemma OneTarget(t: Thread, g: Target, canon: string -> string)
    ensures Selected(t, [g], canon) <==> Matches(t, g, canon)
  {
    assert [g][0] == g;
  }

  /** The threads a target with a single list keeps. */
  ghost predicate KeepsByOneList(g: Target, group: seq<Thread>, kept: set<Thread>, canon: string -> string) {
    && (g == Target(g.hosts, [], [], []) && g.hosts != [] ==>
          forall t :: t in kept <==> t in group && HostSelected(t.host, g.hosts, canon))
    && (g == Target([], g.pids, [], []) && g.pids != [] ==>
          forall t :: t in kept <==> t in group && NumSelected(t.pid, g.pids))
    && (g == Target([], [], g.tids, []) && g.tids != [] ==>
          forall t :: t in kept <==> t in group && (t.tid.None? || NumSelected(t.tid.value, g.tids)))
    && (g == Target([], [], [], g.ranks) && g.ranks != [] ==>
          forall t :: t in kept <==> t in group && (t.rank.None? || NumSelected(t.rank.value, g.ranks)))
  }

  lemma OneListRules(targets: seq<Target>, canon: string -> string)
    requires |targets| == 1
    ensures forall t :: Selected(t, targets, canon) <==> Matches(t, targets[0], canon)
  {
    assert targets == [targets[0]];
    forall t ensures Selected(t, targets, canon) <==> Matches(t, targets[0], canon) {
      OneTarget(t, targets[0], canon);
    }
  }

  /** Dropping a list, or adding a target to others, never loses a thread. */
  lemma FewerListsSelectMore(t: Thread, g: Target, more: seq<Target>, canon: string -> string)
    requires Matches(t, g, canon)
    ensures Matches(t, g.(hosts := []), canon) && Matches(t, g.(pids := []), canon)
    ensures Matches(t, g.(tids := []), canon) && Matches(t, g.(ranks := []), canon)
    ensures Selected(t, [g] + more, canon) && Selected(t, more + [g], canon)
  {
    assert ([g] + more)[0] == g && (more + [g])[|more|] == g;
  }

  lemma {:induction false} StringOrder(a: string, b: string)
    ensures !StringLess(a, a) && (a == b || StringLess(a, b) || StringLess(b, a)) && !(StringLess(a, b) && StringLess(b, a))
  {
    StringLessTotal(a, a);
    StringLessTotal(a, b);
  }

  /** A span of names has both its ends, nothing before the first or after the last, and from a name
      to itself it is that name. A span of numbers has the numbers from its first to its last. */
  lemma SpansAreInclusive(s: string, first: string, last: string, v: int, lo: int, hi: int, canon: string -> string)
    ensures HostWithin(canon(first), HostSpan(first, last), canon) <==> !StringLess(canon(last), canon(first))
    ensures HostWithin(canon(last), HostSpan(first, last), canon) <==> !StringLess(canon(last), canon(first))
    ensures StringLess(s, canon(first)) || StringLess(canon(last), s) ==> !HostWithin(s, HostSpan(first, last), canon)
    ensures StringLess(canon(first), s) && StringLess(s, canon(last)) ==> HostWithin(s, HostSpan(first, last), canon)
    ensures HostWithin(s, HostSpan(first, first), canon) <==> HostWithin(s, HostPoint(first), canon)
    ensures HostWithin(s, HostPoint(first), canon) <==> s == canon(first)
    ensures NumWithin(v, NumSpan(lo, hi)) <==> lo <= v <= hi
    ensures NumWithin(v, NumSpan(lo, lo)) <==> NumWithin(v, NumPoint(lo))
  {
    StringOrder(canon(first), canon(last));
    StringOrder(canon(last), canon(last));
    StringOrder(s, canon(first));
    StringOrder(s, canon(last));
  }

  method AnyNumWithin(v: int, rs: seq<NumRange>) returns (found: bool)
    ensures found <==> NumSelected(v, rs)
  {
    found := false;
    for i := 0 to |rs|
      invariant !found && forall j :: 0 <= j < i ==> !NumWithin(v, rs[j])
    {
      if NumWithin(v, rs[i]) { return true; }
    }
  }

  method AnyHostWithin(s: string, rs: seq<HostRange>, canon: string -> string) returns (found: bool)
    ensures found <==> HostSelected(s, rs, canon)
  {
    found := false;
    for i := 0 to |rs|
      invariant !found && forall j :: 0 <= j < i ==> !HostWithin(s, rs[j], canon)
    {
      if HostWithin(s, rs[i], canon) { return true; }
    }
  }

  /** The tests of one target, each made only while the thread is still included. */
  method IncludeThread(t: Thread, g: Target, canon: string -> string) returns (include_: bool)
    ensures include_ <==> Matches(t, g, canon)
  {
    include_ := true;
    if g.ranks != [] && t.rank.Some? {
      include_ := AnyNumWithin(t.rank.value, g.ranks);
    }
    if include_ && g.tids != [] && t.tid.Some? {
      include_ := AnyNumWithin(t.tid.value, g.tids);
    }
    if include_ && g.pids != [] {
      include_ := AnyNumWithin(t.pid, g.pids);
    }
    if include_ && g.hosts != [] {
      include_ := AnyHostWithin(t.host, g.hosts, canon);
    }
  }

  /** The threads of group, in iteration order, that some target matches; all without targets. */
  method FilterThreadGroup(targets: seq<Target>, group: seq<Thread>, canon: string -> string)
    returns (kept: set<Thread>)
    ensures forall t :: t in kept <==> t in group && Selected(t, targets, canon)
    ensures targets == [] || targets == [Target([], [], [], [])] ==> forall t :: t in kept <==> t in group
    ensures |targets| == 1 ==> KeepsByOneList(targets[0], group, kept, canon)
  {
    if |targets| == 1 { OneListRules(targets, canon); }
    if targets == [] {
      return set t | t in group;
    }
    kept := {};
    for i := 0 to |group|
      invariant forall t :: t in kept <==> t in group[..i] && Selected(t, targets, canon)
    {
      var t := group[i];
      var included := false;
      var k := 0;
      while k < |targets| && !included
        invariant 0 <= k <= |targets|
        invariant !included ==> forall j :: 0 <= j < k ==> !Matches(t, targets[j], canon)
        invariant included ==> Selected(t, targets, canon)
        decreases |targets| - k, !included
      {
        included := IncludeThread(t, targets[k], canon);
        k := k + 1;
      }
      if included { kept := kept + {t}; }
      assert group[..i + 1] == group[..i] + [t];
    }
    assert group[..|group|] == group;
  }

  // ----- the target list of a cluster -----------------------------------------------------

  function NumTargets(rs: Ranges): (r: seq<NumRange>)
    ensures |r| == |rs|
    ensures forall i :: 0 <= i < |rs| ==>
      r[i] == if rs[i].0 == rs[i].1 then NumPoint(rs[i].0) else NumSpan(rs[i].0, rs[i].1)
  {
    seq(|rs|, i requires 0 <= i < |rs| =>
      if rs[i].0 == rs[i].1 then NumPoint(rs[i].0) else NumSpan(rs[i].0, rs[i].1))
  }

  /** One compressed entry as a target. */
  function TargetOf(e: RangeInfo): Target {
    Target([HostPoint(e.host)], NumTargets(e.pids), NumTargets(e.tids), NumTargets(e.ranks))
  }

  method BuildNumTargets(rs: Ranges) returns (r: seq<NumRange>)
    ensures r == NumTargets(rs)
  {
    r := [];
    for i := 0 to |rs|
      invariant r == NumTargets(rs)[..i]
    {
      if rs[i].0 == rs[i].1 {
        r := r + [NumPoint(rs[i].0)];
      } else {
        r := r + [NumSpan(rs[i].0, rs[i].1)];
      }
    }
  }

  /** The loop of SS_cvClusters that turns the compressed entries into a target list. */
  method BuildTargets(out: seq<RangeInfo>) returns (targets: seq<Target>)
    ensures |targets| == |out| && forall k :: 0 <= k < |out| ==> targets[k] == TargetOf(out[k])
  {
    targets := [];
    for k := 0 to |out|
      invariant |targets| == k && forall j :: 0 <= j < k ==> targets[j] == TargetOf(out[j])
    {
      var pids := BuildNumTargets(out[k].pids);
      var tids := BuildNumTargets(out[k].tids);
      var ranks := BuildNumTargets(out[k].ranks);
      targets := targets + [Target([HostPoint(out[k].host)], pids, tids, ranks)];
    }
  }

  // ----- an entry's target matches what the entry lists --------------------------------------

  ghost predicate InRanges(v: int, rs: Ranges) {
    exists i :: 0 <= i < |rs| && rs[i].0 <= v <= rs[i].1
  }

  lemma InRangesSnoc(rs: Ranges, r: (int, int), v: int)
    ensures InRanges(v, rs + [r]) <==> InRanges(v, rs) || r.0 <= v <= r.1
  {
    var all := rs + [r];
    if InRanges(v, rs) {
      var i :| 0 <= i < |rs| && rs[i].0 <= v <= rs[i].1;
      assert all[i].0 <= v <= all[i].1;
    }
    if r.0 <= v <= r.1 { assert all[|rs|].0 <= v <= all[|rs|].1; }
  }

  lemma {:induction false} ValuesAre(rs: Ranges, v: int)
    ensures v in Values(rs) <==> InRanges(v, rs)
  {
    if rs != [] {
      var n := |rs| - 1;
      ValuesAre(rs[..n], v);
      InRangesSnoc(rs[..n], rs[n], v);
      assert rs == rs[..n] + [rs[n]];
    }
  }

  lemma NumTargetsSelect(rs: Ranges, v: int)
    ensures NumSelected(v, NumTargets(rs)) <==> InRanges(v, rs)
  {
    var r := NumTargets(rs);
    if NumSelected(v, r) {
      var i :| 0 <= i < |r| && NumWithin(v, r[i]);
      assert rs[i].0 <= v <= rs[i].1;
    }
    if InRanges(v, rs) {
      var i :| 0 <= i < |rs| && rs[i].0 <= v <= rs[i].1;
      assert NumWithin(v, r[i]);
    }
  }

  lemma {:induction false} OverTidsAre(host: string, pid: int, tids: seq<int>, rank: int, x: ThreadInfo)
    ensures x in OverTids(host, pid, tids, rank) <==>
      x.host == host && x.pid == pid && x.tid in tids && x.rank == rank
  {
    if tids != [] {
      var n := |tids| - 1;
      OverTidsAre(host, pid, tids[..n], rank, x);
      assert tids == tids[..n] + [tids[n]];
    }
  }

  lemma {:induction false} OverPidsAre(host: string, pids: seq<int>, tids: seq<int>, rank: int, x: ThreadInfo)
    ensures x in OverPids(host, pids, tids, rank) <==>
      x.host == host && x.pid in pids && x.tid in tids && x.rank == rank
  {
    if pids != [] {
      var n := |pids| - 1;
      OverPidsAre(host, pids[..n], tids, rank, x);
      OverTidsAre(host, pids[n], tids, rank, x);
      assert pids == pids[..n] + [pids[n]];
    }
  }

  lemma {:induction false} OverRanksAre(host: string, pids: seq<int>, tids: seq<int>, ranks: seq<int>, x: ThreadInfo)
    ensures x in OverRanks(host, pids, tids, ranks) <==>
      x.host == host && x.pid in pids && x.tid in tids && x.rank in ranks
  {
    if ranks != [] {
      var n := |ranks| - 1;
      OverRanksAre(host, pids, tids, ranks[..n], x);
      OverPidsAre(host, pids, tids, ranks[n], x);
      assert ranks == ranks[..n] + [ranks[n]];
    }
  }

  lemma MembersAre(e: RangeInfo, x: ThreadInfo)
    ensures x in Members(e) <==>
      x.host == e.host && InRanges(x.pid, e.pids) && InRanges(x.tid, e.tids) && InRanges(x.rank, e.ranks)
  {
    OverRanksAre(e.host, Values(e.pids), Values(e.tids), Values(e.ranks), x);
    ValuesAre(e.pids, x.pid);
    ValuesAre(e.tids, x.tid);
    ValuesAre(e.ranks, x.rank);
  }

  /** x describes t, as far as t has the ids. */
  predicate Alike(x: ThreadInfo, t: Thread) {
    && x.host == t.host && x.pid == t.pid
    && (t.tid.Some? ==> x.tid == t.tid.value)
    && (t.rank.Some? ==> x.rank == t.rank.value)
  }

  /** An entry with at least one value in each field. */
  ghost predicate Inhabited(e: RangeInfo) {
    && (exists v :: InRanges(v, e.tids))
    && (exists v :: InRanges(v, e.ranks))
    && e.pids != [] && e.tids != [] && e.ranks != []
  }

  /** The target of an entry matches a thread exactly when some listed thread is alike. */
  lemma TargetMatchesAlike(e: RangeInfo, t: Thread, canon: string -> string)
    requires Inhabited(e) && canon(e.host) == e.host
    ensures Matches(t, TargetOf(e), canon) <==> ListsAlike(e, t)
  {
    var g := TargetOf(e);
    assert HostSelected(t.host, g.hosts, canon) <==> t.host == e.host by {
      assert HostWithin(t.host, g.hosts[0], canon) <==> t.host == e.host;
    }
    NumTargetsSelect(e.pids, t.pid);
    if t.tid.Some? { NumTargetsSelect(e.tids, t.tid.value); }
    if t.rank.Some? { NumTargetsSelect(e.ranks, t.rank.value); }
    if Matches(t, g, canon) {
      var tid :| InRanges(tid, e.tids) && (t.tid.Some? ==> tid == t.tid.value);
      var rank :| InRanges(rank, e.ranks) && (t.rank.Some? ==> rank == t.rank.value);
      var x := ThreadInfo(t.host, t.pid, tid, rank);
      MembersAre(e, x);
      assert Lists(e, x) && Alike(x, t);
    }
    if x :| Lists(e, x) && Alike(x, t) {
      MembersAre(e, x);
    }
  }

  // ----- the round trip -------------------------------------------------------------------------

  /** Some host name of the inputs, and at least one value in each field. */
  ghost predicate FromInputs(e: RangeInfo, xs: seq<ThreadInfo>) {
    Inhabited(e) && exists i :: 0 <= i < |xs| && xs[i].host == e.host
  }

  lemma EntryInhabited(m: Mode, e: RangeInfo, x: ThreadInfo)
    requires Entry(m, e, x)
    ensures Inhabited(e)
  {
    assert e.tids[|e.tids| - 1].0 <= x.tid <= e.tids[|e.tids| - 1].1;
    assert e.ranks[|e.ranks| - 1].0 <= x.rank <= e.ranks[|e.ranks| - 1].1;
    assert InRanges(x.tid, e.tids) && InRanges(x.rank, e.ranks);
  }

  lemma CurrentFromInputs(m: Mode, xs: seq<ThreadInfo>)
    requires xs != []
    ensures var st := ScanAll(m, true, xs); st.cur < |st.out| && FromInputs(st.out[st.cur], xs)
  {
    var st := ScanAll(m, true, xs);
    ScanAllAdds(m, xs);
    EntryInhabited(m, st.out[st.cur], st.last);
    assert xs[|xs| - 1].host == st.out[st.cur].host;
  }

  lemma {:induction false} ScanFromInputs(m: Mode, xs: seq<ThreadInfo>)
    requires xs != []
    ensures AllFromInputs(ScanAll(m, true, xs).out, xs)
  {
    CurrentFromInputs(m, xs);
    if |xs| > 1 {
      ScanFromInputs(m, xs[..|xs| - 1]);
      OthersFromInputs(m, xs, ScanAll(m, true, xs[..|xs| - 1]));
    }
  }

  ghost predicate AllFromInputs(out: seq<RangeInfo>, xs: seq<ThreadInfo>) {
    forall k :: 0 <= k < |out| ==> FromInputs(out[k], xs)
  }

  lemma CompressedFromInputs(xs: seq<ThreadInfo>)
    requires xs != [] && AllHosts(xs)
    ensures AllFromInputs(Compressed(xs), xs)
  {
    CompressedIsScan(xs);
    ScanFromInputs(ModeOf(xs), xs);
  }

  lemma OthersFromInputs(m: Mode, xs: seq<ThreadInfo>, st: Scan)
    requires |xs| > 1 && st == ScanAll(m, true, xs[..|xs| - 1]) && AllFromInputs(st.out, xs[..|xs| - 1])
    ensures var r := ScanAll(m, true, xs); forall k :: 0 <= k < |r.out| && k != r.cur ==> FromInputs(r.out[k], xs)
  {
    var x, r := xs[|xs| - 1], ScanAll(m, true, xs);
    ScanAllAdds(m, xs[..|xs| - 1]);
    OthersKept(m, st, x);
    EarlierFromInputs(st.out, r.out, r.cur, xs);
  }

  lemma EarlierFromInputs(before: seq<RangeInfo>, out: seq<RangeInfo>, cur: int, xs: seq<ThreadInfo>)
    requires xs != [] && forall k :: 0 <= k < |before| ==> FromInputs(before[k], xs[..|xs| - 1])
    requires forall k :: 0 <= k < |out| && k != cur ==> k < |before| && out[k] == before[k]
    ensures forall k :: 0 <= k < |out| && k != cur ==> FromInputs(out[k], xs)
  {
    forall k | 0 <= k < |out| && k != cur ensures FromInputs(out[k], xs) {
      assert out[k] == before[k];
      FromPrefix(before[k], xs, |xs| - 1);
    }
  }

  lemma OthersKept(m: Mode, st: Scan, x: ThreadInfo)
    requires AtLast(m, st)
    ensures var st' := ScanOne(m, true, st, x);
      forall k :: 0 <= k < |st'.out| && k != st'.cur ==> k < |st.out| && st'.out[k] == st.out[k]
  {
  }

  lemma FromPrefix(e: RangeInfo, xs: seq<ThreadInfo>, n: nat)
    requires n <= |xs| && FromInputs(e, xs[..n])
    ensures FromInputs(e, xs)
  {
    var i :| 0 <= i < n && xs[..n][i].host == e.host;
    assert xs[i].host == e.host;
  }

  ghost predicate InSomeEntry(out: seq<RangeInfo>, x: ThreadInfo) {
    exists k :: 0 <= k < |out| && Lists(out[k], x)
  }

  ghost predicate Lists(e: RangeInfo, x: ThreadInfo) { x in Members(e) }

  lemma InSomeEntrySnoc(out: seq<RangeInfo>, e: RangeInfo, x: ThreadInfo)
    ensures InSomeEntry(out + [e], x) <==> InSomeEntry(out, x) || Lists(e, x)
  {
    var all := out + [e];
    if InSomeEntry(out, x) {
      var k :| 0 <= k < |out| && Lists(out[k], x);
      assert Lists(all[k], x);
    }
    if Lists(e, x) { assert Lists(all[|out|], x); }
  }

  lemma {:induction false} AllMembersAre(out: seq<RangeInfo>, x: ThreadInfo)
    ensures x in AllMembers(out) <==> InSomeEntry(out, x)
  {
    if out != [] {
      var n := |out| - 1;
      AllMembersAre(out[..n], x);
      InSomeEntrySnoc(out[..n], out[n], x);
      AllMembersSnoc(out[..n], out[n]);
      assert out == out[..n] + [out[n]];
      assert Lists(out[n], x) <==> x in Members(out[n]);
    }
  }

  ghost function TargetsOf(out: seq<RangeInfo>): seq<Target> {
    seq(|out|, k requires 0 <= k < |out| => TargetOf(out[k]))
  }

  /** The target list built for sorted thread descriptions selects exactly the threads some
      description is alike to. */
  lemma TargetsSelectAlike(xs: seq<ThreadInfo>, t: Thread, canon: string -> string)
    requires xs != [] && AllHosts(xs)
    requires forall i :: 0 <= i < |xs| ==> canon(xs[i].host) == xs[i].host
    ensures Selected(t, TargetsOf(Compressed(xs)), canon) <==> exists x :: x in xs && Alike(x, t)
  {
    var out := Compressed(xs);
    CompressedFromInputs(xs);
    EntriesSelectAlike(out, xs, t, canon);
    CompressionIsExact(xs);
    forall x ensures InSomeEntry(out, x) <==> x in xs { AllMembersAre(out, x); }
  }

  /** Entries with hosts of xs select the threads that something they list is alike to. */
  lemma EntriesSelectAlike(out: seq<RangeInfo>, xs: seq<ThreadInfo>, t: Thread, canon: string -> string)
    requires AllFromInputs(out, xs) && forall i :: 0 <= i < |xs| ==> canon(xs[i].host) == xs[i].host
    ensures Selected(t, TargetsOf(out), canon) <==> out == [] || exists x :: InSomeEntry(out, x) && Alike(x, t)
  {
    var targets := TargetsOf(out);
    forall k | 0 <= k < |out| ensures Matches(t, targets[k], canon) <==> ListsAlike(out[k], t) {
      assert FromInputs(out[k], xs);
      TargetMatchesAlike(out[k], t, canon);
    }
    SomeEntryListsAlike(out, t);
  }

  ghost predicate ListsAlike(e: RangeInfo, t: Thread) { exists x :: Lists(e, x) && Alike(x, t) }

  lemma SomeEntryListsAlike(out: seq<RangeInfo>, t: Thread)
    ensures (exists k :: 0 <= k < |out| && ListsAlike(out[k], t)) <==> exists x :: InSomeEntry(out, x) && Alike(x, t)
  {
    if k :| 0 <= k < |out| && ListsAlike(out[k], t) {
      var x :| Lists(out[k], x) && Alike(x, t);
      assert InSomeEntry(out, x);
    }
    if x :| InSomeEntry(out, x) && Alike(x, t) {
      var k :| 0 <= k < |out| && Lists(out[k], x);
      assert ListsAlike(out[k], t);
    }
  }

  ghost predicate Shadowed(t: Thread, cluster: seq<Thread>) {
    exists i :: 0 <= i < |cluster| && Alike(Info(cluster[i]), t)
  }

  function Infos(cluster: seq<Thread>): seq<ThreadInfo> {
    seq(|cluster|, i requires 0 <= i < |cluster| => Info(cluster[i]))
  }

  /** The target list SS_cvClusters builds for a cluster. */
  ghost function ClusterTargets(cluster: seq<Thread>): seq<Target> {
    TargetsOf(Compressed(Sorted(Infos(cluster))))
  }

  ghost predicate NamedHosts(cluster: seq<Thread>, canon: string -> string) {
    forall i :: 0 <= i < |cluster| ==> cluster[i].host != "" && canon(cluster[i].host) == cluster[i].host
  }

  /** SS_cvClusters for one cluster, then the selection by its target list. */
  method SelectCluster(cluster: seq<Thread>, group: seq<Thread>, canon: string -> string) returns (kept: set<Thread>)
    ensures forall t :: t in kept <==> t in group && Selected(t, ClusterTargets(cluster), canon)
  {
    var infos := new ThreadInfo[|cluster|](i requires 0 <= i < |cluster| => Info(cluster[i]));
    assert infos[..] == Infos(cluster);
    var out := CompressThreadInfo(infos);
    var targets := BuildTargets(out);
    assert targets == ClusterTargets(cluster);
    kept := FilterThreadGroup(targets, group, canon);
  }

  lemma SortedInfos(cluster: seq<Thread>, xs: seq<ThreadInfo>)
    requires xs == Sorted(Infos(cluster))
    ensures forall x :: x in xs <==> x in Infos(cluster)
  {
    SortedSorts(Infos(cluster));
    forall x ensures x in xs <==> x in Infos(cluster) {
      assert x in xs <==> x in multiset(xs);
    }
  }

  /** A cluster's targets select the threads that agree with one of its own on host, process and
      the ids they have. */
  lemma ClusterTargetsSelect(cluster: seq<Thread>, t: Thread, canon: string -> string)
    requires cluster != [] && NamedHosts(cluster, canon)
    ensures Selected(t, ClusterTargets(cluster), canon) <==> Shadowed(t, cluster)
  {
    var infos, xs := Infos(cluster), Sorted(Infos(cluster));
    SortedInfos(cluster, xs);
    assert infos[0] in infos;
    forall i | 0 <= i < |xs| ensures xs[i].host != "" && canon(xs[i].host) == xs[i].host {
      assert xs[i] in infos;
    }
    TargetsSelectAlike(xs, t, canon);
    if Shadowed(t, cluster) {
      var i :| 0 <= i < |cluster| && Alike(Info(cluster[i]), t);
      assert infos[i] in xs;
    }
    if x :| x in xs && Alike(x, t) {
      var i :| 0 <= i < |infos| && infos[i] == x;
      assert Alike(Info(cluster[i]), t);
    }
  }

  /** The round trip, exactly: filtering all threads by a cluster's targets gives the cluster back
      if and only if no thread outside it is shadowed by one inside. */
  lemma RoundTripIff(cluster: seq<Thread>, group: seq<Thread>, canon: string -> string)
    requires cluster != [] && NamedHosts(cluster, canon)
    ensures (forall t :: t in group ==> (Selected(t, ClusterTargets(cluster), canon) <==> t in cluster))
        <==> (forall t :: t in group && t !in cluster ==> !Shadowed(t, cluster))
  {
    forall t ensures Selected(t, ClusterTargets(cluster), canon) <==> Shadowed(t, cluster) {
      ClusterTargetsSelect(cluster, t, canon);
    }
    forall t | t in cluster ensures Shadowed(t, cluster) {
      var i :| 0 <= i < |cluster| && cluster[i] == t;
      assert Alike(Info(cluster[i]), t);
    }
  }

  /** Threads that all have both ids and differ in their descriptions always come back exactly. */
  lemma FullIdsRoundTrip(cluster: seq<Thread>, group: seq<Thread>, canon: string -> string)
    requires cluster != [] && NamedHosts(cluster, canon)
    requires forall i :: 0 <= i < |cluster| ==> cluster[i] in group
    requires forall t :: t in group ==> t.tid.Some? && t.rank.Some?
    requires forall t, u :: t in group && u in group && Info(t) == Info(u) ==> t == u
    ensures forall t :: t in group ==> (Selected(t, ClusterTargets(cluster), canon) <==> t in cluster)
  {
    forall t | t in group && t !in cluster ensures !Shadowed(t, cluster) {
      forall i | 0 <= i < |cluster| ensures !Alike(Info(cluster[i]), t) {
        assert cluster[i] in group && Info(cluster[i]) != Info(t);
      }
    }
    RoundTripIff(cluster, group, canon);
  }

  /** A serial thread of the same process is selected along with a ranked one. */
  lemma SerialThreadIsShadowed(host: string, pid: int, tid: int, rank: int)
    ensures Shadowed(Thread(host, pid, Some(tid), None), [Thread(host, pid, Some(tid), Some(rank))])
  {
    var c := [Thread(host, pid, Some(tid), Some(rank))];
    assert Alike(Info(c[0]), Thread(host, pid, Some(tid), None));
  }

  lemma SinglesAsTargets(xs: seq<ThreadInfo>)
    ensures |TargetsOf(Singles(xs))| == |xs|
    ensures forall i :: 0 <= i < |xs| ==>
      TargetsOf(Singles(xs))[i] ==
        Target([HostPoint(xs[i].host)], [NumPoint(xs[i].pid)], [NumPoint(xs[i].tid)], [NumPoint(xs[i].rank)])
  {
    forall i | 0 <= i < |xs|
      ensures TargetOf(Single(xs[i])) ==
        Target([HostPoint(xs[i].host)], [NumPoint(xs[i].pid)], [NumPoint(xs[i].tid)], [NumPoint(xs[i].rank)])
    {
    }
  }

  lemma SerialInfos(cluster: seq<Thread>)
    requires forall i :: 0 <= i < |cluster| ==> cluster[i].tid.None? && cluster[i].rank.None?
    requires forall i, j :: 0 <= i < j < |cluster| ==> cluster[i].pid < cluster[j].pid
    ensures IsSorted(Infos(cluster))
    ensures forall i :: 0 <= i < |cluster| ==> Infos(cluster)[i] == ThreadInfo(cluster[i].host, cluster[i].pid, -1, -1)
  {
  }

  lemma SerialTargets(cluster: seq<Thread>)
    requires |cluster| >= 2 && forall i :: 0 <= i < |cluster| ==> cluster[i].tid.None? && cluster[i].rank.None?
    requires forall i, j :: 0 <= i < j < |cluster| ==> cluster[i].pid < cluster[j].pid
    ensures ClusterTargets(cluster) == TargetsOf(Singles(Infos(cluster)))
  {
    SerialInfos(cluster);
    SortedIsSame(Infos(cluster));
    MissingIdsCount(Infos(cluster));
  }

  /** A cluster of processes without thread ids and ranks, listed by process id: its target list has
      one target for each, never a range of process ids. */
  lemma SerialProcessesAreListedSingly(cluster: seq<Thread>)
    requires |cluster| >= 2 && forall i :: 0 <= i < |cluster| ==> cluster[i].tid.None? && cluster[i].rank.None?
    requires forall i, j :: 0 <= i < j < |cluster| ==> cluster[i].pid < cluster[j].pid
    ensures |ClusterTargets(cluster)| == |cluster|
    ensures forall i :: 0 <= i < |cluster| ==>
      ClusterTargets(cluster)[i] ==
        Target([HostPoint(cluster[i].host)], [NumPoint(cluster[i].pid)], [NumPoint(-1)], [NumPoint(-1)])
  {
    SerialInfos(cluster);
    SerialTargets(cluster);
    SinglesAsTargets(Infos(cluster));
  }
}
