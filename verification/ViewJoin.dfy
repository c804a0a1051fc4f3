/** The comparison of views (Generate_CustomView in SS_Compare.cxx): k tables merged on their
    right-most column through a master index and one merge map per view. */
module ViewJoin {
  import opened Wrappers

  /** A row's data columns and its right-most column. */
  datatype Row<K, V> = Row(cells: seq<V>, key: K)

  /** One entry of a partial view. */
  datatype Item<K, V> = Header | Values(row: Row<K, V>) | Ender

  datatype View<K, V> = View(numColumns: nat, items: seq<Item<K, V>>)

  /** A copied value or the place holder of a missing one. */
  datatype Cell<V> = Data(v: V) | PlaceHolder

  function RowsOf<K, V>(items: seq<Item<K, V>>): seq<Row<K, V>> {
    if items == [] then []
    else
      var last := items[|items| - 1];
      RowsOf(items[..|items| - 1]) + if last.Values? then [last.row] else []
  }

  function Keys<K, V>(rows: seq<Row<K, V>>): (ks: seq<K>)
    ensures |ks| == |rows| && forall i :: 0 <= i < |rows| ==> ks[i] == rows[i].key
  {
    seq(|rows|, i requires 0 <= i < |rows| => rows[i].key)
  }

  /** Every row of every view has the columns its header announced. */
  ghost predicate WellFormed<K, V>(views: seq<View<K, V>>) {
    views != [] &&
    forall i :: 0 <= i < |views| ==> RowsFit(RowsOf(views[i].items), views[i].numColumns)
  }

  ghost predicate RowsFit<K, V>(rows: seq<Row<K, V>>, n: nat) {
    forall r :: 0 <= r < |rows| ==> |rows[r].cells| == n
  }

  ghost predicate Distinct<K>(s: seq<K>) {
    forall i, j :: 0 <= i < j < |s| ==> s[i] != s[j]
  }

  // ----- the reference: a full outer join --------------------------------------------------

  /** The members of s in order of first appearance. */
  function FirstOccurrences<K(==)>(s: seq<K>): seq<K> {
    if s == [] then []
    else
      var before := FirstOccurrences(s[..|s| - 1]);
      before + if s[|s| - 1] in s[..|s| - 1] then [] else [s[|s| - 1]]
  }

  function AllKeys<K, V>(views: seq<View<K, V>>): seq<K> {
    if views == [] then [] else AllKeys(views[..|views| - 1]) + Keys(RowsOf(views[|views| - 1].items))
  }

  /** The data of the first row with key k; with less restrictive comparisons, of the last one. */
  function Pick<K(==), V>(rows: seq<Row<K, V>>, k: K, less: bool): Option<seq<V>> {
    if rows == [] then None
    else
      var last := rows[|rows| - 1];
      var before := Pick(rows[..|rows| - 1], k, less);
      if last.key == k && (before.None? || less) then Some(last.cells) else before
  }

  function Block<V>(data: Option<seq<V>>, n: nat): seq<Cell<V>> {
    match data
    case Some(d) => seq(|d|, j requires 0 <= j < |d| => Data(d[j]))
    case None => seq(n, j => PlaceHolder)
  }

  /** The data for key k of the first n views, side by side. */
  function JoinedCells<K(==), V>(views: seq<View<K, V>>, n: nat, k: K, less: bool): seq<Cell<V>>
    requires n <= |views|
  {
    if n == 0 then []
    else
      var data := Pick(RowsOf(views[n - 1].items), k, less);
      JoinedCells(views, n - 1, k, less) + Block(data, views[n - 1].numColumns)
  }

  /** The full outer join on the right-most column: every key once, in order of first appearance. */
  function OuterJoin<K(==), V>(views: seq<View<K, V>>, less: bool): seq<Row<K, Cell<V>>> {
    var ks := FirstOccurrences(AllKeys(views));
    seq(|ks|, r requires 0 <= r < |ks| => Row(JoinedCells(views, |views|, ks[r], less), ks[r]))
  }

  // ----- what the code computes --------------------------------------------------------------

  /** master_vector after the keys ks of a later view. */
  function Extend<K(==)>(master: seq<K>, ks: seq<K>): seq<K> {
    if ks == [] then master
    else
      var m := Extend(master, ks[..|ks| - 1]);
      if ks[|ks| - 1] in m then m else m + [ks[|ks| - 1]]
  }

  /** master_vector after the first n views. */
  function Master<K(==), V>(views: seq<View<K, V>>, n: nat): seq<K>
    requires 0 < n <= |views|
  {
    if n == 1 then Keys(RowsOf(views[0].items))
    else Extend(Master(views, n - 1), Keys(RowsOf(views[n - 1].items)))
  }

  /** master_map[k]: the last index of k. */
  function LastIndex<K(==)>(s: seq<K>, k: K): (i: nat)
    requires k in s
    ensures i < |s| && s[i] == k && forall j :: i < j < |s| ==> s[j] != k
  {
    if s[|s| - 1] == k then |s| - 1 else LastIndex(s[..|s| - 1], k)
  }

  /** Row r of the master carries the data of a later view only if it is the last with its key. */
  function LaterData<K(==), V>(rows: seq<Row<K, V>>, master: seq<K>, r: nat, less: bool): Option<seq<V>>
    requires r < |master|
  {
    if LastIndex(master, master[r]) == r then Pick(rows, master[r], less) else None
  }

  /** The columns of the first n views on row r. */
  function MergedCells<K(==), V>(views: seq<View<K, V>>, n: nat, master: seq<K>, r: nat, less: bool): seq<Cell<V>>
    requires 0 < n <= |views| && r < |master|
  {
    var rows := RowsOf(views[n - 1].items);
    if n == 1 then
      var data := if r < |rows| then Some(rows[r].cells) else None;
      Block(data, views[0].numColumns)
    else
      var data := LaterData(rows, master, r, less);
      MergedCells(views, n - 1, master, r, less) + Block(data, views[n - 1].numColumns)
  }

  function Merged<K(==), V>(views: seq<View<K, V>>, less: bool): seq<Row<K, Cell<V>>>
    requires views != []
  {
    var m := Master(views, |views|);
    seq(|m|, r requires 0 <= r < |m| => Row(MergedCells(views, |views|, m, r, less), m[r]))
  }

  // ----- the merge is the join ------------------------------------------------------------------

  lemma {:induction false} FirstOccurrencesAre<K>(s: seq<K>)
    ensures forall k :: k in FirstOccurrences(s) <==> k in s
    ensures Distinct(FirstOccurrences(s))
  {
    if s != [] {
      var n := |s| - 1;
      FirstOccurrencesAre(s[..n]);
      assert s == s[..n] + [s[n]];
    }
  }

  lemma {:induction false} DistinctOccurOnce<K>(s: seq<K>)
    requires Distinct(s)
    ensures FirstOccurrences(s) == s
  {
    if s != [] {
      DistinctOccurOnce(s[..|s| - 1]);
      assert s == s[..|s| - 1] + [s[|s| - 1]];
    }
  }

  lemma {:induction false} ExtendIsFirstOccurrences<K>(s: seq<K>, ks: seq<K>)
    ensures Extend(FirstOccurrences(s), ks) == FirstOccurrences(s + ks)
  {
    if ks == [] {
      assert s + ks == s;
    } else {
      var n := |ks| - 1;
      ExtendIsFirstOccurrences(s, ks[..n]);
      FirstOccurrencesSnoc(s + ks[..n], ks[n]);
      SplitLast(s, ks);
    }
  }

  lemma SplitLast<K>(s: seq<K>, ks: seq<K>)
    requires ks != []
    ensures s + ks == s + ks[..|ks| - 1] + [ks[|ks| - 1]]
  {
  }

  lemma FirstOccurrencesSnoc<K>(s: seq<K>, k: K)
    ensures var m := FirstOccurrences(s); FirstOccurrences(s + [k]) == if k in m then m else m + [k]
  {
    FirstOccurrencesAre(s);
    assert (s + [k])[..|s|] == s;
  }

  /** Unseen keys are appended in order of first appearance. */
  lemma {:induction false} MasterIsFirstOccurrences<K, V>(views: seq<View<K, V>>, n: nat)
    requires 0 < n <= |views| && Distinct(Keys(RowsOf(views[0].items)))
    ensures Master(views, n) == FirstOccurrences(AllKeys(views[..n]))
  {
    var ks := Keys(RowsOf(views[n - 1].items));
    assert views[..n][..n - 1] == views[..n - 1];
    if n == 1 {
      assert AllKeys(views[..1]) == [] + ks;
      DistinctOccurOnce(ks);
      assert [] + ks == ks;
    } else {
      MasterIsFirstOccurrences(views, n - 1);
      ExtendIsFirstOccurrences(AllKeys(views[..n - 1]), ks);
    }
  }

  lemma {:induction false} ExtendKeepsPrefix<K>(master: seq<K>, ks: seq<K>)
    ensures master <= Extend(master, ks)
    ensures forall k :: k in Extend(master, ks) <==> k in master || k in ks
    ensures Distinct(master) ==> Distinct(Extend(master, ks))
  {
    if ks != [] {
      ExtendKeepsPrefix(master, ks[..|ks| - 1]);
      assert ks == ks[..|ks| - 1] + [ks[|ks| - 1]];
    }
  }

  lemma {:induction false} MasterStartsWithFirstView<K, V>(views: seq<View<K, V>>, n: nat)
    requires 0 < n <= |views|
    ensures Keys(RowsOf(views[0].items)) <= Master(views, n)
    ensures Distinct(Keys(RowsOf(views[0].items))) ==> Distinct(Master(views, n))
  {
    if n > 1 {
      MasterStartsWithFirstView(views, n - 1);
      ExtendKeepsPrefix(Master(views, n - 1), Keys(RowsOf(views[n - 1].items)));
    }
  }

  lemma {:induction false} PickNone<K, V>(rows: seq<Row<K, V>>, k: K, less: bool)
    ensures Pick(rows, k, less).None? <==> k !in Keys(rows)
  {
    if rows != [] {
      var n := |rows| - 1;
      PickNone(rows[..n], k, less);
      assert Keys(rows) == Keys(rows[..n]) + [rows[n].key];
    }
  }

  /** With distinct keys, a row's key picks that row. */
  lemma {:induction false} PickUnique<K, V>(rows: seq<Row<K, V>>, r: nat, less: bool)
    requires r < |rows| && Distinct(Keys(rows))
    ensures Pick(rows, rows[r].key, less) == Some(rows[r].cells)
  {
    var n := |rows| - 1;
    assert Keys(rows) == Keys(rows[..n]) + [rows[n].key];
    if r < n {
      assert Keys(rows)[r] != Keys(rows)[n];
      PickUnique(rows[..n], r, less);
    } else {
      PickNone(rows[..n], rows[r].key, less);
      assert forall j :: 0 <= j < n ==> Keys(rows)[j] != Keys(rows)[n];
    }
  }

  lemma LastOfDistinct<K>(s: seq<K>, r: nat)
    requires r < |s| && Distinct(s)
    ensures LastIndex(s, s[r]) == r
  {
  }

  /** Row by row, the merge has the data of the join. */
  lemma {:induction false} MergedIsJoined<K, V>(views: seq<View<K, V>>, n: nat, master: seq<K>, r: nat, less: bool)
    requires 0 < n <= |views| && r < |master| && Distinct(master)
    requires Keys(RowsOf(views[0].items)) <= master
    ensures MergedCells(views, n, master, r, less) == JoinedCells(views, n, master[r], less)
  {
    if n == 1 {
      var rows := RowsOf(views[0].items);
      assert forall j :: 0 <= j < |rows| ==> master[j] == rows[j].key;
      if r < |rows| {
        PickUnique(rows, r, less);
      } else {
        PickNone(rows, master[r], less);
      }
      assert JoinedCells(views, 1, master[r], less) == JoinedCells(views, 0, master[r], less) + MergedCells(views, 1, master, r, less);
    } else {
      MergedIsJoined(views, n - 1, master, r, less);
      LastOfDistinct(master, r);
    }
  }

  /** The merged table is the full outer join exactly when the first view's keys are distinct. */
  lemma MergeIsOuterJoinIff<K, V>(views: seq<View<K, V>>, less: bool)
    requires views != []
    ensures Merged(views, less) == OuterJoin(views, less) <==> Distinct(Keys(RowsOf(views[0].items)))
  {
    var ks := Keys(RowsOf(views[0].items));
    var m := Master(views, |views|);
    MasterStartsWithFirstView(views, |views|);
    FirstOccurrencesAre(AllKeys(views));
    if Distinct(ks) {
      MasterIsFirstOccurrences(views, |views|);
      assert views[..|views|] == views;
      forall r | 0 <= r < |m| ensures Merged(views, less)[r] == OuterJoin(views, less)[r] {
        MergedIsJoined(views, |views|, m, r, less);
      }
    }
    if Merged(views, less) == OuterJoin(views, less) {
      var fs := FirstOccurrences(AllKeys(views));
      forall r | 0 <= r < |m| ensures m[r] == fs[r] {
        assert Merged(views, less)[r].key == OuterJoin(views, less)[r].key;
      }
      forall i | 0 <= i < |ks| ensures ks[i] == fs[i] { assert ks[i] == m[i]; }
    }
  }

  function TotalColumns<K, V>(views: seq<View<K, V>>): nat {
    if views == [] then 0 else TotalColumns(views[..|views| - 1]) + views[|views| - 1].numColumns
  }

  lemma {:induction false} PickFits<K, V>(rows: seq<Row<K, V>>, k: K, less: bool, n: nat)
    requires RowsFit(rows, n)
    ensures |Block(Pick(rows, k, less), n)| == n
  {
    if rows != [] {
      var last := |rows| - 1;
      assert |rows[last].cells| == n;
      forall r | 0 <= r < last ensures |rows[..last][r].cells| == n { assert rows[..last][r] == rows[r]; }
      PickFits(rows[..last], k, less, n);
    }
  }

  lemma {:induction false} MergedWidth<K, V>(views: seq<View<K, V>>, n: nat, master: seq<K>, r: nat, less: bool)
    requires WellFormed(views) && 0 < n <= |views| && r < |master|
    ensures |MergedCells(views, n, master, r, less)| == TotalColumns(views[..n])
  {
    var rows := RowsOf(views[n - 1].items);
    assert RowsFit(rows, views[n - 1].numColumns);
    assert views[..n][..n - 1] == views[..n - 1];
    if n == 1 {
      assert TotalColumns(views[..0]) == 0;
    } else {
      MergedWidth(views, n - 1, master, r, less);
      PickFits(rows, master[r], less, views[n - 1].numColumns);
    }
  }

  /** Every row of the merged table is as wide as all views together. */
  lemma RowsAreEquallyWide<K, V>(views: seq<View<K, V>>, less: bool)
    requires WellFormed(views)
    ensures forall r :: 0 <= r < |Merged(views, less)| ==> |Merged(views, less)[r].cells| == TotalColumns(views)
  {
    var m := Master(views, |views|);
    assert views[..|views|] == views;
    forall r | 0 <= r < |m| ensures |Merged(views, less)[r].cells| == TotalColumns(views) {
      MergedWidth(views, |views|, m, r, less);
    }
  }
}
