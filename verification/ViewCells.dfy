/** Where every value of every view stands in the merged table, and in which order the rows come. */
module ViewCells {
  import opened Wrappers
  import opened ViewJoin

  ghost predicate HasKey<K, V>(item: Item<K, V>, k: K) { item.Values? && item.row.key == k }

  /** Entry p is the one that counts for k: the first with that key; with less restrictive
      comparisons, the last. */
  ghost predicate Counts<K, V>(items: seq<Item<K, V>>, p: nat, k: K, less: bool) {
    && p < |items| && HasKey(items[p], k)
    && forall q :: 0 <= q < |items| && (if less then p < q else q < p) ==> !HasKey(items[q], k)
  }

  ghost predicate Absent<K, V>(items: seq<Item<K, V>>, k: K) {
    forall q :: 0 <= q < |items| ==> !HasKey(items[q], k)
  }

  /** What the columns of one view show: the values of the entry that counts, in order, or place
      holders if the view has none. */
  ghost predicate ShowsEntry<K, V>(view: View<K, V>, k: K, less: bool, cells: seq<Cell<V>>) {
    && (Absent(view.items, k) ==> |cells| == view.numColumns && forall j :: 0 <= j < |cells| ==> cells[j] == PlaceHolder)
    && (forall p: nat :: Counts(view.items, p, k, less) ==>
          |cells| == |view.items[p].row.cells| &&
          forall j :: 0 <= j < |cells| ==> cells[j] == Data(view.items[p].row.cells[j]))
  }

  /** Each row shows each view in the view's own columns. */
  ghost predicate ShowsCells<K, V>(views: seq<View<K, V>>, less: bool, table: seq<Row<K, Cell<V>>>) {
    forall r, i :: 0 <= r < |table| && 0 <= i < |views| ==> ShowsAt(views, less, table[r], i)
  }

  ghost predicate ShowsAt<K, V>(views: seq<View<K, V>>, less: bool, row: Row<K, Cell<V>>, i: nat)
    requires i < |views|
  {
    var from := TotalColumns(views[..i]);
    from + views[i].numColumns <= |row.cells| &&
    ShowsEntry(views[i], row.key, less, row.cells[from..from + views[i].numColumns])
  }

  // ----- one view ---------------------------------------------------------------------

  lemma AbsentSnoc<K, V>(items: seq<Item<K, V>>, k: K)
    requires items != []
    ensures Absent(items, k) <==> Absent(items[..|items| - 1], k) && !HasKey(items[|items| - 1], k)
  {
    var n := |items| - 1;
    assert forall q :: 0 <= q < n ==> items[..n][q] == items[q];
  }

  lemma StillCounts<K, V>(items: seq<Item<K, V>>, p: nat, k: K, less: bool)
    requires items != [] && Counts(items[..|items| - 1], p, k, less)
    requires less ==> !HasKey(items[|items| - 1], k)
    ensures Counts(items, p, k, less)
  {
    var n := |items| - 1;
    assert forall q :: 0 <= q < n ==> items[..n][q] == items[q];
  }

  lemma LastCounts<K, V>(items: seq<Item<K, V>>, k: K, less: bool)
    requires items != [] && HasKey(items[|items| - 1], k) && (less || Absent(items[..|items| - 1], k))
    ensures Counts(items, |items| - 1, k, less)
  {
    var n := |items| - 1;
    assert forall q :: 0 <= q < n ==> items[..n][q] == items[q];
  }

  lemma {:induction false} PickedEntry<K, V>(items: seq<Item<K, V>>, k: K, less: bool) returns (p: nat)
    ensures Pick(RowsOf(items), k, less).None? <==> Absent(items, k)
    ensures Pick(RowsOf(items), k, less).Some? ==>
      Counts(items, p, k, less) && items[p].row.cells == Pick(RowsOf(items), k, less).value
  {
    p := 0;
    if items != [] {
      var n := |items| - 1;
      p := PickedEntry(items[..n], k, less);
      RowsPick(items, k, less);
      AbsentSnoc(items, k);
      if HasKey(items[n], k) && (less || Absent(items[..n], k)) {
        LastCounts(items, k, less);
        p := n;
      } else if !Absent(items[..n], k) {
        StillCounts(items, p, k, less);
      }
    }
  }

  /** The picked data with one more entry. */
  lemma RowsPick<K, V>(items: seq<Item<K, V>>, k: K, less: bool)
    requires items != []
    ensures var n := |items| - 1;
      var before := Pick(RowsOf(items[..n]), k, less);
      Pick(RowsOf(items), k, less) == if HasKey(items[n], k) && (less || before.None?) then Some(items[n].row.cells) else before
  {
    var n := |items| - 1;
    var rows := RowsOf(items[..n]);
    if items[n].Values? {
      assert RowsOf(items) == rows + [items[n].row];
      assert (rows + [items[n].row])[..|rows|] == rows;
    } else {
      assert RowsOf(items) == rows + [] == rows;
    }
  }

  lemma CountsOnce<K, V>(items: seq<Item<K, V>>, p: nat, q: nat, k: K, less: bool)
    requires Counts(items, p, k, less) && Counts(items, q, k, less)
    ensures p == q
  {
  }

  lemma BlockShows<K, V>(view: View<K, V>, k: K, less: bool)
    ensures ShowsEntry(view, k, less, Block(Pick(RowsOf(view.items), k, less), view.numColumns))
  {
    var p := PickedEntry(view.items, k, less);
    forall q: nat | Counts(view.items, q, k, less) ensures q == p {
      assert !Absent(view.items, k);
      CountsOnce(view.items, p, q, k, less);
    }
  }

  // ----- all views -----------------------------------------------------------------------

  lemma {:induction false} JoinedWidth<K, V>(views: seq<View<K, V>>, n: nat, k: K, less: bool)
    requires WellFormed(views) && n <= |views|
    ensures |JoinedCells(views, n, k, less)| == TotalColumns(views[..n])
  {
    if n > 0 {
      JoinedWidth(views, n - 1, k, less);
      assert views[..n][..n - 1] == views[..n - 1];
      assert RowsFit(RowsOf(views[n - 1].items), views[n - 1].numColumns);
      PickFits(RowsOf(views[n - 1].items), k, less, views[n - 1].numColumns);
    }
  }

  /** The cells of view i for key k. */
  ghost function BlockOf<K, V>(views: seq<View<K, V>>, k: K, less: bool, i: nat): seq<Cell<V>>
    requires i < |views|
  {
    Block(Pick(RowsOf(views[i].items), k, less), views[i].numColumns)
  }

  lemma BlockWidth<K, V>(views: seq<View<K, V>>, k: K, less: bool, i: nat)
    requires WellFormed(views) && i < |views|
    ensures |BlockOf(views, k, less, i)| == views[i].numColumns
  {
    assert RowsFit(RowsOf(views[i].items), views[i].numColumns);
    PickFits(RowsOf(views[i].items), k, less, views[i].numColumns);
  }

  ghost predicate Stands<V>(cells: seq<Cell<V>>, from: nat, block: seq<Cell<V>>) {
    from + |block| <= |cells| && cells[from..from + |block|] == block
  }

  lemma StandsLonger<V>(cells: seq<Cell<V>>, more: seq<Cell<V>>, from: nat, block: seq<Cell<V>>)
    requires Stands(cells, from, block)
    ensures Stands(cells + more, from, block)
  {
    SliceOfFirst(cells, more, from, from + |block|);
  }

  lemma StandsLast<V>(cells: seq<Cell<V>>, block: seq<Cell<V>>)
    ensures Stands(cells + block, |cells|, block)
  {
    SliceOfSecond(cells, block);
  }

  lemma JoinedStep<K, V>(views: seq<View<K, V>>, n: nat, k: K, less: bool)
    requires n < |views|
    ensures JoinedCells(views, n + 1, k, less) == JoinedCells(views, n, k, less) + BlockOf(views, k, less, n)
  {
  }

  /** View i's block starts after the columns of the views before it. */
  lemma {:induction false} BlockStands<K, V>(views: seq<View<K, V>>, n: nat, k: K, less: bool, i: nat)
    requires WellFormed(views) && i < n <= |views|
    ensures Stands(JoinedCells(views, n, k, less), TotalColumns(views[..i]), BlockOf(views, k, less, i))
  {
    if i < n - 1 {
      BlockStands(views, n - 1, k, less, i);
      JoinedStep(views, n - 1, k, less);
      StandsLonger(JoinedCells(views, n - 1, k, less), BlockOf(views, k, less, n - 1), TotalColumns(views[..i]), BlockOf(views, k, less, i));
    } else {
      LastBlockStands(views, i, k, less);
    }
  }

  lemma LastBlockStands<K, V>(views: seq<View<K, V>>, i: nat, k: K, less: bool)
    requires WellFormed(views) && i < |views|
    ensures Stands(JoinedCells(views, i + 1, k, less), TotalColumns(views[..i]), BlockOf(views, k, less, i))
  {
    JoinedStep(views, i, k, less);
    JoinedWidth(views, i, k, less);
    StandsLast(JoinedCells(views, i, k, less), BlockOf(views, k, less, i));
  }

  lemma SliceOfFirst<T>(a: seq<T>, b: seq<T>, from: nat, to: nat)
    requires from <= to <= |a|
    ensures (a + b)[from..to] == a[from..to]
  {
  }

  lemma SliceOfSecond<T>(a: seq<T>, b: seq<T>)
    ensures (a + b)[|a|..|a| + |b|] == b
  {
  }

  lemma RowShows<K, V>(views: seq<View<K, V>>, less: bool, row: Row<K, Cell<V>>, i: nat)
    requires WellFormed(views) && i < |views| && row.cells == JoinedCells(views, |views|, row.key, less)
    ensures ShowsAt(views, less, row, i)
  {
    BlockStands(views, |views|, row.key, less, i);
    BlockWidth(views, row.key, less, i);
    BlockShows(views[i], row.key, less);
  }

  lemma MergedRowIsJoined<K, V>(views: seq<View<K, V>>, less: bool, r: nat)
    requires views != [] && Distinct(Keys(RowsOf(views[0].items))) && r < |Merged(views, less)|
    ensures var row := Merged(views, less)[r]; row.cells == JoinedCells(views, |views|, row.key, less)
  {
    MasterStartsWithFirstView(views, |views|);
    MergedIsJoined(views, |views|, Master(views, |views|), r, less);
  }

  /** With distinct keys in the first view every value of every view stands where it belongs: in the
      row of its key, in its view's columns, at its own column; the rest are place holders. */
  lemma MergedShowsCells<K, V>(views: seq<View<K, V>>, less: bool)
    requires WellFormed(views) && Distinct(Keys(RowsOf(views[0].items)))
    ensures ShowsCells(views, less, Merged(views, less))
  {
    var table := Merged(views, less);
    forall r, i | 0 <= r < |table| && 0 <= i < |views| ensures ShowsAt(views, less, table[r], i) {
      MergedRowIsJoined(views, less, r);
      RowShows(views, less, table[r], i);
    }
  }

  // ----- repeated keys in the first view ----------------------------------------------

  /** Entry p is row r: the entries before it hold r rows. */
  ghost predicate IsRowOf<K, V>(items: seq<Item<K, V>>, p: nat, r: nat) {
    p < |items| && items[p].Values? && |RowsOf(items[..p])| == r
  }

  lemma {:induction false} RowAtPlace<K, V>(items: seq<Item<K, V>>, p: nat, r: nat)
    requires IsRowOf(items, p, r)
    ensures r < |RowsOf(items)| && RowsOf(items)[r] == items[p].row
    decreases |items|
  {
    var n := |items| - 1;
    if p < n {
      assert items[..n][..p] == items[..p];
      RowAtPlace(items[..n], p, r);
    }
  }

  /** The data that view i contributes to row r of the master. */
  ghost function Contribution<K, V>(views: seq<View<K, V>>, master: seq<K>, r: nat, less: bool, i: nat): Option<seq<V>>
    requires i < |views| && r < |master|
  {
    var rows := RowsOf(views[i].items);
    if i > 0 then LaterData(rows, master, r, less) else if r < |rows| then Some(rows[r].cells) else None
  }

  lemma ContributionFits<K, V>(views: seq<View<K, V>>, master: seq<K>, r: nat, less: bool, i: nat)
    requires WellFormed(views) && i < |views| && r < |master|
    ensures |Block(Contribution(views, master, r, less, i), views[i].numColumns)| == views[i].numColumns
  {
    var rows := RowsOf(views[i].items);
    assert RowsFit(rows, views[i].numColumns);
    PickFits(rows, master[r], less, views[i].numColumns);
  }

  lemma MergedStep<K, V>(views: seq<View<K, V>>, n: nat, master: seq<K>, r: nat, less: bool)
    requires n < |views| && r < |master|
    ensures MergedCells(views, n + 1, master, r, less) ==
      (if n == 0 then [] else MergedCells(views, n, master, r, less)) +
      Block(Contribution(views, master, r, less, n), views[n].numColumns)
  {
  }

  ghost function ContributionBlock<K, V>(views: seq<View<K, V>>, master: seq<K>, r: nat, less: bool, i: nat): seq<Cell<V>>
    requires i < |views| && r < |master|
  {
    Block(Contribution(views, master, r, less, i), views[i].numColumns)
  }

  lemma LastContributionStands<K, V>(views: seq<View<K, V>>, master: seq<K>, r: nat, less: bool, i: nat)
    requires WellFormed(views) && i < |views| && r < |master|
    ensures Stands(MergedCells(views, i + 1, master, r, less), TotalColumns(views[..i]),
                   ContributionBlock(views, master, r, less, i))
  {
    MergedStep(views, i, master, r, less);
    if i > 0 {
      MergedWidth(views, i, master, r, less);
      StandsLast(MergedCells(views, i, master, r, less), ContributionBlock(views, master, r, less, i));
    } else {
      assert TotalColumns(views[..0]) == 0;
      StandsLast([], ContributionBlock(views, master, r, less, i));
    }
  }

  lemma {:induction false} ContributionStands<K, V>(views: seq<View<K, V>>, n: nat, master: seq<K>, r: nat, less: bool, i: nat)
    requires WellFormed(views) && i < n <= |views| && r < |master|
    ensures Stands(MergedCells(views, n, master, r, less), TotalColumns(views[..i]),
                   ContributionBlock(views, master, r, less, i))
  {
    if i < n - 1 {
      ContributionStands(views, n - 1, master, r, less, i);
      MergedStep(views, n - 1, master, r, less);
      StandsLonger(MergedCells(views, n - 1, master, r, less), ContributionBlock(views, master, r, less, n - 1),
                   TotalColumns(views[..i]), ContributionBlock(views, master, r, less, i));
    } else {
      LastContributionStands(views, master, r, less, i);
    }
  }

  /** A lower row has the same key. */
  ghost predicate Repeated<K, V>(table: seq<Row<K, Cell<V>>>, r: nat) {
    r < |table| && exists r' :: r < r' < |table| && table[r'].key == table[r].key
  }

  ghost predicate ShowsRow<K, V>(view: View<K, V>, table: seq<Row<K, Cell<V>>>, r: nat) {
    && (forall p: nat :: IsRowOf(view.items, p, r) ==>
          r < |table| && table[r].key == view.items[p].row.key &&
          forall j :: 0 <= j < |view.items[p].row.cells| ==>
            j < |table[r].cells| && table[r].cells[j] == Data(view.items[p].row.cells[j]))
    && (|RowsOf(view.items)| <= r < |table| ==>
          forall j :: 0 <= j < view.numColumns ==> j < |table[r].cells| && table[r].cells[j] == PlaceHolder)
  }

  /** The columns of a later view on row r: its entry for the key, on the last row with that key. */
  ghost predicate ShowsLater<K, V>(views: seq<View<K, V>>, less: bool, table: seq<Row<K, Cell<V>>>, r: nat, i: nat)
    requires r < |table| && i < |views|
  {
    var from := TotalColumns(views[..i]);
    if Repeated(table, r) then
      forall j :: from <= j < from + views[i].numColumns ==> j < |table[r].cells| && table[r].cells[j] == PlaceHolder
    else ShowsAt(views, less, table[r], i)
  }

  lemma LastIndexIsLast<K>(s: seq<K>, r: nat)
    requires r < |s|
    ensures LastIndex(s, s[r]) == r <==> forall r' :: r < r' < |s| ==> s[r'] != s[r]
  {
    var l := LastIndex(s, s[r]);
    assert s[l] == s[r] && r <= l;
  }

  lemma MergedIs<K, V>(views: seq<View<K, V>>, less: bool, r: nat)
    requires views != [] && r < |Merged(views, less)|
    ensures var m := Master(views, |views|);
      |m| == |Merged(views, less)| && Merged(views, less)[r] == Row(MergedCells(views, |views|, m, r, less), m[r])
  {
  }

  lemma RepeatedIff<K, V>(views: seq<View<K, V>>, less: bool, r: nat)
    requires views != [] && r < |Merged(views, less)|
    ensures r < |Master(views, |views|)|
    ensures Repeated(Merged(views, less), r) <==> LastIndex(Master(views, |views|), Master(views, |views|)[r]) != r
  {
    var m, table := Master(views, |views|), Merged(views, less);
    MergedIs(views, less, r);
    forall q | 0 <= q < |table| ensures table[q].key == m[q] { MergedIs(views, less, q); }
    LastIndexIsLast(m, r);
  }

  /** The contribution of a later view stands in its columns. */
  lemma LaterStands<K, V>(views: seq<View<K, V>>, less: bool, r: nat, i: nat)
    requires WellFormed(views) && r < |Merged(views, less)| && 0 < i < |views|
    ensures var row := Merged(views, less)[r];
      var data := if Repeated(Merged(views, less), r) then None else Pick(RowsOf(views[i].items), row.key, less);
      Stands(row.cells, TotalColumns(views[..i]), Block(data, views[i].numColumns)) &&
      |Block(data, views[i].numColumns)| == views[i].numColumns
  {
    MergedIs(views, less, r);
    RepeatedIff(views, less, r);
    ContributionStands(views, |views|, Master(views, |views|), r, less, i);
    ContributionFits(views, Master(views, |views|), r, less, i);
  }

  lemma LaterShows<K, V>(views: seq<View<K, V>>, less: bool, r: nat, i: nat)
    requires WellFormed(views) && r < |Merged(views, less)| && 0 < i < |views|
    ensures ShowsLater(views, less, Merged(views, less), r, i)
  {
    LaterStands(views, less, r, i);
    var table := Merged(views, less);
    if Repeated(table, r) {
      PlaceHoldersStand(table[r].cells, TotalColumns(views[..i]), views[i].numColumns);
    } else {
      BlockShows(views[i], table[r].key, less);
    }
  }

  lemma PlaceHoldersStand<V>(cells: seq<Cell<V>>, from: nat, n: nat)
    requires Stands(cells, from, Block(None, n))
    ensures forall j :: from <= j < from + n ==> j < |cells| && cells[j] == PlaceHolder
  {
    forall j | from <= j < from + n ensures cells[j] == PlaceHolder {
      assert cells[from..from + n][j - from] == PlaceHolder;
    }
  }

  lemma FirstShows<K, V>(views: seq<View<K, V>>, less: bool, r: nat)
    requires WellFormed(views)
    ensures ShowsRow(views[0], Merged(views, less), r)
  {
    var m, table, rows := Master(views, |views|), Merged(views, less), RowsOf(views[0].items);
    MasterStartsWithFirstView(views, |views|);
    if r < |table| {
      MergedIs(views, less, r);
      ContributionStands(views, |views|, m, r, less, 0);
      assert TotalColumns(views[..0]) == 0;
      FirstColumns(views[0], table, r, Contribution(views, m, r, less, 0));
    }
    forall p: nat | IsRowOf(views[0].items, p, r) ensures r < |rows| { RowAtPlace(views[0].items, p, r); }
    assert r < |rows| ==> Keys(rows)[r] == m[r];
  }

  lemma FirstColumns<K, V>(view: View<K, V>, table: seq<Row<K, Cell<V>>>, r: nat, data: Option<seq<V>>)
    requires r < |table| && Stands(table[r].cells, 0, Block(data, view.numColumns))
    requires var rows := RowsOf(view.items); data == if r < |rows| then Some(rows[r].cells) else None
    requires r < |RowsOf(view.items)| ==> table[r].key == RowsOf(view.items)[r].key
    ensures ShowsRow(view, table, r)
  {
    var block := Block(data, view.numColumns);
    assert forall j :: 0 <= j < |block| ==> table[r].cells[0..|block|][j] == table[r].cells[j];
    forall p: nat | IsRowOf(view.items, p, r) ensures r < |RowsOf(view.items)| && RowsOf(view.items)[r] == view.items[p].row {
      RowAtPlace(view.items, p, r);
    }
  }

  ghost predicate ShowsRows<K, V>(views: seq<View<K, V>>, less: bool, table: seq<Row<K, Cell<V>>>)
    requires views != []
  {
    && (forall r: nat :: ShowsRow(views[0], table, r))
    && (forall r, i :: 0 <= r < |table| && 0 < i < |views| ==> ShowsLater(views, less, table, r, i))
  }

  /** Whatever the keys: the first view's rows come first, in order, each with its values; a later
      view's values stand on the last row of their key. */
  lemma MergedShowsRows<K, V>(views: seq<View<K, V>>, less: bool)
    requires WellFormed(views)
    ensures ShowsRows(views, less, Merged(views, less))
  {
    forall r: nat ensures ShowsRow(views[0], Merged(views, less), r) { FirstShows(views, less, r); }
    forall r, i | 0 <= r < |Merged(views, less)| && 0 < i < |views|
      ensures ShowsLater(views, less, Merged(views, less), r, i)
    {
      LaterShows(views, less, r, i);
    }
  }

  // ----- keys --------------------------------------------------------------------------------

  /** Place (i, p) comes before place (i', p'). */
  predicate Before(i: nat, p: nat, i': nat, p': nat) { i < i' || (i == i' && p < p') }

  ghost predicate KeyAt<K, V>(views: seq<View<K, V>>, i: nat, p: nat, k: K) {
    i < |views| && p < |views[i].items| && HasKey(views[i].items[p], k)
  }

  ghost predicate InTable<K, V>(table: seq<Row<K, Cell<V>>>, k: K) {
    exists r :: 0 <= r < |table| && table[r].key == k
  }

  /** Each key of any view has exactly one row, and no row has another key; of two rows the upper one
      has the key that appears first. */
  ghost predicate ShowsKeys<K(!new), V>(views: seq<View<K, V>>, table: seq<Row<K, Cell<V>>>) {
    && (forall k :: InTable(table, k) <==> SomewhereKey(views, k))
    && (forall r, r' :: 0 <= r < r' < |table| ==> table[r].key != table[r'].key && FirstSeen(views, table[r].key, table[r'].key))
  }

  ghost predicate SomewhereKey<K, V>(views: seq<View<K, V>>, k: K) { exists i: nat, p: nat :: KeyAt(views, i, p, k) }

  /** k appears somewhere before every appearance of k'. */
  ghost predicate FirstSeen<K, V>(views: seq<View<K, V>>, k: K, k': K) {
    exists i: nat, p: nat :: KeyAt(views, i, p, k) &&
      forall i': nat, p': nat :: KeyAt(views, i', p', k') ==> Before(i, p, i', p')
  }

  lemma {:induction false} RowPlace<K, V>(items: seq<Item<K, V>>, y: nat) returns (p: nat)
    requires y < |RowsOf(items)|
    ensures p < |items| && HasKey(items[p], Keys(RowsOf(items))[y])
    ensures forall q :: 0 <= q <= p && items[q].Values? ==> items[q].row.key in Keys(RowsOf(items))[..y + 1]
  {
    var n := |items| - 1;
    var rows := RowsOf(items[..n]);
    assert Keys(rows) == Keys(RowsOf(items))[..|rows|];
    if y < |rows| {
      p := RowPlace(items[..n], y);
      assert Keys(rows)[..y + 1] == Keys(RowsOf(items))[..y + 1];
      assert forall q :: 0 <= q < n ==> items[..n][q] == items[q];
    } else {
      p := n;
      forall q | 0 <= q <= n && items[q].Values? ensures items[q].row.key in Keys(RowsOf(items))[..y + 1] {
        ItemIsRow(items, q);
        assert Keys(RowsOf(items))[..y + 1] == Keys(RowsOf(items));
      }
    }
  }

  lemma {:induction false} ItemIsRow<K, V>(items: seq<Item<K, V>>, p: nat)
    requires p < |items| && items[p].Values?
    ensures items[p].row.key in Keys(RowsOf(items))
  {
    var n := |items| - 1;
    if p < n {
      ItemIsRow(items[..n], p);
      assert Keys(RowsOf(items[..n])) == Keys(RowsOf(items))[..|RowsOf(items[..n])|];
    } else {
      assert Keys(RowsOf(items))[|RowsOf(items)| - 1] == items[n].row.key;
    }
  }

  lemma {:induction false} PlaceIsKey<K, V>(views: seq<View<K, V>>, i: nat, p: nat, k: K)
    requires KeyAt(views, i, p, k)
    ensures k in AllKeys(views)
  {
    var n := |views| - 1;
    if i < n {
      assert views[..n][i] == views[i];
      PlaceIsKey(views[..n], i, p, k);
    } else {
      ItemIsRow(views[n].items, p);
    }
  }

  /** Key x of all keys stands at some place, and all keys up to that place are among the first x. */
  lemma {:induction false} KeyPlace<K, V>(views: seq<View<K, V>>, x: nat) returns (i: nat, p: nat)
    requires x < |AllKeys(views)|
    ensures KeyAt(views, i, p, AllKeys(views)[x])
    ensures forall i': nat, p': nat, k :: KeyAt(views, i', p', k) && !Before(i, p, i', p') ==> k in AllKeys(views)[..x + 1]
  {
    var n := |views| - 1;
    var before := AllKeys(views[..n]);
    if x < |before| {
      i, p := KeyPlace(views[..n], x);
      assert AllKeys(views)[..x + 1] == before[..x + 1];
      assert views[..n][i] == views[i];
      forall i': nat, p': nat, k | KeyAt(views, i', p', k) && !Before(i, p, i', p') ensures k in AllKeys(views)[..x + 1] {
        assert views[..n][i'] == views[i'];
        assert KeyAt(views[..n], i', p', k);
      }
    } else {
      i := n;
      p := RowPlace(views[n].items, x - |before|);
      LastViewPlace(views, x, p);
    }
  }

  lemma LastViewPlace<K, V>(views: seq<View<K, V>>, x: nat, p: nat)
    requires views != [] && |AllKeys(views[..|views| - 1])| <= x < |AllKeys(views)|
    requires var items := views[|views| - 1].items;
      var y := x - |AllKeys(views[..|views| - 1])|;
      p < |items| && y < |RowsOf(items)| &&
      forall q :: 0 <= q <= p && items[q].Values? ==> items[q].row.key in Keys(RowsOf(items))[..y + 1]
    ensures forall i': nat, p': nat, k :: KeyAt(views, i', p', k) && !Before(|views| - 1, p, i', p') ==>
      k in AllKeys(views)[..x + 1]
  {
    var n := |views| - 1;
    var before, items := AllKeys(views[..n]), views[n].items;
    assert AllKeys(views)[..x + 1] == before + Keys(RowsOf(items))[..x - |before| + 1];
    forall i': nat, p': nat, k | KeyAt(views, i', p', k) && !Before(n, p, i', p') ensures k in AllKeys(views)[..x + 1] {
      if i' < n {
        assert views[..n][i'] == views[i'];
        PlaceIsKey(views[..n], i', p', k);
      }
    }
  }

  /** A member of s comes before another in the list of first occurrences only if it appears first. */
  lemma {:induction false} FirstOccurrencesInOrder<K>(s: seq<K>, a: nat, b: nat) returns (x: nat)
    requires a < b < |FirstOccurrences(s)|
    ensures x < |s| && s[x] == FirstOccurrences(s)[a] && FirstOccurrences(s)[b] !in s[..x + 1]
  {
    var n := |s| - 1;
    var before := FirstOccurrences(s[..n]);
    if b < |before| {
      x := FirstOccurrencesInOrder(s[..n], a, b);
      assert s[..n][..x + 1] == s[..x + 1];
    } else {
      assert |before| == b;
      OccursIn(s[..n], a);
      x :| 0 <= x < n && s[..n][x] == before[a];
      assert forall y :: 0 <= y <= x ==> s[y] in s[..n];
    }
  }

  lemma OccursIn<K>(s: seq<K>, a: nat)
    requires a < |FirstOccurrences(s)|
    ensures FirstOccurrences(s)[a] in s
  {
    FirstOccurrencesAre(s);
    var k := FirstOccurrences(s)[a];
    assert k in FirstOccurrences(s);
  }

  lemma MergedKeys<K, V>(views: seq<View<K, V>>, less: bool)
    requires views != [] && Distinct(Keys(RowsOf(views[0].items)))
    ensures var fs := FirstOccurrences(AllKeys(views));
      |Merged(views, less)| == |fs| && forall r :: 0 <= r < |fs| ==> Merged(views, less)[r].key == fs[r]
  {
    MasterIsFirstOccurrences(views, |views|);
    assert views[..|views|] == views;
  }

  lemma KeyIsSomewhere<K(!new), V>(views: seq<View<K, V>>, k: K)
    ensures k in AllKeys(views) <==> SomewhereKey(views, k)
  {
    if k in AllKeys(views) {
      var x :| 0 <= x < |AllKeys(views)| && AllKeys(views)[x] == k;
      var i, p := KeyPlace(views, x);
    }
    if i: nat, p: nat :| KeyAt(views, i, p, k) { PlaceIsKey(views, i, p, k); }
  }

  lemma UpperIsFirstSeen<K(!new), V>(views: seq<View<K, V>>, a: nat, b: nat)
    requires a < b < |FirstOccurrences(AllKeys(views))|
    ensures FirstSeen(views, FirstOccurrences(AllKeys(views))[a], FirstOccurrences(AllKeys(views))[b])
  {
    var x := FirstOccurrencesInOrder(AllKeys(views), a, b);
    var i, p := KeyPlace(views, x);
  }

  /** With distinct keys in the first view the rows are the keys of all views, once each, in order of
      first appearance. */
  lemma MergedShowsKeys<K(!new), V>(views: seq<View<K, V>>, less: bool)
    requires views != [] && Distinct(Keys(RowsOf(views[0].items)))
    ensures ShowsKeys(views, Merged(views, less))
  {
    var table, fs := Merged(views, less), FirstOccurrences(AllKeys(views));
    MergedKeys(views, less);
    FirstOccurrencesAre(AllKeys(views));
    forall k ensures InTable(table, k) <==> SomewhereKey(views, k) {
      KeyIsSomewhere(views, k);
      TableHas(table, fs, k);
    }
    forall r, r' | 0 <= r < r' < |table|
      ensures table[r].key != table[r'].key && FirstSeen(views, table[r].key, table[r'].key)
    {
      UpperIsFirstSeen(views, r, r');
    }
  }

  lemma TableHas<K, V>(table: seq<Row<K, Cell<V>>>, ks: seq<K>, k: K)
    requires |table| == |ks| && forall r :: 0 <= r < |ks| ==> table[r].key == ks[r]
    ensures InTable(table, k) <==> k in ks
  {
    if k in ks {
      var r :| 0 <= r < |ks| && ks[r] == k;
      assert table[r].key == k;
    }
  }
}
