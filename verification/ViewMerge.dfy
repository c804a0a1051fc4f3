/** The code that merges views (Generate_CustomView in SS_Compare.cxx). */
module ViewMerge {
  import opened Wrappers
  import opened ViewJoin
  import opened ViewCells

  /** master_map sends each key of the master to its last index. */
  ghost predicate MapsTo<K(!new)>(m: map<K, nat>, master: seq<K>) {
    forall k :: (k in m <==> k in master) && (k in m ==> m[k] == LastIndex(master, k))
  }

  /** merge_map holds exactly the data its view contributes to row r. */
  ghost predicate HoldsAt<K, V>(mm: map<nat, seq<V>>, master: seq<K>, rows: seq<Row<K, V>>, less: bool, r: nat) {
    && (r in mm <==> r < |master| && LaterData(rows, master, r, less).Some?)
    && (r in mm ==> LaterData(rows, master, r, less) == Some(mm[r]))
  }

  ghost predicate Holds<K, V>(mm: map<nat, seq<V>>, master: seq<K>, rows: seq<Row<K, V>>, less: bool) {
    forall r: nat :: HoldsAt(mm, master, rows, less, r)
  }

  lemma LastIndexSnoc<K>(s: seq<K>, x: K, k: K)
    ensures LastIndex(s + [x], x) == |s|
    ensures k in s && k != x ==> LastIndex(s + [x], k) == LastIndex(s, k)
  {
    assert (s + [x])[..|s|] == s;
  }

  lemma RowsOfSnoc<K, V>(items: seq<Item<K, V>>, p: nat)
    requires p < |items|
    ensures RowsOf(items[..p + 1]) == RowsOf(items[..p]) + if items[p].Values? then [items[p].row] else []
  {
    assert items[..p + 1][..p] == items[..p];
  }

  /** The first view gives the master its first keys. */
  method InitMaster<K(==,!new), V>(items: seq<Item<K, V>>) returns (master: seq<K>, index: map<K, nat>)
    ensures master == Keys(RowsOf(items)) && MapsTo(index, master)
  {
    master, index := [], map[];
    for p := 0 to |items|
      invariant master == Keys(RowsOf(items[..p])) && MapsTo(index, master)
    {
      RowsOfSnoc(items, p);
      if items[p].Values? {
        var key := items[p].row.key;
        forall k ensures k in master && k != key ==> LastIndex(master + [key], k) == LastIndex(master, k) {
          LastIndexSnoc(master, key, k);
        }
        LastIndexSnoc(master, key, key);
        index := index[key := |master|];
        master := master + [key];
      }
    }
    assert items[..|items|] == items;
  }

  lemma PickSnoc<K, V>(rows: seq<Row<K, V>>, row: Row<K, V>, k: K, less: bool)
    ensures Pick(rows + [row], k, less) ==
      if row.key == k && (Pick(rows, k, less).None? || less) then Some(row.cells) else Pick(rows, k, less)
  {
    assert (rows + [row])[..|rows|] == rows;
  }

  /** A row whose key the master has: its data goes to the key's last index, unless kept out. */
  lemma HoldsKnown<K, V>(mm: map<nat, seq<V>>, master: seq<K>, rows: seq<Row<K, V>>, row: Row<K, V>, less: bool)
    requires Holds(mm, master, rows, less) && row.key in master
    ensures var i := LastIndex(master, row.key);
      && (i in mm <==> row.key in Keys(rows))
      && Holds(if i in mm && !less then mm else mm[i := row.cells], master, rows + [row], less)
  {
    var i := LastIndex(master, row.key);
    assert HoldsAt(mm, master, rows, less, i);
    PickNone(rows, row.key, less);
    var mm' := if i in mm && !less then mm else mm[i := row.cells];
    forall r: nat ensures HoldsAt(mm', master, rows + [row], less, r) {
      assert HoldsAt(mm, master, rows, less, r);
      if r < |master| { PickSnoc(rows, row, master[r], less); }
    }
  }

  /** Appending a key none of the rows has changes nothing about them. */
  lemma HoldsUnseen<K, V>(mm: map<nat, seq<V>>, master: seq<K>, rows: seq<Row<K, V>>, key: K, less: bool)
    requires Holds(mm, master, rows, less) && key !in master && key !in Keys(rows)
    ensures Holds(mm, master + [key], rows, less)
  {
    var master' := master + [key];
    PickNone(rows, key, less);
    forall r: nat ensures HoldsAt(mm, master', rows, less, r) {
      assert HoldsAt(mm, master, rows, less, r);
      if r < |master'| { LastIndexSnoc(master, key, master'[r]); }
    }
  }

  lemma {:induction false} HoldsExtended<K, V>(mm: map<nat, seq<V>>, master: seq<K>, rows: seq<Row<K, V>>, ks: seq<K>, less: bool)
    requires Holds(mm, master, rows, less) && forall k :: k in Keys(rows) ==> k in master
    ensures Holds(mm, Extend(master, ks), rows, less)
  {
    if ks != [] {
      var n := |ks| - 1;
      HoldsExtended(mm, master, rows, ks[..n], less);
      ExtendKeepsPrefix(master, ks[..n]);
      if ks[n] !in Extend(master, ks[..n]) {
        HoldsUnseen(mm, Extend(master, ks[..n]), rows, ks[n], less);
      }
    }
  }

  lemma KeysSnoc<K, V>(rows: seq<Row<K, V>>, row: Row<K, V>, master: seq<K>)
    ensures Keys(rows + [row]) == Keys(rows) + [row.key]
    ensures Extend(master, Keys(rows + [row])) ==
      if row.key in Extend(master, Keys(rows)) then Extend(master, Keys(rows)) else Extend(master, Keys(rows)) + [row.key]
    ensures Distinct(Keys(rows + [row])) <==> Distinct(Keys(rows)) && row.key !in Keys(rows)
  {
    var ks := Keys(rows + [row]);
    assert ks == Keys(rows) + [row.key];
    assert ks[..|ks| - 1] == Keys(rows);
    forall i | 0 <= i < |rows| ensures ks[i] == Keys(rows)[i] {}
  }

  /** The index of a key in the master, where it is added if it is new. */
  method MasterIndex<K(==,!new)>(key: K, master0: seq<K>, index0: map<K, nat>)
    returns (master: seq<K>, index: map<K, nat>, i: nat)
    requires MapsTo(index0, master0)
    ensures master == if key in master0 then master0 else master0 + [key]
    ensures MapsTo(index, master) && i == LastIndex(master, key)
  {
    master, index := master0, index0;
    if key !in index {
      forall k ensures k in master && k != key ==> LastIndex(master + [key], k) == LastIndex(master, k) {
        LastIndexSnoc(master, key, k);
      }
      LastIndexSnoc(master, key, key);
      index := index[key := |master|];
      master := master + [key];
    }
    i := index[key];
  }

  /** One later view: extend the master by unseen keys and fill the view's merge map. */
  method AddView<K(==,!new), V>(items: seq<Item<K, V>>, master0: seq<K>, index0: map<K, nat>, less: bool)
    returns (master: seq<K>, index: map<K, nat>, mm: map<nat, seq<V>>, repeated: bool)
    requires MapsTo(index0, master0)
    ensures master == Extend(master0, Keys(RowsOf(items))) && MapsTo(index, master)
    ensures Holds(mm, master, RowsOf(items), less)
    ensures repeated <==> !less && !Distinct(Keys(RowsOf(items)))
  {
    master, index, mm, repeated := master0, index0, map[], false;
    ghost var rows: seq<Row<K, V>> := [];
    for p := 0 to |items|
      invariant rows == RowsOf(items[..p])
      invariant master == Extend(master0, Keys(rows)) && MapsTo(index, master)
      invariant Holds(mm, master, rows, less)
      invariant repeated <==> !less && !Distinct(Keys(rows))
    {
      RowsOfSnoc(items, p);
      if items[p].Values? {
        var row := items[p].row;
        KeysSnoc(rows, row, master0);
        ExtendKeepsPrefix(master0, Keys(rows));
        if row.key !in index { HoldsUnseen(mm, master, rows, row.key, less); }
        var i;
        master, index, i := MasterIndex(row.key, master, index);
        HoldsKnown(mm, master, rows, row, less);
        if i in mm && !less {
          repeated := true;
        } else {
          mm := mm[i := row.cells];
        }
        rows := rows + [row];
      }
    }
    assert items[..|items|] == items;
  }

  ghost predicate ViewHolds<K, V>(view: View<K, V>, mm: map<nat, seq<V>>, master: seq<K>, less: bool) {
    && Holds(mm, master, RowsOf(view.items), less)
    && KnownKeys(Keys(RowsOf(view.items)), master)
  }

  ghost predicate KnownKeys<K>(ks: seq<K>, master: seq<K>) {
    forall i :: 0 <= i < |ks| ==> ks[i] in master
  }

  /** The merge maps of the views from the second up to n. */
  ghost predicate AllHold<K, V>(views: seq<View<K, V>>, mms: seq<map<nat, seq<V>>>, master: seq<K>, n: nat, less: bool) {
    n <= |views| && |mms| == n && forall i :: 1 <= i < n ==> ViewHolds(views[i], mms[i], master, less)
  }

  lemma AllHoldExtended<K, V>(views: seq<View<K, V>>, mms: seq<map<nat, seq<V>>>, master: seq<K>, n: nat, less: bool,
                              ks: seq<K>)
    requires AllHold(views, mms, master, n, less)
    ensures AllHold(views, mms, Extend(master, ks), n, less)
  {
    ExtendKeepsPrefix(master, ks);
    forall i | 1 <= i < n ensures ViewHolds(views[i], mms[i], Extend(master, ks), less) {
      assert ViewHolds(views[i], mms[i], master, less);
      HoldsExtended(mms[i], master, RowsOf(views[i].items), ks, less);
    }
  }

  lemma AllHoldSnoc<K, V>(views: seq<View<K, V>>, mms: seq<map<nat, seq<V>>>, master: seq<K>, n: nat, less: bool,
                          mm: map<nat, seq<V>>)
    requires AllHold(views, mms, master, n, less) && n < |views| && ViewHolds(views[n], mm, master, less)
    ensures AllHold(views, mms + [mm], master, n + 1, less)
  {
  }

  /** Some view from the second up to n has a key twice. */
  ghost predicate SomeRepeat<K, V>(views: seq<View<K, V>>, n: nat)
    requires n <= |views|
  {
    exists i :: 1 <= i < n && !Distinct(Keys(RowsOf(views[i].items)))
  }

  /** The columns of the later views on row r. */
  method LaterCells<K, V>(views: seq<View<K, V>>, mms: seq<map<nat, seq<V>>>, ghost master: seq<K>, r: nat,
                          given: seq<Cell<V>>, ghost less: bool) returns (cells: seq<Cell<V>>)
    requires 0 < |views| == |mms| && r < |master| && given == MergedCells(views, 1, master, r, less)
    requires AllHold(views, mms, master, |views|, less)
    ensures cells == MergedCells(views, |views|, master, r, less)
  {
    cells := given;
    for i := 1 to |views|
      invariant cells == MergedCells(views, i, master, r, less)
    {
      assert ViewHolds(views[i], mms[i], master, less);
      assert HoldsAt(mms[i], master, RowsOf(views[i].items), less, r);
      if r in mms[i] {
        cells := cells + Block(Some(mms[i][r]), views[i].numColumns);
      } else {
        cells := cells + Block(None, views[i].numColumns);
      }
    }
  }

  /** master, index, merge maps and report after the first n views. */
  ghost predicate Built<K(!new), V>(views: seq<View<K, V>>, n: nat, less: bool, master: seq<K>, index: map<K, nat>,
                                    mms: seq<map<nat, seq<V>>>, repeated: bool)
  {
    && 0 < n <= |views| && master == Master(views, n) && MapsTo(index, master)
    && AllHold(views, mms, master, n, less) && (repeated <==> !less && SomeRepeat(views, n))
  }

  lemma SomeRepeatSnoc<K, V>(views: seq<View<K, V>>, n: nat)
    requires 0 < n < |views|
    ensures SomeRepeat(views, n + 1) <==> SomeRepeat(views, n) || !Distinct(Keys(RowsOf(views[n].items)))
  {
  }

  lemma NoneHold<K, V>(views: seq<View<K, V>>, mm: map<nat, seq<V>>, master: seq<K>, less: bool)
    requires views != []
    ensures AllHold(views, [mm], master, 1, less) && !SomeRepeat(views, 1)
  {
  }

  /** The master and the merge maps of all views. */
  method BuildMaps<K(==,!new), V>(views: seq<View<K, V>>, less: bool)
    returns (master: seq<K>, mms: seq<map<nat, seq<V>>>, repeated: bool)
    requires views != []
    ensures master == Master(views, |views|) && AllHold(views, mms, master, |views|, less)
    ensures repeated <==> !less && SomeRepeat(views, |views|)
  {
    var index;
    master, index := InitMaster(views[0].items);
    mms, repeated := [map[]], false;
    NoneHold(views, map[], master, less);
    for i := 1 to |views|
      invariant Built(views, i, less, master, index, mms, repeated)
    {
      master, index, mms, repeated := AddLater(views, i, less, master, index, mms, repeated);
    }
  }

  /** View i extends the master, under which the maps of the views before it still hold. */
  method AddLater<K(==,!new), V>(views: seq<View<K, V>>, i: nat, less: bool, master0: seq<K>, index0: map<K, nat>,
                                 mms0: seq<map<nat, seq<V>>>, repeated0: bool)
    returns (master: seq<K>, index: map<K, nat>, mms: seq<map<nat, seq<V>>>, repeated: bool)
    requires i < |views| && Built(views, i, less, master0, index0, mms0, repeated0)
    ensures Built(views, i + 1, less, master, index, mms, repeated)
  {
    var mm, again;
    master, index, mm, again := AddView(views[i].items, master0, index0, less);
    mms, repeated := mms0 + [mm], repeated0 || again;
    HoldLater(views, i, less, master0, mms0, mm);
    SomeRepeatSnoc(views, i);
  }

  lemma HoldLater<K, V>(views: seq<View<K, V>>, i: nat, less: bool, master0: seq<K>, mms0: seq<map<nat, seq<V>>>,
                        mm: map<nat, seq<V>>)
    requires 0 < i < |views| && AllHold(views, mms0, master0, i, less)
    requires Holds(mm, Extend(master0, Keys(RowsOf(views[i].items))), RowsOf(views[i].items), less)
    ensures AllHold(views, mms0 + [mm], Extend(master0, Keys(RowsOf(views[i].items))), i + 1, less)
  {
    var ks := Keys(RowsOf(views[i].items));
    AllHoldExtended(views, mms0, master0, i, less, ks);
    ExtendKeepsPrefix(master0, ks);
    AllHoldSnoc(views, mms0, Extend(master0, ks), i, less, mm);
  }

  /** Generate_CustomView's merge, without difference column and enders: the merged rows, and
      whether a key repeated in a later view was reported. */
  method Merge<K(==,!new), V>(views: seq<View<K, V>>, less: bool) returns (table: seq<Row<K, Cell<V>>>, repeated: bool)
    requires WellFormed(views)
    ensures table == Merged(views, less)
    ensures Distinct(Keys(RowsOf(views[0].items))) ==> ShowsCells(views, less, table) && ShowsKeys(views, table)
    ensures ShowsRows(views, less, table)
    ensures repeated <==> !less && SomeRepeat(views, |views|)
  {
    var master, mms;
    master, mms, repeated := BuildMaps(views, less);
    MasterStartsWithFirstView(views, |views|);
    table := EmitRows(views, mms, master, less);
    AllRows(views, less, table);
    MergedShowsRows(views, less);
    if Distinct(Keys(RowsOf(views[0].items))) {
      MergedShowsCells(views, less);
      MergedShowsKeys(views, less);
    }
  }

  /** row is row r over the given master. */
  ghost predicate IsRow<K, V>(views: seq<View<K, V>>, master: seq<K>, less: bool, r: nat, row: Row<K, Cell<V>>)
    requires views != [] && r < |master|
  {
    row == Row(MergedCells(views, |views|, master, r, less), master[r])
  }

  lemma AllRows<K, V>(views: seq<View<K, V>>, less: bool, table: seq<Row<K, Cell<V>>>)
    requires views != [] && |table| == |Master(views, |views|)|
    requires forall j :: 0 <= j < |table| ==> IsRow(views, Master(views, |views|), less, j, table[j])
    ensures table == Merged(views, less)
  {
  }

  /** One output row per master entry; the first view's rows are read in order. */
  method EmitRows<K, V>(views: seq<View<K, V>>, mms: seq<map<nat, seq<V>>>, master: seq<K>, ghost less: bool)
    returns (table: seq<Row<K, Cell<V>>>)
    requires views != [] && Keys(RowsOf(views[0].items)) <= master
    requires AllHold(views, mms, master, |views|, less)
    ensures |table| == |master| && forall r :: 0 <= r < |master| ==> IsRow(views, master, less, r, table[r])
  {
    table := [];
    var set0Rows := CountRows(views[0].items);
    var p: nat := 0;
    for r := 0 to |master|
      invariant |table| == r && ReadUpTo(views[0].items, p, r, set0Rows)
      invariant forall j :: 0 <= j < r ==> IsRow(views, master, less, j, table[j])
    {
      var row;
      p, row := EmitRow(views, mms, master, r, p, set0Rows, less);
      table := table + [row];
    }
  }

  /** The entries before p hold the first r rows, as long as there are that many. */
  ghost predicate ReadUpTo<K, V>(items: seq<Item<K, V>>, p: nat, r: nat, rows: nat) {
    p <= |items| && rows == |RowsOf(items)| && (r <= rows ==> RowsOf(items[..p]) == RowsOf(items)[..r])
  }

  method EmitRow<K, V>(views: seq<View<K, V>>, mms: seq<map<nat, seq<V>>>, master: seq<K>, r: nat, from: nat,
                       set0Rows: nat, ghost less: bool)
    returns (p: nat, row: Row<K, Cell<V>>)
    requires views != [] && r < |master| && Keys(RowsOf(views[0].items)) <= master
    requires AllHold(views, mms, master, |views|, less) && ReadUpTo(views[0].items, from, r, set0Rows)
    ensures IsRow(views, master, less, r, row) && ReadUpTo(views[0].items, p, r + 1, set0Rows)
  {
    var cells;
    if r < set0Rows {
      p, cells := FirstCells(views[0], from, r);
    } else {
      p, cells := from, Block(None, views[0].numColumns);
    }
    cells := LaterCells(views, mms, master, r, cells, less);
    row := Row(cells, master[r]);
  }

  /** The columns of the first view's next row. */
  method FirstCells<K, V>(view: View<K, V>, from: nat, ghost r: nat) returns (p: nat, cells: seq<Cell<V>>)
    requires from <= |view.items| && r < |RowsOf(view.items)|
    requires RowsOf(view.items[..from]) == RowsOf(view.items)[..r]
    ensures p <= |view.items| && RowsOf(view.items[..p]) == RowsOf(view.items)[..r + 1]
    ensures cells == Block(Some(RowsOf(view.items)[r].cells), view.numColumns)
  {
    p := NextRow(view.items, from, r);
    cells := Block(Some(view.items[p].row.cells), view.numColumns);
    RowsOfSnoc(view.items, p);
    p := p + 1;
  }

  lemma {:induction false} RowsPrefix<K, V>(items: seq<Item<K, V>>, p: nat)
    requires p <= |items|
    ensures RowsOf(items[..p]) <= RowsOf(items)
    decreases |items| - p
  {
    if p < |items| {
      RowsOfSnoc(items, p);
      RowsPrefix(items, p + 1);
    } else {
      assert items[..p] == items;
    }
  }

  method CountRows<K, V>(items: seq<Item<K, V>>) returns (n: nat)
    ensures n == |RowsOf(items)|
  {
    n := 0;
    for p := 0 to |items|
      invariant n == |RowsOf(items[..p])|
    {
      RowsOfSnoc(items, p);
      if items[p].Values? { n := n + 1; }
    }
    assert items[..|items|] == items;
  }

  /** Step over everything that is not a row of values. */
  method NextRow<K, V>(items: seq<Item<K, V>>, from: nat, ghost r: nat) returns (p: nat)
    requires from <= |items| && r < |RowsOf(items)| && RowsOf(items[..from]) == RowsOf(items)[..r]
    ensures p < |items| && items[p].Values? && items[p].row == RowsOf(items)[r]
    ensures RowsOf(items[..p]) == RowsOf(items)[..r]
  {
    p := from;
    NotAtEnd(items, p, r);
    while !items[p].Values?
      invariant p < |items| && RowsOf(items[..p]) == RowsOf(items)[..r]
      decreases |items| - p
    {
      RowsOfSnoc(items, p);
      p := p + 1;
      NotAtEnd(items, p, r);
    }
    RowsOfSnoc(items, p);
    RowsPrefix(items, p + 1);
  }

  lemma NotAtEnd<K, V>(items: seq<Item<K, V>>, p: nat, r: nat)
    requires p <= |items| && r < |RowsOf(items)| && RowsOf(items[..p]) == RowsOf(items)[..r]
    ensures p < |items|
  {
    assert items[..|items|] == items;
  }
}
