/** select_input_window (Commander.cxx): the round-robin choice of the window to read from. */
module InputSweep {

  type WindowId = nat

  ghost predicate Distinct(list: seq<WindowId>) {
    forall i, j :: 0 <= i < j < |list| ==> list[i] != list[j]
  }

  /** One past the position of the last w, or 0. */
  function Position(list: seq<WindowId>, w: WindowId): (k: nat)
    ensures k <= |list| && (k > 0 ==> list[k - 1] == w) && forall j :: k <= j < |list| ==> list[j] != w
  {
    if list == [] then 0
    else if list[|list| - 1] == w then |list|
    else Position(list[..|list| - 1], w)
  }

  /** The window chosen after last: windows are visited from the newest to the oldest. */
  function Select(list: seq<WindowId>, last: WindowId, isMore: bool): WindowId
    requires list != []
  {
    var k := Position(list, last);
    if isMore then last else if k <= 1 then list[|list| - 1] else list[k - 2]
  }

  /** The choice after k calls outside complex statements. */
  function Selects(list: seq<WindowId>, last: WindowId, k: nat): WindowId
    requires list != []
  {
    if k == 0 then last else Select(list, Selects(list, last, k - 1), false)
  }

  /** k places before i in a ring of n. */
  function Back(n: nat, i: nat, k: nat): (j: nat)
    requires i < n && k <= n
    ensures j < n
  {
    if k <= i then i - k else i + n - k
  }

  lemma SelectGoesBack(list: seq<WindowId>, b: nat)
    requires Distinct(list) && b < |list|
    ensures Select(list, list[b], false) == list[if b == 0 then |list| - 1 else b - 1]
  {
    assert Position(list, list[b]) == b + 1;
  }

  lemma {:induction false} SelectsAt(list: seq<WindowId>, i: nat, k: nat)
    requires Distinct(list) && i < |list| && k <= |list|
    ensures Selects(list, list[i], k) == list[Back(|list|, i, k)]
  {
    if k > 0 {
      SelectsAt(list, i, k - 1);
      SelectGoesBack(list, Back(|list|, i, k - 1));
    }
  }

  ghost predicate Visited(list: seq<WindowId>, first: WindowId, w: WindowId)
    requires list != []
  {
    exists k: nat :: k < |list| && Selects(list, first, k) == w
  }

  lemma SweepVisits(list: seq<WindowId>, i: nat, w: WindowId)
    requires Distinct(list) && i < |list| && w in list
    ensures Visited(list, list[i], w)
  {
    var j :| 0 <= j < |list| && list[j] == w;
    var k := if j <= i then i - j else i + |list| - j;
    SelectsAt(list, i, k);
    assert Selects(list, list[i], k) == w;
  }

  /** n calls in a row choose each of the n windows exactly once and end where they began. */
  lemma SweepVisitsEachOnce(list: seq<WindowId>, first: WindowId)
    requires Distinct(list) && first in list
    ensures Selects(list, first, |list|) == first
    ensures forall w :: w in list ==> Visited(list, first, w)
    ensures forall j: nat, k: nat :: j < k < |list| ==> Selects(list, first, j) != Selects(list, first, k)
    ensures forall k: nat :: Selects(list, first, k) in list
  {
    var n := |list|;
    var i :| 0 <= i < n && list[i] == first;
    SelectsAt(list, i, n);
    forall w | w in list ensures Visited(list, first, w) { SweepVisits(list, i, w); }
    forall j: nat, k: nat | j < k < n ensures Selects(list, first, j) != Selects(list, first, k) {
      SelectsAt(list, i, j);
      SelectsAt(list, i, k);
    }
    forall k: nat ensures Selects(list, first, k) in list { SelectsStay(list, first, k); }
  }

  lemma {:induction false} SelectsStay(list: seq<WindowId>, first: WindowId, k: nat)
    requires first in list
    ensures Selects(list, first, k) in list
  {
    if k > 0 { SelectsStay(list, first, k - 1); }
  }

  class WindowList {
    var list: seq<WindowId>          // CommandWindowID_list, oldest first
    var lastReadWindow: WindowId     // Last_ReadWindow

    /** An empty list is dereferenced by the search, and Assert(selectwindow) rejects window 0. */
    method SelectInputWindow(isMore: bool) returns (selectwindow: WindowId)
      requires list != []
      modifies this`lastReadWindow
      ensures selectwindow == Select(list, old(lastReadWindow), isMore)
      ensures lastReadWindow == selectwindow
      ensures isMore ==> selectwindow == old(lastReadWindow)
      ensures !isMore && old(lastReadWindow) !in list ==> selectwindow == list[|list| - 1]
    {
      selectwindow := lastReadWindow;
      if !isMore {
        var i := |list|;
        while i > 0 && list[i - 1] != selectwindow
          invariant 0 <= i <= |list|
          invariant forall j :: i <= j < |list| ==> list[j] != selectwindow
        {
          i := i - 1;
        }
        if i > 0 {
          i := i - 1;
          if i == 0 { i := |list|; }
          selectwindow := list[i - 1];
        } else {
          selectwindow := list[|list| - 1];
        }
      }
      lastReadWindow := selectwindow;
    }
  }
}
