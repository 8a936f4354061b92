/**
 * The bookkeeping behind a window that lists objects (package gui.win): the
 * display list, the selection within it, the information sub-windows opened
 * from it, and the persistence of the selected indices.
 */
module GuiWin {
  import opened Wrappers

  /** A Java int. */
  newtype int32 = x: int | -0x8000_0000 <= x < 0x8000_0000

  const MaxInt32: int := 0x7fff_ffff

  /** A screen location in pixels. */
  datatype Point = Point(x: int32, y: int32)

  /** The distance, in x and in y, of a new information window from its owner. */
  const WindowOffset: int := 30

  /**
   * One coordinate moved by WindowOffset as the window does it: the sum is formed
   * in double precision and cast back to int, a cast that saturates at the
   * largest int.
   */
  function Shift(c: int32): (r: int32)
    ensures c as int + WindowOffset <= MaxInt32 ==> r as int == c as int + WindowOffset
    ensures c as int + WindowOffset > MaxInt32 ==> r as int == MaxInt32
  {
    if c as int + WindowOffset > MaxInt32 then MaxInt32 as int32
    else (c as int + WindowOffset) as int32
  }

  /** The location of a new information window opened from a window at p. */
  function Offset(p: Point): (q: Point)
    ensures p.x as int + WindowOffset <= MaxInt32 ==> q.x as int == p.x as int + WindowOffset
    ensures p.y as int + WindowOffset <= MaxInt32 ==> q.y as int == p.y as int + WindowOffset
    ensures q.x >= p.x && q.y >= p.y
  {
    Point(Shift(p.x), Shift(p.y))
  }

  // ---------------------------------------------------------------------------
  // Index sets. A selection is a set of positions of the display list.

  /** Every member of s is a position of a list of length n. */
  ghost predicate InRange(s: set<int>, n: int) {
    forall i :: i in s ==> 0 <= i < n
  }

  /**
   * The members of s below n, in increasing order: what the list reports as its
   * selected indices.
   */
  function Ascending(s: set<int>, n: nat): (r: seq<int>)
    ensures |r| <= n
  {
    if n == 0 then []
    else
      var r := Ascending(s, n - 1);
      if n - 1 in s then r + [n - 1] else r
  }

  /**
   * Ascending lists, in strictly increasing order, exactly the members of s
   * that are below n.
   */
  lemma {:induction false} AscendingSpec(s: set<int>, n: nat)
    ensures |Ascending(s, n)| <= n
    ensures forall k :: 0 <= k < |Ascending(s, n)| ==> 0 <= Ascending(s, n)[k] < n && Ascending(s, n)[k] in s
    ensures forall k, l :: 0 <= k < l < |Ascending(s, n)| ==> Ascending(s, n)[k] < Ascending(s, n)[l]
    ensures forall i :: 0 <= i < n && i in s ==> i in Ascending(s, n)
  {
    if n > 0 {
      AscendingSpec(s, n - 1);
    }
  }

  /** The positions of a list of length n that are not in s. */
  ghost function Complement(n: nat, s: set<int>): set<int> {
    set i | 0 <= i < n && i !in s
  }

  /** What the list keeps of the indices it is told to select: those that are positions. */
  function SetFrom(indices: seq<int>, n: nat): (r: set<int>)
    ensures InRange(r, n)
    ensures forall i :: i in r <==> i in indices && 0 <= i < n
  {
    set i | i in indices && 0 <= i < n
  }

  /**
   * The selection after reading saved indices: replaced only when a list exists
   * and the saved array is non-empty, otherwise the current one.
   */
  function Restored(current: set<int>, hasList: bool, n: nat, saved: seq<int>): (r: set<int>)
    ensures !hasList || saved == [] ==> r == current
    ensures InRange(current, n) ==> InRange(r, n)
    ensures hasList && saved != [] ==> forall i :: i in r <==> i in saved && 0 <= i < n
  {
    if hasList && |saved| > 0 then SetFrom(saved, n) else current
  }

  /** The items at the selected positions, in list order. */
  function SelectedValues<Item>(items: seq<Item>, s: set<int>): (r: seq<Item>)
    ensures |r| == |Ascending(s, |items|)|
    ensures forall k :: 0 <= k < |r| ==> exists i :: 0 <= i < |items| && i in s && r[k] == items[i]
    ensures forall i :: 0 <= i < |items| && i in s ==> items[i] in r
  {
    var indices := Ascending(s, |items|);
    AscendingSpec(s, |items|);
    var r := seq(|indices|, k requires 0 <= k < |indices| => items[indices[k]]);
    assert forall k :: 0 <= k < |r| ==> r[k] == items[indices[k]];
    assert forall i :: 0 <= i < |items| && i in s ==> exists k :: 0 <= k < |indices| && indices[k] == i;
    r
  }

  /**
   * SelectedValues follows list order: appending an item appends its value
   * exactly when its position is selected, and leaves the earlier values alone.
   */
  lemma SelectedValuesSnoc<Item>(items: seq<Item>, x: Item, s: set<int>)
    ensures SelectedValues(items + [x], s) == SelectedValues(items, s) + (if |items| in s then [x] else [])
  {
    var n := |items|;
    AscendingSpec(s, n);
    AscendingSpec(s, n + 1);
    assert Ascending(s, n + 1) == Ascending(s, n) + (if n in s then [n] else []);
  }

  /** Ascending depends only on which positions below n are in the set. */
  lemma {:induction false} AscendingAgrees(s: set<int>, t: set<int>, n: nat)
    requires forall i :: 0 <= i < n ==> (i in s <==> i in t)
    ensures Ascending(s, n) == Ascending(t, n)
  {
    if n > 0 {
      AscendingAgrees(s, t, n - 1);
    }
  }

  /** For a set of positions, Ascending lists every member exactly once. */
  lemma {:induction false} AscendingCovers(s: set<int>, n: nat)
    requires InRange(s, n)
    ensures |Ascending(s, n)| == |s|
  {
    if n == 0 {
      assert forall i :: i !in s;
      assert s == {};
    } else {
      var s' := s - {n - 1};
      AscendingAgrees(s, s', n - 1);
      AscendingCovers(s', n - 1);
      if n - 1 !in s {
        assert s == s';
      }
    }
  }

  /** Ascending over a shorter range is a prefix of Ascending over a longer one. */
  lemma {:induction false} AscendingPrefix(s: set<int>, i: nat, j: nat)
    requires i <= j
    ensures Ascending(s, i) <= Ascending(s, j)
  {
    if i < j {
      AscendingPrefix(s, i, j - 1);
    }
  }

  /** Every position below m is listed by exactly one of s and its complement. */
  lemma {:induction false} PartitionLength(s: set<int>, n: nat, m: nat)
    requires m <= n
    ensures |Ascending(Complement(n, s), m)| + |Ascending(s, m)| == m
  {
    if m > 0 {
      PartitionLength(s, n, m - 1);
      assert (m - 1 in Complement(n, s)) <==> (m - 1 !in s);
    }
  }

  /** The inverted selection of a list of length n has n - |s| members. */
  lemma InvertedLength(n: nat, s: set<int>)
    requires InRange(s, n)
    ensures |Ascending(Complement(n, s), n)| == n - |s|
  {
    PartitionLength(s, n, n);
    AscendingCovers(s, n);
  }

  /** Selecting the listed indices of a set of positions selects that set. */
  lemma SetFromAscending(s: set<int>, n: nat)
    requires InRange(s, n)
    ensures SetFrom(Ascending(s, n), n) == s
  {
    AscendingSpec(s, n);
    var r := Ascending(s, n);
    forall i | i in s ensures i in SetFrom(r, n) {
      assert 0 <= i < n && i in r;
    }
    forall i | i in SetFrom(r, n) ensures i in s {
      var k :| 0 <= k < |r| && r[k] == i;
    }
  }

  /** Inverting twice over the same list restores the selection. */
  lemma InvertTwice(n: nat, s: set<int>)
    requires InRange(s, n)
    ensures Complement(n, Complement(n, s)) == s
  {
  }

  /**
   * Saving a selection and reading it back on a list of the same length
   * restores it; an empty selection is saved as an empty array, which leaves
   * the current selection as it is.
   */
  lemma SaveRestoreRoundTrip(s: set<int>, n: nat, current: set<int>)
    requires InRange(s, n)
    ensures Restored(current, true, n, Ascending(s, n)) == (if s == {} then current else s)
  {
    AscendingCovers(s, n);
    SetFromAscending(s, n);
  }

  /** A selection of positions shows something exactly when it is non-empty. */
  lemma SelectedValuesEmpty<Item>(items: seq<Item>, s: set<int>)
    requires InRange(s, |items|)
    ensures |SelectedValues(items, s)| == |s|
    ensures SelectedValues(items, s) == [] <==> s == {}
  {
    AscendingCovers(s, |items|);
  }

  // ---------------------------------------------------------------------------
  // Windows

  /** An information window over a snapshot of objects. */
  class WindowObjectInfo<Item> {
    const objects: seq<Item>
    var location: Point
    var disposed: bool

    constructor (objects: seq<Item>)
      ensures this.objects == objects && !disposed
    {
      this.objects := objects;
      location := Point(0, 0);
      disposed := false;
    }

    method SetLocation(p: Point)
      modifies this
      ensures location == p && disposed == old(disposed)
    {
      location := p;
    }

    /** Releasing the window; doing it again changes nothing. */
    method Dispose()
      modifies this
      ensures disposed && location == old(location)
    {
      disposed := true;
    }
  }

  /**
   * A window listing objects. The display list and the list widget are created
   * together, so one optional value stands for both; None until the first
   * recalculation.
   */
  class WindowObjectList<Item> {
    var listModel: Option<seq<Item>>
    var selected: set<int>
    var subwindows: seq<WindowObjectInfo?<Item>>
    var location: Point
    var visible: bool
    var disposed: bool

    /** Without a list nothing is selected; with one, only its positions are. */
    ghost predicate Valid()
      reads this
    {
      match listModel
      case None => selected == {}
      case Some(items) => InRange(selected, |items|)
    }

    /** The length of the display list, 0 when there is none. */
    function Size(): nat
      reads this
    {
      if listModel.Some? then |listModel.value| else 0
    }

    constructor (location: Point)
      ensures Valid()
      ensures listModel == None && selected == {} && subwindows == []
      ensures this.location == location && !visible && !disposed
    {
      listModel := None;
      selected := {};
      subwindows := [];
      this.location := location;
      visible := false;
      disposed := false;
    }

    /** Showing the window rebuilds its list from the items fill supplies. */
    method SetVisible(v: bool, fill: seq<Item>)
      requires Valid()
      modifies this
      ensures Valid() && visible == v
      ensures v ==> listModel == Some(fill) && selected == {}
      ensures !v ==> listModel == old(listModel) && selected == old(selected)
      ensures subwindows == old(subwindows) && location == old(location) && disposed == old(disposed)
    {
      if v {
        Recalculate(fill);
      }
      visible := v;
    }

    /**
     * Rebuilds the display list: a fresh empty list, with nothing selected, to
     * which the items fill supplies are added one by one.
     */
    method Recalculate(fill: seq<Item>)
      requires Valid()
      modifies this
      ensures Valid()
      ensures listModel == Some(fill) && selected == {}
      ensures subwindows == old(subwindows) && location == old(location)
      ensures visible == old(visible) && disposed == old(disposed)
    {
      listModel := Some([]);
      selected := {};
      for k := 0 to |fill|
        invariant listModel == Some(fill[..k]) && selected == {}
        invariant subwindows == old(subwindows) && location == old(location)
        invariant visible == old(visible) && disposed == old(disposed)
      {
        AddToList(fill[k]);
        assert fill[..k + 1] == fill[..k] + [fill[k]];
      }
      assert fill[..|fill|] == fill;
    }

    /** Appends one item to the display list. */
    method AddToList(item: Item)
      requires Valid() && listModel.Some?
      modifies this
      ensures Valid()
      ensures listModel == Some(old(listModel).value + [item]) && selected == old(selected)
      ensures subwindows == old(subwindows) && location == old(location)
      ensures visible == old(visible) && disposed == old(disposed)
    {
      listModel := Some(listModel.value + [item]);
    }

    /** The list widget told to select indices: it keeps those that are positions. */
    method SelectIndices(indices: seq<int>)
      requires listModel.Some?
      modifies this
      ensures Valid()
      ensures listModel == old(listModel) && selected == SetFrom(indices, |listModel.value|)
      ensures subwindows == old(subwindows) && location == old(location)
      ensures visible == old(visible) && disposed == old(disposed)
    {
      selected := SetFrom(indices, |listModel.value|);
    }

    /**
     * Replaces the selection by the unselected positions, collected in
     * increasing order into an array by a write cursor; nothing happens while
     * there is no list.
     */
    method InvertSelection()
      requires Valid()
      modifies this
      ensures Valid()
      ensures old(listModel).None? ==> selected == old(selected)
      ensures old(listModel).Some? ==> selected == Complement(Size(), old(selected))
      ensures listModel == old(listModel) && subwindows == old(subwindows)
      ensures location == old(location) && visible == old(visible) && disposed == old(disposed)
    {
      if listModel.None? {
        return;
      }
      var size := |listModel.value|;
      var selectedIndices := Ascending(selected, size);
      ghost var inverted := Complement(size, selected);
      AscendingCovers(selected, size);
      InvertedLength(size, selected);
      var newSelected := new int[size - |selectedIndices|];
      var cursor := 0;
      for i := 0 to size
        modifies newSelected
        invariant cursor == |Ascending(inverted, i)|
        invariant cursor <= newSelected.Length
        invariant newSelected[..cursor] == Ascending(inverted, i)
      {
        if i !in selected {
          AscendingPrefix(inverted, i + 1, size);
          newSelected[cursor] := i;
          cursor := cursor + 1;
        }
      }
      assert newSelected[..] == newSelected[..cursor];
      SetFromAscending(inverted, size);
      SelectIndices(newSelected[..]);
    }

    /**
     * Opens an information window over the selected items, in list order,
     * placed WindowOffset further than this window, and keeps it as a
     * sub-window; nothing happens when the selection is empty.
     */
    method Show()
      requires Valid() && listModel.Some?
      modifies this
      ensures Valid()
      ensures listModel == old(listModel) && selected == old(selected)
      ensures location == old(location) && visible == old(visible) && disposed == old(disposed)
      ensures selected == {} ==> subwindows == old(subwindows)
      ensures selected != {} ==>
        && |subwindows| == |old(subwindows)| + 1
        && subwindows[..|old(subwindows)|] == old(subwindows)
        && var w := subwindows[|old(subwindows)|];
           && w != null && fresh(w) && !w.disposed
           && w.objects == SelectedValues(listModel.value, selected)
           && w.location == Offset(location)
    {
      var selectedObjects := SelectedValues(listModel.value, selected);
      SelectedValuesEmpty(listModel.value, selected);
      if |selectedObjects| <= 0 {
        return;
      }
      var objectList: seq<Item> := [];
      for i := 0 to |selectedObjects|
        invariant objectList == selectedObjects[..i]
      {
        objectList := objectList + [selectedObjects[i]];
      }
      assert objectList == selectedObjects;
      var newWindow := new WindowObjectInfo(objectList);
      newWindow.SetLocation(Offset(location));
      subwindows := subwindows + [newWindow];
    }

    /** Disposes every sub-window, skipping nulls, and then this window. */
    method Dispose()
      requires Valid()
      modifies this, set w: WindowObjectInfo<Item> | w in subwindows
      ensures Valid()
      ensures listModel == old(listModel) && selected == old(selected) && subwindows == old(subwindows)
      ensures location == old(location) && visible == old(visible) && disposed
      ensures forall k :: 0 <= k < |subwindows| && subwindows[k] != null ==> subwindows[k].disposed
      ensures forall w: WindowObjectInfo<Item> | w in old(subwindows) :: w.location == old(w.location)
    {
      for k := 0 to |subwindows|
        invariant unchanged(this)
        invariant forall j :: 0 <= j < k && subwindows[j] != null ==> subwindows[j].disposed
        invariant forall w: WindowObjectInfo<Item> | w in old(subwindows) :: w.location == old(w.location)
      {
        var w := subwindows[k];
        if w != null {
          w.Dispose();
        }
      }
      disposed := true;
    }

    /** The indices written to the stream: the selected ones, or none without a list. */
    method Save() returns (written: seq<int>)
      requires Valid()
      ensures listModel.None? ==> written == []
      ensures listModel.Some? ==> written == Ascending(selected, |listModel.value|)
      ensures forall k, l :: 0 <= k < l < |written| ==> written[k] < written[l]
      ensures forall i :: i in selected <==> i in written
    {
      if listModel.Some? {
        AscendingSpec(selected, |listModel.value|);
        written := Ascending(selected, |listModel.value|);
      } else {
        written := [];
      }
    }

    /**
     * Reads saved indices. input is what the stream yields: None when the read
     * fails, which returns false and changes nothing. The rest of the window's
     * restore runs next: superRead is its outcome, and superShows is Some(fill)
     * when it makes the window visible, which rebuilds the list from fill. Only
     * then is the selection replaced, and only when a list exists and the saved
     * array is non-empty.
     */
    method Read(input: Option<seq<int>>, superRead: bool, superShows: Option<seq<Item>>) returns (result: bool)
      requires Valid()
      modifies this
      ensures Valid()
      ensures input.None? ==> !result && unchanged(this)
      ensures input.Some? ==> result == superRead
      ensures input.Some? ==> listModel == (if superShows.Some? then Some(superShows.value) else old(listModel))
      ensures input.Some? ==> visible == (superShows.Some? || old(visible))
      ensures input.Some? ==>
        selected == Restored(if superShows.Some? then {} else old(selected), listModel.Some?, Size(), input.value)
      ensures subwindows == old(subwindows) && location == old(location) && disposed == old(disposed)
    {
      if input.None? {
        return false;
      }
      var saved := input.value;
      if superShows.Some? {
        SetVisible(true, superShows.value);
      }
      result := superRead;
      if listModel.Some? && |saved| > 0 {
        SelectIndices(saved);
      }
    }
  }

  /** Inverting, showing and disposing on a three-item list. */
  method ShowAndInvertScenario()
  {
    var window := new WindowObjectList<string>(Point(100, 200));
    window.Recalculate(["X", "Y", "Z"]);
    window.SelectIndices([0, 2]);
    assert window.selected == {0, 2};
    window.InvertSelection();
    assert window.selected == {1};
    window.Show();
    assert Ascending({1}, 3) == [1];
    var first := window.subwindows[0];
    assert first.objects == ["Y"];
    assert first.location == Point(130, 230);
    window.InvertSelection();
    assert window.selected == {0, 2};
    window.Show();
    assert Ascending({0, 2}, 3) == [0, 2];
    var second := window.subwindows[1];
    assert second.objects == ["X", "Z"];
    window.Dispose();
    assert first.disposed && second.disposed;
  }

  /** Saving a selection in one session and reading it in the next. */
  method PersistScenario()
  {
    var window := new WindowObjectList<string>(Point(0, 0));
    window.Recalculate(["X", "Y", "Z"]);
    window.SelectIndices([0, 2]);
    assert window.selected == {0, 2};
    var saved := window.Save();
    assert Ascending({0, 2}, 3) == [0, 2];
    assert saved == [0, 2];
    var next := new WindowObjectList<string>(Point(0, 0));
    var ok := next.Read(Some(saved), true, Some(["X", "Y", "Z"]));
    assert ok && next.selected == {0, 2};
    ok := next.Read(Some([]), true, None);
    assert ok && next.selected == {0, 2};
    ok := next.Read(None, true, None);
    assert !ok && next.selected == {0, 2};
  }
}
