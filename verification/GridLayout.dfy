/** Choosing a grid for a room: `selectSize` over a table of layouts. */
module GridLayout {

  datatype GridSize = GridSize(columns: nat, rows: nat, maxItems: int, minItems: int, minHeight: int, minWidth: int)

  /** The table in use. */
  const GRID_SIZES: seq<GridSize> := [
    GridSize(1, 1, 1, 1, 0, 0),
    GridSize(1, 2, 2, 2, 0, 0),
    GridSize(2, 1, 2, 1, 0, 560),
    GridSize(2, 2, 4, 3, 0, 560)
  ]

  /** `NoSize` stands for the error thrown on an empty table. */
  datatype Selection = NoSize | Selected(size: GridSize)

  predicate Fits(size: GridSize, width: int, height: int) {
    width >= size.minWidth && height >= size.minHeight
  }

  /** `findIndex`: some entry behind `curr` holds as many items. */
  predicate BiggerAvailable(sizes: seq<GridSize>, curr: nat)
    requires curr < |sizes|
  {
    exists next :: curr < next < |sizes| && sizes[next].maxItems == sizes[curr].maxItems
  }

  predicate Suits(sizes: seq<GridSize>, curr: nat, itemCount: int)
    requires curr < |sizes|
  {
    sizes[curr].maxItems >= itemCount && !BiggerAvailable(sizes, curr)
  }

  /** Where `find` leaves `curr`, looking from `from` on: the first entry that suits, or the last entry. */
  function Find(sizes: seq<GridSize>, itemCount: int, from: nat): (curr: nat)
    requires from < |sizes|
    ensures from <= curr < |sizes|
    decreases |sizes| - from
  {
    if Suits(sizes, from, itemCount) || from + 1 == |sizes| then from else Find(sizes, itemCount, from + 1)
  }

  /** The entry `selectSize` settles on, by index. */
  function SelectIndex(sizes: seq<GridSize>, itemCount: int, width: int, height: int): (index: nat)
    requires sizes != []
    ensures index < |sizes|
    decreases |sizes|
  {
    var curr := Find(sizes, itemCount, 0);
    if !Fits(sizes[curr], width, height) && curr > 0 then
      SelectIndex(sizes[..curr], sizes[curr - 1].maxItems, width, height)
    else curr
  }

  function SelectSize(sizes: seq<GridSize>, itemCount: int, width: int, height: int): Selection
    decreases |sizes|
  {
    if sizes == [] then NoSize
    else
      var curr := Find(sizes, itemCount, 0);
      var size := sizes[curr];
      if (width < size.minWidth || height < size.minHeight) && curr > 0 then
        SelectSize(sizes[..curr], sizes[curr - 1].maxItems, width, height)
      else Selected(size)
  }

  function UseGridSize(itemCount: int, width: int, height: int): Selection {
    if width > 0 && height > 0 then SelectSize(GRID_SIZES, itemCount, width, height) else Selected(GRID_SIZES[0])
  }

  lemma {:induction false} SelectSizeIsEntry(sizes: seq<GridSize>, itemCount: int, width: int, height: int)
    requires sizes != []
    ensures SelectSize(sizes, itemCount, width, height) == Selected(sizes[SelectIndex(sizes, itemCount, width, height)])
    decreases |sizes|
  {
    var curr := Find(sizes, itemCount, 0);
    if !Fits(sizes[curr], width, height) && curr > 0 {
      SelectSizeIsEntry(sizes[..curr], sizes[curr - 1].maxItems, width, height);
    }
  }

  /** On any table the selection fails only when there is nothing to select, and fits unless it is entry 0. */
  lemma {:induction false} SelectionFitsOrIsFirst(sizes: seq<GridSize>, itemCount: int, width: int, height: int)
    ensures SelectSize(sizes, itemCount, width, height) == NoSize <==> sizes == []
    ensures sizes != [] ==>
      var size := SelectSize(sizes, itemCount, width, height).size;
      size in sizes && ((width >= size.minWidth && height >= size.minHeight) || size == sizes[0])
    decreases |sizes|
  {
    if sizes != [] {
      var curr := Find(sizes, itemCount, 0);
      if !Fits(sizes[curr], width, height) && curr > 0 {
        SelectionFitsOrIsFirst(sizes[..curr], sizes[curr - 1].maxItems, width, height);
      }
    }
  }

  /** On any table, less room never selects a later entry. */
  lemma {:induction false} ShrinkingNeverRaises(sizes: seq<GridSize>, itemCount: int, width: int, height: int, less: int, lower: int)
    requires sizes != [] && less <= width && lower <= height
    ensures SelectIndex(sizes, itemCount, less, lower) <= SelectIndex(sizes, itemCount, width, height)
    decreases |sizes|
  {
    var curr := Find(sizes, itemCount, 0);
    if !Fits(sizes[curr], width, height) && curr > 0 {
      ShrinkingNeverRaises(sizes[..curr], sizes[curr - 1].maxItems, width, height, less, lower);
    }
  }

  /**
   In a table that is not sorted the fallback starts over for as many items as the entry before holds, not for the
   original number: from the third entry here to the first, past the second.
   */
  lemma FallbackStartsOver(width: int, height: int)
    requires width < 1000 && width >= 0 && height >= 0
    ensures var sizes := [GridSize(3, 1, 3, 1, 0, 0), GridSize(1, 1, 1, 1, 0, 0), GridSize(2, 2, 4, 1, 0, 1000)];
      SelectSize(sizes, 4, width, height) == Selected(sizes[0])
  {
    var sizes := [GridSize(3, 1, 3, 1, 0, 0), GridSize(1, 1, 1, 1, 0, 0), GridSize(2, 2, 4, 1, 0, 1000)];
    assert Find(sizes, 4, 2) == 2 && Find(sizes, 4, 1) == 2 && Find(sizes, 4, 0) == 2;
    assert !BiggerAvailable(sizes[..2], 0) && Find(sizes[..2], 1, 0) == 0;
  }

  // ---------------------------------------------------------------------------------------------
  // Tables sorted by the number of items
  // ---------------------------------------------------------------------------------------------

  ghost predicate Sorted(sizes: seq<GridSize>) {
    forall i, j :: 0 <= i < j < |sizes| ==> sizes[i].maxItems <= sizes[j].maxItems
  }

  /** The largest index up to `from` whose entry fits, or 0. */
  function LargestFitting(sizes: seq<GridSize>, from: nat, width: int, height: int): nat
    requires from < |sizes|
  {
    if from == 0 || Fits(sizes[from], width, height) then from else LargestFitting(sizes, from - 1, width, height)
  }

  lemma {:induction false} LargestFittingIsLargest(sizes: seq<GridSize>, from: nat, width: int, height: int)
    requires from < |sizes|
    ensures var index := LargestFitting(sizes, from, width, height);
      && index <= from && (index == 0 || (width >= sizes[index].minWidth && height >= sizes[index].minHeight))
      && forall k :: index < k <= from ==> width < sizes[k].minWidth || height < sizes[k].minHeight
  {
    if from > 0 && !Fits(sizes[from], width, height) { LargestFittingIsLargest(sizes, from - 1, width, height); }
  }

  /** `find` stops at the first entry that suits; with none it stops at the last. */
  lemma {:induction false} FindIsFirst(sizes: seq<GridSize>, itemCount: int, from: nat)
    requires from < |sizes|
    ensures var curr := Find(sizes, itemCount, from);
      (Suits(sizes, curr, itemCount) || curr + 1 == |sizes|) && forall k :: from <= k < curr ==> !Suits(sizes, k, itemCount)
    decreases |sizes| - from
  {
    if !Suits(sizes, from, itemCount) && from + 1 < |sizes| { FindIsFirst(sizes, itemCount, from + 1); }
  }

  /** In a sorted table that is the last entry of the smallest capacity that holds the items. */
  lemma FindInSorted(sizes: seq<GridSize>, itemCount: int)
    requires sizes != [] && Sorted(sizes)
    ensures var curr := Find(sizes, itemCount, 0);
      && (forall k :: 0 <= k < |sizes| && sizes[k].maxItems < sizes[curr].maxItems ==> sizes[k].maxItems < itemCount)
      && (forall k :: curr < k < |sizes| ==> sizes[k].maxItems > sizes[curr].maxItems)
      && (sizes[curr].maxItems < itemCount ==> curr + 1 == |sizes|)
  {
    FindIsFirst(sizes, itemCount, 0);
    var curr := Find(sizes, itemCount, 0);
    forall k | 0 <= k < |sizes| && sizes[k].maxItems < sizes[curr].maxItems ensures sizes[k].maxItems < itemCount {
      if sizes[k].maxItems >= itemCount {
        var last := LastOfCapacity(sizes, k);
        assert Suits(sizes, last, itemCount);
      }
    }
    forall k | curr < k < |sizes| ensures sizes[k].maxItems > sizes[curr].maxItems {
      assert !BiggerAvailable(sizes, curr);
    }
  }

  /** The last entry that holds as many items as entry `k`. */
  function LastOfCapacity(sizes: seq<GridSize>, k: nat): (last: nat)
    requires k < |sizes| && Sorted(sizes)
    ensures k <= last < |sizes| && sizes[last].maxItems == sizes[k].maxItems && !BiggerAvailable(sizes, last)
    decreases |sizes| - k
  {
    if k + 1 < |sizes| && sizes[k + 1].maxItems == sizes[k].maxItems then LastOfCapacity(sizes, k + 1) else k
  }

  /** Falling back from entry `curr` of a sorted table tries entry `curr - 1` next. */
  lemma FallsBackByOne(sizes: seq<GridSize>, curr: nat)
    requires Sorted(sizes) && 0 < curr < |sizes|
    ensures Find(sizes[..curr], sizes[curr - 1].maxItems, 0) == curr - 1
  {
    var shorter := sizes[..curr];
    FindInSorted(shorter, sizes[curr - 1].maxItems);
    assert shorter[curr - 1] == sizes[curr - 1];
  }

  /** In a sorted table the selection is the largest fitting entry at or below the starting one. */
  lemma {:induction false} SelectsLargestFitting(sizes: seq<GridSize>, itemCount: int, width: int, height: int)
    requires sizes != [] && Sorted(sizes)
    ensures SelectIndex(sizes, itemCount, width, height) == LargestFitting(sizes, Find(sizes, itemCount, 0), width, height)
    decreases |sizes|
  {
    var curr := Find(sizes, itemCount, 0);
    if !Fits(sizes[curr], width, height) && curr > 0 {
      FallsBackByOne(sizes, curr);
      SelectsLargestFitting(sizes[..curr], sizes[curr - 1].maxItems, width, height);
      LargestFittingInPrefix(sizes, curr, curr - 1, width, height);
    }
  }

  lemma {:induction false} LargestFittingInPrefix(sizes: seq<GridSize>, length: nat, from: nat, width: int, height: int)
    requires from < length <= |sizes|
    ensures LargestFitting(sizes[..length], from, width, height) == LargestFitting(sizes, from, width, height)
  {
    if from > 0 { LargestFittingInPrefix(sizes, length, from - 1, width, height); }
  }

  /**
   The layout in use, for any number of items in any room: how many columns and rows, and exactly when there is
   a cell for every item.
   */
  lemma LayoutInUse(itemCount: int, width: int, height: int)
    ensures var layout := UseGridSize(itemCount, width, height);
      var measured := width > 0 && height > 0;
      layout.Selected? &&
      (var columns, rows := layout.size.columns, layout.size.rows;
       && (columns == 1 || columns == 2) && (rows == 1 || rows == 2)
       && (columns * rows >= itemCount <==> itemCount <= 1 || (measured && itemCount <= (if width < 560 then 2 else 4)))
       && (columns == 2 <==> measured && width >= 560 && itemCount >= 2)
       && (columns * rows == 1 <==> !measured || itemCount <= 1)
       && (rows == 2 <==> measured && (if width < 560 then itemCount >= 2 else itemCount >= 3)))
  {
    GridInUse(itemCount, width, height);
  }

  /** Three items in a narrow room: two cells. */
  lemma NarrowRoomIsTooSmall()
    ensures var layout := UseGridSize(3, 400, 300);
      layout.Selected? && layout.size.columns == 1 && layout.size.rows == 2
  {
    LayoutInUse(3, 400, 300);
  }

  /** The table in use, in any room: one item gets one cell; more get as many columns as the width allows. */
  lemma GridInUse(itemCount: int, width: int, height: int)
    ensures UseGridSize(itemCount, width, height) == Selected(GRID_SIZES[
      if width <= 0 || height <= 0 || itemCount <= 1 then 0
      else if width < 560 then 1
      else if itemCount == 2 then 2 else 3])
  {
    if width > 0 && height > 0 {
      assert Sorted(GRID_SIZES);
      SelectSizeIsEntry(GRID_SIZES, itemCount, width, height);
      SelectsLargestFitting(GRID_SIZES, itemCount, width, height);
      FindInSorted(GRID_SIZES, itemCount);
      LargestFittingIsLargest(GRID_SIZES, Find(GRID_SIZES, itemCount, 0), width, height);
      assert forall k :: 0 <= k < 4 ==> GRID_SIZES[k].minHeight == 0;
      assert GRID_SIZES[0].maxItems == 1 && GRID_SIZES[1].maxItems == 2 && GRID_SIZES[2].maxItems == 2 && GRID_SIZES[3].maxItems == 4;
    }
  }
}
