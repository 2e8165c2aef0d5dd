/**
 * `FlowLayout`: the wrapping layout of the menu's label chips.  Items are
 * placed left to right; an item that would cross the available width starts
 * a new row, unless it is the first of its row.  Sizes are real numbers.
 */
module FlowLayout {
  import opened Wrappers

  /** A width and a height. */
  datatype Size = Size(width: real, height: real)

  /** Where a subview goes: its position in the subview list, its origin and its size. */
  datatype Placement = Placement(subview: nat, x: real, y: real, size: Size)

  /** The size the layout needs and where each subview goes. */
  datatype MeasureResult = MeasureResult(size: Size, placements: seq<Placement>)

  /** The layout's two spacings (by default 6 between items, 4 between rows). */
  datatype Layout = Layout(itemSpacing: real, lineSpacing: real)

  const DefaultLayout := Layout(6.0, 4.0)

  /** The width used when the proposal has none. */
  const DefaultWidth: real := 240.0

  function Max(a: real, b: real): real {
    if a >= b then a else b
  }

  function Min(a: real, b: real): real {
    if a <= b then a else b
  }

  /** The running state of `measure`: the pen position, the current row's height, the widest x, the placements so far. */
  datatype Cursor = Cursor(x: real, y: real, rowHeight: real, maxX: real, placements: seq<Placement>)

  const Start := Cursor(0.0, 0.0, 0.0, 0.0, [])

  /** An item starts a new row when the pen is not at the row start and the item would cross the available width. */
  predicate Exceeds(c: Cursor, size: Size, availableWidth: real) {
    c.x > 0.0 && c.x + size.width > availableWidth
  }

  /** One step of `measure`: wrap if needed, place the item, advance the pen. */
  function Place(layout: Layout, c: Cursor, size: Size, availableWidth: real): Cursor {
    var wrap := Exceeds(c, size, availableWidth);
    var x := if wrap then 0.0 else c.x;
    var y := if wrap then c.y + c.rowHeight + layout.lineSpacing else c.y;
    var rowHeight := if wrap then 0.0 else c.rowHeight;
    var nextX := x + size.width + layout.itemSpacing;
    Cursor(nextX, y, Max(rowHeight, size.height), Max(c.maxX, nextX),
           c.placements + [Placement(|c.placements|, x, y, size)])
  }

  /** The state of `measure` after the first `n` subviews. */
  function CursorAt(layout: Layout, sizes: seq<Size>, availableWidth: real, n: nat): Cursor
    requires n <= |sizes|
  {
    if n == 0 then Start
    else Place(layout, CursorAt(layout, sizes, availableWidth, n - 1), sizes[n - 1], availableWidth)
  }

  /** What `measure` returns: the widest x clamped to the available width, the last row's bottom, the placements. */
  function Measured(layout: Layout, sizes: seq<Size>, availableWidth: real): MeasureResult {
    var c := CursorAt(layout, sizes, availableWidth, |sizes|);
    MeasureResult(Size(Min(c.maxX, availableWidth), c.y + c.rowHeight), c.placements)
  }

  /**
   * `measure(in:subviews:)`: one pass over the subviews' sizes, placing each
   * and moving the pen.
   */
  method Measure(layout: Layout, availableWidth: real, sizes: seq<Size>) returns (result: MeasureResult)
    ensures result == Measured(layout, sizes, availableWidth)
  {
    var x, y, rowHeight, maxX := 0.0, 0.0, 0.0, 0.0;
    var placements: seq<Placement> := [];
    for i := 0 to |sizes|
      invariant Cursor(x, y, rowHeight, maxX, placements) == CursorAt(layout, sizes, availableWidth, i)
    {
      var size := sizes[i];
      var exceeds := x > 0.0 && x + size.width > availableWidth;
      if exceeds {
        x := 0.0;
        y := y + rowHeight + layout.lineSpacing;
        rowHeight := 0.0;
      }
      placements := placements + [Placement(|placements|, x, y, size)];
      x := x + size.width + layout.itemSpacing;
      rowHeight := Max(rowHeight, size.height);
      maxX := Max(maxX, x);
    }
    result := MeasureResult(Size(Min(maxX, availableWidth), y + rowHeight), placements);
  }

  /** `sizeThatFits`: the measured size, for the proposed width or 240 when there is none. */
  function SizeThatFits(layout: Layout, proposedWidth: Option<real>, sizes: seq<Size>): (size: Size)
    ensures size.width <= (if proposedWidth.Some? then proposedWidth.value else DefaultWidth)
  {
    var width := if proposedWidth.Some? then proposedWidth.value else DefaultWidth;
    Measured(layout, sizes, width).size
  }

  /** One placement per subview, in subview order, each with its subview's size. */
  lemma {:induction false} PlacementsInOrder(layout: Layout, sizes: seq<Size>, availableWidth: real, n: nat)
    requires n <= |sizes|
    ensures var p := CursorAt(layout, sizes, availableWidth, n).placements;
            && |p| == n
            && (forall j :: 0 <= j < n ==> p[j].subview == j && p[j].size == sizes[j])
  {
    if n > 0 {
      PlacementsInOrder(layout, sizes, availableWidth, n - 1);
      var prev := CursorAt(layout, sizes, availableWidth, n - 1).placements;
      var p := CursorAt(layout, sizes, availableWidth, n).placements;
      assert p[..n - 1] == prev;
      forall j | 0 <= j < n ensures p[j].subview == j && p[j].size == sizes[j] {
        if j < n - 1 {
          assert p[j] == prev[j];
        }
      }
    }
  }

  /** The placements of a prefix of the subviews are never revised. */
  lemma {:induction false} PlacementsKept(layout: Layout, sizes: seq<Size>, availableWidth: real, m: nat, n: nat)
    requires m <= n <= |sizes|
    ensures m <= |CursorAt(layout, sizes, availableWidth, n).placements|
    ensures CursorAt(layout, sizes, availableWidth, m).placements ==
              CursorAt(layout, sizes, availableWidth, n).placements[..m]
    decreases n - m
  {
    PlacementsInOrder(layout, sizes, availableWidth, n);
    if m < n {
      PlacementsKept(layout, sizes, availableWidth, m, n - 1);
      var prev := CursorAt(layout, sizes, availableWidth, n - 1).placements;
      PrefixOfAppend(prev, CursorAt(layout, sizes, availableWidth, n).placements[n - 1], m);
    } else {
      assert CursorAt(layout, sizes, availableWidth, n).placements[..n] == CursorAt(layout, sizes, availableWidth, n).placements;
    }
  }

  lemma PrefixOfAppend(a: seq<Placement>, x: Placement, m: nat)
    requires m <= |a|
    ensures (a + [x])[..m] == a[..m]
  {
  }

  /**
   * Item `j` opens a new row: the pen after item `j - 1` (its end plus the
   * item spacing) is past the row start, and item `j` would cross the
   * available width from there.
   */
  predicate WrapsBefore(layout: Layout, p: seq<Placement>, availableWidth: real, j: nat)
    requires j < |p|
  {
    && 0 < j
    && var pen := p[j - 1].x + p[j - 1].size.width + layout.itemSpacing;
       pen > 0.0 && pen + p[j].size.width > availableWidth
  }

  /** The first item of the row that holds the last of the first `n` placements (0 when `n` is 0). */
  function RowStart(layout: Layout, p: seq<Placement>, availableWidth: real, n: nat): (r: nat)
    requires n <= |p|
    ensures r <= n && (n > 0 ==> r < n)
  {
    if n == 0 then 0
    else if WrapsBefore(layout, p, availableWidth, n - 1) then n - 1
    else RowStart(layout, p, availableWidth, n - 1)
  }

  /** The row start is the last wrap, or the first item when nothing wrapped. */
  lemma {:induction false} RowStartIsLastWrap(layout: Layout, p: seq<Placement>, availableWidth: real, n: nat)
    requires n <= |p|
    ensures var r := RowStart(layout, p, availableWidth, n);
            && (r > 0 ==> WrapsBefore(layout, p, availableWidth, r))
            && (forall j :: r < j < n ==> !WrapsBefore(layout, p, availableWidth, j))
  {
    if n > 0 && !WrapsBefore(layout, p, availableWidth, n - 1) {
      RowStartIsLastWrap(layout, p, availableWidth, n - 1);
    }
  }

  /** The tallest of the placed items `lo` to `n - 1`, and 0 when there are none or all are lower. */
  function Tallest(p: seq<Placement>, lo: nat, n: nat): (h: real)
    requires lo <= n <= |p|
    ensures h >= 0.0
    decreases n
  {
    if n == lo then 0.0 else Max(Tallest(p, lo, n - 1), p[n - 1].size.height)
  }

  /** `Tallest` is the largest height of the items, or 0. */
  lemma {:induction false} TallestIsMax(p: seq<Placement>, lo: nat, n: nat)
    requires lo <= n <= |p|
    ensures forall j :: lo <= j < n ==> p[j].size.height <= Tallest(p, lo, n)
    ensures Tallest(p, lo, n) == 0.0 || exists j :: lo <= j < n && p[j].size.height == Tallest(p, lo, n)
    decreases n
  {
    if n > lo {
      TallestIsMax(p, lo, n - 1);
    }
  }

  /** The furthest end of the first `n` placed items, item spacing included, and 0 when there are none or all end before 0. */
  function Widest(layout: Layout, p: seq<Placement>, n: nat): (w: real)
    requires n <= |p|
    ensures w >= 0.0
  {
    if n == 0 then 0.0 else Max(Widest(layout, p, n - 1), p[n - 1].x + p[n - 1].size.width + layout.itemSpacing)
  }

  /** `Widest` is the furthest end of the items, or 0. */
  lemma {:induction false} WidestIsMax(layout: Layout, p: seq<Placement>, n: nat)
    requires n <= |p|
    ensures forall j :: 0 <= j < n ==> p[j].x + p[j].size.width + layout.itemSpacing <= Widest(layout, p, n)
    ensures Widest(layout, p, n) == 0.0 ||
            exists j :: 0 <= j < n && p[j].x + p[j].size.width + layout.itemSpacing == Widest(layout, p, n)
  {
    if n > 0 {
      WidestIsMax(layout, p, n - 1);
    }
  }

  /**
   * The running row height is the height of the tallest item since the last
   * wrap, and the running widest x is the furthest item end, both read off
   * the final placements.
   */
  lemma {:induction false} RowOfCursor(layout: Layout, sizes: seq<Size>, availableWidth: real, n: nat)
    requires n <= |sizes|
    ensures |Measured(layout, sizes, availableWidth).placements| == |sizes|
    ensures var p := Measured(layout, sizes, availableWidth).placements;
            var c := CursorAt(layout, sizes, availableWidth, n);
            && c.rowHeight == Tallest(p, RowStart(layout, p, availableWidth, n), n)
            && c.maxX == Widest(layout, p, n)
  {
    PlacementsInOrder(layout, sizes, availableWidth, |sizes|);
    if n > 0 {
      RowOfCursor(layout, sizes, availableWidth, n - 1);
      LastPlacement(layout, sizes, availableWidth, n);
      var c0 := CursorAt(layout, sizes, availableWidth, n - 1);
      RowStep(layout, Measured(layout, sizes, availableWidth).placements, availableWidth, n, c0.rowHeight, c0.maxX);
    }
  }

  /**
   * Item `n - 1` is placed from the state after the items before it, and it
   * opens a new row exactly when that state's pen makes it exceed the width.
   */
  lemma LastPlacement(layout: Layout, sizes: seq<Size>, availableWidth: real, n: nat)
    requires 0 < n <= |sizes|
    ensures |Measured(layout, sizes, availableWidth).placements| == |sizes|
    ensures var p := Measured(layout, sizes, availableWidth).placements;
            var c0 := CursorAt(layout, sizes, availableWidth, n - 1);
            var wrap := Exceeds(c0, sizes[n - 1], availableWidth);
            && p[n - 1] == Placement(n - 1, if wrap then 0.0 else c0.x,
                                     if wrap then c0.y + c0.rowHeight + layout.lineSpacing else c0.y, sizes[n - 1])
            && WrapsBefore(layout, p, availableWidth, n - 1) == wrap
  {
    var N := |sizes|;
    PlacementsInOrder(layout, sizes, availableWidth, N);
    var p := Measured(layout, sizes, availableWidth).placements;
    var c0 := CursorAt(layout, sizes, availableWidth, n - 1);
    assert p[n - 1] == CursorAt(layout, sizes, availableWidth, n).placements[|c0.placements|] by {
      PlacementsInOrder(layout, sizes, availableWidth, n - 1);
      PlacementsKept(layout, sizes, availableWidth, n, N);
      assert CursorAt(layout, sizes, availableWidth, n).placements == p[..n];
    }
    if n > 1 {
      assert c0.x == p[n - 2].x + p[n - 2].size.width + layout.itemSpacing by {
        PenAfterLast(layout, sizes, availableWidth, n - 1);
        PlacementsKept(layout, sizes, availableWidth, n - 1, N);
        assert c0.placements == p[..n - 1];
        assert p[n - 2] == c0.placements[n - 2];
      }
    }
  }

  /** One more placement: the row either restarts or grows, and the furthest end may move. */
  lemma RowStep(layout: Layout, p: seq<Placement>, availableWidth: real, n: nat, rowHeight: real, maxX: real)
    requires 0 < n <= |p|
    requires rowHeight == Tallest(p, RowStart(layout, p, availableWidth, n - 1), n - 1)
    requires maxX == Widest(layout, p, n - 1)
    ensures Max(if WrapsBefore(layout, p, availableWidth, n - 1) then 0.0 else rowHeight, p[n - 1].size.height) ==
              Tallest(p, RowStart(layout, p, availableWidth, n), n)
    ensures Max(maxX, p[n - 1].x + p[n - 1].size.width + layout.itemSpacing) == Widest(layout, p, n)
  {
    if WrapsBefore(layout, p, availableWidth, n - 1) {
      assert Tallest(p, n - 1, n - 1) == 0.0;
    }
  }

  /** The pen sits right after the last placed item, on its row. */
  lemma PenAfterLast(layout: Layout, sizes: seq<Size>, availableWidth: real, n: nat)
    requires 0 < n <= |sizes|
    ensures var c := CursorAt(layout, sizes, availableWidth, n);
            |c.placements| == n &&
            var last := c.placements[n - 1];
            c.x == last.x + last.size.width + layout.itemSpacing && c.y == last.y
  {
    PlacementsInOrder(layout, sizes, availableWidth, n);
    PlacementsInOrder(layout, sizes, availableWidth, n - 1);
  }

  /**
   * The wrapping rule: the first item is at the origin; each later item
   * goes right after the previous one plus the item spacing, on the same
   * row, unless that is past the row start and the item would cross the
   * available width; then it starts a new row at x = 0, below the previous
   * row by the height of that row's tallest item plus the line spacing.  An item wider than the
   * available width at the start of a row stays there.
   */
  lemma WrapRule(layout: Layout, sizes: seq<Size>, availableWidth: real, i: nat)
    requires i < |sizes|
    ensures var p := Measured(layout, sizes, availableWidth).placements;
            && |p| == |sizes|
            && (i == 0 ==> p[0].x == 0.0 && p[0].y == 0.0)
            && (i > 0 ==>
                  var prev := p[i - 1];
                  var nextX := prev.x + prev.size.width + layout.itemSpacing;
                  var rowHeight := Tallest(p, RowStart(layout, p, availableWidth, i), i);
                  if nextX > 0.0 && nextX + sizes[i].width > availableWidth
                  then p[i].x == 0.0 && p[i].y == prev.y + rowHeight + layout.lineSpacing
                  else p[i].x == nextX && p[i].y == prev.y)
  {
    var n := |sizes|;
    PlacementsInOrder(layout, sizes, availableWidth, n);
    var p := Measured(layout, sizes, availableWidth).placements;
    var c := CursorAt(layout, sizes, availableWidth, i);
    LastPlacement(layout, sizes, availableWidth, i + 1);
    if i > 0 {
      assert c.x == p[i - 1].x + p[i - 1].size.width + layout.itemSpacing && c.y == p[i - 1].y by {
        PenAfterLast(layout, sizes, availableWidth, i);
        PlacementsKept(layout, sizes, availableWidth, i, n);
        assert p[..i][i - 1] == p[i - 1];
      }
      assert c.rowHeight == Tallest(p, RowStart(layout, p, availableWidth, i), i) by {
        RowOfCursor(layout, sizes, availableWidth, i);
      }
    }
  }

  /** The height of the current row is never negative, and neither is the widest x. */
  lemma {:induction false} CursorNonNegative(layout: Layout, sizes: seq<Size>, availableWidth: real, n: nat)
    requires n <= |sizes|
    ensures CursorAt(layout, sizes, availableWidth, n).rowHeight >= 0.0
    ensures CursorAt(layout, sizes, availableWidth, n).maxX >= 0.0
  {
    if n > 0 {
      CursorNonNegative(layout, sizes, availableWidth, n - 1);
    }
  }

  /**
   * Every placed item lies above the bottom of the current row, at or above
   * its top, and ends, spacing included, within the widest x.
   */
  predicate Below(c: Cursor, itemSpacing: real) {
    forall j :: 0 <= j < |c.placements| ==>
      && c.placements[j].y <= c.y
      && c.placements[j].y + c.placements[j].size.height <= c.y + c.rowHeight
      && c.placements[j].x + c.placements[j].size.width + itemSpacing <= c.maxX
  }

  /**
   * With a non-negative line spacing, rows only move down: the y of the
   * placements never decreases, and every item lies above the reported
   * height.  Every item also ends, spacing included, within the widest x.
   */
  lemma {:induction false} RowsMoveDown(layout: Layout, sizes: seq<Size>, availableWidth: real, n: nat)
    requires n <= |sizes|
    requires layout.lineSpacing >= 0.0
    ensures var p := CursorAt(layout, sizes, availableWidth, n).placements;
            forall j, k :: 0 <= j < k < |p| ==> p[j].y <= p[k].y
    ensures Below(CursorAt(layout, sizes, availableWidth, n), layout.itemSpacing)
  {
    if n > 0 {
      RowsMoveDown(layout, sizes, availableWidth, n - 1);
      CursorNonNegative(layout, sizes, availableWidth, n - 1);
      var c0 := CursorAt(layout, sizes, availableWidth, n - 1);
      var c := CursorAt(layout, sizes, availableWidth, n);
      assert c.placements == c0.placements + [c.placements[|c0.placements|]];
      assert c.y >= c0.y;
      assert c.y + c.rowHeight >= c0.y + c0.rowHeight;
    }
  }

  /**
   * The reported size: the furthest item end, item spacing included, clamped
   * to the available width, and the last row's y plus the height of its
   * tallest item (0 for no subviews).  So it is never wider than the
   * available width, and tall enough for every item when the line spacing
   * is not negative.
   */
  lemma MeasuredFits(layout: Layout, sizes: seq<Size>, availableWidth: real)
    requires layout.lineSpacing >= 0.0
    ensures |Measured(layout, sizes, availableWidth).placements| == |sizes|
    ensures var r := Measured(layout, sizes, availableWidth);
            var n := |sizes|;
            && r.size.width == Min(Widest(layout, r.placements, n), availableWidth)
            && r.size.height == (if n == 0 then 0.0 else r.placements[n - 1].y) +
                                  Tallest(r.placements, RowStart(layout, r.placements, availableWidth, n), n)
            && r.size.width <= availableWidth
            && (forall j :: 0 <= j < |r.placements| ==>
                  r.placements[j].y + r.placements[j].size.height <= r.size.height)
  {
    var n := |sizes|;
    RowOfCursor(layout, sizes, availableWidth, n);
    if n > 0 {
      PenAfterLast(layout, sizes, availableWidth, n);
    }
    RowsMoveDown(layout, sizes, availableWidth, n);
    var c := CursorAt(layout, sizes, availableWidth, n);
    assert Measured(layout, sizes, availableWidth).placements == c.placements;
    var r := Measured(layout, sizes, availableWidth);
    assert r.size.height == c.y + c.rowHeight;
    forall j | 0 <= j < |r.placements|
      ensures r.placements[j].y + r.placements[j].size.height <= r.size.height
    {
      assert r.placements[j] == c.placements[j];
    }
  }
}
