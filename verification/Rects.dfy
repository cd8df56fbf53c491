/** Rectangles of common/src/rect.c, as values: every C routine that rewrites a
    rectangle through a pointer becomes a function from the old fields to the new. */
module Rects {

  datatype Rect = Rect(x: int, y: int, width: int, height: int) {
    predicate Empty() {
      width <= 0 || height <= 0
    }
  }

  /** The pixel at column px, row py belongs to r. */
  predicate Contains(r: Rect, px: int, py: int) {
    r.x <= px < r.x + r.width && r.y <= py < r.y + r.height
  }

  /** Every pixel of inner belongs to outer, also for the extents of an empty inner. */
  predicate Within(inner: Rect, outer: Rect) {
    && outer.x <= inner.x && inner.x + inner.width <= outer.x + outer.width
    && outer.y <= inner.y && inner.y + inner.height <= outer.y + outer.height
  }

  function Min(a: int, b: int): int { if a < b then a else b }

  function Max(a: int, b: int): int { if a > b then a else b }

  /** guac_common_rect_extend */
  function Extend(rect: Rect, min: Rect): (r: Rect)
    ensures Within(rect, r) && Within(min, r)
  {
    var left := Min(min.x, rect.x);
    var top := Min(min.y, rect.y);
    var right := Max(min.x + min.width, rect.x + rect.width);
    var bottom := Max(min.y + min.height, rect.y + rect.height);
    Rect(left, top, right - left, bottom - top)
  }

  /** guac_common_rect_constrain */
  function Constrain(rect: Rect, max: Rect): (r: Rect)
    ensures forall px, py :: Contains(r, px, py) <==> Contains(rect, px, py) && Contains(max, px, py)
    ensures Within(r, max) && Within(r, rect)
  {
    var left := Max(max.x, rect.x);
    var top := Max(max.y, rect.y);
    var right := Min(max.x + max.width, rect.x + rect.width);
    var bottom := Min(max.y + max.height, rect.y + rect.height);
    Rect(left, top, right - left, bottom - top)
  }

  /** No rectangle smaller than Extend(rect, min) covers both arguments. */
  lemma ExtendIsLeast(rect: Rect, min: Rect, other: Rect)
    requires !rect.Empty() && !min.Empty()
    requires forall px, py :: Contains(rect, px, py) || Contains(min, px, py) ==> Contains(other, px, py)
    ensures Within(Extend(rect, min), other)
  {
    assert Contains(rect, rect.x, rect.y);
    assert Contains(rect, rect.x + rect.width - 1, rect.y + rect.height - 1);
    assert Contains(min, min.x, min.y);
    assert Contains(min, min.x + min.width - 1, min.y + min.height - 1);
  }

  // ----- guac_common_rect_expand_to_grid -----

  /** The remainder of C, which takes the sign of the dividend. */
  function CRemainder(a: int, b: int): (r: int)
    requires b > 0
  {
    if a >= 0 then a % b else -((-a) % b)
  }

  datatype Extent = Extent(low: int, high: int)

  /** One axis of the adjustment: shift into the limits, then clamp. */
  function FitExtent(e: Extent, limit: Extent): Extent {
    if e.high > limit.high then
      var low := e.low - (e.high - limit.high);
      Extent(if low < limit.low then limit.low else low, limit.high)
    else if e.low < limit.low then
      var high := e.high + (limit.low - e.low);
      Extent(limit.low, if high > limit.high then limit.high else high)
    else e
  }

  /** The size is a whole number of cells, or the axis fills its limits. */
  predicate OnGrid(cell: int, low: int, size: int, maxLow: int, maxSize: int)
    requires cell > 0
  {
    size % cell == 0 || (low == maxLow && size == maxSize)
  }

  /** The pair is the status code and the adjusted rectangle. */
  function ExpandToGrid(cell: int, rect: Rect, max: Rect): (r: (int, Rect))
    ensures cell <= 0 ==> r == (-1, rect)
    ensures cell > 0 ==> r.0 == 0 && (cell == 1 ==> r.1 == rect)
    ensures cell > 0 && !rect.Empty() && Within(rect, max) ==>
              Within(rect, r.1) && Within(r.1, max)
    ensures cell > 0 && !rect.Empty() && Within(rect, max) ==>
              && OnGrid(cell, r.1.x, r.1.width, max.x, max.width)
              && OnGrid(cell, r.1.y, r.1.height, max.y, max.height)
  {
    if cell <= 0 then (-1, rect)
    else if cell == 1 then (0, rect)
    else
      var dw := cell - CRemainder(rect.width, cell);
      var dh := cell - CRemainder(rect.height, cell);
      var top := rect.y - dh / 2;
      var left := rect.x - dw / 2;
      var h := FitExtent(Extent(left, left + rect.width + dw), Extent(max.x, max.x + max.width));
      var v := FitExtent(Extent(top, top + rect.height + dh), Extent(max.y, max.y + max.height));
      assert rect.width >= 0 ==> (rect.width + dw) % cell == 0 by {
        if rect.width >= 0 { WholeCells(rect.width, cell); }
      }
      assert rect.height >= 0 ==> (rect.height + dh) % cell == 0 by {
        if rect.height >= 0 { WholeCells(rect.height, cell); }
      }
      (0, Rect(h.low, v.low, h.high - h.low, v.high - v.low))
  }

  /** Along one axis a range grows by one to cell points, to a whole number of cells, by
      as much on the right as on the left or one more. If that is outside the limits, it
      comes to lie at the limit, and fills them if they are too small. */
  predicate Grows(cell: int, low: int, size: int, maxLow: int, maxSize: int, newLow: int, newSize: int)
    requires cell > 0
  {
    exists g :: 1 <= g <= cell && (size + g) % cell == 0 && GrowsBy(g, low, size, maxLow, maxSize, newLow, newSize)
  }

  predicate GrowsBy(g: int, low: int, size: int, maxLow: int, maxSize: int, newLow: int, newSize: int) {
    && newSize == Min(size + g, maxSize)
    && (maxLow <= low - g / 2 && low - g / 2 + size + g <= maxLow + maxSize ==> newLow == low - g / 2)
    && (low - g / 2 + size + g > maxLow + maxSize ==> newLow + newSize == maxLow + maxSize)
    && (low - g / 2 < maxLow && low - g / 2 + size + g <= maxLow + maxSize ==> newLow == maxLow)
  }

  /** No other growth makes whole cells. */
  lemma GrowthIsUnique(cell: int, size: int, g: int, g': int)
    requires cell > 0 && 1 <= g <= cell && 1 <= g' <= cell && (size + g) % cell == 0 && (size + g') % cell == 0
    ensures g == g'
  {
    var q, q' := (size + g) / cell, (size + g') / cell;
    assert size + g == cell * q && size + g' == cell * q';
    assert cell * (q - q') == g - g';
    ScaledBounds(cell, q - q');
  }

  lemma GrowsOnAxis(cell: int, low: int, size: int, maxLow: int, maxSize: int)
    requires cell > 1 && size > 0 && maxLow <= low && low + size <= maxLow + maxSize
    ensures var g := cell - CRemainder(size, cell);
      var e := FitExtent(Extent(low - g / 2, low - g / 2 + size + g), Extent(maxLow, maxLow + maxSize));
      Grows(cell, low, size, maxLow, maxSize, e.low, e.high - e.low)
  {
    var g := cell - CRemainder(size, cell);
    WholeCells(size, cell);
    var e := FitExtent(Extent(low - g / 2, low - g / 2 + size + g), Extent(maxLow, maxLow + maxSize));
    assert GrowsBy(g, low, size, maxLow, maxSize, e.low, e.high - e.low);
  }

  /** How far a rectangle within the limits is expanded on either side. */
  lemma ExpandGrows(cell: int, rect: Rect, max: Rect)
    requires cell > 1 && !rect.Empty() && Within(rect, max)
    ensures var r := ExpandToGrid(cell, rect, max).1;
      && Grows(cell, rect.x, rect.width, max.x, max.width, r.x, r.width)
      && Grows(cell, rect.y, rect.height, max.y, max.height, r.y, r.height)
  {
    hide FitExtent, Grows, CRemainder;
    GrowsOnAxis(cell, rect.x, rect.width, max.x, max.width);
    GrowsOnAxis(cell, rect.y, rect.height, max.y, max.height);
  }

  lemma WholeCells(size: int, cell: int)
    requires cell > 0 && size >= 0
    ensures (size + (cell - size % cell)) % cell == 0
  {
    MultipleHasNoRemainder(cell, size / cell + 1);
    assert size + (cell - size % cell) == cell * (size / cell + 1);
  }

  lemma MultipleHasNoRemainder(cell: int, k: int)
    requires cell > 0
    ensures (cell * k) % cell == 0
  {
    var q, r := (cell * k) / cell, (cell * k) % cell;
    assert cell * (k - q) == r;
    ScaledBounds(cell, k - q);
  }

  lemma ScaledBounds(cell: int, n: int)
    requires cell > 0
    ensures n >= 1 ==> cell * n >= cell
    ensures n <= -1 ==> cell * n <= -cell
  {
  }

  // ----- guac_common_rect_intersects, guac_common_rect_clip_and_split -----

  /** 0 apart, 1 partial (touching counts), 2 when rect lies inside other. */
  function Intersects(rect: Rect, other: Rect): (r: int)
    ensures rect.width >= 0 && rect.height >= 0 && other.width >= 0 && other.height >= 0 ==>
              (r == 2 <==> Within(rect, other))
    ensures r == 0 ==> forall px, py :: !(Contains(rect, px, py) && Contains(other, px, py))
  {
    if other.x + other.width < rect.x || rect.x + rect.width < other.x ||
       other.y + other.height < rect.y || rect.y + rect.height < other.y then 0
    else if other.x <= rect.x && other.x + other.width >= rect.x + rect.width &&
            other.y <= rect.y && other.y + other.height >= rect.y + rect.height then 2
    else 1
  }

  /** The point belongs to the rectangle or its border. */
  predicate Touches(r: Rect, px: int, py: int) {
    r.x <= px <= r.x + r.width && r.y <= py <= r.y + r.height
  }

  /** Exactly rectangles whose borders do not meet either are apart. */
  lemma ApartIff(rect: Rect, other: Rect)
    requires rect.width >= 0 && rect.height >= 0 && other.width >= 0 && other.height >= 0
    ensures Intersects(rect, other) == 0 <==> forall px, py :: !(Touches(rect, px, py) && Touches(other, px, py))
  {
    if Intersects(rect, other) != 0 {
      var px, py := Max(rect.x, other.x), Max(rect.y, other.y);
      assert Touches(rect, px, py) && Touches(other, px, py);
    }
  }

  datatype Split = Unsplit | Cut(rest: Rect, piece: Rect)

  /** One call: Unsplit is the return value 0; otherwise the clipped rectangle
      and the piece cut from its first protruding edge. */
  function ClipAndSplit(rect: Rect, hole: Rect): (s: Split)
    ensures s.Cut? ==> forall px, py ::
      Contains(rect, px, py) <==> Contains(s.rest, px, py) || Contains(s.piece, px, py)
    ensures s.Cut? ==> forall px, py :: Contains(s.piece, px, py) ==>
      !Contains(s.rest, px, py) && !Contains(hole, px, py)
  {
    var right, bottom := rect.x + rect.width, rect.y + rect.height;
    var holeRight, holeBottom := hole.x + hole.width, hole.y + hole.height;
    if Intersects(rect, hole) == 0 then Unsplit
    else if rect.y < hole.y then
      Cut(Rect(rect.x, hole.y, rect.width, bottom - hole.y),
          Rect(rect.x, rect.y, rect.width, hole.y - rect.y))
    else if rect.x < hole.x then
      Cut(Rect(hole.x, rect.y, right - hole.x, rect.height),
          Rect(rect.x, rect.y, hole.x - rect.x, rect.height))
    else if bottom > holeBottom then
      Cut(Rect(rect.x, rect.y, rect.width, holeBottom - rect.y),
          Rect(rect.x, holeBottom, rect.width, bottom - holeBottom))
    else if right > holeRight then
      Cut(Rect(rect.x, rect.y, holeRight - rect.x, rect.height),
          Rect(holeRight, rect.y, right - holeRight, rect.height))
    else Unsplit
  }

  ghost predicate Covered(pieces: seq<Rect>, px: int, py: int) {
    exists k :: 0 <= k < |pieces| && Contains(pieces[k], px, py)
  }

  ghost predicate Disjoint(pieces: seq<Rect>) {
    forall j, k, px, py :: 0 <= j < k < |pieces| ==> !(Contains(pieces[j], px, py) && Contains(pieces[k], px, py))
  }

  /** Edges of rect that still protrude from the hole. */
  function Protruding(rect: Rect, hole: Rect): nat {
    (if rect.y < hole.y then 1 else 0) + (if rect.x < hole.x then 1 else 0)
    + (if rect.y + rect.height > hole.y + hole.height then 1 else 0)
    + (if rect.x + rect.width > hole.x + hole.width then 1 else 0)
  }

  /** The documented use of ClipAndSplit: call until it returns zero. The pieces
      tile the difference between the rectangle and the hole. */
  method SplitUntilZero(rect: Rect, hole: Rect) returns (rest: Rect, pieces: seq<Rect>)
    requires rect.width >= 0 && rect.height >= 0 && hole.width >= 0 && hole.height >= 0
    ensures |pieces| <= 4 && Disjoint(pieces)
    ensures forall px, py :: Covered(pieces, px, py) ==> !Contains(rest, px, py) && !Contains(hole, px, py)
    ensures forall px, py :: Contains(rect, px, py) <==> Covered(pieces, px, py) || Contains(rest, px, py)
    ensures Intersects(rect, hole) == 0 ==> pieces == [] && rest == rect
    ensures Intersects(rect, hole) != 0 ==> Within(rest, hole)
  {
    rest, pieces := rect, [];
    while true
      invariant rest.width >= 0 && rest.height >= 0
      invariant |pieces| + Protruding(rest, hole) <= 4 && Disjoint(pieces)
      invariant forall px, py :: Covered(pieces, px, py) ==> !Contains(rest, px, py) && !Contains(hole, px, py)
      invariant forall px, py :: Contains(rect, px, py) <==> Covered(pieces, px, py) || Contains(rest, px, py)
      invariant Intersects(rest, hole) == 0 <==> Intersects(rect, hole) == 0
      invariant Intersects(rect, hole) == 0 ==> pieces == [] && rest == rect
      decreases Protruding(rest, hole)
    {
      var s := ClipAndSplit(rest, hole);
      if s.Unsplit? {
        return;
      }
      ghost var before := pieces;
      pieces := pieces + [s.piece];
      rest := s.rest;
      assert forall px, py :: Covered(pieces, px, py) <==> Covered(before, px, py) || Contains(s.piece, px, py) by {
        forall px, py | Covered(before, px, py) ensures Covered(pieces, px, py) {
          var k :| 0 <= k < |before| && Contains(before[k], px, py);
          assert pieces[k] == before[k];
        }
        assert pieces[|before|] == s.piece;
      }
    }
  }
}
