/** The pixel loops of common/src/surface.c (set, put, fill_mask, transfer) over
    two-dimensional arrays indexed [row, column], for any type of pixel. */
module Pixels {
  import opened Rects

  /** rect lies inside the image and holds at least one pixel. */
  predicate Fits<T>(rect: Rect, img: array2<T>) {
    && !rect.Empty()
    && 0 <= rect.x && rect.x + rect.width <= img.Length1
    && 0 <= rect.y && rect.y + rect.height <= img.Length0
  }

  /** The rectangle of rect's size at (sx, sy) lies inside the image. */
  predicate FitsAt<T>(rect: Rect, sx: int, sy: int, img: array2<T>) {
    Fits(Rect(sx, sy, rect.width, rect.height), img)
  }

  /** The contents of an image as a value: its rows from top to bottom. */
  ghost function Rows<T>(img: array2<T>): (rows: seq<seq<T>>)
    reads img
    ensures |rows| == img.Length0
    ensures forall py :: 0 <= py < img.Length0 ==> |rows[py]| == img.Length1
    ensures forall py, px :: 0 <= py < img.Length0 && 0 <= px < img.Length1 ==> rows[py][px] == img[py, px]
  {
    seq(img.Length0, py requires 0 <= py < img.Length0 reads img =>
      seq(img.Length1, px requires 0 <= px < img.Length1 reads img => img[py, px]))
  }

  /** The rectangle holds only pixels of the image with these rows. */
  ghost predicate Covers<T>(rows: seq<seq<T>>, rect: Rect) {
    0 <= rect.x && 0 <= rect.y && rect.y + rect.height <= |rows| &&
    forall py :: rect.y <= py < rect.y + rect.height ==> rect.x + rect.width <= |rows[py]|
  }

  /** The specification of every loop below: all pixels of rect are replaced at
      once by f(source pixel, destination pixel), both taken before the call. */
  ghost function Combined<T>(src: seq<seq<T>>, sx: int, sy: int, f: (T, T) -> T, dst: seq<seq<T>>,
                             rect: Rect): (rows: seq<seq<T>>)
    requires Covers(src, Rect(sx, sy, rect.width, rect.height)) && Covers(dst, rect)
    ensures |rows| == |dst| && forall py :: 0 <= py < |dst| ==> |rows[py]| == |dst[py]|
  {
    seq(|dst|, py requires 0 <= py < |dst| =>
      seq(|dst[py]|, px requires 0 <= px < |dst[py]| =>
        if Contains(rect, px, py) then f(src[py - rect.y + sy][px - rect.x + sx], dst[py][px]) else dst[py][px]))
  }

  lemma CombinedAt<T>(src: seq<seq<T>>, sx: int, sy: int, f: (T, T) -> T, dst: seq<seq<T>>, rect: Rect, px: int,
                      py: int)
    requires Covers(src, Rect(sx, sy, rect.width, rect.height)) && Covers(dst, rect)
    requires 0 <= py < |dst| && 0 <= px < |dst[py]|
    ensures Combined(src, sx, sy, f, dst, rect)[py][px] ==
      if Contains(rect, px, py) then f(src[py - rect.y + sy][px - rect.x + sx], dst[py][px])
                      else dst[py][px]
  {
  }

  /** Each pixel (px, py) within limits that the rectangle of w by h at (dx, dy) holds
      becomes f of the pixel at (sx + px - dx, sy + py - dy) of src, if src has that one,
      and of itself; every other pixel stays. */
  ghost predicate Places<T(!new)>(src: seq<seq<T>>, sx: int, sy: int, w: int, h: int, f: (T, T) -> T, dst: seq<seq<T>>,
                                  dx: int, dy: int, limits: Rect, now: seq<seq<T>>) {
    |now| == |dst| &&
    forall py, px :: 0 <= py < |dst| ==>
      && |now[py]| == |dst[py]|
      && (0 <= px < |dst[py]| ==>
            var qx, qy := sx + px - dx, sy + py - dy;
            now[py][px] ==
              if 0 <= px - dx < w && 0 <= py - dy < h && 0 <= qy < |src| && 0 <= qx < |src[qy]| &&
                limits.x <= px < limits.x + limits.width && limits.y <= py < limits.y + limits.height
              then f(src[qy][qx], dst[py][px])
              else dst[py][px])
  }

  lemma SameRows<T>(img: array2<T>, rows: seq<seq<T>>)
    requires |rows| == img.Length0 && forall py :: 0 <= py < |rows| ==> |rows[py]| == img.Length1
    requires forall py, px :: 0 <= py < img.Length0 && 0 <= px < img.Length1 ==> img[py, px] == rows[py][px]
    ensures Rows(img) == rows
  {
    forall py | 0 <= py < |rows| ensures Rows(img)[py] == rows[py] {
      forall px | 0 <= px < img.Length1 ensures Rows(img)[py][px] == rows[py][px] {
        assert img[py, px] == rows[py][px];
      }
    }
  }

  // ----- the changed region -----

  /** The two images with these rows differ at (px, py). */
  predicate Changed<T(==)>(was: seq<seq<T>>, now: seq<seq<T>>, px: int, py: int) {
    0 <= py < |was| && py < |now| && 0 <= px < |was[py]| && px < |now[py]| && was[py][px] != now[py][px]
  }

  ghost predicate HoldsChanges<T>(was: seq<seq<T>>, now: seq<seq<T>>, r: Rect) {
    forall px, py :: Changed(was, now, px, py) ==> Contains(r, px, py)
  }

  /** r is the smallest rectangle that holds every changed pixel; when nothing
      changed it is empty, or the single pixel of an unchanged 1x1 rect if keepUnit. */
  ghost predicate Tight<T>(was: seq<seq<T>>, now: seq<seq<T>>, rect: Rect, r: Rect, keepUnit: bool) {
    && HoldsChanges(was, now, r) && Within(r, rect)
    && ((exists px, py :: Changed(was, now, px, py)) ==>
          !r.Empty() && forall q :: HoldsChanges(was, now, q) ==> Within(r, q))
    && ((forall px, py :: !Changed(was, now, px, py)) ==>
          if keepUnit && rect.width == 1 && rect.height == 1 then r == rect
          else r == Rect(rect.x, rect.y, 0, 0))
  }

  lemma TightMeans<T>(was: seq<seq<T>>, now: seq<seq<T>>, rect: Rect, r: Rect, keepUnit: bool)
    requires Tight(was, now, rect, r, keepUnit)
    ensures HoldsChanges(was, now, r) && Within(r, rect)
  {
  }

  /** min_x, min_y, max_x and max_y of the C loops, relative to the scan. */
  datatype Bounds = Bounds(minX: int, minY: int, maxX: int, maxY: int) {
    /** "Restrict destination rect to only updated pixels" */
    function Narrow(rect: Rect): Rect {
      if maxX >= minX && maxY >= minY then
        Rect(rect.x + minX, rect.y + minY, maxX - minX + 1, maxY - minY + 1)
      else rect.(width := 0, height := 0)
    }

    /** Translation of the coordinates of a backwards scan. */
    function Mirror(rect: Rect): Bounds {
      Bounds(rect.width - 1 - maxX, rect.height - 1 - maxY, rect.width - 1 - minX, rect.height - 1 - minY)
    }
  }

  /** A scan runs through rect row by row, forwards from its first pixel or
      backwards from its last. */
  datatype Scan = Scan(rect: Rect, back: bool) {
    function Col(x: int): int { if back then rect.x + rect.width - 1 - x else rect.x + x }
    function Row(y: int): int { if back then rect.y + rect.height - 1 - y else rect.y + y }

    /** Has the pixel (px, py) been visited when the scan stands at (x, y)? */
    predicate Visited(px: int, py: int, x: int, y: int) {
      Contains(rect, px, py) &&
      if back then py > Row(y) || (py == Row(y) && px > Col(x))
      else py < Row(y) || (py == Row(y) && px < Col(x))
    }
  }

  /** One changed pixel on each edge of the bounds: the scan row of a leftmost
      one, the scan column of a topmost one, and so on. */
  datatype Edges = NoEdges | Edges(left: int, top: int, right: int, bottom: int)

  predicate Before(x: int, y: int, atX: int, atY: int) {
    y < atY || (y == atY && x < atX)
  }

  /** Scan positions; hit says which of them are pixels that change. */
  type Hit = (int, int) -> bool

  /** b is exact for the positions that the scan, now at (x, y), has visited. */
  ghost predicate Tracks(hit: Hit, b: Bounds, e: Edges, init: Bounds, x: int, y: int) {
    && (forall x', y' :: hit(x', y') && Before(x', y', x, y) ==>
          e.Edges? && b.minX <= x' <= b.maxX && b.minY <= y' <= b.maxY)
    && if e.NoEdges? then b == init
       else hit(b.minX, e.left) && hit(e.top, b.minY) && hit(b.maxX, e.right) && hit(e.bottom, b.maxY)
  }

  /** put starts its minimums one beyond the last position, set and transfer on it. */
  predicate IsInit(init: Bounds, rect: Rect) {
    init == Bounds(rect.width - 1, rect.height - 1, 0, 0) || init == Bounds(rect.width, rect.height, 0, 0)
  }

  /** The four comparisons made for each pixel that changes. */
  method Note(ghost hit: Hit, ghost rect: Rect, b: Bounds, ghost e: Edges, ghost init: Bounds, x: int, y: int)
    returns (b': Bounds, ghost e': Edges)
    requires 0 <= x < rect.width && 0 <= y < rect.height && IsInit(init, rect)
    requires Tracks(hit, b, e, init, x, y) && hit(x, y)
    ensures b' == Bounds(Min(b.minX, x), Min(b.minY, y), Max(b.maxX, x), Max(b.maxY, y))
    ensures Tracks(hit, b', e', init, x + 1, y)
  {
    b', e' := b, if e.NoEdges? then Edges(y, x, y, x) else e;
    if x < b.minX { b', e' := b'.(minX := x), e'.(left := y); }
    if y < b.minY { b', e' := b'.(minY := y), e'.(top := x); }
    if x > b.maxX { b', e' := b'.(maxX := x), e'.(right := y); }
    if y > b.maxY { b', e' := b'.(maxY := y), e'.(bottom := x); }
  }

  lemma Start(hit: Hit, init: Bounds)
    requires forall x, y :: hit(x, y) ==> x >= 0 && y >= 0
    ensures Tracks(hit, init, NoEdges, init, 0, 0)
  {
  }

  lemma Pass(hit: Hit, b: Bounds, e: Edges, init: Bounds, x: int, y: int)
    requires Tracks(hit, b, e, init, x, y) && !hit(x, y)
    ensures Tracks(hit, b, e, init, x + 1, y)
  {
  }

  lemma NextRow(hit: Hit, b: Bounds, e: Edges, init: Bounds, width: int, y: int)
    requires forall x, y :: hit(x, y) ==> 0 <= x < width
    requires Tracks(hit, b, e, init, width, y)
    ensures Tracks(hit, b, e, init, 0, y + 1)
  {
  }

  /** The positions of the scan at which the image changes. */
  ghost function Hits<T>(was: seq<seq<T>>, now: seq<seq<T>>, s: Scan): (hit: Hit)
    ensures forall x, y :: hit(x, y) <==>
      0 <= x < s.rect.width && 0 <= y < s.rect.height && Changed(was, now, s.Col(x), s.Row(y))
  {
    (x, y) => 0 <= x < s.rect.width && 0 <= y < s.rect.height && Changed(was, now, s.Col(x), s.Row(y))
  }

  /** Every changed pixel of the rectangle is a position of the scan. */
  lemma HitOf<T>(was: seq<seq<T>>, now: seq<seq<T>>, s: Scan, px: int, py: int) returns (x: int, y: int)
    requires HoldsChanges(was, now, s.rect) && Changed(was, now, px, py)
    ensures Hits(was, now, s)(x, y) && px == s.Col(x) && py == s.Row(y) && y < s.rect.height
  {
    assert Contains(s.rect, px, py);
    x := if s.back then s.rect.x + s.rect.width - 1 - px else px - s.rect.x;
    y := if s.back then s.rect.y + s.rect.height - 1 - py else py - s.rect.y;
  }

  /** When the scan ends, narrowing the (translated) bounds gives the changed region. */
  lemma TightFromEdges<T>(was: seq<seq<T>>, now: seq<seq<T>>, s: Scan, b: Bounds, e: Edges, init: Bounds)
    requires !s.rect.Empty() && HoldsChanges(was, now, s.rect)
    requires IsInit(init, s.rect) && Tracks(Hits(was, now, s), b, e, init, 0, s.rect.height)
    requires s.back ==> init.minX == s.rect.width - 1
    ensures var r := (if s.back then b.Mirror(s.rect) else b).Narrow(s.rect);
      Tight(was, now, s.rect, r, init.minX == s.rect.width - 1)
  {
    var hit := Hits(was, now, s);
    var r := (if s.back then b.Mirror(s.rect) else b).Narrow(s.rect);
    forall px, py | Changed(was, now, px, py)
      ensures e.Edges? && Contains(r, px, py)
    {
      var x, y := HitOf(was, now, s, px, py);
    }
    if e.Edges? {
      assert hit(b.minX, e.left) && hit(b.maxX, e.right) && hit(e.top, b.minY) && hit(e.bottom, b.maxY);
      forall q | HoldsChanges(was, now, q) ensures Within(r, q) {
        assert Contains(q, s.Col(b.minX), s.Row(e.left)) && Contains(q, s.Col(b.maxX), s.Row(e.right));
        assert Contains(q, s.Col(e.top), s.Row(b.minY)) && Contains(q, s.Col(e.bottom), s.Row(b.maxY));
      }
    }
  }

  // ----- the loops -----

  /** The scan, now at (x, y), has turned the pixels visited from was into now. */
  ghost predicate Painted<T>(img: array2<T>, was: seq<seq<T>>, now: seq<seq<T>>, s: Scan, x: int, y: int)
    reads img
  {
    && |was| == |now| == img.Length0
    && (forall py :: 0 <= py < img.Length0 ==> |was[py]| == |now[py]| == img.Length1)
    && (forall py, px :: 0 <= py < img.Length0 && 0 <= px < img.Length1 ==>
          img[py, px] == if s.Visited(px, py, x, y) then now[py][px] else was[py][px])
  }

  /** Writing the new value of the current pixel paints it. */
  method Store<T>(img: array2<T>, s: Scan, x: int, y: int, color: T, ghost was: seq<seq<T>>, ghost now: seq<seq<T>>)
    requires Fits(s.rect, img) && 0 <= x < s.rect.width && 0 <= y < s.rect.height
    requires Painted(img, was, now, s, x, y) && now[s.Row(y)][s.Col(x)] == color
    modifies img
    ensures Painted(img, was, now, s, x + 1, y)
  {
    img[s.Row(y), s.Col(x)] := color;
  }

  /** A pixel that keeps its value needs no write. */
  lemma Keep<T>(img: array2<T>, s: Scan, x: int, y: int, was: seq<seq<T>>, now: seq<seq<T>>)
    requires Fits(s.rect, img) && 0 <= x < s.rect.width && 0 <= y < s.rect.height
    requires Painted(img, was, now, s, x, y) && now[s.Row(y)][s.Col(x)] == was[s.Row(y)][s.Col(x)]
    ensures Painted(img, was, now, s, x + 1, y)
  {
  }

  lemma RowDone<T>(img: array2<T>, s: Scan, y: int, was: seq<seq<T>>, now: seq<seq<T>>)
    requires Painted(img, was, now, s, s.rect.width, y)
    ensures Painted(img, was, now, s, 0, y + 1)
  {
  }

  /** The scan of the whole rectangle has made the image the combination. */
  lemma AllDone<T>(img: array2<T>, s: Scan, src: seq<seq<T>>, sx: int, sy: int, f: (T, T) -> T, was: seq<seq<T>>)
    requires Fits(s.rect, img)
    requires Covers(src, Rect(sx, sy, s.rect.width, s.rect.height)) && Covers(was, s.rect)
    requires Painted(img, was, Combined(src, sx, sy, f, was, s.rect), s, 0, s.rect.height)
    ensures Rows(img) == Combined(src, sx, sy, f, was, s.rect)
    ensures HoldsChanges(was, Combined(src, sx, sy, f, was, s.rect), s.rect)
  {
    var now := Combined(src, sx, sy, f, was, s.rect);
    forall py, px | 0 <= py < |was| && 0 <= px < |was[py]| && !Contains(s.rect, px, py)
      ensures now[py][px] == was[py][px]
    {
      CombinedAt(src, sx, sy, f, was, s.rect, px, py);
    }
    SameRows(img, now);
  }

  lemma Begin<T>(img: array2<T>, s: Scan, src: seq<seq<T>>, sx: int, sy: int, f: (T, T) -> T, was: seq<seq<T>>)
    requires was == Rows(img) && Fits(s.rect, img)
    requires Covers(src, Rect(sx, sy, s.rect.width, s.rect.height)) && Covers(was, s.rect)
    ensures Painted(img, was, Combined(src, sx, sy, f, was, s.rect), s, 0, 0)
  {
  }

  /** What the pixel at the scan position holds, and what it is to become. */
  lemma Current<T>(img: array2<T>, s: Scan, src: seq<seq<T>>, sx: int, sy: int, f: (T, T) -> T, was: seq<seq<T>>,
                   x: int, y: int)
    requires Fits(s.rect, img) && 0 <= x < s.rect.width && 0 <= y < s.rect.height
    requires Covers(src, Rect(sx, sy, s.rect.width, s.rect.height)) && Covers(was, s.rect)
    requires Painted(img, was, Combined(src, sx, sy, f, was, s.rect), s, x, y)
    ensures var now := Combined(src, sx, sy, f, was, s.rect);
      var px, py := s.Col(x), s.Row(y);
      && img[py, px] == was[py][px]
      && now[py][px] == f(src[py - s.rect.y + sy][px - s.rect.x + sx], was[py][px])
      && (Hits(was, now, s)(x, y) <==> now[py][px] != was[py][px])
  {
    CombinedAt(src, sx, sy, f, was, s.rect, s.Col(x), s.Row(y));
  }

  /** What a fill makes of any pixel. */
  function Fill<T>(color: T): (T, T) -> T {
    (s, d) => color
  }

  /** __guac_common_surface_set */
  method SetRect<T(==)>(dst: array2<T>, rect: Rect, color: T) returns (r: Rect)
    requires Fits(rect, dst)
    modifies dst
    ensures Rows(dst) == Combined(old(Rows(dst)), rect.x, rect.y, Fill(color), old(Rows(dst)), rect)
    ensures Tight(old(Rows(dst)), Rows(dst), rect, r, true)
  {
    hide Tracks, Tight, Combined, Hits, Rows, HoldsChanges, Painted;
    var b, s := Bounds(rect.width - 1, rect.height - 1, 0, 0), Scan(rect, false);
    ghost var init, e, was, f := b, NoEdges, Rows(dst), Fill(color);
    ghost var now := Combined(was, rect.x, rect.y, f, was, rect);
    ghost var hit := Hits(was, now, s);
    Start(hit, init);
    Begin(dst, s, was, rect.x, rect.y, f, was);
    var y := 0;
    while y < rect.height
      invariant 0 <= y <= rect.height
      invariant Painted(dst, was, now, s, 0, y) && Tracks(hit, b, e, init, 0, y)
    {
      var x := 0;
      while x < rect.width
        invariant 0 <= x <= rect.width
        invariant Painted(dst, was, now, s, x, y) && Tracks(hit, b, e, init, x, y)
      {
        Current(dst, s, was, rect.x, rect.y, f, was, x, y);
        if dst[rect.y + y, rect.x + x] != color {
          b, e := Note(hit, rect, b, e, init, x, y);
          Store(dst, s, x, y, color, was, now);
        } else {
          Pass(hit, b, e, init, x, y);
          Keep(dst, s, x, y, was, now);
        }
        x := x + 1;
      }
      NextRow(hit, b, e, init, rect.width, y);
      RowDone(dst, s, y, was, now);
      y := y + 1;
    }
    r := b.Narrow(rect);
    AllDone(dst, s, was, rect.x, rect.y, f, was);
    TightFromEdges(was, now, s, b, e, init);
  }

  /** __guac_common_surface_put, with compose(source, destination) giving the
      colour of each pixel. Also returns the shifted source coordinates. */
  method Put<T(==)>(src: array2<T>, sx: int, sy: int, dst: array2<T>, rect: Rect, compose: (T, T) -> T)
    returns (sx': int, sy': int, r: Rect)
    requires Fits(rect, dst) && FitsAt(rect, sx, sy, src) && src != dst
    modifies dst
    ensures Rows(dst) == Combined(Rows(src), sx, sy, compose, old(Rows(dst)), rect)
    ensures Tight(old(Rows(dst)), Rows(dst), rect, r, false)
    ensures sx' - sx == r.x - rect.x && sy' - sy == r.y - rect.y
  {
    hide Tracks, Tight, Combined, Hits, Rows, HoldsChanges, Painted;
    var b, s := Bounds(rect.width, rect.height, 0, 0), Scan(rect, false);
    ghost var init, e, from, was := b, NoEdges, Rows(src), Rows(dst);
    ghost var now := Combined(from, sx, sy, compose, was, rect);
    ghost var hit := Hits(was, now, s);
    Start(hit, init);
    Begin(dst, s, from, sx, sy, compose, was);
    var y := 0;
    while y < rect.height
      invariant 0 <= y <= rect.height
      invariant Painted(dst, was, now, s, 0, y) && Tracks(hit, b, e, init, 0, y)
    {
      var x := 0;
      while x < rect.width
        invariant 0 <= x <= rect.width
        invariant Painted(dst, was, now, s, x, y) && Tracks(hit, b, e, init, x, y)
      {
        Current(dst, s, from, sx, sy, compose, was, x, y);
        var color := compose(src[sy + y, sx + x], dst[rect.y + y, rect.x + x]);
        if dst[rect.y + y, rect.x + x] != color {
          b, e := Note(hit, rect, b, e, init, x, y);
          Store(dst, s, x, y, color, was, now);
        } else {
          Pass(hit, b, e, init, x, y);
          Keep(dst, s, x, y, was, now);
        }
        x := x + 1;
      }
      NextRow(hit, b, e, init, rect.width, y);
      RowDone(dst, s, y, was, now);
      y := y + 1;
    }
    r := b.Narrow(rect);
    AllDone(dst, s, from, sx, sy, compose, was);
    TightFromEdges(was, now, s, b, e, init);
    sx', sy' := sx + r.x - rect.x, sy + r.y - rect.y;
  }

  /** The colour fill_mask gives a pixel. */
  function Stencil<T>(masked: T -> bool, color: T): (T, T) -> T {
    (s, d) => if masked(s) then color else d
  }

  /** __guac_common_surface_fill_mask */
  method FillMask<T(==)>(src: array2<T>, sx: int, sy: int, dst: array2<T>, rect: Rect, masked: T -> bool, color: T)
    requires Fits(rect, dst) && FitsAt(rect, sx, sy, src) && src != dst
    modifies dst
    ensures Rows(dst) == Combined(Rows(src), sx, sy, Stencil(masked, color), old(Rows(dst)), rect)
    ensures HoldsChanges(old(Rows(dst)), Rows(dst), rect)
  {
    hide Combined, Rows, HoldsChanges, Painted;
    var s := Scan(rect, false);
    ghost var from, was, f := Rows(src), Rows(dst), Stencil(masked, color);
    ghost var now := Combined(from, sx, sy, f, was, rect);
    Begin(dst, s, from, sx, sy, f, was);
    var y := 0;
    while y < rect.height
      invariant 0 <= y <= rect.height && Painted(dst, was, now, s, 0, y)
    {
      var x := 0;
      while x < rect.width
        invariant 0 <= x <= rect.width && Painted(dst, was, now, s, x, y)
      {
        Current(dst, s, from, sx, sy, f, was, x, y);
        if masked(src[sy + y, sx + x]) {
          Store(dst, s, x, y, color, was, now);
        } else {
          Keep(dst, s, x, y, was, now);
        }
        x := x + 1;
      }
      RowDone(dst, s, y, was, now);
      y := y + 1;
    }
    AllDone(dst, s, from, sx, sy, f, was);
  }

  /** The direction chosen by __guac_common_surface_transfer. */
  predicate Backwards(same: bool, sx: int, sy: int, rect: Rect) {
    !(!same || rect.y < sy || (rect.y == sy && rect.x < sx))
  }

  /** In the chosen direction the scan reaches a source pixel of the same image
      no later than it writes there. */
  lemma SourceIntact<T>(img: array2<T>, s: Scan, sx: int, sy: int, x: int, y: int, was: seq<seq<T>>, now: seq<seq<T>>)
    requires Fits(s.rect, img) && FitsAt(s.rect, sx, sy, img) && s.back == Backwards(true, sx, sy, s.rect)
    requires 0 <= x < s.rect.width && 0 <= y < s.rect.height && Painted(img, was, now, s, x, y)
    ensures var px, py := s.Col(x) - s.rect.x + sx, s.Row(y) - s.rect.y + sy;
      img[py, px] == was[py][px]
  {
    var px, py := s.Col(x) - s.rect.x + sx, s.Row(y) - s.rect.y + sy;
    assert !s.Visited(px, py, x, y);
  }

  /** __guac_common_surface_transfer: although the images may be one and the
      regions may overlap, every pixel is combined as if all were read first. */
  method Transfer<T(==)>(src: array2<T>, sx: int, sy: int, f: (T, T) -> T, dst: array2<T>, rect: Rect)
    returns (sx': int, sy': int, r: Rect)
    requires Fits(rect, dst) && FitsAt(rect, sx, sy, src)
    modifies dst
    ensures Rows(dst) == Combined(old(Rows(src)), sx, sy, f, old(Rows(dst)), rect)
    ensures Tight(old(Rows(dst)), Rows(dst), rect, r, true) && HoldsChanges(old(Rows(dst)), Rows(dst), rect)
    ensures sx' - sx == r.x - rect.x && sy' - sy == r.y - rect.y
  {
    hide Tracks, Tight, Combined, Hits, Rows, HoldsChanges, Painted;
    var b := Bounds(rect.width - 1, rect.height - 1, 0, 0);
    var s := Scan(rect, Backwards(src == dst, sx, sy, rect));
    ghost var init, e, from, was := b, NoEdges, Rows(src), Rows(dst);
    ghost var now := Combined(from, sx, sy, f, was, rect);
    ghost var hit := Hits(was, now, s);
    Start(hit, init);
    Begin(dst, s, from, sx, sy, f, was);
    var y := 0;
    while y < rect.height
      invariant 0 <= y <= rect.height
      invariant Painted(dst, was, now, s, 0, y) && Tracks(hit, b, e, init, 0, y)
    {
      var x := 0;
      while x < rect.width
        invariant 0 <= x <= rect.width
        invariant Painted(dst, was, now, s, x, y) && Tracks(hit, b, e, init, x, y)
      {
        Current(dst, s, from, sx, sy, f, was, x, y);
        if src == dst {
          SourceIntact(dst, s, sx, sy, x, y, was, now);
        }
        var px, py := s.Col(x), s.Row(y);
        var color := f(src[py - rect.y + sy, px - rect.x + sx], dst[py, px]);
        if color != dst[py, px] {
          b, e := Note(hit, rect, b, e, init, x, y);
        } else {
          Pass(hit, b, e, init, x, y);
        }
        Store(dst, s, x, y, color, was, now);
        x := x + 1;
      }
      NextRow(hit, b, e, init, rect.width, y);
      RowDone(dst, s, y, was, now);
      y := y + 1;
    }
    AllDone(dst, s, from, sx, sy, f, was);
    TightFromEdges(was, now, s, b, e, init);
    if s.back {
      b := b.Mirror(rect);
    }
    r := b.Narrow(rect);
    sx', sy' := sx + r.x - rect.x, sy + r.y - rect.y;
  }
}
