/** The account a surface of common/src/surface.c keeps with the remote display:
    what is still to be sent, as a value, and how flushing and drawing change it. */
module Accounts {
  import opened Argb
  import opened Pixels
  import opened Rects
  import opened Remote

  const QUEUE_SIZE := 256

  datatype BitmapRect = BitmapRect(flushed: bool, rect: Rect)

  /** __guac_common_surface_bitmap_rect_compare */
  function Compare(a: Rect, b: Rect): int {
    if a.y != b.y then a.y - b.y
    else if a.x != b.x then a.x - b.x
    else if a.width != b.width then b.width - a.width
    else a.height - b.height
  }

  /** From top to bottom, then from left to right, then the wider and the flatter first. */
  lemma CompareIff(a: Rect, b: Rect)
    ensures Compare(a, b) < 0 <==>
      || a.y < b.y
      || (a.y == b.y && a.x < b.x)
      || (a.y == b.y && a.x == b.x && a.width > b.width)
      || (a.y == b.y && a.x == b.x && a.width == b.width && a.height < b.height)
    ensures (Compare(a, b) > 0 <==> Compare(b, a) < 0) && (Compare(a, b) == 0 <==> a == b)
  {
  }

  ghost predicate InOrder(s: seq<BitmapRect>) {
    forall k :: 0 < k < |s| ==> Compare(s[k - 1].rect, s[k].rect) <= 0
  }

  function Insert(b: BitmapRect, s: seq<BitmapRect>): (r: seq<BitmapRect>)
    ensures |r| == |s| + 1 && multiset(r) == multiset(s) + multiset{b}
  {
    if s == [] || Compare(b.rect, s[0].rect) <= 0 then [b] + s
    else
      assert s == [s[0]] + s[1..];
      [s[0]] + Insert(b, s[1..])
  }

  /** qsort of the queue: equal elements are identical, so the result is unique. */
  function Sort(s: seq<BitmapRect>): (r: seq<BitmapRect>)
    ensures multiset(r) == multiset(s) && |r| == |s|
  {
    if s == [] then []
    else
      assert s == [s[0]] + s[1..];
      Insert(s[0], Sort(s[1..]))
  }

  lemma {:induction false} InsertInOrder(b: BitmapRect, s: seq<BitmapRect>)
    requires InOrder(s)
    ensures InOrder(Insert(b, s)) && Insert(b, s)[0] in [b] + s[..if |s| > 0 then 1 else 0]
  {
    if s != [] && Compare(b.rect, s[0].rect) > 0 {
      InsertInOrder(b, s[1..]);
      assert forall k :: 1 < k <= |s| ==> Insert(b, s)[k] == Insert(b, s[1..])[k - 1];
    }
  }

  lemma {:induction false} SortInOrder(s: seq<BitmapRect>)
    ensures InOrder(Sort(s))
  {
    if s != [] {
      SortInOrder(s[1..]);
      InsertInOrder(s[0], Sort(s[1..]));
    }
  }

  /** Some unflushed rectangle of the queue holds the pixel. */
  ghost predicate Queued(q: seq<BitmapRect>, px: int, py: int) {
    exists k :: 0 <= k < |q| && !q[k].flushed && Contains(q[k].rect, px, py)
  }

  lemma SortKeepsQueued(q: seq<BitmapRect>, px: int, py: int)
    requires Queued(q, px, py)
    ensures Queued(Sort(q), px, py)
  {
    var k :| 0 <= k < |q| && !q[k].flushed && Contains(q[k].rect, px, py);
    assert q[k] in multiset(q);
    assert q[k] in Sort(q);
  }

  /** __guac_common_should_combine */
  predicate ShouldCombine(dirty: bool, dirtyRect: Rect, rect: Rect, rectOnly: bool) {
    dirty &&
    var combined := Extend(dirtyRect, rect);
    var combinedCost := 4096 + combined.width * combined.height;
    var dirtyCost := 4096 + dirtyRect.width * dirtyRect.height;
    var fullCost := 4096 + rect.width * rect.height;
    var updateCost := if rectOnly then fullCost / 16 else fullCost;
    || (combined.width <= 64 && combined.height <= 64)
    || combinedCost <= updateCost + dirtyCost
    || combinedCost - dirtyCost <= dirtyCost / 4
    || combinedCost - updateCost <= updateCost / 4
    || (rect.x == dirtyRect.x && rect.y == dirtyRect.y + dirtyRect.height &&
        combinedCost <= (dirtyCost + updateCost) * 3)
  }

  /** A rectangle within the dirty one is always combined with it, and none is where
      that costs more than three times as much, unless the outcome is small. */
  lemma CombiningCosts(dirty: bool, dirtyRect: Rect, rect: Rect, rectOnly: bool)
    requires !dirtyRect.Empty() && !rect.Empty()
    ensures dirty && Within(rect, dirtyRect) ==> ShouldCombine(dirty, dirtyRect, rect, rectOnly)
    ensures ShouldCombine(dirty, dirtyRect, rect, rectOnly) ==>
      var all := Extend(dirtyRect, rect);
      || (all.width <= 64 && all.height <= 64)
      || 4096 + all.width * all.height <=
           3 * ((4096 + dirtyRect.width * dirtyRect.height) + (4096 + rect.width * rect.height))
  {
    var all := Extend(dirtyRect, rect);
    Positive(dirtyRect.width, dirtyRect.height);
    Positive(rect.width, rect.height);
    if Within(rect, dirtyRect) {
      assert all == dirtyRect;
    }
  }

  /** For two single pixels the area of the smallest rectangle around both decides. */
  lemma PixelsCombineIff(dirtyRect: Rect, rect: Rect, rectOnly: bool)
    requires dirtyRect.width == dirtyRect.height == rect.width == rect.height == 1
    ensures var all := Extend(dirtyRect, rect);
      ShouldCombine(true, dirtyRect, rect, rectOnly) <==>
        (all.width <= 64 && all.height <= 64) || all.width * all.height <= if rectOnly then 1025 else 4098
  {
    var all := Extend(dirtyRect, rect);
    Positive(all.width, all.height);
  }

  lemma Positive(x: int, y: int)
    requires x > 0 && y > 0
    ensures x * y > 0
  {
  }

  lemma CombinesWhenDirty(dirty: bool, dirtyRect: Rect, rect: Rect, rectOnly: bool)
    ensures ShouldCombine(dirty, dirtyRect, rect, rectOnly) ==> dirty
  {
  }

  ghost predicate OpaqueIn(rows: Raster, rect: Rect) {
    forall py, px :: 0 <= py < |rows| && 0 <= px < |rows[py]| && Contains(rect, px, py) ==> rows[py][px].Opaque()
  }

  /** A surface's account with the remote display, as a value. */
  datatype View = View(width: int, height: int, dirty: bool, dirtyRect: Rect, queued: seq<BitmapRect>, remote: Raster) {

    /** The remote display still has to be sent the pixel. */
    ghost predicate Pending(px: int, py: int) {
      (dirty && Contains(dirtyRect, px, py)) || Queued(queued, px, py)
    }

    /** Everything pending before, within the surface, is still pending. */
    ghost predicate Keeps(before: View) {
      && width == before.width && height == before.height && remote == before.remote
      && forall px, py :: Inside(px, py, width, height) && before.Pending(px, py) ==> Pending(px, py)
    }

    /** Since before, the images have been sent: each lies within the surface, and
        what was pending and no longer is lies within one of them. */
    ghost predicate Sent(before: View, images: seq<Image>, buffer: Raster) {
      && width == before.width && height == before.height
      && Sized(before.remote, width, height) && Sized(buffer, width, height)
      && AllWithin(images, width, height)
      && remote == Replayed(before.remote, buffer, images, width, height)
      && (forall px, py :: Inside(px, py, width, height) && before.Pending(px, py) ==>
            Pending(px, py) || CoveredBy(images, px, py))
      && Honest(images, buffer)
    }

    /** Where the remote display differs from the buffer, the difference is
        pending, or lies within extra. */
    ghost predicate Synced(buffer: Raster, extra: Rect) {
      forall px, py :: Changed(remote, buffer, px, py) ==> Pending(px, py) || Contains(extra, px, py)
    }
  }

  /** The account once a redrawn rectangle is deferred, while the queue has room. */
  function Deferred(v: View, rect: Rect): View {
    if rect.Empty() then v
    else if ShouldCombine(v.dirty, v.dirtyRect, rect, false) then v.(dirtyRect := Extend(v.dirtyRect, rect))
    else
      var queued := v.queued + if v.dirty then [BitmapRect(false, v.dirtyRect)] else [];
      v.(queued := queued, dirty := true, dirtyRect := rect)
  }

  const NOWHERE := Rect(0, 0, 0, 0)

  lemma SentNothing(v: View, w: View, buffer: Raster)
    requires w.Keeps(v) && Sized(v.remote, v.width, v.height) && Sized(buffer, v.width, v.height)
    ensures w.Sent(v, [], buffer)
  {
  }

  lemma KeepsBoth(u: View, v: View, w: View)
    requires v.Keeps(u) && w.Keeps(v)
    ensures w.Keeps(u)
  {
  }

  lemma ReplayedOne(shown: Raster, buffer: Raster, img: Image, width: int, height: int)
    requires Sized(shown, width, height) && Sized(buffer, width, height) && AllWithin([img], width, height)
    ensures ReplayedAppendable(shown, buffer, img)
    ensures Replayed(shown, buffer, [img], width, height) == Delivered(shown, buffer, img)
  {
    hide Delivered;
    ReplayedAppend(shown, buffer, [], img, width, height);
    assert [] + [img] == [img];
  }

  lemma HonestOne(img: Image, buffer: Raster)
    requires img.encoding == Png && img.rgb ==> OpaqueIn(buffer, img.rect)
    ensures Honest([img], buffer)
  {
  }

  lemma SentOne(v: View, m: View, w: View, img: Image, buffer: Raster)
    requires m.Keeps(v) && Sized(v.remote, v.width, v.height) && Sized(buffer, v.width, v.height)
    requires AllWithin([img], v.width, v.height) && w.width == v.width && w.height == v.height
    requires ReplayedAppendable(m.remote, buffer, img) && w.remote == Delivered(m.remote, buffer, img)
    requires forall px, py :: m.Pending(px, py) ==> w.Pending(px, py) || Contains(img.rect, px, py)
    requires img.encoding == Png && img.rgb ==> OpaqueIn(buffer, img.rect)
    ensures w.Sent(v, [img], buffer)
  {
    hide Delivered, OpaqueIn, Queued, Contains, Within, View.Pending, Replayed, Sized, AllWithin, Covers;
    hide ReplayedAppendable;
    ReplayedOne(v.remote, buffer, img, v.width, v.height);
    HonestOne(img, buffer);
    forall px, py | Inside(px, py, v.width, v.height) && v.Pending(px, py)
      ensures w.Pending(px, py) || CoveredBy([img], px, py)
    {
      if Contains(img.rect, px, py) {
        assert Contains([img][0].rect, px, py);
      }
    }
  }

  ghost predicate ReplayedAppendable(shown: Raster, buffer: Raster, img: Image) {
    Covers(buffer, img.rect) && Covers(shown, img.rect)
  }

  lemma SentBoth(u: View, v: View, w: View, first: seq<Image>, second: seq<Image>, buffer: Raster)
    requires v.Sent(u, first, buffer) && w.Sent(v, second, buffer)
    ensures w.Sent(u, first + second, buffer)
  {
    ReplayedBoth(u.remote, buffer, first, second, u.width, u.height);
    forall px, py | Inside(px, py, u.width, u.height) && u.Pending(px, py)
      ensures w.Pending(px, py) || CoveredBy(first + second, px, py)
    {
      CoveredByBoth(first, second, px, py);
    }
  }

  /** Once every entry is flushed the queue may be emptied. */
  lemma SentAll(v: View, w: View, images: seq<Image>, buffer: Raster)
    requires w.Sent(v, images, buffer) && forall k :: 0 <= k < |w.queued| ==> w.queued[k].flushed
    ensures w.(queued := []).Sent(v, images, buffer)
  {
  }

  /** Exact images bring nothing out of step. */
  lemma SentExactly(v: View, w: View, images: seq<Image>, buffer: Raster, extra: Rect)
    requires w.Sent(v, images, buffer) && Exact(images, buffer) && v.Synced(buffer, extra)
    ensures w.Synced(buffer, extra)
  {
    forall px, py | Changed(w.remote, buffer, px, py) ensures w.Pending(px, py) || Contains(extra, px, py) {
      ReplayedAt(v.remote, buffer, images, v.width, v.height, px, py);
    }
  }

  /** The images' opaque flags are honest where nothing was added to the rectangle. */
  ghost predicate Honest(images: seq<Image>, buffer: Raster) {
    forall k :: 0 <= k < |images| && images[k].encoding == Png && images[k].rgb ==> OpaqueIn(buffer, images[k].rect)
  }

  /** Images of an opaque buffer, and PNG images of any buffer, are exact. */
  lemma ExactWhen(images: seq<Image>, buffer: Raster)
    requires Honest(images, buffer)
    ensures Opaque(buffer) ==> Exact(images, buffer)
    ensures AllPng(images) ==> Exact(images, buffer)
  {
  }

  /** Redrawing within r puts the account out of step only within r. */
  lemma Redrawn(v: View, was: Raster, now: Raster, r: Rect)
    requires v.Synced(was, NOWHERE) && HoldsChanges(was, now, r)
    requires |was| == |now| && forall py :: 0 <= py < |was| ==> |was[py]| == |now[py]|
    ensures v.Synced(now, r)
  {
    forall px, py | Changed(v.remote, now, px, py) ensures v.Pending(px, py) || Contains(r, px, py) {
      assert Changed(v.remote, was, px, py) || Changed(was, now, px, py);
    }
  }

  lemma Marked(v: View, w: View, buffer: Raster, r: Rect)
    requires v.Synced(buffer, r) && w.Keeps(v) && Sized(v.remote, v.width, v.height)
    requires forall px, py :: Contains(r, px, py) ==> w.Pending(px, py)
    ensures w.Synced(buffer, NOWHERE)
  {
  }

  /** How draw composes a source pixel with the one it covers. */
  function Composer(argb: bool): Blend {
    if argb then (s, d) => Over(d, s) else (s: Pixel, d) => s.Solid()
  }

  /** The pixel without its transparency. */
  function Solidly(): Pixel -> Pixel {
    (p: Pixel) => p.Solid()
  }

  /** The pixel of the mask is not fully transparent. */
  function Masked(): Pixel -> bool {
    (p: Pixel) => p.a != 0
  }

  /** At the pixel, g computes what the buffer holds from what the display shows. */
  ghost predicate Computes(shown: Raster, buffer: Raster, from: Raster, sx: int, sy: int, g: Blend, r: Rect, px: int,
                           py: int)
    requires Covers(shown, r) && Covers(from, Rect(sx, sy, r.width, r.height))
  {
    Contains(r, px, py) && 0 <= py < |shown| && py < |buffer| && 0 <= px < |shown[py]| && px < |buffer[py]| ==>
      g(from[py - r.y + sy][px - r.x + sx], shown[py][px]) == buffer[py][px]
  }

  /** A drawing instruction changes the display within r by g; it completes an
      account out of step only there exactly if g computes the buffer's pixels. */
  lemma Instructed(v: View, shown: Raster, buffer: Raster, from: Raster, sx: int, sy: int, g: Blend, r: Rect)
    requires !v.dirty && v.queued == [] && v.Synced(buffer, r)
    requires Sized(v.remote, v.width, v.height) && Sized(buffer, v.width, v.height)
    requires Covers(v.remote, r) && Covers(from, Rect(sx, sy, r.width, r.height))
    requires shown == Combined(from, sx, sy, g, v.remote, r)
    ensures Sized(shown, v.width, v.height)
    ensures v.(remote := shown).Synced(buffer, NOWHERE) <==>
      forall px, py :: Computes(v.remote, buffer, from, sx, sy, g, r, px, py)
  {
    NothingPending(v.(remote := shown), buffer);
    forall px, py | Inside(px, py, v.width, v.height)
      ensures Computes(v.remote, buffer, from, sx, sy, g, r, px, py) <==> !Changed(shown, buffer, px, py)
    {
      CombinedAt(from, sx, sy, g, v.remote, r, px, py);
      assert Changed(v.remote, buffer, px, py) ==> Contains(r, px, py);
    }
    forall px, py | !Inside(px, py, v.width, v.height)
      ensures Computes(v.remote, buffer, from, sx, sy, g, r, px, py) && !Changed(shown, buffer, px, py)
    {
    }
  }

  /** The pixels of now are those of was where both images reach, passed through
      f, and transparent elsewhere. */
  ghost predicate Resizes(was: Raster, ow: int, oh: int, now: Raster, w: int, h: int, f: Pixel -> Pixel) {
    && Sized(was, ow, oh) && Sized(now, w, h)
    && forall px, py :: Inside(px, py, w, h) ==>
         now[py][px] == if Inside(px, py, ow, oh) then f(was[py][px]) else CLEAR
  }

  ghost function Resized(was: Raster, ow: int, oh: int, w: nat, h: nat, f: Pixel -> Pixel): (now: Raster)
    requires Sized(was, ow, oh)
    ensures Resizes(was, ow, oh, now, w, h, f) && Sized(now, w, h)
  {
    seq(h, y requires 0 <= y < h =>
      seq(w, x requires 0 <= x < w => if Inside(x, y, ow, oh) then f(was[y][x]) else CLEAR))
  }

  /** Only one image does. */
  lemma ResizedOnly(was: Raster, ow: int, oh: int, now: Raster, w: nat, h: nat, f: Pixel -> Pixel)
    requires Resizes(was, ow, oh, now, w, h, f)
    ensures now == Resized(was, ow, oh, w, h, f)
  {
    var again := Resized(was, ow, oh, w, h, f);
    forall y | 0 <= y < h ensures now[y] == again[y] {
      forall x | 0 <= x < w ensures now[y][x] == again[y][x] {
        assert Inside(x, y, w, h);
      }
    }
  }

  /** Every pixel that a resize to w by h keeps is opaque, or still to be sent. */
  ghost predicate StaysInStep(v: View, w: int, h: int, was: Raster)
    requires Sized(was, v.width, v.height)
  {
    forall px, py :: Inside(px, py, w, h) && Inside(px, py, v.width, v.height) ==>
      v.Pending(px, py) || was[py][px].Opaque()
  }

  /** What a resize leaves pending. */
  ghost predicate ResizesPending(v: View, w: View) {
    var bounded := Constrain(v.dirtyRect, Area(w.width, w.height));
    && w.queued == v.queued && (w.dirty <==> v.dirty && !bounded.Empty()) && (w.dirty ==> w.dirtyRect == bounded)
  }

  /** Within the new size, the same is pending as before. */
  lemma PendingKept(v: View, w: View, px: int, py: int)
    requires ResizesPending(v, w) && Inside(px, py, w.width, w.height)
    ensures w.Pending(px, py) <==> v.Pending(px, py)
  {
    hide Queued;
    assert Contains(Area(w.width, w.height), px, py);
  }

  /** The outcome of a resize on the account: kept pixels that were not pending
      stay in step exactly if they are opaque. */
  lemma ResizedInStep(v: View, w: View, was: Raster, now: Raster)
    requires Resizes(was, v.width, v.height, now, w.width, w.height, Solidly())
    requires Resizes(v.remote, v.width, v.height, w.remote, w.width, w.height, p => p)
    requires ResizesPending(v, w)
    ensures v.Synced(was, NOWHERE) ==> (w.Synced(now, NOWHERE) <==> StaysInStep(v, w.width, w.height, was))
  {
    hide View.Pending, ResizesPending;
    if v.Synced(was, NOWHERE) {
      forall px, py | Inside(px, py, w.width, w.height)
        ensures w.Pending(px, py) <==> v.Pending(px, py)
        ensures !v.Pending(px, py) && Inside(px, py, v.width, v.height) ==>
          (Changed(w.remote, now, px, py) <==> !was[py][px].Opaque())
      {
        PendingKept(v, w, px, py);
        assert !Contains(NOWHERE, px, py) && (Changed(v.remote, was, px, py) ==> v.Pending(px, py));
      }
    }
  }

  lemma OpaqueIsExact(images: seq<Image>, buffer: Raster)
    requires Opaque(buffer)
    ensures Exact(images, buffer)
  {
  }

  lemma CombinedOpaque(src: Raster, sx: int, sy: int, f: Blend, dst: Raster, rect: Rect)
    requires Covers(src, Rect(sx, sy, rect.width, rect.height)) && Covers(dst, rect) && Opaque(dst)
    requires forall s: Pixel, d: Pixel :: (Opaque(src) ==> s.Opaque()) && d.Opaque() ==> f(s, d).Opaque()
    ensures Opaque(Combined(src, sx, sy, f, dst, rect))
  {
    forall py, px | 0 <= py < |dst| && 0 <= px < |dst[py]|
      ensures Combined(src, sx, sy, f, dst, rect)[py][px].Opaque()
    {
      CombinedAt(src, sx, sy, f, dst, rect, px, py);
    }
  }

  /** The rectangle sent for a dirty one: JPEG and WebP widen it to their grids. */
  function Widened(encoding: Encoding, dirtyRect: Rect, width: int, height: int): Rect {
    match encoding
    case Png => dirtyRect
    case Jpeg => ExpandToGrid(16, dirtyRect, Area(width, height)).1
    case WebP => ExpandToGrid(8, dirtyRect, Area(width, height)).1
  }

  /** The image that a dirty rectangle is sent as; opacity is decided before it is
      widened. */
  ghost predicate SentAs(img: Image, dirtyRect: Rect, width: int, height: int, buffer: Raster) {
    && img.rect == Widened(img.encoding, dirtyRect, width, height)
    && (img.rgb <==> OpaqueIn(buffer, dirtyRect)) && (img.encoding == Jpeg ==> img.rgb)
  }

  lemma WidenedContains(encoding: Encoding, dirtyRect: Rect, width: int, height: int)
    requires !dirtyRect.Empty() && Within(dirtyRect, Area(width, height))
    ensures var r := Widened(encoding, dirtyRect, width, height); Within(dirtyRect, r) && Within(r, Area(width, height))
  {
  }

  /** A JPEG or WebP image is delivered as it is exactly if all of the widened
      rectangle is opaque; a PNG image always is. */
  lemma SentExactlyIff(img: Image, dirtyRect: Rect, width: int, height: int, buffer: Raster)
    requires SentAs(img, dirtyRect, width, height, buffer) && Sized(buffer, width, height)
    requires !dirtyRect.Empty() && Within(dirtyRect, Area(width, height))
    ensures img.encoding == Png ==> Exact([img], buffer)
    ensures img.encoding == Jpeg ==>
      (Exact([img], buffer) <==> OpaqueIn(buffer, ExpandToGrid(16, dirtyRect, Area(width, height)).1))
    ensures img.encoding == WebP ==>
      (Exact([img], buffer) <==> OpaqueIn(buffer, ExpandToGrid(8, dirtyRect, Area(width, height)).1))
  {
    hide ExpandToGrid;
    assert [img][0] == img;
    if img.encoding != Png && Exact([img], buffer) {
      forall py, px | 0 <= py < |buffer| && 0 <= px < |buffer[py]| && Contains(img.rect, px, py)
        ensures buffer[py][px].Opaque()
      {
        assert Contains([img][0].rect, px, py);
      }
    }
  }

  /** There are pixels that an opaque dirty rectangle is not delivered with exactly
      if its widened rectangle is another. */
  lemma WideningFailsIff(encoding: Encoding, dirtyRect: Rect, width: nat, height: nat)
    requires encoding != Png && !dirtyRect.Empty() && Within(dirtyRect, Area(width, height))
    ensures var r := Widened(encoding, dirtyRect, width, height);
      r != dirtyRect <==>
        exists buffer ::
          Sized(buffer, width, height) && OpaqueIn(buffer, dirtyRect) && !Exact([Image(r, encoding, true)], buffer)
  {
    hide ExpandToGrid;
    var r := Widened(encoding, dirtyRect, width, height);
    var img := Image(r, encoding, true);
    WidenedContains(encoding, dirtyRect, width, height);
    forall buffer | Sized(buffer, width, height) && OpaqueIn(buffer, dirtyRect) && !Exact([img], buffer)
      ensures r != dirtyRect
    {
      SentExactlyIff(img, dirtyRect, width, height, buffer);
    }
    if r != dirtyRect {
      var buffer: Raster :=
        seq(height, y => seq(width, x => if Contains(dirtyRect, x, y) then CLEAR.Solid() else CLEAR));
      var px, py := Beside(dirtyRect, r);
      assert !buffer[py][px].Opaque();
      SentExactlyIff(img, dirtyRect, width, height, buffer);
    }
  }

  lemma Beside(inner: Rect, outer: Rect) returns (px: int, py: int)
    requires Within(inner, outer) && inner != outer && !inner.Empty()
    ensures Contains(outer, px, py) && !Contains(inner, px, py)
  {
    px, py := outer.x, outer.y;
    if Contains(inner, px, py) {
      px, py := outer.x + outer.width - 1, outer.y + outer.height - 1;
    }
  }

  /** Beside a rectangle that is widened there is a pixel which is sent along, and
      reaches the display as opaque black although it is transparent. */
  lemma WideningPaintsNeighbours(encoding: Encoding, dirtyRect: Rect, width: int, height: int)
    returns (px: int, py: int)
    requires encoding != Png && !dirtyRect.Empty() && Within(dirtyRect, Area(width, height))
    requires Widened(encoding, dirtyRect, width, height) != dirtyRect
    ensures var r := Widened(encoding, dirtyRect, width, height);
      && Contains(r, px, py) && !Contains(dirtyRect, px, py)
      && forall d :: Image(r, encoding, true).Shown(CLEAR, d) == Pixel(0xFF, 0, 0, 0)
  {
    hide ExpandToGrid;
    WidenedContains(encoding, dirtyRect, width, height);
    px, py := Beside(dirtyRect, Widened(encoding, dirtyRect, width, height));
  }

  lemma NowhereElse(v: View, buffer: Raster, r: Rect)
    requires r.Empty()
    ensures v.Synced(buffer, r) ==> v.Synced(buffer, NOWHERE)
  {
  }

  lemma SentHonest(v: View, w: View, images: seq<Image>, buffer: Raster)
    requires w.Sent(v, images, buffer)
    ensures Honest(images, buffer)
  {
  }

  lemma KeepsItself(v: View)
    ensures v.Keeps(v)
  {
  }

  /** With nothing pending, being in step means showing the buffer. */
  lemma NothingPending(v: View, buffer: Raster)
    requires !v.dirty && v.queued == [] && Sized(v.remote, v.width, v.height) && Sized(buffer, v.width, v.height)
    ensures v.Synced(buffer, NOWHERE) <==> v.remote == buffer
  {
    if v.Synced(buffer, NOWHERE) {
      forall py | 0 <= py < |buffer| ensures v.remote[py] == buffer[py] {
        forall px | 0 <= px < |buffer[py]| ensures v.remote[py][px] == buffer[py][px] {
          assert !Changed(v.remote, buffer, px, py);
        }
      }
    }
  }
}
