/** Runs of public calls after which the remote display shows something else than
    the buffer. */
module Divergences {
  import opened Accounts
  import opened Argb
  import opened Copies
  import opened Pixels
  import opened Rects
  import opened Remote
  import opened Sessions
  import opened Surfaces

  lemma CornerStays(w: int, h: int)
    requires w >= 1 && h >= 1
    ensures Constrain(Rect(0, 0, 1, 1), Area(w, h)) == Rect(0, 0, 1, 1)
  {
    hide Contains;
  }

  /** One pixel, from and to the corners of surfaces without a clip. */
  lemma CornerRegions(src: Surface, dst: Surface)
    requires src.Valid() && dst.Valid() && !dst.clipped && src.width == src.height == 1 && dst.width >= 1 &&
      dst.height >= 1
    ensures ClippedRegions(src, 0, 0, 1, 1, dst, 0, 0) == Regions(0, 0, Rect(0, 0, 1, 1))
  {
    hide Sized, Constrain;
    CornerStays(1, 1);
    CornerStays(dst.width, dst.height);
  }

  lemma NotOpaqueIn(rows: Raster)
    requires |rows| == 1 && |rows[0]| == 1 && rows[0][0] == CLEAR
    ensures !OpaqueIn(rows, Rect(0, 0, 1, 1))
  {
    assert Contains(Rect(0, 0, 1, 1), 0, 0);
  }

  /** A new, transparent surface is copied onto an opaque one that has been flushed. */
  method TransparentCopy(webp: bool) returns (src: Surface, dst: Surface)
    ensures src.Valid() && dst.Valid() && src.InSync() && !dst.InSync()
  {
    hide Rows, View.Synced, Combined, Plan, Shown, ExactImages, ClippedRegions, OpaqueIn, Opaque;
    src := new Surface(1, 1, webp);
    dst := NewSurface(1, 1, webp, Pixel(0xFF, 0, 0, 0));
    FlushOn(dst);
    assert src.buffer[0, 0] == CLEAR;
    NotOpaqueIn(Rows(src.buffer));
    CornerRegions(src, dst);
    ghost var out := Copies.Copy(src, 0, 0, 1, 1, dst, 0, 0);
  }

  /** In a single pixel that changes, the changed region is that pixel. */
  lemma UnitChange(was: Raster, now: Raster, x: int, y: int, r: Rect, keepUnit: bool)
    requires Tight(was, now, Rect(x, y, 1, 1), r, keepUnit) && Changed(was, now, x, y)
    ensures r == Rect(x, y, 1, 1)
  {
  }

  /** Draws one opaque pixel of another colour. */
  method DrawPixel(s: Surface, x: int, y: int, color: Pixel)
    requires Good(s) && !s.clipped && 0 <= x < s.width && 0 <= y < s.height && s.queueLength < QUEUE_SIZE - 1
    requires color.Opaque() && s.buffer[y, x] != color
    modifies s`dirty, s`dirtyRect, s`queueLength, s`remote, s.queue, s.buffer
    ensures Good(s) && s.buffer[y, x] == color
    ensures s.Account() == Deferred(old(s.Account()), Rect(x, y, 1, 1))
    ensures forall py, px :: 0 <= py < s.height && 0 <= px < s.width && (px != x || py != y) ==>
      s.buffer[py, px] == old(s.buffer[py, px])
  {
    hide View.Synced, Combined, Tight, Deferred;
    var img := new Pixel[1, 1]((i, j) => color);
    ghost var was := Rows(s.buffer);
    ghost var target := Rect(x, y, 1, 1);
    UnitStays(x, y, s.width, s.height);
    ghost var images, r := s.Draw(x, y, img, false);
    ghost var now := Rows(s.buffer);
    forall px, py | 0 <= py < s.height && 0 <= px < s.width
      ensures now[py][px] == if px == x && py == y then color else was[py][px]
    {
      CombinedAt(Rows(img), 0, 0, Composer(false), was, target, px, py);
    }
    UnitChange(was, now, x, y, r, false);
  }

  lemma UnitStays(x: int, y: int, w: int, h: int)
    requires 0 <= x < w && 0 <= y < h
    ensures Constrain(Rect(x, y, 1, 1), Area(w, h)) == Rect(x, y, 1, 1)
  {
    hide Contains;
  }

  /** Two pixels in opposite corners are not combined, and the first one is queued. */
  lemma FarApart()
    ensures !ShouldCombine(true, Rect(0, 0, 1, 1), Rect(127, 127, 1, 1), false)
    ensures !ShouldCombine(true, Rect(127, 127, 1, 1), Rect(0, 0, 1, 1), true)
  {
    hide Contains;
    assert Extend(Rect(0, 0, 1, 1), Rect(127, 127, 1, 1)) == Rect(0, 0, 128, 128);
    assert Extend(Rect(127, 127, 1, 1), Rect(0, 0, 1, 1)) == Rect(0, 0, 128, 128);
  }

  /** A new, transparent surface is enlarged: its pixels become black in the buffer, and
      stay transparent on the display. */
  method ResizeNew(webp: bool) returns (s: Surface)
    ensures s.Valid() && !s.InSync()
  {
    hide Rows, View.Synced;
    s := new Surface(1, 1, webp);
    ghost var v, was := s.Account(), Rows(s.buffer);
    assert s.buffer[0, 0] == CLEAR && Inside(0, 0, 2, 1);
    assert !v.Pending(0, 0) && !StaysInStep(v, 2, 1, was);
    s.Resize(2, 1);
  }

  /** With the target queued and the dirty rectangle far away, its image is sent and
      then the instruction, and the two together do not show the buffer. */
  lemma SentTwice(op: TransferFunction, out: Blit, before: View, from: Raster, was: Raster, now: Raster)
    requires !op.Idempotent() && Sized(from, 1, 1) && Sized(was, 128, 128)
    requires from[0][0] == op.Source() && was[0][0] == Pixel(0xFF, 0, 0, 0)
    requires before.width == before.height == 128 && before.dirty && before.dirtyRect == Rect(127, 127, 1, 1)
    requires before.queued == [BitmapRect(false, Rect(0, 0, 1, 1))]
    requires Covers(from, Rect(0, 0, 1, 1)) && Covers(was, Rect(0, 0, 1, 1))
    requires now == Combined(from, 0, 0, op.Apply, was, Rect(0, 0, 1, 1))
    requires Plan(out, before, Regions(0, 0, Rect(0, 0, 1, 1)), false, was, now)
    ensures !Shown(out, false, op.Apply, op.Apply, from, was)
  {
    hide Combined, Tight, ShouldCombine, TransferFunction.Apply, TransferFunction.Idempotent;
    var target := Rect(0, 0, 1, 1);
    CombinedAt(from, 0, 0, op.Apply, was, target, 0, 0);
    op.OpaqueTwiceDiffers();
    assert Contains(target, 0, 0);
    UnitChange(was, now, 0, 0, out.r, true);
    FarApart();
    assert Queued(before.queued, 0, 0) by {
      assert Contains(before.queued[0].rect, 0, 0);
    }
    assert before.Pending(0, 0) && CoveredBy(out.dstImages, 0, 0);
    assert !Agrees(op.Apply, op.Apply, from, was, out.dstImages, 0, 0, target);
  }

  /** A function that keeps pixels opaque leaves images of opaque pixels. */
  lemma OpaqueAfter(op: TransferFunction, images: seq<Image>, from: Raster, was: Raster, now: Raster)
    requires op.KeepsOpaque() && Opaque(from) && Opaque(was)
    requires Covers(from, Rect(0, 0, 1, 1)) && Covers(was, Rect(0, 0, 1, 1))
    requires now == Combined(from, 0, 0, op.Apply, was, Rect(0, 0, 1, 1))
    ensures Exact(images, now)
  {
    hide Combined, Opaque, Exact, TransferFunction.KeepsOpaque;
    op.KeepsOpaqueIff();
    CombinedOpaque(from, 0, 0, op.Apply, was, Rect(0, 0, 1, 1));
    OpaqueIsExact(images, now);
  }

  lemma NothingIsExact(out: Blit, from: Raster, was: Raster, now: Raster)
    requires out.srcImages == [] && Exact(out.dstImages, now)
    ensures ExactImages(out, false, from, was, now)
  {
  }

  /** What the two draws leave pending. */
  lemma TwoPending(v: View)
    requires !v.dirty && v.queued == []
    ensures Deferred(v, Rect(0, 0, 1, 1)).queued == []
    ensures Deferred(Deferred(v, Rect(0, 0, 1, 1)), Rect(127, 127, 1, 1))
         == v.(dirty := true, dirtyRect := Rect(127, 127, 1, 1), queued := [BitmapRect(false, Rect(0, 0, 1, 1))])
  {
    hide ShouldCombine;
    FarApart();
    CombinesWhenDirty(v.dirty, v.dirtyRect, Rect(0, 0, 1, 1), false);
  }

  /** An opaque surface with two black pixels, of which the first is queued. */
  method TwoPixels(webp: bool) returns (s: Surface)
    ensures fresh(s) && fresh(s.buffer) && fresh(s.queue) && Good(s) && !s.clipped && s.width == s.height == 128
    ensures s.dirty && s.dirtyRect == Rect(127, 127, 1, 1) &&
      s.Account().queued == [BitmapRect(false, Rect(0, 0, 1, 1))]
    ensures s.buffer[0, 0] == Pixel(0xFF, 0, 0, 0)
  {
    hide Good, Deferred, Rows;
    s := NewSurface(128, 128, webp, Pixel(0xFF, 0xFF, 0xFF, 0xFF));
    GoodIsValid(s);
    FlushOn(s);
    GoodIsValid(s);
    TwoPending(s.Account());
    DrawPixel(s, 0, 0, Pixel(0xFF, 0, 0, 0));
    GoodIsValid(s);
    DrawPixel(s, 127, 127, Pixel(0xFF, 0, 0, 0));
    GoodIsValid(s);
  }

  lemma GoodIsValid(s: Surface)
    requires Good(s)
    ensures s.Valid()
  {
  }

  /** Two pixels are drawn far apart, so that the first is queued; a transfer onto it
      first sends the result and then has the display apply the function again. For no
      function that is not idempotent is the outcome shown, as long as the images are
      delivered as they are; PNG images are, and all if the function keeps pixels opaque. */
  method TransferTwice(op: TransferFunction, webp: bool) returns (src: Surface, dst: Surface, ghost out: Blit)
    requires !op.Idempotent()
    ensures src.Valid() && dst.Valid()
    ensures Exact(out.dstImages, Rows(dst.buffer)) ==> src.InSync() && !dst.InSync()
    ensures AllPng(out.dstImages) || op.KeepsOpaque() ==> Exact(out.dstImages, Rows(dst.buffer))
  {
    hide View.Synced, Combined, Plan, Shown, ClippedRegions, Opaque, Tight, ShouldCombine, Exact, ExactImages, Deferred;
    hide TransferFunction.Apply, TransferFunction.KeepsOpaque, TransferFunction.Idempotent;
    src := NewSurface(1, 1, webp, op.Source());
    FlushOn(src);
    dst := TwoPixels(webp);
    CornerRegions(src, dst);
    ghost var from, was, before := Rows(src.buffer), Rows(dst.buffer), dst.Account();
    assert from[0][0] == op.Source();
    out := TransferRegion(src, 0, 0, 1, 1, op, dst, 0, 0);
    ghost var now := Rows(dst.buffer);
    SentTwice(op, out, before, from, was, now);
    ExactWhen(out.dstImages, now);
    if Exact(out.dstImages, now) {
      NothingIsExact(out, from, was, now);
    }
    if op.KeepsOpaque() {
      OpaqueAfter(op, out.dstImages, from, was, now);
    }
  }
}
