/** Copies and transfers between surfaces, or within one (common/src/surface.c). */
module Copies {
  import opened Accounts
  import opened Argb
  import opened Pixels
  import opened Rects
  import opened Remote
  import opened Surfaces

  /** What a copy or transfer has done to the region r, with source pixels at (sx, sy):
      the images of the two flushes and, if sent, the instruction on r. */
  datatype Blit = Blit(dstImages: seq<Image>, srcImages: seq<Image>, sent: bool, sx: int, sy: int, r: Rect)

  /** The surfaces are one, or share nothing. */
  ghost predicate Apart(src: Surface, dst: Surface)
    reads src, dst
  {
    src != dst ==> src.buffer != dst.buffer && src.queue != dst.queue
  }

  /** The rectangles of copy and transfer after both clips: the destination, and
      the source coordinates that go with it. */
  datatype Regions = Regions(sx: int, sy: int, target: Rect)

  /** The regions of a request, given the area of the source and the limits of the destination. */
  function RegionsOf(area: Rect, sx: int, sy: int, w: int, h: int, limits: Rect, dx: int, dy: int): (r: Regions)
    ensures !r.target.Empty() ==> Within(r.target, limits)
    ensures !r.target.Empty() ==> Within(Rect(r.sx, r.sy, r.target.width, r.target.height), area)
    ensures r.sx - sx == r.target.x - dx && r.sy - sy == r.target.y - dy
  {
    var srect := Constrain(Rect(sx, sy, w, h), area);
    var dx', dy' := dx + srect.x - sx, dy + srect.y - sy;
    var drect := Constrain(Rect(dx', dy', srect.width, srect.height), limits);
    Regions(srect.x + drect.x - dx', srect.y + drect.y - dy', if srect.Empty() then drect.(width := 0) else drect)
  }

  /** The target holds exactly the points that are asked for, have a source and lie
      within the limits. */
  lemma RegionsAt(area: Rect, sx: int, sy: int, w: int, h: int, limits: Rect, dx: int, dy: int, px: int, py: int)
    ensures Contains(RegionsOf(area, sx, sy, w, h, limits, dx, dy).target, px, py) <==>
      0 <= px - dx < w && 0 <= py - dy < h && Contains(area, sx + px - dx, sy + py - dy) && Contains(limits, px, py)
  {
  }

  /** The pixels of a copy or transfer, one by one. */
  lemma BlitPlaces(from: Raster, fw: int, fh: int, sx: int, sy: int, w: int, h: int, f: Blend, was: Raster, ww: int,
                   wh: int, dx: int, dy: int, limits: Rect, now: Raster)
    requires Sized(from, fw, fh) && Sized(was, ww, wh) && Within(limits, Area(ww, wh))
    requires var c := RegionsOf(Area(fw, fh), sx, sy, w, h, limits, dx, dy);
      if c.target.Empty() then now == was
      else
        Covers(from, Rect(c.sx, c.sy, c.target.width, c.target.height)) && Covers(was, c.target) &&
        now == Combined(from, c.sx, c.sy, f, was, c.target)
    ensures Places(from, sx, sy, w, h, f, was, dx, dy, limits, now)
  {
    hide RegionsOf, Combined;
    var c := RegionsOf(Area(fw, fh), sx, sy, w, h, limits, dx, dy);
    forall py, px | 0 <= py < |was| && 0 <= px < |was[py]|
      ensures now[py][px] ==
        if Contains(c.target, px, py) then f(from[sy + py - dy][sx + px - dx], was[py][px]) else was[py][px]
      ensures Contains(c.target, px, py) <==>
        0 <= px - dx < w && 0 <= py - dy < h && Contains(Area(fw, fh), sx + px - dx, sy + py - dy) &&
        Contains(limits, px, py)
    {
      RegionsAt(Area(fw, fh), sx, sy, w, h, limits, dx, dy, px, py);
      if !c.target.Empty() {
        CombinedAt(from, c.sx, c.sy, f, was, c.target, px, py);
      }
    }
  }

  function ClippedRegions(src: Surface, sx: int, sy: int, w: int, h: int, dst: Surface, dx: int, dy: int): (r: Regions)
    requires src.Valid() && dst.Valid()
    reads src, dst
    ensures !r.target.Empty() ==> Within(r.target, Area(dst.width, dst.height))
    ensures !r.target.Empty() ==> Within(Rect(r.sx, r.sy, r.target.width, r.target.height), Area(src.width, src.height))
    ensures r.sx - sx == r.target.x - dx && r.sy - sy == r.target.y - dy
  {
    RegionsOf(Area(src.width, src.height), sx, sy, w, h, dst.Limits(), dx, dy)
  }

  /** What is sent, by the account and the pixels before: nothing if the region that
      changes combines with the dirty one, otherwise all that was pending and then the
      instruction. Within one surface the whole target counts as changing. */
  ghost predicate Plan(out: Blit, before: View, c: Regions, same: bool, was: Raster, now: Raster) {
    && (c.target.Empty() ==> out.r.Empty())
    && (!c.target.Empty() ==> if same then out.r == c.target else Tight(was, now, c.target, out.r, true))
    && (!out.r.Empty() ==> out.sx - c.sx == out.r.x - c.target.x && out.sy - c.sy == out.r.y - c.target.y)
    && (out.sent <==> !out.r.Empty() && !ShouldCombine(before.dirty, before.dirtyRect, out.r, true))
    && (!before.dirty && before.queued == [] ==> out.dstImages == [])
    && (out.sent ==> forall px, py :: Inside(px, py, before.width, before.height) && before.Pending(px, py) ==>
          CoveredBy(out.dstImages, px, py))
  }

  /** Between two surfaces the buffer is updated before the flush, so where an
      image has been sent g meets its own result; elsewhere the old pixel. */
  ghost predicate Agrees(f: Blend, g: Blend, from: Raster, was: Raster,
                         images: seq<Image>, sx: int, sy: int, r: Rect)
    requires Covers(from, Rect(sx, sy, r.width, r.height)) && Covers(was, r)
  {
    forall py, px :: 0 <= py < |was| && 0 <= px < |was[py]| && Contains(r, px, py) ==>
      var s, d := from[py - r.y + sy][px - r.x + sx], was[py][px];
      g(s, if CoveredBy(images, px, py) then f(s, d) else d) == f(s, d)
  }

  /** The images of both flushes reach the display as they are. */
  ghost predicate ExactImages(out: Blit, same: bool, from: Raster, was: Raster, now: Raster) {
    Exact(out.dstImages, if same then was else now) && Exact(out.srcImages, from)
  }

  /** The images of both flushes are honest about the buffers they are sent from. */
  ghost predicate HonestImages(out: Blit, same: bool, from: Raster, was: Raster, now: Raster) {
    Honest(out.dstImages, if same then was else now) && Honest(out.srcImages, from)
  }

  /** The instruction, if sent, shows what the buffer was changed to. */
  ghost predicate Shown(out: Blit, same: bool, f: Blend, g: Blend, from: Raster, was: Raster) {
    out.sent ==>
      && Covers(from, Rect(out.sx, out.sy, out.r.width, out.r.height)) && Covers(was, out.r)
      && Agrees(f, g, from, was, if same then [] else out.dstImages, out.sx, out.sy, out.r)
  }

  lemma AgreesIff(shown: Raster, rows: Raster, from: Raster, was: Raster, images: seq<Image>,
                  c: Regions, f: Blend, sx: int, sy: int, g: Blend, r: Rect)
    requires Covers(from, Rect(c.sx, c.sy, c.target.width, c.target.height)) && Covers(was, c.target)
    requires rows == Combined(from, c.sx, c.sy, f, was, c.target)
    requires Within(r, c.target) && sx - c.sx == r.x - c.target.x && sy - c.sy == r.y - c.target.y && !r.Empty()
    requires |shown| == |was| && forall py :: 0 <= py < |was| ==> |shown[py]| == |was[py]|
    requires forall py, px :: 0 <= py < |was| && 0 <= px < |was[py]| && Contains(r, px, py) ==>
      shown[py][px] == if CoveredBy(images, px, py) then rows[py][px] else was[py][px]
    ensures Covers(from, Rect(sx, sy, r.width, r.height)) && Covers(was, r) && Covers(shown, r)
    ensures (forall px, py :: Computes(shown, rows, from, sx, sy, g, r, px, py)) <==>
      Agrees(f, g, from, was, images, sx, sy, r)
  {
    hide Combined;
    forall py, px | 0 <= py < |was| && 0 <= px < |was[py]| && Contains(r, px, py)
      ensures var s, d := from[py - r.y + sy][px - r.x + sx], was[py][px];
        && rows[py][px] == f(s, d)
        && (Computes(shown, rows, from, sx, sy, g, r, px, py) <==>
              g(s, if CoveredBy(images, px, py) then f(s, d) else d) == f(s, d))
    {
      CombinedAt(from, c.sx, c.sy, f, was, c.target, px, py);
    }
  }

  /** After a flush the display shows the buffer where an image went, and the
      buffer's former pixels elsewhere. */
  lemma FlushedShows(start: View, flushed: View, was: Raster, rows: Raster, images: seq<Image>, px: int, py: int)
    requires start.Synced(was, NOWHERE) && flushed.Sent(start, images, rows) && Exact(images, rows)
    requires !flushed.dirty && flushed.queued == [] && Sized(was, start.width, start.height)
    requires Inside(px, py, start.width, start.height)
    ensures flushed.remote[py][px] == if CoveredBy(images, px, py) then rows[py][px] else was[py][px]
  {
    ReplayedAt(start.remote, rows, images, start.width, start.height, px, py);
    assert Changed(start.remote, was, px, py) ==> start.Pending(px, py);
  }

  /** The instruction that follows a flush of the updated buffer brings the display
      into step exactly if g agrees with f. */
  lemma Instruct(start: View, flushed: View, shown: Raster, rows: Raster, from: Raster, was: Raster,
                 images: seq<Image>, c: Regions, f: Blend, sx: int, sy: int, g: Blend, r: Rect)
    requires start.Synced(was, NOWHERE) && start.Synced(rows, r)
    requires flushed.Sent(start, images, rows) && Exact(images, rows)
    requires !flushed.dirty && flushed.queued == [] && Sized(was, start.width, start.height)
    requires Covers(from, Rect(c.sx, c.sy, c.target.width, c.target.height)) && Covers(was, c.target)
    requires rows == Combined(from, c.sx, c.sy, f, was, c.target)
    requires Within(r, c.target) && sx - c.sx == r.x - c.target.x && sy - c.sy == r.y - c.target.y && !r.Empty()
    requires Covers(from, Rect(sx, sy, r.width, r.height)) && Covers(was, r) && Covers(flushed.remote, r)
    requires shown == Combined(from, sx, sy, g, flushed.remote, r)
    ensures flushed.(remote := shown).Synced(rows, NOWHERE) <==> Agrees(f, g, from, was, images, sx, sy, r)
  {
    hide Combined, View.Synced, Agrees, Exact;
    SentExactly(start, flushed, images, rows, r);
    Instructed(flushed, shown, rows, from, sx, sy, g, r);
    forall py, px | 0 <= py < |was| && 0 <= px < |was[py]|
      ensures flushed.remote[py][px] == if CoveredBy(images, px, py) then rows[py][px] else was[py][px]
    {
      FlushedShows(start, flushed, was, rows, images, px, py);
    }
    AgreesIff(flushed.remote, rows, from, was, images, c, f, sx, sy, g, r);
  }

  /** guac_common_surface_copy and guac_common_surface_transfer, whose bodies
      differ only in the function f applied to the buffer and the function g that
      the instruction asks of the remote display. */
  method CopyRegion(src: Surface, sx: int, sy: int, w: int, h: int, dst: Surface, dx: int, dy: int,
                    f: Blend, ghost g: Blend) returns (ghost out: Blit)
    requires src.Valid() && dst.Valid() && Apart(src, dst)
    modifies dst`dirty, dst`dirtyRect, dst`queueLength, dst`remote, dst.queue, dst.buffer
    modifies src`dirty, src`dirtyRect, src`queueLength, src`remote, src.queue
    ensures src.Valid() && dst.Valid()
    ensures var c := old(ClippedRegions(src, sx, sy, w, h, dst, dx, dy));
      Rows(dst.buffer) == if c.target.Empty() then old(Rows(dst.buffer))
                          else Combined(old(Rows(src.buffer)), c.sx, c.sy, f, old(Rows(dst.buffer)), c.target)
    ensures out.sent ==>
      && Covers(old(Rows(src.buffer)), Rect(out.sx, out.sy, out.r.width, out.r.height))
      && Covers(old(Rows(dst.buffer)), out.r)
    ensures Plan(out, old(dst.Account()), old(ClippedRegions(src, sx, sy, w, h, dst, dx, dy)), src == dst,
                 old(Rows(dst.buffer)), Rows(dst.buffer))
    ensures Places(old(Rows(src.buffer)), sx, sy, w, h, f, old(Rows(dst.buffer)), dx, dy, old(dst.Limits()),
                   Rows(dst.buffer))
    ensures HonestImages(out, src == dst, old(Rows(src.buffer)), old(Rows(dst.buffer)), Rows(dst.buffer))
    ensures old(src.Idle()) ==> out.srcImages == []
    ensures var from, was := old(Rows(src.buffer)), old(Rows(dst.buffer));
      old(src.InSync() && dst.InSync()) && ExactImages(out, src == dst, from, was, Rows(dst.buffer)) ==>
        && (src != dst ==> src.InSync())
        && (dst.InSync() <==> Shown(out, src == dst, f, g, from, was))
  {
    hide Combined, Rows, View.Synced, View.Pending, HoldsChanges, Exact, Agrees, Queued, Sized, Plan, Places;
    var c := ClippedRegions(src, sx, sy, w, h, dst, dx, dy);
    ghost var from, was, limits := Rows(src.buffer), Rows(dst.buffer), dst.Limits();
    BuffersSized(src);
    BuffersSized(dst);
    if c.target.width <= 0 || c.target.height <= 0 {
      out := Blit([], [], false, 0, 0, NOWHERE);
      NoPlan(out, dst.Account(), c, src == dst, Rows(dst.buffer));
    } else if src != dst {
      out := CopyApart(src, c.sx, c.sy, dst, c.target, f, g);
    } else {
      out := CopyWithin(dst, c.sx, c.sy, c.target, f, g);
    }
    BlitPlaces(from, src.width, src.height, sx, sy, w, h, f, was, dst.width, dst.height, dx, dy, limits,
               Rows(dst.buffer));
  }

  lemma BuffersSized(s: Surface)
    requires s.Valid()
    ensures Sized(Rows(s.buffer), s.width, s.height) && Within(s.Limits(), Area(s.width, s.height))
  {
  }

  lemma NotSent(out: Blit, before: View, c: Regions, same: bool, was: Raster, now: Raster)
    requires !c.target.Empty() && !out.sent && out.dstImages == []
    requires out.r.Empty() || ShouldCombine(before.dirty, before.dirtyRect, out.r, true)
    requires if same then out.r == c.target else Tight(was, now, c.target, out.r, true)
    requires out.sx - c.sx == out.r.x - c.target.x && out.sy - c.sy == out.r.y - c.target.y
    ensures Plan(out, before, c, same, was, now)
  {
    hide ShouldCombine, Tight;
  }

  lemma AllSent(out: Blit, before: View, after: View, c: Regions, same: bool, was: Raster, now: Raster, sent: Raster)
    requires !c.target.Empty() && !out.r.Empty() && out.sent && after.Sent(before, out.dstImages, sent)
    requires !after.dirty && after.queued == [] && !ShouldCombine(before.dirty, before.dirtyRect, out.r, true)
    requires !before.dirty && before.queued == [] ==> out.dstImages == []
    requires if same then out.r == c.target else Tight(was, now, c.target, out.r, true)
    requires out.sx - c.sx == out.r.x - c.target.x && out.sy - c.sy == out.r.y - c.target.y
    ensures Plan(out, before, c, same, was, now)
  {
    hide ShouldCombine, Tight;
  }

  lemma NoPlan(out: Blit, before: View, c: Regions, same: bool, was: Raster)
    requires c.target.Empty() && out == Blit([], [], false, 0, 0, NOWHERE)
    ensures Plan(out, before, c, same, was, was)
  {
  }

  /** The case of two surfaces: the buffer is updated first. */
  method CopyApart(src: Surface, sx: int, sy: int, dst: Surface, target: Rect, f: Blend, ghost g: Blend)
    returns (ghost out: Blit)
    requires src.Valid() && dst.Valid() && Apart(src, dst) && src != dst
    requires Fits(target, dst.buffer) && FitsAt(target, sx, sy, src.buffer)
    modifies dst`dirty, dst`dirtyRect, dst`queueLength, dst`remote, dst.queue, dst.buffer
    modifies src`dirty, src`dirtyRect, src`queueLength, src`remote, src.queue
    ensures src.Valid() && dst.Valid()
    ensures Rows(dst.buffer) == Combined(Rows(src.buffer), sx, sy, f, old(Rows(dst.buffer)), target)
    ensures out.sent ==>
      Covers(Rows(src.buffer), Rect(out.sx, out.sy, out.r.width, out.r.height)) && Covers(old(Rows(dst.buffer)), out.r)
    ensures Plan(out, old(dst.Account()), Regions(sx, sy, target), false, old(Rows(dst.buffer)), Rows(dst.buffer))
    ensures HonestImages(out, false, Rows(src.buffer), old(Rows(dst.buffer)), Rows(dst.buffer))
    ensures old(src.Idle()) ==> out.srcImages == []
    ensures var from, was := Rows(src.buffer), old(Rows(dst.buffer));
      old(src.InSync() && dst.InSync()) && Exact(out.dstImages, Rows(dst.buffer)) && Exact(out.srcImages, from) ==>
        && src.InSync()
        && (dst.InSync() <==> (out.sent ==> Agrees(f, g, from, was, out.dstImages, out.sx, out.sy, out.r)))
  {
    hide Combined, Rows, View.Synced, HoldsChanges, Exact, ShouldCombine, View.Sent, View.Keeps, Agrees, Plan, Tight;
    ghost var from, was, start := Rows(src.buffer), Rows(dst.buffer), dst.Account();
    var ux, uy, r := Transfer(src.buffer, sx, sy, f, dst.buffer, target);
    ghost var rows := Rows(dst.buffer);
    out := Blit([], [], false, ux, uy, r);
    ghost var c := Regions(sx, sy, target);
    TightMeans(was, rows, target, r, true);
    if start.Synced(was, NOWHERE) {
      Redrawn(start, was, rows, r);
    }
    if r.width <= 0 || r.height <= 0 {
      NowhereElse(start, rows, r);
      NotSent(out, start, c, false, was, rows);
      return;
    }
    if ShouldCombine(dst.dirty, dst.dirtyRect, r, true) {
      CombinesWhenDirty(dst.dirty, dst.dirtyRect, r, true);
      dst.MarkDirty(r);
      if start.Synced(rows, r) {
        Marked(start, dst.Account(), rows, r);
      }
      NotSent(out, start, c, false, was, rows);
    } else {
      ghost var flushed;
      out, flushed := SendApart(src, ux, uy, dst, r, g);
      AllSent(out, start, flushed, c, false, was, rows, rows);
      if old(src.InSync()) && start.Synced(was, NOWHERE) && Exact(out.dstImages, rows) && Exact(out.srcImages, from) {
        Instruct(start, flushed, dst.remote, rows, from, was, out.dstImages, Regions(sx, sy, target), f, ux, uy, g, r);
      }
    }
  }

  /** "Otherwise, flush and draw immediately" */
  method SendApart(src: Surface, sx: int, sy: int, dst: Surface, r: Rect, ghost g: Blend)
    returns (ghost out: Blit, ghost flushed: View)
    requires src.Valid() && dst.Valid() && Apart(src, dst) && src != dst
    requires Fits(r, dst.buffer) && FitsAt(r, sx, sy, src.buffer)
    modifies dst`dirty, dst`dirtyRect, dst`queueLength, dst`remote, dst.queue
    modifies src`dirty, src`dirtyRect, src`queueLength, src`remote, src.queue
    ensures src.Valid() && dst.Valid() && out.sent && out.sx == sx && out.sy == sy && out.r == r
    ensures flushed.Sent(old(dst.Account()), out.dstImages, Rows(dst.buffer)) && !flushed.dirty && flushed.queued == []
    ensures Honest(out.dstImages, Rows(dst.buffer)) && Honest(out.srcImages, Rows(src.buffer))
    ensures old(dst.Idle()) ==> out.dstImages == []
    ensures old(src.Idle()) ==> out.srcImages == []
    ensures dst.Account() == flushed.(remote := dst.remote)
    ensures old(src.InSync()) && Exact(out.srcImages, Rows(src.buffer)) ==>
      && src.InSync() && Covers(Rows(src.buffer), Rect(sx, sy, r.width, r.height)) && Covers(flushed.remote, r)
      && dst.remote == Combined(Rows(src.buffer), sx, sy, g, flushed.remote, r)
  {
    hide Combined, Rows, View.Synced, Exact, View.Sent;
    ghost var dstImages := dst.FlushQueue();
    flushed := dst.Account();
    SentHonest(old(dst.Account()), flushed, dstImages, Rows(dst.buffer));
    ghost var sources := src.Account();
    ghost var srcImages := src.Flush();
    SentHonest(sources, src.Account(), srcImages, Rows(src.buffer));
    out := Blit(dstImages, srcImages, true, sx, sy, r);
    dst.remote := Combined(src.remote, sx, sy, g, dst.remote, r);
  }

  /** The case of one surface: the buffer is updated last. */
  method CopyWithin(dst: Surface, sx: int, sy: int, target: Rect, f: Blend, ghost g: Blend)
    returns (ghost out: Blit)
    requires dst.Valid() && Fits(target, dst.buffer) && FitsAt(target, sx, sy, dst.buffer)
    modifies dst`dirty, dst`dirtyRect, dst`queueLength, dst`remote, dst.queue, dst.buffer
    ensures dst.Valid()
    ensures Rows(dst.buffer) == Combined(old(Rows(dst.buffer)), sx, sy, f, old(Rows(dst.buffer)), target)
    ensures out.sent ==> out.sx == sx && out.sy == sy && out.r == target
    ensures Plan(out, old(dst.Account()), Regions(sx, sy, target), true, old(Rows(dst.buffer)), Rows(dst.buffer))
    ensures HonestImages(out, true, old(Rows(dst.buffer)), old(Rows(dst.buffer)), Rows(dst.buffer))
    ensures out.srcImages == []
    ensures old(dst.InSync()) && Exact(out.dstImages, old(Rows(dst.buffer))) ==>
      (dst.InSync() <==> (out.sent ==>
        Agrees(f, g, old(Rows(dst.buffer)), old(Rows(dst.buffer)), [], out.sx, out.sy, out.r)))
  {
    hide Combined, Rows, View.Synced, HoldsChanges, ShouldCombine, View.Sent, View.Keeps, Agrees, Plan;
    ghost var was, start := Rows(dst.buffer), dst.Account();
    out := Blit([], [], false, sx, sy, target);
    ghost var flushed := start;
    if ShouldCombine(dst.dirty, dst.dirtyRect, target, true) {
      dst.MarkDirty(target);
    } else {
      ghost var images := dst.Flush();
      ghost var once := dst.Account();
      ghost var none := dst.Flush();
      out := Blit(images, none, true, sx, sy, target);
      flushed := dst.Account();
      SentBoth(start, once, flushed, images, none, was);
      assert images + none == images;
      dst.remote := Combined(dst.remote, sx, sy, g, dst.remote, target);
    }
    var ux, uy, r := Transfer(dst.buffer, sx, sy, f, dst.buffer, target);
    ghost var rows := Rows(dst.buffer);
    if out.sent {
      AllSent(out, start, flushed, Regions(sx, sy, target), true, was, rows, was);
    } else {
      CombinesWhenDirty(start.dirty, start.dirtyRect, target, true);
      NotSent(out, start, Regions(sx, sy, target), true, was, rows);
    }
    if start.Synced(was, NOWHERE) && Exact(out.dstImages, was) {
      if out.sent {
        assert flushed.Synced(was, NOWHERE) && flushed.remote == was;
        Redrawn(flushed, was, rows, target);
        Instructed(flushed, dst.remote, rows, was, sx, sy, g, target);
        assert forall px, py :: !CoveredBy([], px, py);
        AgreesIff(was, rows, was, was, [], Regions(sx, sy, target), f, sx, sy, g, target);
      } else {
        Redrawn(start, was, rows, target);
        Marked(start, dst.Account(), rows, target);
      }
    }
  }

  /** What GUAC_TRANSFER_BINARY_SRC makes of two pixels. */
  function TakeSource(): Blend {
    (s, d) => s
  }

  /** Opaque source pixels make copying agree with drawing over. */
  lemma CopyAgrees(from: Raster, was: Raster, images: seq<Image>, sx: int, sy: int, r: Rect)
    requires Covers(from, Rect(sx, sy, r.width, r.height)) && Covers(was, r) && Opaque(from)
    ensures Agrees(TakeSource(), Composer(true), from, was, images, sx, sy, r)
  {
  }

  /** Exactly the source regions that are opaque may be copied by drawing them over
      whatever the display shows and whatever was sent before. */
  lemma CopyAgreesIff(from: Raster, sx: int, sy: int, r: Rect)
    requires Covers(from, Rect(sx, sy, r.width, r.height)) && 0 <= sx && 0 <= r.x && 0 <= r.y
    ensures OpaqueIn(from, Rect(sx, sy, r.width, r.height)) <==>
      forall was, images :: Covers(was, r) ==> Agrees(TakeSource(), Composer(true), from, was, images, sx, sy, r)
  {
    hide BlendComponent;
    var source := Rect(sx, sy, r.width, r.height);
    if OpaqueIn(from, source) {
      forall was, images | Covers(was, r) ensures Agrees(TakeSource(), Composer(true), from, was, images, sx, sy, r) {
        forall py, px | 0 <= py < |was| && 0 <= px < |was[py]| && Contains(r, px, py)
          ensures from[py - r.y + sy][px - r.x + sx].Opaque()
        {
          assert Contains(source, px - r.x + sx, py - r.y + sy);
        }
      }
    } else {
      var qy, qx :| 0 <= qy < |from| && 0 <= qx < |from[qy]| && Contains(source, qx, qy) && !from[qy][qx].Opaque();
      var px, py := qx - sx + r.x, qy - sy + r.y;
      var white := Pixel(0xFF, 0xFF, 0xFF, 0xFF);
      var was := seq(r.y + r.height, y => seq(r.x + r.width, x => white));
      OverKeepsOpaque(white, from[qy][qx]);
      assert Covers(was, r) && was[py][px] == white && !CoveredBy([], px, py);
      assert !Agrees(TakeSource(), Composer(true), from, was, [], sx, sy, r);
    }
  }

  /** The region of a copy that changes has an opaque source if the whole region has. */
  lemma OpaqueSourceShown(out: Blit, before: View, c: Regions, same: bool, from: Raster, was: Raster, now: Raster)
    requires Plan(out, before, c, same, was, now)
    requires c.target.Empty() || OpaqueIn(from, Rect(c.sx, c.sy, c.target.width, c.target.height))
    requires !c.target.Empty() ==> 0 <= c.sx && 0 <= c.target.x && 0 <= c.target.y
    requires out.sent ==> Covers(from, Rect(out.sx, out.sy, out.r.width, out.r.height)) && Covers(was, out.r)
    ensures Shown(out, same, TakeSource(), Composer(true), from, was)
  {
    hide ShouldCombine, Agrees, HoldsChanges, View.Pending, CoveredBy;
    if out.sent {
      CopyAgreesIff(from, out.sx, out.sy, out.r);
    }
  }

  /** A copy onto an opaque display on which nothing is pending is shown right exactly
      if the source region is opaque; without a change nothing is sent. */
  lemma CopyShownIff(from: Raster, was: Raster, now: Raster, c: Regions, sx: int, sy: int, r: Rect)
    requires Covers(from, Rect(c.sx, c.sy, c.target.width, c.target.height)) && Covers(was, c.target) && Opaque(was)
    requires now == Combined(from, c.sx, c.sy, TakeSource(), was, c.target) && Tight(was, now, c.target, r, true)
    requires 0 <= c.sx && 0 <= c.target.x && 0 <= c.target.y && !c.target.Empty()
    requires !r.Empty() ==>
      Covers(from, Rect(sx, sy, r.width, r.height)) && sx - c.sx == r.x - c.target.x && sy - c.sy == r.y - c.target.y
    ensures OpaqueIn(from, Rect(c.sx, c.sy, c.target.width, c.target.height)) <==>
      r.Empty() || (Covers(was, r) && Agrees(TakeSource(), Composer(true), from, was, [], sx, sy, r))
  {
    hide Combined, BlendComponent;
    var source := Rect(c.sx, c.sy, c.target.width, c.target.height);
    var shown := r.Empty() || (Covers(was, r) && Agrees(TakeSource(), Composer(true), from, was, [], sx, sy, r));
    if shown {
      forall qy, qx | 0 <= qy < |from| && 0 <= qx < |from[qy]| && Contains(source, qx, qy)
        ensures from[qy][qx].Opaque()
      {
        var px, py := qx - c.sx + c.target.x, qy - c.sy + c.target.y;
        CombinedAt(from, c.sx, c.sy, TakeSource(), was, c.target, px, py);
        OverKeepsOpaque(was[py][px], from[qy][qx]);
        if from[qy][qx] != was[py][px] {
          assert Changed(was, now, px, py);
        }
      }
    }
    if OpaqueIn(from, source) && !r.Empty() {
      forall py, px | 0 <= py < |was| && 0 <= px < |was[py]| && Contains(r, px, py)
        ensures from[py - r.y + sy][px - r.x + sx].Opaque()
      {
        assert Contains(source, px - r.x + sx, py - r.y + sy);
      }
    }
  }

  lemma IdempotentAgrees(op: TransferFunction, from: Raster, was: Raster, images: seq<Image>, sx: int, sy: int, r: Rect)
    requires op.Idempotent() && Covers(from, Rect(sx, sy, r.width, r.height)) && Covers(was, r)
    ensures Agrees(op.Apply, op.Apply, from, was, images, sx, sy, r)
  {
    hide TransferFunction.Apply, TransferFunction.Idempotent, CoveredBy;
    op.IdempotentIff();
  }

  /** One pixel, sent before the instruction, that the second application changes. */
  lemma TransferDisagrees(op: TransferFunction) returns (from: Raster, was: Raster, images: seq<Image>)
    requires !op.Idempotent()
    ensures var r := Rect(0, 0, 1, 1);
      Covers(from, r) && Covers(was, r) && !Agrees(op.Apply, op.Apply, from, was, images, 0, 0, r)
  {
    hide TransferFunction.Apply, TransferFunction.Idempotent;
    var s, d := op.TwiceDiffers();
    from, was, images := [[s]], [[d]], [Image(Rect(0, 0, 1, 1), Png, false)];
    assert Contains(images[0].rect, 0, 0) && CoveredBy(images, 0, 0);
    assert was[0][0] == d && from[0][0] == s && Contains(Rect(0, 0, 1, 1), 0, 0);
  }

  /** A transfer agrees with itself unless its result was sent before and the
      function is not idempotent; in that case some pixels disagree. */
  lemma TransferAgreesIff(op: TransferFunction)
    ensures op.Idempotent() <==>
      forall from, was, images, sx, sy, r: Rect :: Covers(from, Rect(sx, sy, r.width, r.height)) && Covers(was, r) ==>
        Agrees(op.Apply, op.Apply, from, was, images, sx, sy, r)
  {
    hide Agrees, Covers, TransferFunction.Idempotent;
    if op.Idempotent() {
      forall from, was, images, sx, sy, r: Rect | Covers(from, Rect(sx, sy, r.width, r.height)) && Covers(was, r)
        ensures Agrees(op.Apply, op.Apply, from, was, images, sx, sy, r)
      {
        IdempotentAgrees(op, from, was, images, sx, sy, r);
      }
    } else {
      var from, was, images := TransferDisagrees(op);
      assert !Agrees(op.Apply, op.Apply, from, was, images, 0, 0, Rect(0, 0, 1, 1));
    }
  }

  lemma TransferAgreesWithin(op: TransferFunction, from: Raster, was: Raster, sx: int, sy: int, r: Rect)
    requires Covers(from, Rect(sx, sy, r.width, r.height)) && Covers(was, r)
    ensures Agrees(op.Apply, op.Apply, from, was, [], sx, sy, r)
  {
  }

  /** guac_common_surface_copy. Copying onto an opaque surface on which nothing is
      pending shows the new buffer exactly if the source region is opaque. */
  method Copy(src: Surface, sx: int, sy: int, w: int, h: int, dst: Surface, dx: int, dy: int) returns (ghost out: Blit)
    requires src.Valid() && dst.Valid() && Apart(src, dst)
    modifies dst`dirty, dst`dirtyRect, dst`queueLength, dst`remote, dst.queue, dst.buffer
    modifies src`dirty, src`dirtyRect, src`queueLength, src`remote, src.queue
    ensures src.Valid() && dst.Valid()
    ensures var c := old(ClippedRegions(src, sx, sy, w, h, dst, dx, dy));
      var from, was := old(Rows(src.buffer)), old(Rows(dst.buffer));
      Rows(dst.buffer) == if c.target.Empty() then was else Combined(from, c.sx, c.sy, TakeSource(), was, c.target)
    ensures Plan(out, old(dst.Account()), old(ClippedRegions(src, sx, sy, w, h, dst, dx, dy)), src == dst,
                 old(Rows(dst.buffer)), Rows(dst.buffer))
    ensures Places(old(Rows(src.buffer)), sx, sy, w, h, TakeSource(), old(Rows(dst.buffer)), dx, dy, old(dst.Limits()),
                   Rows(dst.buffer))
    ensures HonestImages(out, src == dst, old(Rows(src.buffer)), old(Rows(dst.buffer)), Rows(dst.buffer))
    ensures var from, was := old(Rows(src.buffer)), old(Rows(dst.buffer));
      old(src.InSync() && dst.InSync()) && ExactImages(out, src == dst, from, was, Rows(dst.buffer)) ==>
        && (src != dst ==> src.InSync())
        && (dst.InSync() <==> Shown(out, src == dst, TakeSource(), Composer(true), from, was))
    ensures var c := old(ClippedRegions(src, sx, sy, w, h, dst, dx, dy));
      var from, was := old(Rows(src.buffer)), old(Rows(dst.buffer));
      && old(src.InSync() && dst.InSync()) && ExactImages(out, src == dst, from, was, Rows(dst.buffer))
      && (c.target.Empty() || OpaqueIn(from, Rect(c.sx, c.sy, c.target.width, c.target.height))) ==>
        src.InSync() && dst.InSync()
    ensures old(src.InSync() && dst.InSync() && Opaque(Rows(src.buffer)) && Opaque(Rows(dst.buffer))) ==>
      src.InSync() && dst.InSync() && Opaque(Rows(src.buffer)) && Opaque(Rows(dst.buffer))
    ensures old(src != dst && src.InSync() && dst.InSync() && src.Idle() && dst.Idle() && Opaque(Rows(dst.buffer))) ==>
      var c := old(ClippedRegions(src, sx, sy, w, h, dst, dx, dy));
      var source := Rect(c.sx, c.sy, c.target.width, c.target.height);
      src.InSync() && (dst.InSync() <==> c.target.Empty() || OpaqueIn(old(Rows(src.buffer)), source))
  {
    hide Agrees, Combined, Rows, View.Synced, Plan, Shown, OpaqueIn, Places;
    ghost var from, was := Rows(src.buffer), Rows(dst.buffer);
    ghost var c := ClippedRegions(src, sx, sy, w, h, dst, dx, dy);
    ghost var before := dst.Account();
    out := CopyRegion(src, sx, sy, w, h, dst, dx, dy, TakeSource(), Composer(true));
    ghost var now := Rows(dst.buffer);
    if c.target.Empty() || OpaqueIn(from, Rect(c.sx, c.sy, c.target.width, c.target.height)) {
      OpaqueSourceShown(out, before, c, src == dst, from, was, now);
    }
    if Opaque(from) && Opaque(was) {
      if !c.target.Empty() {
        CombinedOpaque(from, c.sx, c.sy, TakeSource(), was, c.target);
      }
      AllExact(out, src == dst, from, was, now);
      CopyShown(out, src == dst, from, was);
    }
    if src != dst && Opaque(was) && !before.dirty && before.queued == [] && out.srcImages == [] {
      CopyShownWhenIdle(out, before, c, from, was, now);
    }
  }

  lemma AllExact(out: Blit, same: bool, from: Raster, was: Raster, now: Raster)
    requires Opaque(from) && Opaque(was) && Opaque(now)
    ensures ExactImages(out, same, from, was, now)
  {
  }

  lemma CopyShown(out: Blit, same: bool, from: Raster, was: Raster)
    requires Opaque(from)
    requires out.sent ==> Covers(from, Rect(out.sx, out.sy, out.r.width, out.r.height)) && Covers(was, out.r)
    ensures Shown(out, same, TakeSource(), Composer(true), from, was)
  {
    hide Agrees;
    if out.sent {
      CopyAgrees(from, was, if same then [] else out.dstImages, out.sx, out.sy, out.r);
    }
  }

  lemma CopyShownWhenIdle(out: Blit, before: View, c: Regions, from: Raster, was: Raster, now: Raster)
    requires Plan(out, before, c, false, was, now) && !before.dirty && before.queued == []
    requires out.srcImages == [] && Opaque(was)
    requires out.sent ==> Covers(from, Rect(out.sx, out.sy, out.r.width, out.r.height)) && Covers(was, out.r)
    requires !c.target.Empty() ==>
      && Covers(from, Rect(c.sx, c.sy, c.target.width, c.target.height)) && Covers(was, c.target)
      && 0 <= c.sx && 0 <= c.target.x && 0 <= c.target.y
      && now == Combined(from, c.sx, c.sy, TakeSource(), was, c.target)
    ensures ExactImages(out, false, from, was, now)
    ensures Shown(out, false, TakeSource(), Composer(true), from, was) <==>
      c.target.Empty() || OpaqueIn(from, Rect(c.sx, c.sy, c.target.width, c.target.height))
  {
    hide Agrees, Combined, Tight, Covers, OpaqueIn;
    CombinesWhenDirty(before.dirty, before.dirtyRect, out.r, true);
    if !c.target.Empty() {
      CopyShownIff(from, was, now, c, out.sx, out.sy, out.r);
    }
  }

  /** guac_common_surface_transfer */
  method TransferRegion(src: Surface, sx: int, sy: int, w: int, h: int, op: TransferFunction, dst: Surface, dx: int,
                        dy: int)
    returns (ghost out: Blit)
    requires src.Valid() && dst.Valid() && Apart(src, dst)
    modifies dst`dirty, dst`dirtyRect, dst`queueLength, dst`remote, dst.queue, dst.buffer
    modifies src`dirty, src`dirtyRect, src`queueLength, src`remote, src.queue
    ensures src.Valid() && dst.Valid()
    ensures var c := old(ClippedRegions(src, sx, sy, w, h, dst, dx, dy));
      Rows(dst.buffer) == if c.target.Empty() then old(Rows(dst.buffer))
                          else Combined(old(Rows(src.buffer)), c.sx, c.sy, op.Apply, old(Rows(dst.buffer)), c.target)
    ensures Plan(out, old(dst.Account()), old(ClippedRegions(src, sx, sy, w, h, dst, dx, dy)), src == dst,
                 old(Rows(dst.buffer)), Rows(dst.buffer))
    ensures Places(old(Rows(src.buffer)), sx, sy, w, h, op.Apply, old(Rows(dst.buffer)), dx, dy, old(dst.Limits()),
                   Rows(dst.buffer))
    ensures HonestImages(out, src == dst, old(Rows(src.buffer)), old(Rows(dst.buffer)), Rows(dst.buffer))
    ensures old(src.Idle()) ==> out.srcImages == []
    ensures var from, was := old(Rows(src.buffer)), old(Rows(dst.buffer));
      old(src.InSync() && dst.InSync()) && ExactImages(out, src == dst, from, was, Rows(dst.buffer)) ==>
        && (src != dst ==> src.InSync())
        && (dst.InSync() <==> Shown(out, src == dst, op.Apply, op.Apply, from, was))
    ensures var from, was := old(Rows(src.buffer)), old(Rows(dst.buffer));
      && old(src.InSync() && dst.InSync()) && ExactImages(out, src == dst, from, was, Rows(dst.buffer))
      && (src == dst || op.Idempotent()) ==>
        src.InSync() && dst.InSync()
    ensures op.KeepsOpaque() && (src == dst || op.Idempotent()) ==>
      old(src.InSync() && dst.InSync() && Opaque(Rows(src.buffer)) && Opaque(Rows(dst.buffer))) ==>
      src.InSync() && dst.InSync() && Opaque(Rows(src.buffer)) && Opaque(Rows(dst.buffer))
  {
    hide Agrees, Combined, Rows, View.Synced, Covers, Plan, Shown, Places;
    ghost var from, was := Rows(src.buffer), Rows(dst.buffer);
    ghost var c := ClippedRegions(src, sx, sy, w, h, dst, dx, dy);
    out := CopyRegion(src, sx, sy, w, h, dst, dx, dy, op.Apply, op.Apply);
    if src == dst || op.Idempotent() {
      TransferShown(out, src == dst, op, from, was);
    }
    if Opaque(from) && Opaque(was) && op.KeepsOpaque() && (src == dst || op.Idempotent()) {
      op.KeepsOpaqueIff();
      if !c.target.Empty() {
        CombinedOpaque(from, c.sx, c.sy, op.Apply, was, c.target);
      }
      AllExact(out, src == dst, from, was, Rows(dst.buffer));
    }
  }

  lemma TransferShown(out: Blit, same: bool, op: TransferFunction, from: Raster, was: Raster)
    requires same || op.Idempotent()
    requires out.sent ==> Covers(from, Rect(out.sx, out.sy, out.r.width, out.r.height)) && Covers(was, out.r)
    ensures Shown(out, same, op.Apply, op.Apply, from, was)
  {
    hide Agrees;
    if out.sent {
      if same {
        TransferAgreesWithin(op, from, was, out.sx, out.sy, out.r);
      } else {
        IdempotentAgrees(op, from, was, out.dstImages, out.sx, out.sy, out.r);
      }
    }
  }
}
