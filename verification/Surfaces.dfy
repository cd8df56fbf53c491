/** The surface of common/src/surface.c: a backing buffer, the regions the remote
    display still lacks, and the drawing operations. */
module Surfaces {
  import opened Accounts
  import opened Argb
  import opened Pixels
  import opened Rects
  import opened Remote

  /** __guac_common_surface_is_opaque */
  method IsOpaque(buffer: array2<Pixel>, rect: Rect) returns (opaque_: bool)
    requires Fits(rect, buffer)
    ensures opaque_ <==> OpaqueIn(Rows(buffer), rect)
  {
    var y := 0;
    while y < rect.height
      invariant 0 <= y <= rect.height
      invariant forall py, px :: Contains(rect, px, py) && py < rect.y + y ==> buffer[py, px].Opaque()
    {
      var x := 0;
      while x < rect.width
        invariant 0 <= x <= rect.width
        invariant forall py, px ::
          Contains(rect, px, py) && (py < rect.y + y || (py == rect.y + y && px < rect.x + x)) ==>
            buffer[py, px].Opaque()
      {
        if !buffer[rect.y + y, rect.x + x].Opaque() {
          assert !Rows(buffer)[rect.y + y][rect.x + x].Opaque();
          return false;
        }
        x := x + 1;
      }
      y := y + 1;
    }
    return true;
  }

  /** The copy of the old buffer made by a resize. */
  method KeptPixels(buffer: array2<Pixel>, w: nat, h: nat) returns (kept: array2<Pixel>)
    ensures fresh(kept) && kept.Length1 == w && kept.Length0 == h
    ensures Rows(kept) == Resized(Rows(buffer), buffer.Length1, buffer.Length0, w, h, Solidly())
  {
    hide Combined;
    kept := new Pixel[h, w]((i, j) => CLEAR);
    ghost var blank, was: Raster := Rows(kept), Rows(buffer);
    var rect := Constrain(Area(buffer.Length1, buffer.Length0), Area(w, h));
    if !rect.Empty() {
      var sx, sy, r := Put(buffer, 0, 0, kept, rect, Composer(false));
      forall px, py | Inside(px, py, w, h)
        ensures Rows(kept)[py][px] == if Contains(rect, px, py) then was[py][px].Solid() else CLEAR
      {
        CombinedAt(was, 0, 0, Composer(false), blank, rect, px, py);
      }
    }
    ResizedOnly(was, buffer.Length1, buffer.Length0, Rows(kept), w, h, Solidly());
  }

  class Surface {
    var width: int
    var height: int
    var buffer: array2<Pixel>
    var dirty: bool
    var dirtyRect: Rect
    const queue: array<BitmapRect>
    var queueLength: int
    var clipped: bool
    var clipRect: Rect
    /** Does the client support WebP? */
    const webp: bool
    /** What the layer shows on the remote display, by the instructions sent. */
    ghost var remote: Raster

    ghost predicate Bounded()
      reads this
    {
      && width == buffer.Length1 && height == buffer.Length0
      && queue.Length == QUEUE_SIZE && 0 <= queueLength <= QUEUE_SIZE
      && (dirty ==> !dirtyRect.Empty() && Within(dirtyRect, Area(width, height)))
      && (clipped ==> Within(clipRect, Area(width, height)))
      && Sized(remote, width, height)
    }

    /** Between public calls one place of the queue is always free. */
    ghost predicate Valid()
      reads this
    {
      Bounded() && queueLength < QUEUE_SIZE
    }

    ghost function Account(): View
      requires Bounded()
      reads this, queue
    {
      View(width, height, dirty, dirtyRect, queue[..queueLength], remote)
    }

    /** Nothing is pending. */
    predicate Idle()
      reads this
    {
      !dirty && queueLength == 0
    }

    /** Every difference from the remote display is pending. */
    ghost predicate InSync()
      requires Bounded()
      reads this, queue, buffer
    {
      Account().Synced(Rows(buffer), NOWHERE)
    }

    function Limits(): Rect
      reads this
    {
      if clipped then clipRect else Area(width, height)
    }

    /** __guac_common_clip_rect, without the source coordinates, which its
        callers move by the same amount. */
    function Clipped(rect: Rect): (r: Rect)
      requires Bounded()
      reads this
      ensures Within(r, Area(width, height)) && Within(r, rect) && (clipped ==> Within(r, clipRect))
      ensures forall px, py :: Contains(r, px, py) <==>
        Contains(rect, px, py) && Contains(if clipped then clipRect else Area(width, height), px, py)
    {
      Constrain(rect, Limits())
    }

    /** __guac_common_mark_dirty */
    method MarkDirty(rect: Rect)
      requires Bounded() && Within(rect, Area(width, height))
      modifies this`dirty, this`dirtyRect
      ensures Bounded() && Account().Keeps(old(Account()))
      ensures rect.Empty() ==> dirty == old(dirty) && dirtyRect == old(dirtyRect)
      ensures !rect.Empty() ==> dirty && dirtyRect == if old(dirty) then Extend(old(dirtyRect), rect) else rect
      ensures forall px, py :: Contains(rect, px, py) ==> Account().Pending(px, py)
    {
      if rect.width <= 0 || rect.height <= 0 {
        return;
      }
      if dirty {
        dirtyRect := Extend(dirtyRect, rect);
      } else {
        dirtyRect := rect;
        dirty := true;
      }
    }

    /** __guac_common_surface_flush_to_queue */
    method FlushToQueue()
      requires Bounded() && (dirty ==> queueLength < QUEUE_SIZE)
      modifies this`dirty, this`queueLength, queue
      ensures Bounded() && !dirty && Account().Keeps(old(Account()))
      ensures queue[..queueLength] ==
        old(queue[..queueLength]) + (if old(dirty) then [BitmapRect(false, old(dirtyRect))] else [])
    {
      if !dirty {
        return;
      }
      queue[queueLength] := BitmapRect(false, dirtyRect);
      queueLength := queueLength + 1;
      dirty := false;
      forall px, py | old(Account().Pending(px, py)) ensures Account().Pending(px, py) {
        var q := queue[..queueLength];
        if old(Contains(dirtyRect, px, py)) {
          assert q[queueLength - 1] == BitmapRect(false, dirtyRect);
        } else {
          var was := old(queue[..queueLength]);
          var k :| 0 <= k < |was| && !was[k].flushed && Contains(was[k].rect, px, py);
          assert q[k] == was[k];
        }
      }
    }

    /** The order in which the queue is flushed. */
    method SortQueue()
      requires Bounded()
      modifies queue
      ensures Bounded() && Account().Keeps(old(Account()))
      ensures queue[..queueLength] == Sort(old(queue[..queueLength]))
    {
      var sorted := Sort(queue[..queueLength]);
      forall k | 0 <= k < queueLength {
        queue[k] := sorted[k];
      }
      assert queue[..queueLength] == sorted;
      ghost var was := old(queue[..queueLength]);
      forall px, py | Queued(was, px, py) ensures Queued(sorted, px, py) {
        SortKeepsQueued(was, px, py);
      }
    }

    /** Sends the dirty rectangle as one image, in any of the encodings that the
        heuristics may choose: WebP if supported, JPEG if opaque, else PNG. */
    method SendBitmap() returns (ghost img: Image)
      requires Bounded() && dirty
      modifies this`dirty, this`dirtyRect, this`remote
      ensures Bounded() && !dirty
      ensures !img.rect.Empty() && Within(old(dirtyRect), img.rect) && Within(img.rect, Area(width, height))
      ensures SentAs(img, old(dirtyRect), width, height, Rows(buffer)) && (img.encoding == WebP ==> webp)
      ensures remote == Delivered(old(remote), Rows(buffer), img)
    {
      hide ExpandToGrid, Combined, Rows, OpaqueIn;
      var rgb := IsOpaque(buffer, dirtyRect);
      var preferWebP: bool, preferJpeg: bool := *, *;
      if webp && preferWebP {
        dirtyRect := ExpandToGrid(8, dirtyRect, Area(width, height)).1;
        img := Image(dirtyRect, WebP, rgb);
      } else if rgb && preferJpeg {
        dirtyRect := ExpandToGrid(16, dirtyRect, Area(width, height)).1;
        img := Image(dirtyRect, Jpeg, rgb);
      } else {
        img := Image(dirtyRect, Png, rgb);
      }
      remote := Delivered(remote, Rows(buffer), img);
      dirty := false;
    }

    /** The body of the inner loop of __guac_common_surface_flush: an unflushed
        entry is clipped and, if reasonable, taken into the dirty rectangle. */
    method Take(j: int) returns (taken: bool)
      requires Bounded() && 0 <= j < queueLength
      modifies this`dirty, this`dirtyRect, queue
      ensures Bounded() && Account().Keeps(old(Account()))
      ensures forall k :: 0 <= k < QUEUE_SIZE && k != j ==> queue[k] == old(queue[k])
      ensures var was, rect := old(queue[j]), Constrain(old(queue[j].rect), Area(width, height));
        var combines := old(ShouldCombine(dirty, dirtyRect, rect, false));
        && (taken <==> !was.flushed && !rect.Empty() && (combines || !old(dirty)))
        && queue[j] == (if was.flushed then was else BitmapRect(taken || rect.Empty(), rect))
        && dirty == (taken || old(dirty))
        && dirtyRect == if !taken then old(dirtyRect) else if old(dirty) then Extend(old(dirtyRect), rect) else rect
    {
      hide ShouldCombine;
      taken := false;
      if queue[j].flushed {
        return;
      }
      ghost var was := queue[..queueLength];
      var rect := Constrain(queue[j].rect, Area(width, height));
      queue[j] := BitmapRect(false, rect);
      if rect.width <= 0 || rect.height <= 0 {
        queue[j] := BitmapRect(true, rect);
      } else if ShouldCombine(dirty, dirtyRect, rect, false) || !dirty {
        MarkDirty(rect);
        queue[j] := BitmapRect(true, rect);
        taken := true;
      }
      forall px, py | Inside(px, py, width, height) && old(Account().Pending(px, py))
        ensures Account().Pending(px, py)
      {
        var now := queue[..queueLength];
        if Queued(was, px, py) {
          var k :| 0 <= k < |was| && !was[k].flushed && Contains(was[k].rect, px, py);
          if k != j || !queue[j].flushed {
            assert !now[k].flushed && Contains(now[k].rect, px, py);
          }
        }
      }
    }

    /** The inner loop: builds up the dirty rectangle from the entries from i on.
        Its first entry is always consumed. */
    method Gather(i: int) returns (combined: int)
      requires Bounded() && !dirty && 0 <= i < queueLength && !queue[i].flushed
      modifies this`dirty, this`dirtyRect, queue
      ensures Bounded() && Account().Keeps(old(Account()))
      ensures forall k :: 0 <= k < i ==> queue[k] == old(queue[k])
      ensures queue[i].flushed && (combined > 0 ==> dirty)
    {
      combined := 0;
      var j := i;
      while j < queueLength
        invariant i <= j <= queueLength && Bounded() && Account().Keeps(old(Account()))
        invariant if j == i then !dirty else queue[i].flushed
        invariant forall k :: 0 <= k < i ==> queue[k] == old(queue[k])
        invariant combined > 0 ==> dirty
      {
        var taken := Take(j);
        if taken {
          combined := combined + 1;
        }
        j := j + 1;
      }
    }

    /** The body of the outer loop: gathers from entry i, then queues the result
        again or sends it. */
    method FlushEntry(i: int, original: int) returns (ghost images: seq<Image>)
      requires Bounded() && !dirty && 0 <= i < queueLength
      modifies this`dirty, this`dirtyRect, this`queueLength, this`remote, queue
      ensures Bounded() && !dirty && old(queueLength) <= queueLength
      ensures queue[i].flushed && forall k :: 0 <= k < i ==> queue[k] == old(queue[k])
      ensures |images| <= 1 && Account().Sent(old(Account()), images, Rows(buffer))
    {
      hide Queued, OpaqueIn, Combined, Rows, Replayed, View.Synced, Delivered;
      images := [];
      ghost var before := Account();
      if !queue[i].flushed {
        var combined := Gather(i);
        ghost var gathered, q := Account(), queue[..queueLength];
        if (combined > 1 || i < original) && queueLength < QUEUE_SIZE {
          FlushToQueue();
          assert forall k :: 0 <= k <= i ==> queue[..queueLength][k] == q[k];
          SentNothing(before, Account(), Rows(buffer));
        } else if dirty {
          ghost var img := SendBitmap();
          images := [img];
          SentOne(before, gathered, Account(), img, Rows(buffer));
        } else {
          SentNothing(before, Account(), Rows(buffer));
        }
      } else {
        SentNothing(before, Account(), Rows(buffer));
      }
    }

    /** __guac_common_surface_flush. Although the loop appends to the queue it
        runs through, it ends, and every pixel that was pending has been sent. */
    method FlushQueue() returns (ghost images: seq<Image>)
      requires Valid()
      modifies this`dirty, this`dirtyRect, this`queueLength, this`remote, queue
      ensures Valid() && !dirty && queueLength == 0
      ensures Account().Sent(old(Account()), images, Rows(buffer))
      ensures !old(dirty) && old(queueLength) == 0 ==> images == []
    {
      hide OpaqueIn, Combined, Rows, Replayed, Sized, AllWithin, Sort, View.Synced, View.Sent, View.Keeps, View.Pending;
      ghost var start, rows := Account(), Rows(buffer);
      FlushToQueue();
      ghost var queued := Account();
      var original := queueLength;
      SortQueue();
      KeepsBoth(start, queued, Account());
      SentNothing(start, Account(), rows);
      images := [];
      var i := 0;
      while i < queueLength
        invariant 0 <= i <= queueLength && Bounded() && !dirty
        invariant forall k :: 0 <= k < i ==> queue[k].flushed
        invariant original == 0 ==> queueLength == 0 && images == []
        invariant rows == Rows(buffer) && Account().Sent(start, images, rows)
        decreases QUEUE_SIZE - i
      {
        ghost var before := Account();
        ghost var sent := FlushEntry(i, original);
        assert Account().Sent(before, sent, rows);
        SentBoth(start, before, Account(), images, sent, rows);
        images := images + sent;
        i := i + 1;
      }
      SentAll(start, Account(), images, rows);
      assert Account().(queued := []) == View(width, height, dirty, dirtyRect, queue[..0], remote);
      queueLength := 0;
    }

    /** __guac_common_surface_flush_deferred */
    method FlushDeferred() returns (ghost images: seq<Image>)
      requires Valid()
      modifies this`dirty, this`dirtyRect, this`queueLength, this`remote, queue
      ensures Valid() && !dirty
      ensures Account().Sent(old(Account()), images, Rows(buffer))
      ensures !old(dirty) || old(queueLength) < QUEUE_SIZE - 1 ==>
        images == [] && queue[..queueLength] ==
          old(queue[..queueLength]) + (if old(dirty) then [BitmapRect(false, old(dirtyRect))] else [])
      ensures old(dirty) && old(queueLength) == QUEUE_SIZE - 1 ==> queueLength == 0
    {
      hide Combined, Rows, Replayed, View.Sent, View.Keeps, View.Pending;
      ghost var start := Account();
      images := [];
      KeepsItself(start);
      SentNothing(start, start, Rows(buffer));
      if !dirty {
        return;
      }
      if queueLength == QUEUE_SIZE - 1 {
        images := FlushQueue();
      }
      ghost var flushed := Account();
      FlushToQueue();
      SentNothing(flushed, Account(), Rows(buffer));
      SentBoth(start, flushed, Account(), images, [], Rows(buffer));
      assert images + [] == images;
    }

    /** The end of a draw: flushes if not combining, then marks the rectangle. */
    method Defer(rect: Rect) returns (ghost images: seq<Image>)
      requires Valid() && Within(rect, Area(width, height))
      modifies this`dirty, this`dirtyRect, this`queueLength, this`remote, queue
      ensures Valid() && Honest(images, Rows(buffer))
      ensures !rect.Empty() && old(queueLength) < QUEUE_SIZE - 1 ==>
        images == [] && Account() == Deferred(old(Account()), rect)
      ensures !rect.Empty() ==>
        dirty &&
          dirtyRect == if old(ShouldCombine(dirty, dirtyRect, rect, false)) then Extend(old(dirtyRect), rect) else rect
      ensures old(Account().Synced(Rows(buffer), rect)) && Exact(images, Rows(buffer)) ==> InSync()
    {
      hide Combined, Rows, Replayed, ShouldCombine, View.Keeps, View.Pending, View.Synced, Exact;
      ghost var start, rows := Account(), Rows(buffer);
      images := [];
      KeepsItself(start);
      SentNothing(start, start, rows);
      CombinesWhenDirty(dirty, dirtyRect, rect, false);
      if !ShouldCombine(dirty, dirtyRect, rect, false) {
        images := FlushDeferred();
      }
      ghost var flushed := Account();
      MarkDirty(rect);
      if start.Synced(rows, rect) && Exact(images, rows) {
        SentExactly(start, flushed, images, rows, rect);
        Marked(flushed, Account(), rows, rect);
      }
    }

    /** guac_common_surface_alloc: both the buffer and the layer start transparent. */
    constructor (w: nat, h: nat, webp: bool)
      ensures Valid() && !clipped && !dirty && queueLength == 0 && fresh(buffer) && fresh(queue)
      ensures width == w && height == h && clipRect == NOWHERE && InSync()
      ensures forall px, py :: Inside(px, py, w, h) ==> buffer[py, px] == CLEAR
    {
      width, height := w, h;
      buffer := new Pixel[h, w]((i, j) => CLEAR);
      dirty, dirtyRect, queueLength := false, NOWHERE, 0;
      queue := new BitmapRect[QUEUE_SIZE](i => BitmapRect(true, NOWHERE));
      clipped, clipRect := false, NOWHERE;
      this.webp := webp;
      remote := seq(h, y => seq(w, x => CLEAR));
    }

    /** guac_common_surface_resize: the kept pixels are copied with their alpha
        channel ignored, while the layer keeps its own. */
    method Resize(w: nat, h: nat)
      requires Valid()
      modifies this`width, this`height, this`buffer, this`clipRect, this`dirty, this`dirtyRect, this`remote
      ensures Valid() && width == w && height == h
      ensures w == old(width) && h == old(height) ==>
        buffer == old(buffer) && Account() == old(Account()) && clipRect == old(clipRect)
      ensures w != old(width) || h != old(height) ==>
        fresh(buffer) && Rows(buffer) == Resized(old(Rows(buffer)), old(width), old(height), w, h, Solidly())
      ensures w != old(width) || h != old(height) ==>
        var bounded := Constrain(old(dirtyRect), Area(w, h));
        && dirty == (old(dirty) && !bounded.Empty()) && dirtyRect == (if old(dirty) then bounded else old(dirtyRect))
        && clipRect == Constrain(old(clipRect), Area(w, h))
      ensures old(InSync()) && (w != old(width) || h != old(height)) ==>
        (InSync() <==> StaysInStep(old(Account()), w, h, old(Rows(buffer))))
    {
      hide Queued, View.Synced, View.Pending, Rows, StaysInStep, Resizes, Resized, Contains, Constrain, Sized;
      if w == width && h == height {
        return;
      }
      ghost var start, was := Account(), Rows(buffer);
      var kept := KeptPixels(buffer, w, h);
      buffer, width, height := kept, w, h;
      clipRect := Constrain(clipRect, Area(w, h));
      if dirty {
        dirtyRect := Constrain(dirtyRect, Area(w, h));
        if dirtyRect.width <= 0 || dirtyRect.height <= 0 {
          dirty := false;
        }
      }
      remote := Resized(start.remote, start.width, start.height, w, h, p => p);
      ResizedInStep(start, Account(), was, Rows(buffer));
    }

    /** guac_common_surface_draw */
    method Draw(x: int, y: int, src: array2<Pixel>, argb: bool) returns (ghost images: seq<Image>, ghost r: Rect)
      requires Valid() && src != buffer
      modifies this`dirty, this`dirtyRect, this`queueLength, this`remote, queue, buffer
      ensures Valid() && Honest(images, Rows(buffer))
      ensures var t := old(Clipped(Rect(x, y, src.Length1, src.Length0)));
        Rows(buffer) == if t.Empty() then old(Rows(buffer))
                        else Combined(Rows(src), t.x - x, t.y - y, Composer(argb), old(Rows(buffer)), t)
      ensures var t := old(Clipped(Rect(x, y, src.Length1, src.Length0)));
        if t.Empty() then r == t else Tight(old(Rows(buffer)), Rows(buffer), t, r, false)
      ensures old(queueLength) < QUEUE_SIZE - 1 ==> images == [] && Account() == Deferred(old(Account()), r)
      ensures old(InSync()) && Exact(images, Rows(buffer)) ==> InSync()
    {
      hide Combined, Rows, View.Synced, HoldsChanges, Exact, ShouldCombine;
      images := [];
      var rect := Clipped(Rect(x, y, src.Length1, src.Length0));
      r := rect;
      if rect.width <= 0 || rect.height <= 0 {
        return;
      }
      ghost var was := Rows(buffer);
      var sx, sy, changed := Put(src, rect.x - x, rect.y - y, buffer, rect, Composer(argb));
      if Account().Synced(was, NOWHERE) {
        Redrawn(Account(), was, Rows(buffer), changed);
      }
      r := changed;
      if changed.width <= 0 || changed.height <= 0 {
        NowhereElse(Account(), Rows(buffer), changed);
        return;
      }
      images := Defer(changed);
    }

    /** guac_common_surface_paint */
    method Paint(x: int, y: int, src: array2<Pixel>, color: Pixel) returns (ghost images: seq<Image>)
      requires Valid() && src != buffer && color.Opaque()
      modifies this`dirty, this`dirtyRect, this`queueLength, this`remote, queue, buffer
      ensures Valid() && Honest(images, Rows(buffer))
      ensures var t := old(Clipped(Rect(x, y, src.Length1, src.Length0)));
        Rows(buffer) == if t.Empty() then old(Rows(buffer))
                        else Combined(Rows(src), t.x - x, t.y - y, Stencil(Masked(), color), old(Rows(buffer)), t)
      ensures old(InSync()) && Exact(images, Rows(buffer)) ==> InSync()
    {
      hide Combined, Rows, View.Synced, HoldsChanges, Exact;
      images := [];
      var rect := Clipped(Rect(x, y, src.Length1, src.Length0));
      if rect.width <= 0 || rect.height <= 0 {
        return;
      }
      ghost var was := Rows(buffer);
      FillMask(src, rect.x - x, rect.y - y, buffer, rect, Masked(), color);
      if Account().Synced(was, NOWHERE) {
        Redrawn(Account(), was, Rows(buffer), rect);
      }
      images := Defer(rect);
    }

    /** guac_common_surface_set: an opaque fill may be sent as such at once. */
    method Set(x: int, y: int, w: int, h: int, color: Pixel) returns (ghost images: seq<Image>)
      requires Valid()
      modifies this`dirty, this`dirtyRect, this`queueLength, this`remote, queue, buffer
      ensures Valid() && Honest(images, Rows(buffer))
      ensures var t := old(Clipped(Rect(x, y, w, h)));
        Rows(buffer) == if t.Empty() then old(Rows(buffer))
                        else Combined(old(Rows(buffer)), t.x, t.y, Fill(color), old(Rows(buffer)), t)
      ensures old(InSync()) && Exact(images, Rows(buffer)) ==> InSync()
    {
      hide Combined, Rows, View.Synced, HoldsChanges, Exact, ShouldCombine, View.Sent, View.Keeps;
      images := [];
      var rect := Clipped(Rect(x, y, w, h));
      if rect.width <= 0 || rect.height <= 0 {
        return;
      }
      ghost var was := Rows(buffer);
      var r := SetRect(buffer, rect, color);
      ghost var rows := Rows(buffer);
      if Account().Synced(was, NOWHERE) {
        Redrawn(Account(), was, rows, r);
      }
      ghost var drawn := Account();
      if r.width <= 0 || r.height <= 0 {
        NowhereElse(drawn, rows, r);
        return;
      }
      if color.a != 0xFF {
        images := Defer(r);
      } else if ShouldCombine(dirty, dirtyRect, r, true) {
        MarkDirty(r);
        if drawn.Synced(rows, r) {
          Marked(drawn, Account(), rows, r);
        }
      } else {
        images := FlushQueue();
        SentHonest(drawn, Account(), images, rows);
        ghost var flushed, g := Account(), (s, d) => Over(d, color);
        remote := Combined(remote, r.x, r.y, g, remote, r);
        if drawn.Synced(rows, r) && Exact(images, rows) {
          SentExactly(drawn, flushed, images, rows, r);
          forall px, py ensures Computes(flushed.remote, rows, flushed.remote, r.x, r.y, g, r, px, py) {
            if Contains(r, px, py) {
              CombinedAt(was, rect.x, rect.y, Fill(color), was, rect, px, py);
            }
          }
          Instructed(flushed, remote, rows, flushed.remote, r.x, r.y, g, r);
        }
      }
    }

    /** guac_common_surface_clip: clips accumulate until they are reset. */
    method Clip(x: int, y: int, w: int, h: int)
      requires Valid()
      modifies this`clipped, this`clipRect
      ensures Valid() && clipped && clipRect == Constrain(old(Limits()), Rect(x, y, w, h))
      ensures forall rect, px, py :: Contains(Clipped(rect), px, py) <==>
        old(Contains(Clipped(rect), px, py)) && Contains(Rect(x, y, w, h), px, py)
    {
      if !clipped {
        clipRect := Area(width, height);
        clipped := true;
      }
      ghost var before := clipRect;
      clipRect := Constrain(clipRect, Rect(x, y, w, h));
      forall rect, px, py
        ensures Contains(Clipped(rect), px, py) <==>
          old(Contains(Clipped(rect), px, py)) && Contains(Rect(x, y, w, h), px, py)
      {
        assert old(Clipped(rect)) == Constrain(rect, before) && Clipped(rect) == Constrain(rect, clipRect);
        assert Contains(clipRect, px, py) <==> Contains(before, px, py) && Contains(Rect(x, y, w, h), px, py);
      }
    }

    /** guac_common_surface_reset_clip */
    method ResetClip()
      requires Valid()
      modifies this`clipped
      ensures Valid() && !clipped && forall rect :: Clipped(rect) == Constrain(rect, Area(width, height))
    {
      clipped := false;
    }

    /** guac_common_surface_flush, without the layer properties. When every image
        is delivered as it is, the remote display then equals the buffer. */
    method Flush() returns (ghost images: seq<Image>)
      requires Valid()
      modifies this`dirty, this`dirtyRect, this`queueLength, this`remote, queue
      ensures Valid() && !dirty && queueLength == 0 && Honest(images, Rows(buffer))
      ensures Account().Sent(old(Account()), images, Rows(buffer))
      ensures old(InSync()) && Exact(images, Rows(buffer)) ==> InSync() && remote == Rows(buffer)
      ensures !old(dirty) && old(queueLength) == 0 ==> images == []
    {
      ghost var start := Account();
      images := FlushQueue();
      if start.Synced(Rows(buffer), NOWHERE) && Exact(images, Rows(buffer)) {
        SentExactly(start, Account(), images, Rows(buffer), NOWHERE);
        NothingPending(Account(), Rows(buffer));
      }
    }
  }
}
