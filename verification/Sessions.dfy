/** Runs of drawing calls over any number of surfaces: the display shows the picture
    that the calls describe. */
module Sessions {
  import opened Accounts
  import opened Argb
  import opened Copies
  import opened Pictures
  import opened Pixels
  import opened Rects
  import opened Remote
  import opened Surfaces

  ghost function LayerOf(s: Surface): Layer
    reads s, s.buffer
  {
    Layer(s.width, s.height, Rows(s.buffer), s.clipped, s.clipRect)
  }

  ghost function Layers(ss: seq<Surface>): (ls: seq<Layer>)
    reads ss, set s | s in ss :: s.buffer
    ensures |ls| == |ss|
  {
    seq(|ss|, k requires 0 <= k < |ss| reads ss, set s | s in ss :: s.buffer => LayerOf(ss[k]))
  }

  /** Valid surfaces that share nothing. */
  ghost predicate Separate(ss: seq<Surface>)
    reads ss
  {
    && (forall k :: 0 <= k < |ss| ==> ss[k].Valid())
    && forall j, k :: 0 <= j < k < |ss| ==> ss[j] != ss[k] && Apart(ss[j], ss[k])
  }

  ghost predicate AllInSync(ss: seq<Surface>)
    requires Separate(ss)
    reads ss, set s | s in ss :: s.buffer, set s | s in ss :: s.queue
  {
    forall k :: 0 <= k < |ss| ==> ss[k].InSync()
  }

  /** Images sent at one moment, and the pixels that they were made from. */
  datatype Delivery = Delivery(images: seq<Image>, buffer: Raster)

  ghost predicate Held(buffer: Raster, ls: seq<Layer>) {
    exists k :: 0 <= k < |ls| && ls[k].rows == buffer
  }

  /** The images are honest, and made from a layer as it was before or after the call. */
  ghost predicate Genuine(log: seq<Delivery>, before: seq<Layer>, after: seq<Layer>) {
    forall i :: 0 <= i < |log| ==>
      Honest(log[i].images, log[i].buffer) && (Held(log[i].buffer, before) || Held(log[i].buffer, after))
  }

  /** All images arrive as they are. */
  ghost predicate Arrives(log: seq<Delivery>) {
    forall i :: 0 <= i < |log| ==> Exact(log[i].images, log[i].buffer)
  }

  /** An opaque surface whose account with the remote display is in step. */
  ghost predicate Good(s: Surface)
    reads s, s.queue, s.buffer
  {
    s.Valid() && s.InSync() && Opaque(Rows(s.buffer))
  }

  /** A new surface filled with an opaque colour is in step. */
  method NewSurface(w: nat, h: nat, webp: bool, color: Pixel) returns (s: Surface)
    requires color.Opaque()
    ensures Good(s) && fresh(s) && fresh(s.buffer) && fresh(s.queue) && s.width == w && s.height == h && !s.clipped
    ensures forall py, px :: 0 <= py < h && 0 <= px < w ==> s.buffer[py, px] == color
  {
    s := new Surface(w, h, webp);
    ghost var was := Rows(s.buffer);
    ghost var images := s.Set(0, 0, w, h, color);
    if !Area(w, h).Empty() {
      forall py, px | 0 <= py < h && 0 <= px < w ensures Rows(s.buffer)[py][px] == color {
        CombinedAt(was, 0, 0, Fill(color), was, Area(w, h), px, py);
      }
    }
    OpaqueIsExact(images, Rows(s.buffer));
  }

  method FlushOn(s: Surface)
    requires Good(s)
    modifies s`dirty, s`dirtyRect, s`queueLength, s`remote, s.queue
    ensures Good(s) && s.Idle() && s.remote == Rows(s.buffer)
  {
    ghost var images := s.Flush();
    OpaqueIsExact(images, Rows(s.buffer));
  }

  lemma OpaqueStays(v: View, l: Layer, w: int, h: int)
    requires v.width == l.width && v.height == l.height && l.Valid() && OpaqueIn(l.rows, Area(w, h))
    ensures StaysInStep(v, w, h, l.rows)
  {
    hide View.Pending;
    forall px, py | Inside(px, py, w, h) && Inside(px, py, v.width, v.height) ensures l.rows[py][px].Opaque() {
      assert Contains(Area(w, h), px, py);
    }
  }

  /** Calls that concern a single surface. */
  method Alone(s: Surface, c: Call) returns (ghost images: seq<Image>)
    requires s.Valid() && !c.Copy? && !c.Transfer? && (c.Paint? ==> c.color.Opaque()) && s.buffer !in c.Images()
    modifies s, s.queue, s.buffer
    ensures s.Valid() && LayerOf(s) == old(LayerOf(s).After(c)) && (s.buffer == old(s.buffer) || fresh(s.buffer))
    ensures Honest(images, Rows(s.buffer))
    ensures
      old(s.InSync()) && old(OneFaithful(LayerOf(s), LayerOf(s), c)) && Exact(images, Rows(s.buffer)) ==> s.InSync()
  {
    hide Combined, Rows, View.Synced, Exact, Constrain, Resized, Tight, Deferred, StaysInStep, OpaqueIn, View.Sent;
    images := [];
    match c
    case Draw(_, x, y, img, argb) => { ghost var r; images, r := s.Draw(x, y, img, argb); }
    case Paint(_, x, y, img, color) => images := s.Paint(x, y, img, color);
    case Set(_, x, y, w, h, color) => images := s.Set(x, y, w, h, color);
    case Clip(_, x, y, w, h) => s.Clip(x, y, w, h);
    case ResetClip(_) => s.ResetClip();
    case Resize(_, w, h) => {
      ghost var v, l := s.Account(), LayerOf(s);
      s.Resize(w, h);
      if OpaqueIn(l.rows, Area(w, h)) {
        OpaqueStays(v, l, w, h);
      }
    }
    case Flush(_) => images := s.Flush();
  }

  /** Copies and transfers. */
  method Between(src: Surface, dst: Surface, c: Call) returns (ghost log: seq<Delivery>)
    requires src.Valid() && dst.Valid() && Apart(src, dst)
    requires (c.Copy? || c.Transfer?) && (src == dst <==> c.from == c.on)
    modifies dst, dst.queue, dst.buffer, src`dirty, src`dirtyRect, src`queueLength, src`remote, src.queue
    ensures src.Valid() && dst.Valid() && dst.buffer == old(dst.buffer)
    ensures LayerOf(dst) == old(LayerOf(dst).Blitted(LayerOf(src), c))
    ensures Genuine(log, old([LayerOf(src), LayerOf(dst)]), [LayerOf(dst)])
    ensures Arrives(log) && old(src.InSync() && dst.InSync() && OneFaithful(LayerOf(src), LayerOf(dst), c)) ==>
      src.InSync() && dst.InSync()
  {
    hide Combined, Rows, View.Synced, Exact, Honest, Constrain, Plan, Shown, OpaqueIn, Opaque;
    ghost var from, was := Rows(src.buffer), Rows(dst.buffer);
    ghost var before := [LayerOf(src), LayerOf(dst)];
    ghost var out;
    if c.Copy? {
      out := Copies.Copy(src, c.sx, c.sy, c.w, c.h, dst, c.dx, c.dy);
    } else {
      out := TransferRegion(src, c.sx, c.sy, c.w, c.h, c.op, dst, c.dx, c.dy);
    }
    ghost var sent := if src == dst then was else Rows(dst.buffer);
    log := [Delivery(out.dstImages, sent), Delivery(out.srcImages, from)];
    assert before[0].rows == from && before[1].rows == was && [LayerOf(dst)][0].rows == Rows(dst.buffer);
    assert Arrives(log) ==> Exact(log[0].images, log[0].buffer) && Exact(log[1].images, log[1].buffer);
  }

  lemma GenuineAmong(log: seq<Delivery>, b: seq<Layer>, a: seq<Layer>, before: seq<Layer>, after: seq<Layer>)
    requires Genuine(log, b, a)
    requires forall k :: 0 <= k < |b| ==> exists j :: 0 <= j < |before| && before[j].rows == b[k].rows
    requires forall k :: 0 <= k < |a| ==> exists j :: 0 <= j < |after| && after[j].rows == a[k].rows
    ensures Genuine(log, before, after)
  {
    hide Honest;
  }

  lemma LayersValid(ss: seq<Surface>)
    requires Separate(ss)
    ensures AllValid(Layers(ss)) && forall k :: 0 <= k < |ss| ==> Layers(ss)[k] == LayerOf(ss[k])
  {
  }

  lemma LayersAre(ss: seq<Surface>, ls: seq<Layer>)
    requires |ls| == |ss| && forall k :: 0 <= k < |ss| ==> LayerOf(ss[k]) == ls[k]
    ensures Layers(ss) == ls
  {
  }

  /** k is one of the surfaces, and shares nothing with any other. */
  ghost predicate Alien(ss: seq<Surface>, k: nat)
    requires k < |ss|
    reads ss
  {
    && ss[k].Valid()
    && forall j :: 0 <= j < |ss| && j != k ==>
         ss[j] != ss[k] && ss[j].buffer != ss[k].buffer && ss[j].queue != ss[k].queue
  }

  lemma SeparateFrom(ss: seq<Surface>, k: nat, l: nat)
    requires Separate(ss) && k < |ss| && l < |ss|
    ensures Alien(ss, k) && Alien(ss, l) && Apart(ss[l], ss[k]) && (ss[k] == ss[l] <==> k == l)
    ensures forall j :: 0 <= j < |ss| ==> ss[j].Valid()
    ensures forall i, j :: 0 <= i < j < |ss| ==>
      ss[i] != ss[j] && ss[i].queue != ss[j].queue && ss[i].buffer != ss[j].buffer
  {
  }

  lemma StillSeparate(ss: seq<Surface>, on: nat, buffers: seq<array2<Pixel>>)
    requires |buffers| == |ss| && on < |ss| && forall k :: 0 <= k < |ss| ==> ss[k].Valid()
    requires forall j, k :: 0 <= j < k < |ss| ==>
      ss[j] != ss[k] && ss[j].queue != ss[k].queue && buffers[j] != buffers[k]
    requires forall k :: 0 <= k < |ss| && k != on ==> ss[k].buffer == buffers[k] && ss[k].buffer != ss[on].buffer
    ensures Separate(ss)
  {
  }

  /** Any call, made on s and reading src. */
  method Act(src: Surface, s: Surface, c: Call) returns (ghost log: seq<Delivery>)
    requires src.Valid() && s.Valid() && Apart(src, s) && (src == s <==> c.Source() == c.on)
    requires (c.Paint? ==> c.color.Opaque()) && s.buffer !in c.Images()
    modifies s, s.queue, s.buffer, src`dirty, src`dirtyRect, src`queueLength, src`remote, src.queue
    ensures src.Valid() && s.Valid() && (s.buffer == old(s.buffer) || fresh(s.buffer))
    ensures LayerOf(s) == old(OneAfter(LayerOf(src), LayerOf(s), c))
    ensures Genuine(log, old([LayerOf(src), LayerOf(s)]), [LayerOf(s)])
    ensures old(src.InSync() && s.InSync() && OneFaithful(LayerOf(src), LayerOf(s), c)) && Arrives(log) ==>
      src.InSync() && s.InSync()
  {
    hide Rows, View.Synced, Exact, Honest, Layer.After, Layer.Blitted, OneFaithful, Surface.InSync;
    if c.Copy? || c.Transfer? {
      log := Between(src, s, c);
    } else {
      ghost var images := Alone(s, c);
      log := [Delivery(images, Rows(s.buffer))];
      assert [LayerOf(s)][0].rows == log[0].buffer;
    }
  }

  /** The same among surfaces that share nothing with these two. */
  method ActAmong(ss: seq<Surface>, c: Call) returns (ghost log: seq<Delivery>)
    requires Separate(ss) && c.Legal(|ss|) && ss[c.on].buffer !in c.Images()
    modifies ss[c.on], ss[c.on].queue, ss[c.on].buffer, ss[c.Source()], ss[c.Source()].queue
    ensures Separate(ss)
    ensures forall k :: 0 <= k < |ss| ==> ss[k].buffer == old(ss[k].buffer) || fresh(ss[k].buffer)
    ensures forall k :: 0 <= k < |ss| && k != c.on ==> LayerOf(ss[k]) == old(LayerOf(ss[k]))
    ensures LayerOf(ss[c.on]) == old(OneAfter(LayerOf(ss[c.Source()]), LayerOf(ss[c.on]), c))
    ensures Genuine(log, old([LayerOf(ss[c.Source()]), LayerOf(ss[c.on])]), [LayerOf(ss[c.on])])
    ensures Arrives(log) && old(AllInSync(ss) && OneFaithful(LayerOf(ss[c.Source()]), LayerOf(ss[c.on]), c)) ==>
      AllInSync(ss)
  {
    hide Rows, View.Synced, OneAfter, OneFaithful, Surface.InSync, Surface.Bounded, Arrives, Genuine, Separate, Apart;
    var s, src := ss[c.on], ss[c.Source()];
    SeparateFrom(ss, c.on, c.Source());
    ghost var inSync := AllInSync(ss);
    assert inSync ==> src.InSync() && s.InSync();
    ghost var faithful := OneFaithful(LayerOf(src), LayerOf(s), c);
    ghost var buffers := seq(|ss|, k requires 0 <= k < |ss| reads ss => ss[k].buffer);
    log := Act(src, s, c);
    forall k | 0 <= k < |ss|
      ensures ss[k].Valid() && (inSync && faithful && Arrives(log) ==> ss[k].InSync())
    {
    }
    StillSeparate(ss, c.on, buffers);
  }

  /** Every call does to the buffers what it does to the picture, and keeps all surfaces
      in step if its images arrive as they are and the display can follow it. */
  method Step(ss: seq<Surface>, c: Call) returns (ghost log: seq<Delivery>)
    requires Separate(ss) && c.Legal(|ss|) && ss[c.on].buffer !in c.Images()
    modifies ss[c.on], ss[c.on].queue, ss[c.on].buffer, ss[c.Source()], ss[c.Source()].queue
    ensures Separate(ss) && Layers(ss) == old(After(Layers(ss), c))
    ensures forall k :: 0 <= k < |ss| ==> ss[k].buffer == old(ss[k].buffer) || fresh(ss[k].buffer)
    ensures Genuine(log, old(Layers(ss)), Layers(ss))
    ensures old(AllInSync(ss) && Faithful(Layers(ss), c)) && Arrives(log) ==> AllInSync(ss)
  {
    hide Rows, OneAfter, OneFaithful, Surface.Bounded, Arrives, Genuine, Layers, Separate, Apart, AllInSync, LayerOf;
    LayersValid(ss);
    ghost var before, b := Layers(ss), [LayerOf(ss[c.Source()]), LayerOf(ss[c.on])];
    log := ActAmong(ss, c);
    ghost var after := before[c.on := LayerOf(ss[c.on])];
    LayersAre(ss, after);
    assert before[c.on].rows == b[1].rows && before[c.Source()].rows == b[0].rows;
    assert after[c.on].rows == [LayerOf(ss[c.on])][0].rows;
    GenuineAmong(log, b, [LayerOf(ss[c.on])], before, after);
  }

  /** The display shows these layers. */
  ghost predicate Shows(ss: seq<Surface>, ls: seq<Layer>)
    requires |ls| == |ss|
    reads ss
  {
    forall k :: 0 <= k < |ss| ==> ss[k].remote == ls[k].rows
  }

  method FlushOne(ss: seq<Surface>, i: nat) returns (ghost sent: Delivery)
    requires Separate(ss) && i < |ss|
    modifies ss[i], ss[i].queue
    ensures Separate(ss) && sent.buffer == LayerOf(ss[i]).rows && Honest(sent.images, sent.buffer)
    ensures old(ss[i].InSync()) && Exact(sent.images, sent.buffer) ==> ss[i].remote == LayerOf(ss[i]).rows
    ensures forall k :: 0 <= k < |ss| ==> LayerOf(ss[k]) == old(LayerOf(ss[k]))
    ensures forall k :: 0 <= k < |ss| && k != i ==> ss[k].remote == old(ss[k].remote)
    ensures forall k :: 0 <= k < |ss| && k != i && old(ss[k].InSync()) ==> ss[k].InSync()
  {
    hide Rows, View.Synced, Surface.InSync, Surface.Bounded, Exact, Honest, Separate;
    SeparateFrom(ss, i, i);
    ghost var buffers := seq(|ss|, k requires 0 <= k < |ss| reads ss => ss[k].buffer);
    ghost var images := ss[i].Flush();
    sent := Delivery(images, Rows(ss[i].buffer));
    StillSeparate(ss, i, buffers);
  }

  lemma ArrivesBoth(log: seq<Delivery>, more: seq<Delivery>)
    ensures Arrives(log + more) <==> Arrives(log) && Arrives(more)
  {
    hide Exact;
    forall i | 0 <= i < |log| ensures (log + more)[i] == log[i] {
    }
    forall i | 0 <= i < |more| ensures (log + more)[|log| + i] == more[i] {
    }
  }

  lemma ArrivesOne(d: Delivery)
    ensures Arrives([d]) <==> Exact(d.images, d.buffer)
  {
    hide Exact;
    assert [d][0] == d;
  }

  /** Flushed surfaces show their buffers, the rest is still in step. */
  ghost predicate ShownTo(ss: seq<Surface>, ls: seq<Layer>, i: int)
    requires Separate(ss) && |ls| == |ss|
    reads ss, set s | s in ss :: s.buffer, set s | s in ss :: s.queue
  {
    && (forall k :: 0 <= k < i && k < |ss| ==> ss[k].remote == ls[k].rows)
    && forall k :: 0 <= i <= k < |ss| ==> ss[k].InSync()
  }

  method FlushAll(ss: seq<Surface>) returns (ghost log: seq<Delivery>)
    requires Separate(ss)
    modifies ss, set s | s in ss :: s.queue
    ensures Separate(ss) && Layers(ss) == old(Layers(ss))
    ensures Genuine(log, Layers(ss), Layers(ss))
    ensures old(AllInSync(ss)) && Arrives(log) ==> Shows(ss, Layers(ss))
  {
    hide Rows, Surface.InSync, Surface.Bounded, Exact, Honest, Separate, LayerOf, Arrives;
    log := [];
    ghost var ls := Layers(ss);
    for i := 0 to |ss|
      invariant Separate(ss) && forall k :: 0 <= k < |ss| ==> LayerOf(ss[k]) == ls[k]
      invariant Genuine(log, ls, ls)
      invariant old(AllInSync(ss)) && Arrives(log) ==> ShownTo(ss, ls, i)
    {
      ghost var sent := FlushOne(ss, i);
      assert Held(sent.buffer, ls) by {
        assert ls[i].rows == sent.buffer;
      }
      ArrivesBoth(log, [sent]);
      ArrivesOne(sent);
      log := log + [sent];
    }
    LayersAre(ss, ls);
  }

  /** Every image sent is honest, and made from a layer at some moment of the run. */
  ghost predicate FromRun(log: seq<Delivery>, path: seq<seq<Layer>>) {
    forall i :: 0 <= i < |log| ==>
      Honest(log[i].images, log[i].buffer) && exists j :: 0 <= j < |path| && Held(log[i].buffer, path[j])
  }

  lemma FromStep(log: seq<Delivery>, sent: seq<Delivery>, path: seq<seq<Layer>>, i: nat, j: nat)
    requires FromRun(log, path) && i < |path| && j < |path| && Genuine(sent, path[i], path[j])
    ensures FromRun(log + sent, path)
  {
    hide Honest, Held;
    var both := log + sent;
    forall k | 0 <= k < |both|
      ensures Honest(both[k].images, both[k].buffer) && exists m :: 0 <= m < |path| && Held(both[k].buffer, path[m])
    {
      if k < |log| {
        assert both[k] == log[k];
      } else {
        assert both[k] == sent[k - |log|];
      }
    }
  }

  ghost predicate PngOnly(log: seq<Delivery>) {
    forall i :: 0 <= i < |log| ==> AllPng(log[i].images)
  }

  lemma PngArrives(log: seq<Delivery>, path: seq<seq<Layer>>)
    requires FromRun(log, path) && PngOnly(log)
    ensures Arrives(log)
  {
    hide Exact, Honest, AllPng;
    forall i | 0 <= i < |log| ensures Exact(log[i].images, log[i].buffer) {
      ExactWhen(log[i].images, log[i].buffer);
    }
  }

  lemma OpaqueArrives(log: seq<Delivery>, path: seq<seq<Layer>>)
    requires FromRun(log, path) && forall j :: 0 <= j < |path| ==> AllOpaque(path[j])
    ensures Arrives(log)
  {
    hide Exact, Honest, Opaque;
    forall i | 0 <= i < |log| ensures Exact(log[i].images, log[i].buffer) {
      ExactWhen(log[i].images, log[i].buffer);
    }
  }

  method RunCalls(ss: seq<Surface>, calls: seq<Call>) returns (ghost log: seq<Delivery>)
    requires Separate(ss) && AllLegal(calls, |ss|) && forall k :: 0 <= k < |ss| ==> ss[k].buffer !in ImagesOf(calls)
    modifies ss, set s | s in ss :: s.buffer, set s | s in ss :: s.queue
    ensures Separate(ss) && Layers(ss) == old(Path(Layers(ss), calls))[|calls|]
    ensures FromRun(log, old(Path(Layers(ss), calls)))
    ensures old(AllInSync(ss) && AllFaithful(Path(Layers(ss), calls), calls)) && Arrives(log) ==> AllInSync(ss)
  {
    hide Arrives, Genuine, Surface.Bounded, LayerOf, Layers, AllInSync, After, Faithful, Separate, FromRun;
    LayersValid(ss);
    ghost var path := Path(Layers(ss), calls);
    log := [];
    Nothing(path);
    for i := 0 to |calls|
      invariant Separate(ss) && Layers(ss) == path[i]
      invariant forall k :: 0 <= k < |ss| ==> ss[k].buffer == old(ss[k].buffer) || fresh(ss[k].buffer)
      invariant FromRun(log, path)
      invariant old(AllInSync(ss)) && AllFaithful(path, calls) && Arrives(log) ==> AllInSync(ss)
    {
      ImageAmong(calls, i);
      assert After(path[i], calls[i]) == old(After(path[i], calls[i]));
      ghost var sent := Step(ss, calls[i]);
      assert Layers(ss) == path[i + 1];
      ArrivesBoth(log, sent);
      FromStep(log, sent, path, i, i + 1);
      log := log + sent;
    }
  }

  lemma Nothing(path: seq<seq<Layer>>)
    ensures FromRun([], path)
  {
  }

  lemma ImageAmong(calls: seq<Call>, i: nat)
    requires i < |calls|
    ensures calls[i].Images() <= ImagesOf(calls)
  {
  }

  /** After every run of calls and a final flush, the buffers hold the picture that the
      calls describe. The display shows it if it can follow each call and the images
      arrive as they are; PNG images do, and so do all images of opaque runs, whose calls
      the display can follow. */
  method Run(ss: seq<Surface>, calls: seq<Call>) returns (ghost log: seq<Delivery>)
    requires Separate(ss) && AllLegal(calls, |ss|) && forall k :: 0 <= k < |ss| ==> ss[k].buffer !in ImagesOf(calls)
    modifies ss, set s | s in ss :: s.buffer, set s | s in ss :: s.queue
    ensures Separate(ss) && Layers(ss) == old(Path(Layers(ss), calls))[|calls|]
    ensures FromRun(log, old(Path(Layers(ss), calls)))
    ensures old(AllInSync(ss) && AllFaithful(Path(Layers(ss), calls), calls)) && (Arrives(log) || PngOnly(log)) ==>
      Shows(ss, Layers(ss))
    ensures old(AllInSync(ss) && AllOpaque(Layers(ss)) && AllKeepOpaque(Path(Layers(ss), calls), calls)) ==>
      Shows(ss, Layers(ss))
  {
    hide Arrives, Genuine, LayerOf, Layers, AllInSync, Path, AllFaithful, AllOpaque, AllKeepOpaque, Separate, FromRun;
    hide Shows, Surface.Bounded;
    LayersValid(ss);
    ghost var ls, path := Layers(ss), Path(Layers(ss), calls);
    ghost var keeps := AllOpaque(ls) && AllKeepOpaque(path, calls);
    if keeps {
      OpaqueRun(ls, calls);
    }
    log := RunCalls(ss, calls);
    ghost var last := FlushAll(ss);
    ArrivesBoth(log, last);
    FromStep(log, last, path, |calls|, |calls|);
    log := log + last;
    if PngOnly(log) {
      PngArrives(log, path);
    }
    if keeps {
      OpaqueArrives(log, path);
    }
  }

  method NewSurfaces(sizes: seq<(nat, nat)>, webp: bool) returns (ss: seq<Surface>)
    ensures Separate(ss) && AllInSync(ss) && Layers(ss) == Blanks(sizes)
    ensures forall k :: 0 <= k < |ss| ==> fresh(ss[k]) && fresh(ss[k].buffer) && fresh(ss[k].queue)
  {
    hide View.Synced, Surface.InSync, Surface.Bounded, LayerOf;
    ss := [];
    for i := 0 to |sizes|
      invariant |ss| == i && Separate(ss)
      invariant forall k :: 0 <= k < i ==> ss[k].InSync() && LayerOf(ss[k]) == Blanks(sizes)[k]
      invariant forall k :: 0 <= k < i ==> fresh(ss[k]) && fresh(ss[k].buffer) && fresh(ss[k].queue)
    {
      var s := new Surface(sizes[i].0, sizes[i].1, webp);
      BlankLayer(s);
      ss := ss + [s];
    }
    LayersAre(ss, Blanks(sizes));
  }

  lemma BlankLayer(s: Surface)
    requires s.Valid() && !s.clipped && s.clipRect == NOWHERE
    requires forall px, py :: Inside(px, py, s.width, s.height) ==> s.buffer[py, px] == CLEAR
    ensures LayerOf(s) == Blank(s.width, s.height)
  {
    var rows := Rows(s.buffer);
    forall y | 0 <= y < |rows| ensures rows[y] == Blank(s.width, s.height).rows[y] {
      forall x | 0 <= x < |rows[y]| ensures rows[y][x] == CLEAR {
        assert Inside(x, y, s.width, s.height);
      }
    }
  }

  /** A run from allocation, when all surfaces are transparent. */
  method Session(sizes: seq<(nat, nat)>, webp: bool, calls: seq<Call>)
    returns (ss: seq<Surface>, ghost log: seq<Delivery>)
    requires AllLegal(calls, |sizes|)
    ensures var path := old(Path(Blanks(sizes), calls));
      && Layers(ss) == path[|calls|] && FromRun(log, path)
      && (AllFaithful(path, calls) && (Arrives(log) || PngOnly(log)) ==> Shows(ss, path[|calls|]))
  {
    hide Arrives, PngOnly, Layers, AllInSync, AllFaithful, Separate, FromRun, Shows, Blanks, After, LayerOf;
    hide AllKeepOpaque, Opaque;
    ghost var path := Path(Blanks(sizes), calls);
    ss := NewSurfaces(sizes, webp);
    assert unchanged(ImagesOf(calls));
    assert Path(Blanks(sizes), calls) == path;
    log := Run(ss, calls);
  }
}
