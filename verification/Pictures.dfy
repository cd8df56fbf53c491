/** The pictures that drawing calls describe: what the surfaces of common/src/surface.c
    hold after any run of calls, without queues, dirty rectangles or a display. */
module Pictures {
  import opened Accounts
  import opened Argb
  import opened Copies
  import opened Pixels
  import opened Rects
  import opened Remote

  /** One public call on the surface with index on; from is the one it reads. */
  datatype Call =
    | Draw(on: nat, x: int, y: int, img: array2<Pixel>, argb: bool)
    | Paint(on: nat, x: int, y: int, img: array2<Pixel>, color: Pixel)
    | Set(on: nat, x: int, y: int, w: int, h: int, color: Pixel)
    | Copy(from: nat, sx: int, sy: int, w: int, h: int, on: nat, dx: int, dy: int)
    | Transfer(from: nat, sx: int, sy: int, w: int, h: int, op: TransferFunction, on: nat, dx: int, dy: int)
    | Clip(on: nat, x: int, y: int, w: int, h: int)
    | ResetClip(on: nat)
    | Resize(on: nat, width: nat, height: nat)
    | Flush(on: nat)
  {
    /** The surface that the call reads. */
    function Source(): nat {
      if Copy? || Transfer? then from else on
    }

    /** Images that the call brings. */
    function Images(): set<array2<Pixel>> {
      if Draw? || Paint? then {img} else {}
    }

    /** The call is about n surfaces; the colour of a paint has no alpha component. */
    predicate Legal(n: nat) {
      on < n && Source() < n && (Paint? ==> color.Opaque())
    }
  }

  /** A surface's contents and clip. */
  datatype Layer = Layer(width: int, height: int, rows: Raster, clipped: bool, clipRect: Rect) {
    ghost predicate Valid() {
      Sized(rows, width, height) && (clipped ==> Within(clipRect, Area(width, height)))
    }

    function Limits(): Rect {
      if clipped then clipRect else Area(width, height)
    }

    function Clipped(rect: Rect): Rect {
      Constrain(rect, Limits())
    }

    ghost function Composed(from: Raster, sx: int, sy: int, f: Blend, target: Rect): (l: Layer)
      requires Valid()
      requires !target.Empty() ==>
        Within(target, Area(width, height)) && Covers(from, Rect(sx, sy, target.width, target.height))
      ensures l.Valid() && l.width == width && l.height == height
    {
      if target.Empty() then this else this.(rows := Combined(from, sx, sy, f, rows, target))
    }

    /** The outcome of a call that reads no surface. */
    ghost function After(c: Call): (l: Layer)
      requires Valid() && !c.Copy? && !c.Transfer?
      reads c.Images()
      ensures l.Valid()
    {
      match c
      case Draw(_, x, y, img, argb) =>
        var t := Clipped(Rect(x, y, img.Length1, img.Length0));
        Composed(Rows(img), t.x - x, t.y - y, Composer(argb), t)
      case Paint(_, x, y, img, color) =>
        var t := Clipped(Rect(x, y, img.Length1, img.Length0));
        Composed(Rows(img), t.x - x, t.y - y, Stencil(Masked(), color), t)
      case Set(_, x, y, w, h, color) =>
        var t := Clipped(Rect(x, y, w, h));
        Composed(rows, t.x, t.y, Fill(color), t)
      case Clip(_, x, y, w, h) => this.(clipped := true, clipRect := Constrain(Limits(), Rect(x, y, w, h)))
      case ResetClip(_) => this.(clipped := false)
      case Resize(_, w, h) =>
        if w == width && h == height then this
        else Layer(w, h, Resized(rows, width, height, w, h, Solidly()), clipped, Constrain(clipRect, Area(w, h)))
      case Flush(_) => this
    }

    /** The outcome of a copy or transfer from another layer, or from this one. */
    ghost function Blitted(from: Layer, c: Call): (l: Layer)
      requires Valid() && from.Valid() && (c.Copy? || c.Transfer?)
      ensures l.Valid() && l.width == width && l.height == height
    {
      var r := Blits(from, c, this);
      Composed(from.rows, r.sx, r.sy, if c.Copy? then TakeSource() else c.op.Apply, r.target)
    }
  }

  /** A layer that has just been allocated. */
  function Blank(w: nat, h: nat): Layer {
    Layer(w, h, seq(h, y => seq(w, x => CLEAR)), false, NOWHERE)
  }

  function Blanks(sizes: seq<(nat, nat)>): (ls: seq<Layer>)
    ensures |ls| == |sizes| && AllValid(ls)
  {
    seq(|sizes|, k requires 0 <= k < |sizes| => Blank(sizes[k].0, sizes[k].1))
  }

  /** The regions of a copy or transfer. */
  function Blits(from: Layer, c: Call, onto: Layer): (r: Regions)
    requires c.Copy? || c.Transfer?
    ensures !r.target.Empty() ==>
      && Within(r.target, onto.Limits())
      && Within(Rect(r.sx, r.sy, r.target.width, r.target.height), Area(from.width, from.height))
  {
    RegionsOf(Area(from.width, from.height), c.sx, c.sy, c.w, c.h, onto.Limits(), c.dx, c.dy)
  }

  ghost predicate AllValid(ls: seq<Layer>) {
    forall k :: 0 <= k < |ls| ==> ls[k].Valid()
  }

  /** A layer after a call on it that reads the layer from, which may be the same. */
  ghost function OneAfter(from: Layer, l: Layer, c: Call): (r: Layer)
    requires l.Valid() && from.Valid()
    reads c.Images()
    ensures r.Valid()
  {
    if c.Copy? || c.Transfer? then l.Blitted(from, c) else l.After(c)
  }

  /** All layers after one call. */
  ghost function After(ls: seq<Layer>, c: Call): (r: seq<Layer>)
    requires AllValid(ls) && c.Legal(|ls|)
    reads c.Images()
    ensures AllValid(r) && |r| == |ls|
  {
    ls[c.on := OneAfter(ls[c.Source()], ls[c.on], c)]
  }

  // ----- the picture pixel by pixel -----

  /** What draw, paint and set make of one pixel: only the pixels asked for, within the
      clip, take anything. */
  lemma AfterAt(l: Layer, c: Call, px: int, py: int)
    requires l.Valid() && Inside(px, py, l.width, l.height) && (c.Draw? || c.Paint? || c.Set?)
    ensures Inside(px, py, l.After(c).width, l.After(c).height)
    ensures var free := !l.clipped || Contains(l.clipRect, px, py);
      var was, now := l.rows[py][px], l.After(c).rows[py][px];
      match c
      case Draw(_, x, y, img, argb) =>
        now == if free && 0 <= px - x < img.Length1 && 0 <= py - y < img.Length0 then
                 var p := img[py - y, px - x];
                 if argb then Over(was, p) else Pixel(0xFF, p.r, p.g, p.b)
               else was
      case Paint(_, x, y, img, color) =>
        now == if free && 0 <= px - x < img.Length1 && 0 <= py - y < img.Length0 && img[py - y, px - x].a != 0
               then color else was
      case Set(_, x, y, w, h, color) =>
        now == if free && 0 <= px - x < w && 0 <= py - y < h then color else was
      case _ => true
  {
    hide Combined, Over, Layer.Composed;
    match c
    case Draw(_, x, y, img, argb) => DrawnAt(l, x, y, img, Composer(argb), px, py);
    case Paint(_, x, y, img, color) => DrawnAt(l, x, y, img, Stencil(Masked(), color), px, py);
    case Set(_, x, y, w, h, color) =>
      var t := l.Clipped(Rect(x, y, w, h));
      ComposedAt(l, l.rows, t.x, t.y, Fill(color), t, px, py);
    case _ =>
  }

  lemma DrawnAt(l: Layer, x: int, y: int, img: array2<Pixel>, f: Blend, px: int, py: int)
    requires l.Valid() && Inside(px, py, l.width, l.height)
    ensures var t := l.Clipped(Rect(x, y, img.Length1, img.Length0));
      l.Composed(Rows(img), t.x - x, t.y - y, f, t).rows[py][px] ==
        if (!l.clipped || Contains(l.clipRect, px, py)) && 0 <= px - x < img.Length1 && 0 <= py - y < img.Length0
        then f(img[py - y, px - x], l.rows[py][px]) else l.rows[py][px]
  {
    hide Combined, Layer.Composed;
    var t := l.Clipped(Rect(x, y, img.Length1, img.Length0));
    ComposedAt(l, Rows(img), t.x - x, t.y - y, f, t, px, py);
  }

  lemma ComposedAt(l: Layer, from: Raster, sx: int, sy: int, f: Blend, target: Rect, px: int, py: int)
    requires l.Valid() && Inside(px, py, l.width, l.height)
    requires !target.Empty() ==>
      Within(target, Area(l.width, l.height)) && Covers(from, Rect(sx, sy, target.width, target.height))
    ensures var now := l.Composed(from, sx, sy, f, target).rows;
      Contains(target, px, py) ==>
        && 0 <= py - target.y + sy < |from| && 0 <= px - target.x + sx < |from[py - target.y + sy]|
        && now[py][px] == f(from[py - target.y + sy][px - target.x + sx], l.rows[py][px])
    ensures !Contains(target, px, py) ==> l.Composed(from, sx, sy, f, target).rows[py][px] == l.rows[py][px]
  {
    hide Combined;
    if !target.Empty() {
      CombinedAt(from, sx, sy, f, l.rows, target, px, py);
    }
  }

  /** What copy and transfer make of the pixels of a layer. */
  lemma BlittedPlaces(l: Layer, from: Layer, c: Call)
    requires l.Valid() && from.Valid() && (c.Copy? || c.Transfer?)
    ensures Places(from.rows, c.sx, c.sy, c.w, c.h, if c.Copy? then TakeSource() else c.op.Apply, l.rows, c.dx, c.dy,
                   if l.clipped then l.clipRect else Area(l.width, l.height), l.Blitted(from, c).rows)
  {
    hide Combined, RegionsOf, Places;
    BlitPlaces(from.rows, from.width, from.height, c.sx, c.sy, c.w, c.h,
               if c.Copy? then TakeSource() else c.op.Apply, l.rows, l.width, l.height, c.dx, c.dy, l.Limits(),
               l.Blitted(from, c).rows);
  }

  ghost predicate AllLegal(calls: seq<Call>, n: nat) {
    forall i :: 0 <= i < |calls| ==> calls[i].Legal(n)
  }

  function ImagesOf(calls: seq<Call>): set<array2<Pixel>> {
    set i, img | 0 <= i < |calls| && img in calls[i].Images() :: img
  }

  /** All layers before a run of calls and after each of them. */
  ghost function Path(ls: seq<Layer>, calls: seq<Call>): (p: seq<seq<Layer>>)
    requires AllValid(ls) && AllLegal(calls, |ls|)
    reads ImagesOf(calls)
    ensures |p| == |calls| + 1 && p[0] == ls && forall i :: 0 <= i < |p| ==> AllValid(p[i]) && |p[i]| == |ls|
    ensures forall i :: 0 <= i < |calls| ==> p[i + 1] == After(p[i], calls[i])
    decreases |calls|
  {
    if calls == [] then [ls]
    else
      var p := Path(ls, calls[..|calls| - 1]);
      p + [After(p[|calls| - 1], calls[|calls| - 1])]
  }

  /** The display can follow the call: the source of a copy is opaque, the function of a
      transfer between two layers is idempotent, and a resize keeps opaque pixels only. */
  ghost predicate OneFaithful(from: Layer, l: Layer, c: Call) {
    match c
    case Copy(_, _, _, _, _, _, _, _) =>
      var r := Blits(from, c, l);
      r.target.Empty() || OpaqueIn(from.rows, Rect(r.sx, r.sy, r.target.width, r.target.height))
    case Transfer(j, _, _, _, _, op, k, _, _) => j == k || op.Idempotent()
    case Resize(_, w, h) => (w == l.width && h == l.height) || OpaqueIn(l.rows, Area(w, h))
    case _ => true
  }

  ghost predicate Faithful(ls: seq<Layer>, c: Call)
    requires c.Legal(|ls|)
  {
    OneFaithful(ls[c.Source()], ls[c.on], c)
  }

  ghost predicate AllFaithful(path: seq<seq<Layer>>, calls: seq<Call>)
    requires |path| == |calls| + 1
  {
    forall i :: 0 <= i < |calls| ==> calls[i].Legal(|path[i]|) && Faithful(path[i], calls[i])
  }

  // ----- opaque runs -----

  ghost predicate AllOpaque(ls: seq<Layer>) {
    forall k :: 0 <= k < |ls| ==> Opaque(ls[k].rows)
  }

  /** The call fills with opaque colours only, transfers only by functions that keep pixels
      opaque and, between layers, are idempotent, and does not enlarge a layer. */
  ghost predicate KeepsOpaque(ls: seq<Layer>, c: Call)
    requires c.Legal(|ls|)
  {
    match c
    case Set(_, _, _, _, _, color) => color.Opaque()
    case Transfer(from, _, _, _, _, op, on, _, _) => op.KeepsOpaque() && (from == on || op.Idempotent())
    case Resize(on, w, h) => w <= ls[on].width && h <= ls[on].height
    case _ => true
  }

  ghost predicate AllKeepOpaque(path: seq<seq<Layer>>, calls: seq<Call>)
    requires |path| == |calls| + 1
  {
    forall i :: 0 <= i < |calls| ==> calls[i].Legal(|path[i]|) && KeepsOpaque(path[i], calls[i])
  }

  lemma ComposedOpaque(l: Layer, from: Raster, sx: int, sy: int, f: Blend, target: Rect)
    requires l.Valid() && Opaque(l.rows)
    requires !target.Empty() ==>
      Within(target, Area(l.width, l.height)) && Covers(from, Rect(sx, sy, target.width, target.height))
    requires forall s: Pixel, d: Pixel :: (Opaque(from) ==> s.Opaque()) && d.Opaque() ==> f(s, d).Opaque()
    ensures Opaque(l.Composed(from, sx, sy, f, target).rows)
  {
    hide Combined, Opaque;
    if !target.Empty() {
      CombinedOpaque(from, sx, sy, f, l.rows, target);
    }
  }

  /** Such a call keeps a layer opaque. */
  lemma AfterOpaque(l: Layer, c: Call)
    requires l.Valid() && Opaque(l.rows) && !c.Copy? && !c.Transfer? && (c.Paint? || c.Set? ==> c.color.Opaque())
    requires c.Resize? ==> c.width <= l.width && c.height <= l.height
    ensures Opaque(l.After(c).rows)
  {
    hide Combined, Layer.Composed;
    match c {
      case Draw(_, x, y, img, argb) =>
        var t := l.Clipped(Rect(x, y, img.Length1, img.Length0));
        forall s: Pixel, d: Pixel | d.Opaque() ensures Composer(argb)(s, d).Opaque() {
          OverKeepsOpaque(d, s);
        }
        ComposedOpaque(l, Rows(img), t.x - x, t.y - y, Composer(argb), t);
      case Paint(_, x, y, img, color) =>
        var t := l.Clipped(Rect(x, y, img.Length1, img.Length0));
        ComposedOpaque(l, Rows(img), t.x - x, t.y - y, Stencil(Masked(), color), t);
      case Set(_, x, y, w, h, color) =>
        var t := l.Clipped(Rect(x, y, w, h));
        ComposedOpaque(l, l.rows, t.x, t.y, Fill(color), t);
      case _ =>
    }
  }

  lemma BlittedOpaque(l: Layer, from: Layer, c: Call)
    requires l.Valid() && from.Valid() && Opaque(l.rows) && Opaque(from.rows)
    requires c.Copy? || (c.Transfer? && c.op.KeepsOpaque())
    ensures Opaque(l.Blitted(from, c).rows)
  {
    hide Combined, Layer.Composed, TransferFunction.Apply, TransferFunction.KeepsOpaque;
    var r := Blits(from, c, l);
    if c.Transfer? {
      c.op.KeepsOpaqueIff();
      ComposedOpaque(l, from.rows, r.sx, r.sy, c.op.Apply, r.target);
    } else {
      ComposedOpaque(l, from.rows, r.sx, r.sy, TakeSource(), r.target);
    }
  }

  lemma OpaqueStep(ls: seq<Layer>, c: Call)
    requires AllValid(ls) && c.Legal(|ls|) && AllOpaque(ls) && KeepsOpaque(ls, c)
    ensures AllOpaque(After(ls, c)) && Faithful(ls, c)
  {
    hide Opaque, Layer.After, Layer.Blitted;
    if c.Copy? || c.Transfer? {
      BlittedOpaque(ls[c.on], ls[c.from], c);
    } else {
      AfterOpaque(ls[c.on], c);
    }
    OpaqueEverywhere(ls[c.Source()].rows);
  }

  lemma OpaqueEverywhere(rows: Raster)
    requires Opaque(rows)
    ensures forall rect :: OpaqueIn(rows, rect)
  {
  }

  lemma {:induction false} OpaqueUntil(ls: seq<Layer>, calls: seq<Call>, i: nat)
    requires AllValid(ls) && AllLegal(calls, |ls|) && AllOpaque(ls) && i <= |calls|
    requires AllKeepOpaque(Path(ls, calls), calls)
    ensures AllOpaque(Path(ls, calls)[i])
  {
    hide AllOpaque, KeepsOpaque, After, Faithful;
    if i > 0 {
      OpaqueUntil(ls, calls, i - 1);
      OpaqueStep(Path(ls, calls)[i - 1], calls[i - 1]);
    }
  }

  /** Runs that start opaque and keep everything opaque are faithful. */
  lemma OpaqueRun(ls: seq<Layer>, calls: seq<Call>)
    requires AllValid(ls) && AllLegal(calls, |ls|) && AllOpaque(ls) && AllKeepOpaque(Path(ls, calls), calls)
    ensures AllFaithful(Path(ls, calls), calls) && forall i :: 0 <= i <= |calls| ==> AllOpaque(Path(ls, calls)[i])
  {
    hide AllOpaque, KeepsOpaque, After, Faithful;
    forall i | 0 <= i <= |calls|
      ensures AllOpaque(Path(ls, calls)[i]) && (i < |calls| ==> Faithful(Path(ls, calls)[i], calls[i]))
    {
      OpaqueUntil(ls, calls, i);
      if i < |calls| {
        OpaqueStep(Path(ls, calls)[i], calls[i]);
      }
    }
  }
}
