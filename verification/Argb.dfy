/** The 32-bit pixels of common/src/surface.c as their four 8-bit components, the
    blending of two pixels, and the sixteen transfer functions. */
module Argb {

  datatype Pixel = Pixel(a: bv8, r: bv8, g: bv8, b: bv8) {
    predicate Opaque() { a == 0xFF }

    /** The pixel with its alpha channel ignored. */
    function Solid(): Pixel { this.(a := 0xFF) }
  }

  /** The rows of an image, and what composes two pixels. */
  type Raster = seq<seq<Pixel>>
  type Blend = (Pixel, Pixel) -> Pixel

  const CLEAR := Pixel(0, 0, 0, 0)

  /** guac_common_surface_blend_component */
  function Blended(dst: nat, src: nat, alpha: nat): (r: nat)
    requires alpha <= 0xFF
    ensures r <= 0xFF
  {
    var blended := src + dst * (0xFF - alpha);
    if blended > 0xFF then 0xFF else blended
  }

  /** The same on the components of pixels. */
  function BlendComponent(dst: bv8, src: bv8, alpha: bv8): bv8 {
    ByteAsInt(alpha, alpha);
    Blended(dst as int, src as int, alpha as int) as bv8
  }

  lemma ByteAsInt(x: bv8, y: bv8)
    ensures 0 <= x as int <= 0xFF
    ensures (x <= y <==> x as int <= y as int) && (x == y <==> x as int == y as int)
  {
  }

  /** guac_common_surface_argb_blend: the Porter-Duff "over" operator */
  function Over(dst: Pixel, src: Pixel): Pixel {
    if src.a == 0xFF || dst.a == 0 then src
    else if src.a == 0 then dst
    else
      Pixel(BlendComponent(dst.a, src.a, src.a), BlendComponent(dst.r, src.r, src.a),
            BlendComponent(dst.g, src.g, src.a), BlendComponent(dst.b, src.b, src.a))
  }

  /** Drawing anything over an opaque pixel leaves an opaque pixel. */
  lemma OverKeepsOpaque(dst: Pixel, src: Pixel)
    requires dst.Opaque()
    ensures Over(dst, src).Opaque()
  {
    if src.a != 0xFF && src.a != 0 {
      SaturatedAlpha(src.a);
    }
  }

  lemma SaturatedAlpha(alpha: bv8)
    requires alpha != 0xFF && alpha != 0
    ensures BlendComponent(0xFF, alpha, alpha) == 0xFF
  {
    ByteAsInt(alpha, 0xFF);
    ByteAsInt(alpha, 0);
    assert Blended(0xFF, alpha as int, alpha as int) == 0xFF;
  }

  /** Exactly the opaque source pixels replace whatever they are drawn over. */
  lemma OverReplacesIff(src: Pixel)
    ensures src.Opaque() <==> forall dst :: Over(dst, src) == src
  {
    if !src.Opaque() {
      var dst := Pixel(0xFF, 0xFF, 0xFF, 0xFF);
      OverKeepsOpaque(dst, src);
      assert Over(dst, src) != src;
    }
  }

  /** The component of the Porter-Duff operator, source plus destination scaled by what
      the source lets through, without rounding. */
  predicate Exactly(over: int, dst: int, src: int, alpha: int) {
    0xFF * over == 0xFF * src + dst * (0xFF - alpha)
  }

  lemma Scaled(dst: nat, through: nat)
    requires dst <= 0xFF && through <= 0xFF
    ensures dst * through == 0 <==> dst == 0 || through == 0
    ensures dst * through <= 0xFF * through
    ensures dst * through == 0xFF * through <==> dst == 0xFF || through == 0
  {
    NoProduct(dst, through);
    NoProduct(0xFF - dst, through);
    assert (0xFF - dst) * through == 0xFF * through - dst * through;
  }

  lemma NoProduct(x: nat, y: nat)
    ensures x * y >= 0 && (x * y == 0 <==> x == 0 || y == 0)
  {
  }

  /** The blend of premultiplied components lacks a division by 255. It is exact only
      where there is nothing to let through, or nothing is, or everything is full. */
  lemma BlendedExactIff(dst: nat, src: nat, alpha: nat)
    requires src <= alpha <= 0xFF && dst <= 0xFF
    ensures Exactly(Blended(dst, src, alpha), dst, src, alpha) <==>
      dst == 0 || alpha == 0xFF || (src == alpha && dst == 0xFF)
    ensures src <= Blended(dst, src, alpha) <= 0xFF
    ensures Blended(dst, src, alpha) < 0xFF ==> Blended(dst, src, alpha) - src == dst * (0xFF - alpha)
    ensures Blended(dst, src, alpha) == 0xFF <==> dst * (0xFF - alpha) >= 0xFF - src
  {
    Scaled(dst, 0xFF - alpha);
  }

  /** All components are blended alike, by the alpha channel of the source. */
  lemma OverAt(dst: Pixel, src: Pixel)
    ensures src.Opaque() || dst.a == 0 ==> Over(dst, src) == src
    ensures src.a == 0 && dst.a != 0 ==> Over(dst, src) == dst
    ensures !src.Opaque() && src.a != 0 && dst.a != 0 ==>
      && BlendsTo(dst.a, src.a, src.a, Over(dst, src).a)
      && BlendsTo(dst.r, src.r, src.a, Over(dst, src).r)
      && BlendsTo(dst.g, src.g, src.a, Over(dst, src).g)
      && BlendsTo(dst.b, src.b, src.a, Over(dst, src).b)
  {
    hide BlendsTo, BlendComponent;
    ComponentBlends(dst.a, src.a, src.a);
    ComponentBlends(dst.r, src.r, src.a);
    ComponentBlends(dst.g, src.g, src.a);
    ComponentBlends(dst.b, src.b, src.a);
  }

  /** The byte is the blend of the other two. */
  predicate BlendsTo(dst: bv8, src: bv8, alpha: bv8, over: bv8) {
    ByteAsInt(alpha, alpha);
    over == Blended(dst as int, src as int, alpha as int) as bv8
  }

  lemma ComponentBlends(dst: bv8, src: bv8, alpha: bv8)
    ensures BlendsTo(dst, src, alpha, BlendComponent(dst, src, alpha))
  {
    hide Blended;
  }

  /** The eight positions of a bit. */
  predicate Position(m: bv8) {
    m == 0x01 || m == 0x02 || m == 0x04 || m == 0x08 || m == 0x10 || m == 0x20 || m == 0x40 || m == 0x80
  }

  predicate Bit(x: bv8, m: bv8) {
    x & m != 0
  }

  lemma BitConstant(m: bv8)
    requires Position(m)
    ensures Bit(0xFF, m) && !Bit(0, m)
  {
  }

  lemma BitNot(x: bv8, m: bv8)
    requires Position(m)
    ensures Bit(!x, m) <==> !Bit(x, m)
  {
  }

  lemma BitTwo(s: bv8, d: bv8, m: bv8)
    requires Position(m)
    ensures Bit(d & s, m) <==> Bit(d, m) && Bit(s, m)
    ensures Bit(d | s, m) <==> Bit(d, m) || Bit(s, m)
    ensures Bit(d ^ s, m) <==> Bit(d, m) != Bit(s, m)
  {
  }

  datatype TransferFunction =
    | Black | White | Src | Dest | NSrc | NDest | And | Nand | Or | Nor | Xor | Xnor
    | NSrcAnd | NSrcNand | NSrcOr | NSrcNor
  {
    function Byte(s: bv8, d: bv8): bv8 {
      match this
      case Black => 0
      case White => 0xFF
      case Src => s
      case Dest => d
      case NSrc => !s
      case NDest => !d
      case And => d & s
      case Nand => !(d & s)
      case Or => d | s
      case Nor => !(d | s)
      case Xor => d ^ s
      case Xnor => !(d ^ s)
      case NSrcAnd => d & !s
      case NSrcNand => !(d & !s)
      case NSrcOr => d | !s
      case NSrcNor => !(d | !s)
    }

    /** __guac_common_surface_transfer_int: BLACK alone is not the bitwise
        function of its name, for it writes an opaque black. */
    function Apply(s: Pixel, d: Pixel): Pixel {
      if Black? then Pixel(0xFF, 0, 0, 0)
      else Pixel(Byte(s.a, d.a), Byte(s.r, d.r), Byte(s.g, d.g), Byte(s.b, d.b))
    }

    /** The functions that keep opaque pixels opaque. */
    predicate KeepsOpaque() {
      Black? || White? || Src? || Dest? || And? || Or? || Xnor? || NSrcNand? || NSrcOr?
    }

    /** The number of the function in the protocol. Its four bits are the results for the
        bits 00, 01, 10 and 11 of source and destination. */
    function Code(): bv8 {
      match this
      case Black => 0x0
      case And => 0x1
      case NSrcNor => 0x2
      case Src => 0x3
      case NSrcAnd => 0x4
      case Dest => 0x5
      case Xor => 0x6
      case Or => 0x7
      case Nor => 0x8
      case Xnor => 0x9
      case NDest => 0xA
      case NSrcNand => 0xB
      case NSrc => 0xC
      case NSrcOr => 0xD
      case Nand => 0xE
      case White => 0xF
    }

    /** The result that the code names for two bits. */
    predicate Result(s: bool, d: bool) {
      Bit(Code(), if s then (if d then 0x1 else 0x2) else if d then 0x4 else 0x8)
    }

    lemma ResultIs(s: bool, d: bool)
      ensures Result(s, d) <==>
        match this
        case Black => false
        case White => true
        case Src => s
        case Dest => d
        case NSrc => !s
        case NDest => !d
        case And => s && d
        case Nand => !(s && d)
        case Or => s || d
        case Nor => !(s || d)
        case Xor => s != d
        case Xnor => s == d
        case NSrcAnd => !s && d
        case NSrcNand => !(!s && d)
        case NSrcOr => !s || d
        case NSrcNor => !(!s || d)
    {
    }

    lemma ConstantBits(s: bv8, d: bv8, m: bv8)
      requires Position(m) && (White? || Src? || Dest? || NSrc? || NDest?)
      ensures Bit(Byte(s, d), m) <==> Result(Bit(s, m), Bit(d, m))
    {
      hide Bit, Position, Result;
      ResultIs(Bit(s, m), Bit(d, m));
      match this
      case White => BitConstant(m);
      case NSrc => BitNot(s, m);
      case NDest => BitNot(d, m);
      case _ =>
    }

    lemma PairBits(s: bv8, d: bv8, m: bv8)
      requires Position(m) && (And? || Or? || Xor?)
      ensures Bit(Byte(s, d), m) <==> Result(Bit(s, m), Bit(d, m))
    {
      hide Bit, Position, Result;
      ResultIs(Bit(s, m), Bit(d, m));
      BitTwo(s, d, m);
    }

    lemma NegatedBits(s: bv8, d: bv8, m: bv8)
      requires Position(m) && (Nand? || Nor? || Xnor?)
      ensures Bit(Byte(s, d), m) <==> Result(Bit(s, m), Bit(d, m))
    {
      hide Bit, Position, Result;
      var f := if Nand? then And else if Nor? then Or else Xor;
      assert Byte(s, d) == !f.Byte(s, d);
      BitNot(f.Byte(s, d), m);
      f.PairBits(s, d, m);
      ResultIs(Bit(s, m), Bit(d, m));
      f.ResultIs(Bit(s, m), Bit(d, m));
    }

    /** The functions that invert the source are others applied to the inverted source. */
    lemma InvertedBits(s: bv8, d: bv8, m: bv8)
      requires Position(m) && (NSrcAnd? || NSrcNand? || NSrcOr? || NSrcNor?)
      ensures Bit(Byte(s, d), m) <==> Result(Bit(s, m), Bit(d, m))
    {
      hide Bit, Position, Result;
      var f := if NSrcAnd? then And else if NSrcNand? then Nand else if NSrcOr? then Or else Nor;
      assert Byte(s, d) == f.Byte(!s, d);
      BitNot(s, m);
      if f.And? || f.Or? {
        f.PairBits(!s, d, m);
      } else {
        f.NegatedBits(!s, d, m);
      }
      ResultIs(Bit(s, m), Bit(d, m));
      f.ResultIs(!Bit(s, m), Bit(d, m));
    }

    lemma ByteBits(s: bv8, d: bv8, m: bv8)
      requires Position(m) && !Black?
      ensures Bit(Byte(s, d), m) <==> Result(Bit(s, m), Bit(d, m))
    {
      hide Bit, Position, Result, Byte;
      if And? || Or? || Xor? {
        PairBits(s, d, m);
      } else if Nand? || Nor? || Xnor? {
        NegatedBits(s, d, m);
      } else if NSrcAnd? || NSrcNand? || NSrcOr? || NSrcNor? {
        InvertedBits(s, d, m);
      } else {
        ConstantBits(s, d, m);
      }
    }

    /** Every function works bit by bit as its number says; BLACK alone does not, for
        it writes an opaque black where its number asks for a transparent one. */
    lemma ApplyBits(s: Pixel, d: Pixel, m: bv8)
      requires Position(m)
      ensures var p := Apply(s, d);
        && (Bit(p.a, m) <==> Black? || Result(Bit(s.a, m), Bit(d.a, m)))
        && (Bit(p.r, m) <==> Result(Bit(s.r, m), Bit(d.r, m)))
        && (Bit(p.g, m) <==> Result(Bit(s.g, m), Bit(d.g, m)))
        && (Bit(p.b, m) <==> Result(Bit(s.b, m), Bit(d.b, m)))
    {
      if Black? {
        assert forall x: bv8 :: Bit(Code(), x) == false;
      } else {
        hide Bit, Result, Position;
        ByteBits(s.a, d.a, m);
        ByteBits(s.r, d.r, m);
        ByteBits(s.g, d.g, m);
        ByteBits(s.b, d.b, m);
      }
    }

    lemma KeepsOpaqueIff()
      ensures KeepsOpaque() <==> forall s: Pixel, d: Pixel :: s.Opaque() && d.Opaque() ==> Apply(s, d).Opaque()
    {
      if !KeepsOpaque() {
        var p := Pixel(0xFF, 0, 0, 0);
        assert p.Opaque() && !Apply(p, p).Opaque();
      }
    }

    /** The functions that may be applied twice with the effect of once. */
    predicate Idempotent() {
      Black? || White? || Src? || Dest? || NSrc? || And? || Or? || NSrcAnd? || NSrcOr?
    }

    lemma IdempotentIff()
      ensures Idempotent() <==> forall s: Pixel, d: Pixel :: Apply(s, Apply(s, d)) == Apply(s, d)
    {
      if Idempotent() {
        forall s: Pixel, d: Pixel ensures Apply(s, Apply(s, d)) == Apply(s, d) {
          if !Black? {
            ByteTwice(s.a, d.a);
            ByteTwice(s.r, d.r);
            ByteTwice(s.g, d.g);
            ByteTwice(s.b, d.b);
          }
        }
      } else {
        var s, d := TwiceDiffers();
      }
    }

    lemma ByteTwice(s: bv8, d: bv8)
      requires Idempotent() && !Black?
      ensures Byte(s, Byte(s, d)) == Byte(s, d)
    {
      match this
      case And => assert (d & s) & s == d & s;
      case Or => assert (d | s) | s == d | s;
      case NSrcAnd => assert (d & !s) & !s == d & !s;
      case NSrcOr => assert (d | !s) | !s == d | !s;
      case _ =>
    }

    /** Opaque pixels that a function which is not idempotent changes again. */
    function Source(): Pixel {
      if Nand? || Xor? || NSrcNor? then Pixel(0xFF, 0xFF, 0, 0) else Pixel(0xFF, 0, 0, 0)
    }

    lemma OpaqueTwiceDiffers()
      requires !Idempotent()
      ensures var s, d := Source(), Pixel(0xFF, 0, 0, 0); Apply(s, Apply(s, d)) != Apply(s, d) && Apply(s, d) != d
    {
      var s, d := Source(), Pixel(0xFF, 0, 0, 0);
      assert Byte(s.r, Byte(s.r, d.r)) != Byte(s.r, d.r);
    }

    lemma TwiceDiffers() returns (s: Pixel, d: Pixel)
      requires !Idempotent()
      ensures Apply(s, Apply(s, d)) != Apply(s, d)
    {
      d := CLEAR;
      s := if Nand? || Xor? || NSrcNor? then Pixel(0xFF, 0, 0, 0) else CLEAR;
      assert Byte(s.a, Byte(s.a, d.a)) != Byte(s.a, d.a);
    }
  }
}
