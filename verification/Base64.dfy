/** Base64 (section 4 of RFC 4648) as written by libguac/src/socket.c and read by
    libguac/src/protocol.c. */
module Base64 {
  import opened Utf8

  /** __guac_socket_BASE64_CHARACTERS */
  function Char(v: bv8): (c: byte)
    requires v < 64
    ensures 0 < c < 0x80 && c != PAD
  {
    if v < 26 then 0x41 + v
    else if v < 52 then 0x61 + (v - 26)
    else if v < 62 then 0x30 + (v - 52)
    else if v == 62 then 0x2B
    else 0x2F
  }

  /** __guac_base64_value */
  function Value(c: byte): bv8 {
    if 0x41 <= c <= 0x5A then c - 0x41
    else if 0x61 <= c <= 0x7A then c - 0x61 + 26
    else if 0x30 <= c <= 0x39 then c - 0x30 + 52
    else if c == 0x2B then 62
    else if c == 0x2F then 63
    else 0
  }

  const PAD: byte := 0x3D

  /** The alphabet of table 1 of RFC 4648: A to Z, a to z, 0 to 9, plus and slash. */
  lemma Alphabet(v: bv8)
    requires v < 63
    ensures Char(0) == 0x41 && Char(26) == 0x61 && Char(52) == 0x30 && Char(62) == 0x2B && Char(63) == 0x2F
    ensures v != 25 && v != 51 && v != 61 && v != 62 ==> Char(v + 1) == Char(v) + 1
  {
  }

  lemma ValueOfChar(v: bv8)
    requires v < 64
    ensures Value(Char(v)) == v
  {
  }

  /** Bytes outside the alphabet read as zero bits. */
  lemma ValueIs(c: byte)
    ensures Value(c) < 64
    ensures if exists v: bv8 :: v < 64 && Char(v) == c then Char(Value(c)) == c else Value(c) == 0
  {
    if Char(Value(c)) == c {
      assert Value(c) < 64;
    }
  }

  /** A byte of the triplet, or the -1 that stands for a missing one. */
  datatype Input = Byte(value: byte) | Missing

  // The four 6-bit values of three bytes.

  function Sextet0(a: byte): (x: bv8) ensures x < 64 { (a & 0xFC) >> 2 }

  function Sextet1(a: byte, b: byte): (x: bv8) ensures x < 64 { ((a & 0x03) << 4) | ((b & 0xF0) >> 4) }

  function Sextet2(b: byte, c: byte): (x: bv8) ensures x < 64 { ((b & 0x0F) << 2) | ((c & 0xC0) >> 6) }

  function Sextet3(c: byte): (x: bv8) ensures x < 64 { c & 0x3F }

  /** They are the 24 bits of the three bytes, in order. */
  lemma SextetsInOrder(a: byte, b: byte, c: byte)
    ensures
      ((Sextet0(a) as bv24) << 18) | ((Sextet1(a, b) as bv24) << 12) | ((Sextet2(b, c) as bv24) << 6) |
        (Sextet3(c) as bv24)
      == ((a as bv24) << 16) | ((b as bv24) << 8) | (c as bv24)
  {
  }

  /** __guac_socket_write_base64_triplet */
  function Triplet(a: byte, b: Input, c: Input): (output: seq<byte>)
    ensures |output| == 4
  {
    var c0 := Char(Sextet0(a));
    match b
    case Missing => [c0, Char((a & 0x03) << 4), PAD, PAD]
    case Byte(b) =>
      var c1 := Char(Sextet1(a, b));
      match c
      case Missing => [c0, c1, Char((b & 0x0F) << 2), PAD]
      case Byte(c) => [c0, c1, Char(Sextet2(b, c)), Char(Sextet3(c))]
  }

  /** A missing byte contributes no bits. */
  lemma TripletPadded(a: byte, b: byte)
    ensures Triplet(a, Missing, Missing) == [Char(Sextet0(a)), Char(Sextet1(a, 0)), PAD, PAD]
    ensures Triplet(a, Byte(b), Missing) == [Char(Sextet0(a)), Char(Sextet1(a, b)), Char(Sextet2(b, 0)), PAD]
  {
    hide Char;
    assert (a & 0x03) << 4 == Sextet1(a, 0) && (b & 0x0F) << 2 == Sextet2(b, 0);
  }

  /** The encoding of a whole byte string. */
  function Encode(data: seq<byte>): seq<byte> {
    if data == [] then []
    else if |data| == 1 then Triplet(data[0], Missing, Missing)
    else if |data| == 2 then Triplet(data[0], Byte(data[1]), Missing)
    else Triplet(data[0], Byte(data[1]), Byte(data[2])) + Encode(data[3..])
  }

  /** Section 10 of RFC 4648: the encodings of the beginnings of "foobar". */
  lemma TestVectors()
    ensures var f, o, b, a, r: byte := 0x66, 0x6F, 0x62, 0x61, 0x72;
      && Encode([]) == []
      && Encode([f]) == [0x5A, 0x67, PAD, PAD]
      && Encode([f, o]) == [0x5A, 0x6D, 0x38, PAD]
      && Encode([f, o, o]) == [0x5A, 0x6D, 0x39, 0x76]
      && Encode([f, o, o, b]) == [0x5A, 0x6D, 0x39, 0x76, 0x59, 0x67, PAD, PAD]
      && Encode([f, o, o, b, a]) == [0x5A, 0x6D, 0x39, 0x76, 0x59, 0x6D, 0x45, PAD]
      && Encode([f, o, o, b, a, r]) == [0x5A, 0x6D, 0x39, 0x76, 0x59, 0x6D, 0x46, 0x79]
  {
    hide Char, Sextet0, Sextet1, Sextet2, Sextet3, Triplet;
    var f, o, b, a, r: byte := 0x66, 0x6F, 0x62, 0x61, 0x72;
    VectorTriplets();
    assert [f, o, o][3..] == [];
    assert [f, o, o, b][3..] == [b] && [f, o, o, b, a][3..] == [b, a] && [f, o, o, b, a, r][3..] == [b, a, r];
  }

  lemma VectorTriplets()
    ensures Triplet(0x66, Missing, Missing) == [0x5A, 0x67, PAD, PAD]
    ensures Triplet(0x66, Byte(0x6F), Missing) == [0x5A, 0x6D, 0x38, PAD]
    ensures Triplet(0x66, Byte(0x6F), Byte(0x6F)) == [0x5A, 0x6D, 0x39, 0x76]
    ensures Triplet(0x62, Missing, Missing) == [0x59, 0x67, PAD, PAD]
    ensures Triplet(0x62, Byte(0x61), Missing) == [0x59, 0x6D, 0x45, PAD]
    ensures Triplet(0x62, Byte(0x61), Byte(0x72)) == [0x59, 0x6D, 0x46, 0x79]
  {
  }

  lemma {:induction false} EncodeLength(data: seq<byte>)
    ensures |Encode(data)| == (|data| + 2) / 3 * 4
  {
    if |data| >= 3 {
      EncodeLength(data[3..]);
    }
  }

  /** Encoded text is ASCII without NUL, so its characters are its bytes. */
  lemma {:induction false} EncodeAscii(data: seq<byte>)
    ensures forall k :: 0 <= k < |Encode(data)| ==> 0 < Encode(data)[k] < 0x80
  {
    hide Char;
    if data != [] {
      var b := if |data| == 1 then Missing else Byte(data[1]);
      var c := if |data| <= 2 then Missing else Byte(data[2]);
      TripletAscii(data[0], b, c);
      if |data| >= 3 {
        EncodeAscii(data[3..]);
      }
    }
  }

  lemma TripletAscii(a: byte, b: Input, c: Input)
    ensures forall k :: 0 <= k < 4 ==> 0 < Triplet(a, b, c)[k] < 0x80
  {
    hide Char;
  }

  // ----- decoding -----

  /** The latest whole byte of the bits read, of which left are not yet written. */
  function Top(value: bv32, left: nat): byte
    requires left == 0 || left == 2 || left == 4
  {
    ((if left == 0 then value else if left == 2 then value >> 2 else value >> 4) & 0xFF) as byte
  }

  /** guac_protocol_decode_base64 on the rest of a string, with the bits read so
      far in value and the number of them not yet written. */
  function Decode(s: seq<byte>, value: bv32, bits: nat): seq<byte>
    requires BitsLeft(bits)
  {
    if s == [] || s[0] == 0 || s[0] == PAD then []
    else
      var v := Shifted(value, Value(s[0]));
      if bits == 0 then Decode(s[1..], v, 6)
      else [Top(v, bits - 2)] + Decode(s[1..], v, bits - 2)
  }

  function Shifted(value: bv32, x: bv8): bv32 {
    (value << 6) | (x as bv32)
  }

  /** The bits of three bytes come back from the four values they were split into,
      whatever was read before. */
  lemma BitsOfTriplet(value: bv32, a: byte, b: byte, c: byte)
    ensures
      var v2 := Shifted(Shifted(value, Sextet0(a)), Sextet1(a, b));
      var v3 := Shifted(v2, Sextet2(b, c));
      Top(v2, 4) == a && Top(v3, 2) == b && Top(Shifted(v3, Sextet3(c)), 0) == c
  {
  }

  lemma DecodeChar(x: bv8, rest: seq<byte>, value: bv32, bits: nat)
    requires x < 64 && BitsLeft(bits)
    ensures Decode([Char(x)] + rest, value, bits) ==
      if bits == 0 then Decode(rest, Shifted(value, x), 6)
      else [Top(Shifted(value, x), bits - 2)] + Decode(rest, Shifted(value, x), bits - 2)
  {
    hide Char, Top;
    ValueOfChar(x);
    assert ([Char(x)] + rest)[1..] == rest;
  }

  lemma DecodePad(rest: seq<byte>, value: bv32, bits: nat)
    requires BitsLeft(bits)
    ensures Decode([PAD] + rest, value, bits) == []
  {
  }

  /** A whole triplet is read back, and so are padded ones. */
  lemma DecodeTriplet(a: byte, b: byte, c: byte, rest: seq<byte>, value: bv32) returns (next: bv32)
    ensures Decode(Triplet(a, Byte(b), Byte(c)) + rest, value, 0) == [a, b, c] + Decode(rest, next, 0)
  {
    hide Char, Top, Decode, Shifted, Sextet0, Sextet1, Sextet2, Sextet3;
    var x0, x1, x2, x3 := Sextet0(a), Sextet1(a, b), Sextet2(b, c), Sextet3(c);
    var v2 := Shifted(Shifted(value, x0), x1);
    var v3 := Shifted(v2, x2);
    next := Shifted(v3, x3);
    var r3 := [Char(x3)] + rest;
    var r2 := [Char(x2)] + r3;
    var r1 := [Char(x1)] + r2;
    assert Triplet(a, Byte(b), Byte(c)) + rest == [Char(x0)] + r1;
    DecodeChar(x0, r1, value, 0);
    DecodeChar(x1, r2, Shifted(value, x0), 6);
    DecodeChar(x2, r3, v2, 4);
    DecodeChar(x3, rest, v3, 2);
    BitsOfTriplet(value, a, b, c);
  }

  lemma DecodePair(a: byte, b: byte, rest: seq<byte>, value: bv32)
    ensures Decode(Triplet(a, Byte(b), Missing) + rest, value, 0) == [a, b]
  {
    hide Char, Top, Decode, Shifted, Sextet0, Sextet1, Sextet2, Triplet;
    var x0, x1, x2 := Sextet0(a), Sextet1(a, b), Sextet2(b, 0);
    var v2 := Shifted(Shifted(value, x0), x1);
    var r3 := [PAD] + rest;
    var r2 := [Char(x2)] + r3;
    var r1 := [Char(x1)] + r2;
    TripletPadded(a, b);
    assert Triplet(a, Byte(b), Missing) + rest == [Char(x0)] + r1;
    DecodeChar(x0, r1, value, 0);
    DecodeChar(x1, r2, Shifted(value, x0), 6);
    DecodeChar(x2, r3, v2, 4);
    DecodePad(rest, Shifted(v2, x2), 2);
    BitsOfTriplet(value, a, b, 0);
  }

  lemma DecodeSingle(a: byte, rest: seq<byte>, value: bv32)
    ensures Decode(Triplet(a, Missing, Missing) + rest, value, 0) == [a]
  {
    hide Char, Top, Decode, Shifted, Sextet0, Sextet1, Triplet;
    var x0, x1 := Sextet0(a), Sextet1(a, 0);
    var r2 := [PAD] + ([PAD] + rest);
    var r1 := [Char(x1)] + r2;
    TripletPadded(a, 0);
    assert Triplet(a, Missing, Missing) + rest == [Char(x0)] + r1;
    DecodeChar(x0, r1, value, 0);
    DecodeChar(x1, r2, Shifted(value, x0), 6);
    DecodePad([PAD] + rest, Shifted(Shifted(value, x0), x1), 4);
    BitsOfTriplet(value, a, 0, 0);
  }

  /** Decoding undoes encoding for every byte string, when a NUL or nothing follows. */
  lemma {:induction false} DecodeUndoesEncode(data: seq<byte>, value: bv32, rest: seq<byte>)
    requires rest == [] || rest[0] == 0
    ensures Decode(Encode(data) + rest, value, 0) == data
  {
    hide Char, Value, Top, Triplet;
    if data == [] {
      assert Encode(data) + rest == rest;
    } else if |data| == 1 {
      DecodeSingle(data[0], rest, value);
    } else if |data| == 2 {
      DecodePair(data[0], data[1], rest, value);
    } else {
      var next := DecodeTriplet(data[0], data[1], data[2], Encode(data[3..]) + rest, value);
      DecodeUndoesEncode(data[3..], next, rest);
      assert Encode(data) + rest == Triplet(data[0], Byte(data[1]), Byte(data[2])) + (Encode(data[3..]) + rest);
    }
  }

  /** guac_protocol_decode_base64 on the string at an offset of a buffer: the bytes
      overwrite the string from its start. */
  method DecodeInPlace(buf: array<byte>, start: int) returns (length: int)
    requires 0 <= start < buf.Length && 0 in buf[start..]
    modifies buf
    ensures 0 <= length <= buf.Length - start
    ensures buf[start..start + length] == Decode(old(buf[start..]), 0, 0)
    ensures buf[..start] == old(buf[..start]) && buf[start + length..] == old(buf[start + length..])
  {
    hide Value, Top, Shifted, Decode, Output, Overwritten;
    ghost var was: seq<byte>, out: seq<byte>, before: seq<byte> := buf[start..], [], buf[..];
    ghost var nul :| 0 <= nul < |was| && was[nul] == 0;
    ghost var all := Decode(was, 0, 0);
    DecodeStart(was);
    NothingWritten(before, start);
    length := 0;
    var input, bits := 0, 0;
    var value: bv32 := 0;
    while buf[start + input] != 0 && buf[start + input] != PAD
      invariant 0 <= length <= input <= nul && BitsLeft(bits) && |out| == length
      invariant buf[..] == Overwritten(before, start, out) && buf[start + input] == was[input]
      invariant Output(was, input, value, bits, out) == all
      decreases nul - input
    {
      var current := buf[start + input];
      DecodeNext(was, input, value, bits, out);
      value := Shifted(value, Value(current));
      bits := bits + 6;
      input := input + 1;
      if bits >= 8 {
        var latest := Top(value, bits % 8);
        Emit(before, buf, start, out, length, latest);
        bits := bits - 8;
        length := length + 1;
        out := out + [latest];
      }
      NotYet(before, start, out, input);
    }
    DecodeEnd(was, input, value, bits, out);
    OverwrittenParts(before, start, out);
  }

  /** The bytes at the offset replaced by others. */
  ghost function Overwritten(before: seq<byte>, start: nat, out: seq<byte>): (now: seq<byte>)
    requires start + |out| <= |before|
    ensures |now| == |before|
  {
    before[..start] + out + before[start + |out|..]
  }

  lemma NothingWritten(before: seq<byte>, start: nat)
    requires start <= |before|
    ensures Overwritten(before, start, []) == before
  {
  }

  lemma NotYet(before: seq<byte>, start: nat, out: seq<byte>, k: nat)
    requires |out| <= k && start + k < |before|
    ensures Overwritten(before, start, out)[start + k] == before[start..][k]
  {
  }

  lemma OverwrittenParts(before: seq<byte>, start: nat, out: seq<byte>)
    requires start + |out| <= |before|
    ensures var now := Overwritten(before, start, out);
      && now[..start] == before[..start] && now[start..start + |out|] == out
      && now[start + |out|..] == before[start + |out|..]
  {
  }

  /** Stores the next byte of the output. */
  method Emit(ghost before: seq<byte>, buf: array<byte>, start: nat, ghost out: seq<byte>, length: nat, latest: byte)
    requires length == |out| && start + length < buf.Length == |before| && buf[..] == Overwritten(before, start, out)
    modifies buf
    ensures buf[..] == Overwritten(before, start, out + [latest])
  {
    buf[start + length] := latest;
  }

  predicate BitsLeft(bits: int) {
    bits == 0 || bits == 2 || bits == 4 || bits == 6
  }

  /** The output once the rest of the string is decoded. */
  ghost function Output(s: seq<byte>, input: nat, value: bv32, bits: nat, out: seq<byte>): seq<byte>
    requires input <= |s| && BitsLeft(bits)
  {
    out + Decode(s[input..], value, bits)
  }

  lemma DecodeStart(s: seq<byte>)
    ensures Output(s, 0, 0, 0, []) == Decode(s, 0, 0)
  {
    assert s[0..] == s;
  }

  lemma DecodeNext(s: seq<byte>, input: nat, value: bv32, bits: nat, out: seq<byte>)
    requires input < |s| && s[input] != 0 && s[input] != PAD && BitsLeft(bits)
    ensures var v := Shifted(value, Value(s[input]));
      Output(s, input, value, bits, out) ==
        if bits == 0 then Output(s, input + 1, v, 6, out)
        else Output(s, input + 1, v, bits - 2, out + [Top(v, bits - 2)])
  {
    hide Shifted, Value, Top;
    var v := Shifted(value, Value(s[input]));
    assert s[input..][1..] == s[input + 1..];
    if bits != 0 {
      assert out + ([Top(v, bits - 2)] + Decode(s[input + 1..], v, bits - 2))
          == (out + [Top(v, bits - 2)]) + Decode(s[input + 1..], v, bits - 2);
    }
  }

  lemma DecodeEnd(s: seq<byte>, input: nat, value: bv32, bits: nat, out: seq<byte>)
    requires input < |s| && (s[input] == 0 || s[input] == PAD) && BitsLeft(bits)
    ensures Output(s, input, value, bits, out) == out
  {
  }
}
