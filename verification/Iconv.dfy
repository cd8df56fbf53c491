/** Conversion of character encodings: common/src/iconv.c. */
module Iconv {
  import opened Utf8

  datatype Encoding = Utf8Text | Utf16 | Cp1252 | Iso8859

  /** __GUAC_RDP_CP1252_CODEPOINT: the values of the bytes from 0x80 on. */
  function Codepoint(i: nat): bv32
    requires i < 32
  {
    if i == 0 then 0x20AC else if i == 1 then 0xFFFD else if i == 2 then 0x201A else if i == 3 then 0x0192 else
    if i == 4 then 0x201E else if i == 5 then 0x2026 else if i == 6 then 0x2020 else if i == 7 then 0x2021 else
    if i == 8 then 0x02C6 else if i == 9 then 0x2030 else if i == 10 then 0x0160 else if i == 11 then 0x2039 else
    if i == 12 then 0x0152 else if i == 13 then 0xFFFD else if i == 14 then 0x017D else if i == 15 then 0xFFFD else
    if i == 16 then 0xFFFD else if i == 17 then 0x2018 else if i == 18 then 0x2019 else if i == 19 then 0x201C else
    if i == 20 then 0x201D else if i == 21 then 0x2022 else if i == 22 then 0x2013 else if i == 23 then 0x2014 else
    if i == 24 then 0x02DC else if i == 25 then 0x2122 else if i == 26 then 0x0161 else if i == 27 then 0x203A else
    if i == 28 then 0x0153 else if i == 29 then 0xFFFD else if i == 30 then 0x017E else 0x0178
  }

  /** The character of a byte from 0x80 to 0x9F. */
  predicate Stands(b: int, value: bv32) {
    0x80 <= b <= 0x9F && Codepoint(b - 0x80) == value
  }

  /** The table by kinds of characters: letters, quotation marks, dashes and dots, other
      signs; the remaining bytes have none. */
  lemma TableIs()
    ensures Stands(0x8A, 0x0160) && Stands(0x9A, 0x0161) && Stands(0x8E, 0x017D) && Stands(0x9E, 0x017E)
    ensures Stands(0x8C, 0x0152) && Stands(0x9C, 0x0153) && Stands(0x9F, 0x0178) && Stands(0x83, 0x0192)
    ensures Stands(0x91, 0x2018) && Stands(0x92, 0x2019) && Stands(0x82, 0x201A)
    ensures Stands(0x93, 0x201C) && Stands(0x94, 0x201D) && Stands(0x84, 0x201E)
    ensures Stands(0x8B, 0x2039) && Stands(0x9B, 0x203A)
    ensures Stands(0x96, 0x2013) && Stands(0x97, 0x2014) && Stands(0x95, 0x2022) && Stands(0x85, 0x2026)
    ensures Stands(0x88, 0x02C6) && Stands(0x98, 0x02DC) && Stands(0x86, 0x2020) && Stands(0x87, 0x2021)
    ensures Stands(0x80, 0x20AC) && Stands(0x89, 0x2030) && Stands(0x99, 0x2122)
    ensures Stands(0x81, 0xFFFD) && Stands(0x8D, 0xFFFD) && Stands(0x8F, 0xFFFD)
    ensures Stands(0x90, 0xFFFD) && Stands(0x9D, 0xFFFD)
  {
  }

  /** The euro sign in each encoding that holds it, and what the others make of it. */
  lemma EuroSign()
    ensures WriteOne(Utf8Text, 0x20AC, 3) == [0xE2, 0x82, 0xAC] && WriteOne(Utf16, 0x20AC, 2) == [0xAC, 0x20]
    ensures WriteOne(Cp1252, 0x20AC, 1) == [0x80] && WriteOne(Iso8859, 0x20AC, 1) == [0x3F]
  {
  }

  const QUESTION: byte := 0x3F

  /** The first place of the value in the table, or its length. */
  function Place(value: bv32, from: nat): (i: nat)
    requires from <= 32
    ensures from <= i <= 32 && (i < 32 ==> Codepoint(i) == value) && forall k :: from <= k < i ==> Codepoint(k) != value
    decreases 32 - from
  {
    if from == 32 || Codepoint(from) == value then from else Place(value, from + 1)
  }

  /** The byte for a place of the table, and the place of a byte. */
  function ByteAt(i: nat): byte
    requires i < 32
  {
    0x80 + i as byte
  }

  function PlaceOf(b: byte): (i: nat)
    requires 0x80 <= b <= 0x9F
    ensures i < 32
  {
    (b - 0x80) as int
  }

  lemma PlaceOfByteAt(i: nat)
    requires i < 32
    ensures 0x80 <= ByteAt(i) <= 0x9F && PlaceOf(ByteAt(i)) == i
  {
  }

  lemma ByteAtPlaceOf(b: byte)
    requires 0x80 <= b <= 0x9F
    ensures ByteAt(PlaceOf(b)) == b
  {
  }

  /** The bytes of a 16-bit unit, the lower one first. */
  function Unit(low: byte, high: byte): bv32 {
    ((high as bv32) << 8) | (low as bv32)
  }

  function Low(value: bv32): byte { (value & 0xFF) as byte }

  function High(value: bv32): byte { ((value >> 8) & 0xFF) as byte }

  /** The lower byte comes first. */
  lemma UnitIs(low: byte, high: byte)
    ensures Unit(low, high) == (low as bv32) + 256 * (high as bv32)
  {
  }

  lemma UnitOfBytes(value: bv32)
    requires value <= 0xFFFF
    ensures Unit(Low(value), High(value)) == value
  {
  }

  lemma BytesOfUnit(low: byte, high: byte)
    ensures Low(Unit(low, high)) == low && High(Unit(low, high)) == high && Unit(low, high) <= 0xFFFF
  {
  }

  /** GUAC_READ_UTF8, GUAC_READ_UTF16, GUAC_READ_CP1252 and GUAC_READ_ISO8859_1: the
      value, and the bytes taken. */
  function ReadOne(e: Encoding, s: seq<byte>): (r: (bv32, nat))
    requires s != []
    ensures r.1 <= |s| && (r.1 == 0 ==> r.0 == 0)
  {
    match e
    case Utf8Text => Decoded(s)
    case Utf16 => if |s| < 2 then (0, 0) else (Unit(s[0], s[1]), 2)
    case Cp1252 => (if 0x80 <= s[0] <= 0x9F then Codepoint(PlaceOf(s[0])) else s[0] as bv32, 1)
    case Iso8859 => (s[0] as bv32, 1)
  }

  /** The int is above the range of a byte. */
  predicate Above(value: bv32) {
    value > 0xFF && !Negative(value)
  }

  /** GUAC_WRITE_UTF8, GUAC_WRITE_UTF16, GUAC_WRITE_CP1252 and GUAC_WRITE_ISO8859_1. */
  function WriteOne(e: Encoding, value: bv32, room: nat): (s: seq<byte>)
    requires room > 0
    ensures |s| <= room && |s| <= 4
  {
    match e
    case Utf8Text => if |Encoded(value)| <= room then Encoded(value) else []
    case Utf16 => if room < 2 then [] else [Low(value), High(value)]
    case Cp1252 =>
      if 0x80 <= value <= 0x9F || Above(value) then
        var i := Place(value, 0);
        [if i < 32 then ByteAt(i) else QUESTION]
      else [Low(value)]
    case Iso8859 => [if Above(value) then QUESTION else Low(value)]
  }

  /** What guac_iconv writes, and whether it came to the terminator. */
  function Convert(from: Encoding, to: Encoding, s: seq<byte>, room: nat): (seq<byte>, bool)
    decreases |s|
  {
    if s == [] || room == 0 then ([], false)
    else
      var (value, n) := ReadOne(from, s);
      var w := WriteOne(to, value, room);
      if value == 0 then (w, true)
      else
        var (rest, ended) := Convert(from, to, s[n..], room - |w|);
        (w + rest, ended)
  }

  lemma ConvertStep(from: Encoding, to: Encoding, s: seq<byte>, room: nat, value: bv32, n: nat, w: seq<byte>)
    requires s != [] && room > 0 && (value, n) == ReadOne(from, s) && w == WriteOne(to, value, room)
    ensures Convert(from, to, s, room) ==
      if value == 0 then (w, true)
      else
        (w + Convert(from, to, s[n..], room - |w|).0, Convert(from, to, s[n..], room - |w|).1)
  {
    hide ReadOne, WriteOne;
  }

  /** The same behind what has been written before. */
  lemma ConvertOn(from: Encoding, to: Encoding, s: seq<byte>, room: nat, value: bv32, n: nat, w: seq<byte>,
                  before: seq<byte>)
    requires s != [] && room > 0 && (value, n) == ReadOne(from, s) && w == WriteOne(to, value, room)
    ensures value == 0 ==> before + Convert(from, to, s, room).0 == before + w && Convert(from, to, s, room).1
    ensures value != 0 ==>
      before + Convert(from, to, s, room).0 == (before + w) + Convert(from, to, s[n..], room - |w|).0
      && Convert(from, to, s, room).1 == Convert(from, to, s[n..], room - |w|).1
  {
    hide ReadOne, WriteOne, Convert;
    ConvertStep(from, to, s, room, value, n, w);
    assert value != 0 ==>
      before + (w + Convert(from, to, s[n..], room - |w|).0) == (before + w) + Convert(from, to, s[n..], room - |w|).0;
  }

  /** The writers, on a buffer. */
  method WriteValue(e: Encoding, output: array<byte>, at: int, remaining: int, value: bv32) returns (n: int)
    requires 0 <= at && 0 < remaining && at + remaining <= output.Length
    modifies output
    ensures n == |WriteOne(e, value, remaining)| && output[at..at + n] == WriteOne(e, value, remaining)
    ensures output[..at] == old(output[..at])
  {
    hide Encoded, Low, High, Place;
    match e {
      case Utf8Text =>
        n := Write(value, output, at, remaining);
      case Utf16 =>
        if remaining < 2 {
          return 0;
        }
        output[at], output[at + 1] := Low(value), High(value);
        n := 2;
      case Cp1252 =>
        var replaced := QUESTION;
        if 0x80 <= value <= 0x9F || Above(value) {
          var i := Find(value);
          if i < 32 {
            replaced := ByteAt(i);
          }
        } else {
          replaced := Low(value);
        }
        output[at] := replaced;
        n := 1;
      case Iso8859 =>
        output[at] := if Above(value) then QUESTION else Low(value);
        n := 1;
    }
  }

  /** "Search lookup table for value" */
  method Find(value: bv32) returns (i: nat)
    ensures i == Place(value, 0)
  {
    i := 0;
    while i < 32 && Codepoint(i) != value
      invariant i <= 32 && Place(value, 0) == Place(value, i)
    {
      i := i + 1;
    }
  }

  /** guac_iconv */
  method Iconv(from: Encoding, input: seq<byte>, to: Encoding, output: array<byte>, room: int)
    returns (ended: bool, written: int)
    requires 0 <= room <= output.Length
    modifies output
    ensures 0 <= written <= room && (output[..written], ended) == Convert(from, to, input, room)
  {
    hide ReadOne, WriteOne, Convert;
    ghost var all := Convert(from, to, input, room);
    var read: int;
    read, written, ended := 0, 0, false;
    assert input[0..] == input && output[..0] + all.0 == all.0;
    while read < |input| && written < room
      invariant 0 <= read <= |input| && 0 <= written <= room
      invariant output[..written] + Convert(from, to, input[read..], room - written).0 == all.0
      invariant Convert(from, to, input[read..], room - written).1 == all.1
      decreases |input| - read
    {
      var rest := input[read..];
      var (value, n) := ReadOne(from, rest);
      ghost var before, one := output[..written], WriteOne(to, value, room - written);
      ConvertOn(from, to, rest, room - written, value, n, one, before);
      var w := WriteValue(to, output, written, room - written, value);
      assert output[..written + w] == before + one;
      assert rest[n..] == input[read + n..];
      read, written := read + n, written + w;
      if value == 0 {
        return true, written;
      }
    }
    NoMoreInput(from, to, input[read..], room - written);
    assert output[..written] + [] == output[..written];
  }

  lemma NoMoreInput(from: Encoding, to: Encoding, s: seq<byte>, room: nat)
    requires s == [] || room == 0
    ensures Convert(from, to, s, room) == ([], false)
  {
  }

  // ----- round trips -----

  predicate InTable(value: bv32) {
    Place(value, 0) < 32
  }

  /** The values that an encoding can hold. */
  predicate Representable(e: Encoding, value: bv32) {
    match e
    case Utf8Text => value <= 0x1FFFFF
    case Utf16 => value <= 0xFFFF
    case Cp1252 => (value <= 0xFF && !(0x80 <= value <= 0x9F)) || InTable(value)
    case Iso8859 => value <= 0xFF
  }

  /** Exactly those come back as they were written. */
  lemma ReadUndoesWriteIff(e: Encoding, value: bv32, rest: seq<byte>)
    ensures var w := WriteOne(e, value, 4);
      w != [] && (ReadOne(e, w + rest) == (value, |w|) <==> Representable(e, value))
  {
    hide Decoded, Encoded, Low, High, Unit;
    var w := WriteOne(e, value, 4);
    LowOfByte(value);
    match e
    case Utf8Text =>
      if value <= 0x1FFFFF {
        ReadUndoesWrite(value, rest);
      } else {
        DecodedSmall(w + rest);
      }
      assert w == Encoded(value);
    case Utf16 =>
      if value <= 0xFFFF {
        UnitOfBytes(value);
      } else {
        BytesOfUnit(Low(value), High(value));
      }
    case Cp1252 =>
      TableByteIff(value, rest);
    case Iso8859 =>
  }

  lemma TableByteIff(value: bv32, rest: seq<byte>)
    ensures ReadOne(Cp1252, WriteOne(Cp1252, value, 4) + rest) == (value, 1) <==> Representable(Cp1252, value)
  {
    hide Place, Codepoint, ByteAt, PlaceOf, Low;
    var i := Place(value, 0);
    LowOfByte(value);
    if i < 32 {
      PlaceOfByteAt(i);
      TableIsHigh(i);
    } else if 0x80 <= value <= 0x9F || Above(value) {
      assert WriteOne(Cp1252, value, 4) == [QUESTION];
    } else if 0x80 <= Low(value) <= 0x9F {
      TableIsHigh(PlaceOf(Low(value)));
    }
  }

  lemma TableIsHigh(i: nat)
    requires i < 32
    ensures 0xFF < Codepoint(i) <= 0xFFFF
  {
  }

  /** A byte keeps its value; what is more than a byte does not. */
  lemma LowOfByte(value: bv32)
    ensures value <= 0xFF <==> Low(value) as bv32 == value
    ensures 0x80 <= value <= 0x9F ==> 0x80 <= Low(value) <= 0x9F
    ensures value <= 0xFF && !(0x80 <= value <= 0x9F) ==> !(0x80 <= Low(value) <= 0x9F)
  {
  }

  /** No byte string is read as more than 21 bits. */
  lemma DecodedSmall(s: seq<byte>)
    ensures Decoded(s).0 <= 0x1FFFFF
  {
    hide Joined;
    if |s| >= 4 {
      JoinedSmall(s[0], s[1], s[2], s[3]);
    }
    if |s| >= 3 {
      JoinedSmall(s[0], s[1], s[2], 0);
    }
    if |s| >= 2 {
      JoinedSmall(s[0], s[1], 0, 0);
    }
  }

  lemma JoinedSmall(a: byte, b: byte, c: byte, d: byte)
    ensures var x := a as bv32;
      && Joined(x & 0x1F, b) <= 0x1FFFFF && Joined(Joined(x & 0x0F, b), c) <= 0x1FFFFF
      && Joined(Joined(Joined(x & 0x07, b), c), d) <= 0x1FFFFF
  {
  }

  /** The bytes of a text. */
  function Text(e: Encoding, values: seq<bv32>): seq<byte> {
    if values == [] then [] else WriteOne(e, values[0], 4) + Text(e, values[1..])
  }

  /** A string that ends with its only NUL. */
  ghost predicate Terminated(values: seq<bv32>) {
    values != [] && forall k :: 0 <= k < |values| ==> (values[k] == 0 <==> k == |values| - 1)
  }

  ghost predicate AllRepresentable(e: Encoding, values: seq<bv32>) {
    forall k :: 0 <= k < |values| ==> Representable(e, values[k])
  }

  lemma RoomEnough(e: Encoding, value: bv32, room: nat)
    requires room >= |WriteOne(e, value, 4)|
    ensures room > 0 && WriteOne(e, value, room) == WriteOne(e, value, 4)
  {
  }

  /** A terminated text is converted to the text of the same values. */
  lemma {:induction false} ConvertsText(from: Encoding, to: Encoding, values: seq<bv32>, rest: seq<byte>, room: nat)
    requires Terminated(values) && AllRepresentable(from, values) && room >= |Text(to, values)|
    ensures Convert(from, to, Text(from, values) + rest, room) == (Text(to, values), true)
    decreases |values|
  {
    hide ReadOne, WriteOne, Representable, Convert;
    var value, more := values[0], values[1..];
    var w := WriteOne(from, value, 4);
    var s := Text(from, values) + rest;
    assert s == w + (Text(from, more) + rest);
    ReadUndoesWriteIff(from, value, Text(from, more) + rest);
    RoomEnough(to, value, room);
    ConvertStep(from, to, s, room, value, |w|, WriteOne(to, value, room));
    assert s[|w|..] == Text(from, more) + rest;
    if value != 0 {
      ConvertsText(from, to, more, rest, room - |WriteOne(to, value, 4)|);
    } else {
      assert values == [value] && Text(to, more) == [];
      assert Text(to, values) == WriteOne(to, value, 4) + [] == WriteOne(to, value, 4);
    }
  }

  /** There and back again, for every pair of encodings that can hold the text. */
  lemma RoundTrip(from: Encoding, to: Encoding, values: seq<bv32>, room: nat, back: nat)
    requires Terminated(values) && AllRepresentable(from, values) && AllRepresentable(to, values)
    requires room >= |Text(to, values)| && back >= |Text(from, values)|
    ensures var s := Text(from, values);
      var (there, ended) := Convert(from, to, s, room); ended && Convert(to, from, there, back) == (s, true)
  {
    hide Convert, Representable;
    ConvertsText(from, to, values, [], room);
    ConvertsText(to, from, values, [], back);
    assert Text(from, values) + [] == Text(from, values) && Text(to, values) + [] == Text(to, values);
  }

  /** The units of a string of 16-bit units. */
  function Units(s: seq<byte>): (values: seq<bv32>)
    requires |s| % 2 == 0
    ensures |values| == |s| / 2
  {
    if s == [] then [] else [Unit(s[0], s[1])] + Units(s[2..])
  }

  lemma {:induction false} UnitsText(s: seq<byte>)
    requires |s| % 2 == 0
    ensures Text(Utf16, Units(s)) == s
    ensures AllRepresentable(Utf16, Units(s)) && AllRepresentable(Utf8Text, Units(s)) &&
      |Text(Utf8Text, Units(s))| <= 3 * |Units(s)|
  {
    hide Low, High, Unit, Encoded;
    if s != [] {
      BytesOfUnit(s[0], s[1]);
      UnitsText(s[2..]);
      ShortUnit(Unit(s[0], s[1]));
      assert Units(s)[1..] == Units(s[2..]);
    }
  }

  lemma ShortUnit(value: bv32)
    requires value <= 0xFFFF
    ensures |Encoded(value)| <= 3
  {
  }

  /** Every NUL-terminated string of 16-bit units, surrogates or not, comes back from
      UTF-8 unchanged. */
  lemma Utf16ThroughUtf8(s: seq<byte>, room: nat, back: nat)
    requires |s| % 2 == 0 && Terminated(Units(s)) && room >= |s| / 2 * 3 && back >= |s|
    ensures var (there, ended) := Convert(Utf16, Utf8Text, s, room);
      ended && Convert(Utf8Text, Utf16, there, back) == (s, true)
  {
    hide Convert, Text, Representable, Terminated;
    UnitsText(s);
    RoundTrip(Utf16, Utf8Text, Units(s), room, back);
  }

  predicate Unassigned(i: nat) {
    i == 1 || i == 13 || i == 15 || i == 16 || i == 29
  }

  /** Only the unassigned bytes share a value. */
  lemma TableValues(i: nat, j: nat)
    requires i < j < 32
    ensures Codepoint(i) == Codepoint(j) <==> Unassigned(i) && Unassigned(j)
  {
  }

  /** A CP-1252 byte comes back from its value except for the four unassigned bytes
      that share their value with the first. */
  lemma Cp1252ByteIff(b: byte)
    ensures WriteOne(Cp1252, ReadOne(Cp1252, [b]).0, 1) == [b] <==> b != 0x8D && b != 0x8F && b != 0x90 && b != 0x9D
  {
    hide Place, Codepoint, ByteAt;
    LowOfByte(b as bv32);
    if 0x80 <= b <= 0x9F {
      var j := PlaceOf(b);
      var i := Place(Codepoint(j), 0);
      ByteAtPlaceOf(b);
      TableIsHigh(j);
      if i < j {
        TableValues(i, j);
        PlaceOfByteAt(i);
      } else if j > 1 {
        TableValues(1, j);
      }
    }
  }
}
