/** Characters of libguac/src/unicode.c. Strings are NUL-free byte sequences. */
module Utf8 {

  type byte = bv8

  /** guac_utf8_charsize */
  function CharSize(c: byte): (n: nat)
    ensures 1 <= n <= 4
  {
    if (c | 0x7F) == 0x7F then 1
    else if (c | 0x1F) == 0xDF then 2
    else if (c | 0x0F) == 0xEF then 3
    else if (c | 0x07) == 0xF7 then 4
    else 1
  }

  /** The first bytes of characters of two, three and four bytes; any other byte counts
      as a character of its own. */
  lemma CharSizeIff(c: byte)
    ensures CharSize(c) == 2 <==> 0xC0 <= c <= 0xDF
    ensures CharSize(c) == 3 <==> 0xE0 <= c <= 0xEF
    ensures CharSize(c) == 4 <==> 0xF0 <= c <= 0xF7
  {
  }

  lemma AsciiSize(c: byte)
    requires c < 0x80
    ensures CharSize(c) == 1
  {
  }

  function Min(a: int, b: int): int { if a < b then a else b }

  /** The number of characters; the last may be cut off by the end of the string. */
  function Chars(s: seq<byte>): nat {
    if s == [] then 0 else 1 + Chars(s[Min(CharSize(s[0]), |s|)..])
  }

  /** Every character is complete. */
  predicate Whole(s: seq<byte>) {
    s == [] || (CharSize(s[0]) <= |s| && Whole(s[CharSize(s[0])..]))
  }

  /** guac_utf8_strlen */
  method StrLen(str: seq<byte>) returns (length: nat)
    ensures length == Chars(str)
  {
    hide CharSize, Chars;
    var skip: int := 0;
    length := 0;
    assert str[0..] == str;
    for i := 0 to |str|
      invariant 0 <= skip && length + Chars(str[Min(i + skip, |str|)..]) == Chars(str)
    {
      if skip > 0 {
        skip := skip - 1;
      } else {
        NextChar(str, i);
        skip := CharSize(str[i]) - 1;
        length := length + 1;
      }
    }
    assert str[Min(|str| + skip, |str|)..] == [];
    NoChars();
  }

  lemma NextChar(str: seq<byte>, i: nat)
    requires i < |str|
    ensures Chars(str[i..]) == 1 + Chars(str[Min(i + CharSize(str[i]), |str|)..])
  {
    hide CharSize;
    assert str[i..][Min(CharSize(str[i]), |str| - i)..] == str[Min(i + CharSize(str[i]), |str|)..];
  }

  lemma NoChars()
    ensures Chars([]) == 0
  {
  }

  lemma {:induction false} AsciiString(s: seq<byte>)
    requires forall k :: 0 <= k < |s| ==> s[k] < 0x80
    ensures Whole(s) && Chars(s) == |s|
  {
    if s != [] {
      AsciiSize(s[0]);
      AsciiString(s[1..]);
    }
  }

  // ----- guac_utf8_write, guac_utf8_read -----

  /** The int with these bits is negative. */
  predicate Negative(codepoint: bv32) {
    codepoint >= 0x8000_0000
  }

  function Drop(codepoint: bv32): bv32 {
    codepoint >> 6
  }

  /** The first byte, below the bits that announce how many there are. */
  function Lead(mask: bv32, rest: bv32): byte {
    ((mask | rest) & 0xFF) as byte
  }

  /** The codepoint without its lowest groups of six bits. */
  function Shifts(codepoint: bv32, n: nat): bv32 {
    if n == 0 then codepoint else Drop(Shifts(codepoint, n - 1))
  }

  lemma Drops(c: bv32)
    ensures Drop(c) == c >> 6 && Drop(Drop(c)) == c >> 12 && Drop(Drop(Drop(c))) == c >> 18
  {
  }

  lemma Leads(c: bv32)
    ensures Lead(0, c) == (c & 0xFF) as byte
    ensures c <= 0x7FF ==> 0xC0 | (c >> 6) <= 0xFF && Lead(0xC0, c >> 6) == (0xC0 | (c >> 6)) as byte
    ensures c <= 0xFFFF ==> 0xE0 | (c >> 12) <= 0xFF && Lead(0xE0, c >> 12) == (0xE0 | (c >> 12)) as byte
    ensures c <= 0x1FFFFF ==> 0xF0 | (c >> 18) <= 0xFF && Lead(0xF0, c >> 18) == (0xF0 | (c >> 18)) as byte
  {
  }

  /** The size and the initial byte mask. */
  function Shape(codepoint: bv32): (bv32, int) {
    if Negative(codepoint) || codepoint <= 0x7F then (0, 1)
    else if codepoint <= 0x7FF then (0xC0, 2)
    else if codepoint <= 0xFFFF then (0xE0, 3)
    else (0xF0, 4)
  }

  lemma EncodedBytes(codepoint: bv32)
    requires Negative(codepoint) || codepoint <= 0x1FFFFF
    ensures var bytes := Encoded(codepoint);
      var (mask, n) := Shape(codepoint);
      && |bytes| == n && bytes[0] == Lead(mask, Shifts(codepoint, n - 1))
      && forall k :: 0 < k < n ==> bytes[k] == Trail(Shifts(codepoint, n - 1 - k))
  {
    hide Trail, Lead, Drop;
    Leads(codepoint);
    Drops(codepoint);
    assert Shifts(codepoint, 0) == codepoint && Shifts(codepoint, 1) == Drop(codepoint);
    assert Shifts(codepoint, 2) == Drop(Drop(codepoint)) && Shifts(codepoint, 3) == Drop(Drop(Drop(codepoint)));
  }

  /** guac_utf8_write: the bytes of the codepoint, or none if they do not fit. */
  method Write(codepoint: bv32, utf8: array<byte>, at: int, length: int) returns (bytes: int)
    requires 0 <= at && 0 <= length && at + length <= utf8.Length
    modifies utf8
    ensures bytes == if |Encoded(codepoint)| <= length then |Encoded(codepoint)| else 0
    ensures bytes > 0 ==> utf8[at..at + bytes] == Encoded(codepoint)
    ensures forall k :: 0 <= k < utf8.Length && !(at <= k < at + bytes) ==> utf8[k] == old(utf8[k])
  {
    if length <= 0 {
      return 0;
    }
    if !Negative(codepoint) && codepoint > 0x1FFFFF {
      utf8[at] := 0x3F;
      return 1;
    }
    hide Trail, Encoded, Lead, Drop, Shape, Shifts;
    EncodedBytes(codepoint);
    var (mask, size) := Shape(codepoint);
    if size > length {
      return 0;
    }
    WriteBytes(codepoint, mask, size, utf8, at);
    assert utf8[at..at + size] == Encoded(codepoint);
    bytes := size;
  }

  /** Fills the bytes of one codepoint from the last to the first. */
  method WriteBytes(codepoint: bv32, mask: bv32, size: int, utf8: array<byte>, at: int)
    requires 1 <= size && 0 <= at && at + size <= utf8.Length
    modifies utf8
    ensures utf8[at] == Lead(mask, Shifts(codepoint, size - 1))
    ensures forall k :: at < k < at + size ==> utf8[k] == Trail(Shifts(codepoint, at + size - 1 - k))
    ensures forall k :: 0 <= k < utf8.Length && !(at <= k < at + size) ==> utf8[k] == old(utf8[k])
  {
    hide Trail, Lead, Drop;
    var rest := codepoint;
    for i := 1 to size
      invariant rest == Shifts(codepoint, i - 1)
      invariant forall k :: at + size - i < k < at + size ==> utf8[k] == Trail(Shifts(codepoint, at + size - 1 - k))
      invariant forall k :: 0 <= k < utf8.Length && !(at <= k < at + size) ==> utf8[k] == old(utf8[k])
    {
      utf8[at + size - i] := Trail(rest);
      rest := Drop(rest);
    }
    utf8[at] := Lead(mask, rest);
  }

  /** The bytes that guac_utf8_write stores given enough room; of a negative codepoint,
      the lowest byte. */
  function Encoded(codepoint: bv32): (bytes: seq<byte>)
    ensures 1 <= |bytes| <= 4
  {
    if Negative(codepoint) || codepoint <= 0x7F then [(codepoint & 0xFF) as byte]
    else if codepoint <= 0x7FF then [(0xC0 | (codepoint >> 6)) as byte, Trail(codepoint)]
    else if codepoint <= 0xFFFF then [(0xE0 | (codepoint >> 12)) as byte, Trail(codepoint >> 6), Trail(codepoint)]
    else if codepoint <= 0x1FFFFF then
      [(0xF0 | (codepoint >> 18)) as byte, Trail(codepoint >> 12), Trail(codepoint >> 6), Trail(codepoint)]
    else [0x3F]
  }

  function Trail(codepoint: bv32): byte {
    (0x80 | (codepoint & 0x3F)) as byte
  }

  /** guac_utf8_read on the bytes at hand: the codepoint and the bytes taken. */
  function Decoded(bytes: seq<byte>): (r: (bv32, nat))
    ensures r.1 <= |bytes|
  {
    if bytes == [] then (0, 0)
    else
      var c := bytes[0] as bv32;
      if (c | 0x7F) == 0x7F then (c, 1)
      else if (c | 0x1F) == 0xDF then
        if |bytes| < 2 then (0, 0) else (Joined(c & 0x1F, bytes[1]), 2)
      else if (c | 0x0F) == 0xEF then
        if |bytes| < 3 then (0, 0) else (Joined(Joined(c & 0x0F, bytes[1]), bytes[2]), 3)
      else if (c | 0x07) == 0xF7 then
        if |bytes| < 4 then (0, 0) else (Joined(Joined(Joined(c & 0x07, bytes[1]), bytes[2]), bytes[3]), 4)
      else (0xFFFD, 1)
  }

  function Joined(high: bv32, trail: byte): bv32 {
    (high << 6) | ((trail as bv32) & 0x3F)
  }

  lemma TwoBytes(cp: bv32)
    requires 0x7F < cp <= 0x7FF
    ensures 0xC0 | (cp >> 6) <= 0xFF
    ensures var c := 0xC0 | (cp >> 6); (c | 0x7F) != 0x7F && (c | 0x1F) == 0xDF && Joined(c & 0x1F, Trail(cp)) == cp
  {
  }

  lemma ThreeBytes(cp: bv32)
    requires 0x7FF < cp <= 0xFFFF
    ensures 0xE0 | (cp >> 12) <= 0xFF
    ensures var c := 0xE0 | (cp >> 12); (c | 0x7F) != 0x7F && (c | 0x1F) != 0xDF && (c | 0x0F) == 0xEF
    ensures Joined(Joined((0xE0 | (cp >> 12)) & 0x0F, Trail(cp >> 6)), Trail(cp)) == cp
  {
  }

  lemma FourBytes(cp: bv32)
    requires 0xFFFF < cp <= 0x1FFFFF
    ensures 0xF0 | (cp >> 18) <= 0xFF
    ensures var c := 0xF0 | (cp >> 18);
      (c | 0x7F) != 0x7F && (c | 0x1F) != 0xDF && (c | 0x0F) != 0xEF && (c | 0x07) == 0xF7
    ensures Joined(Joined(Joined((0xF0 | (cp >> 18)) & 0x07, Trail(cp >> 12)), Trail(cp >> 6)), Trail(cp)) == cp
  {
  }

  /** The bits of the first n bytes, given those of the first. */
  function Gathered(initial: bv32, utf8: seq<byte>, n: nat): bv32
    requires 1 <= n <= |utf8|
  {
    if n == 1 then initial else Joined(Gathered(initial, utf8, n - 1), utf8[n - 1])
  }

  /** guac_utf8_read */
  method Read(utf8: seq<byte>) returns (codepoint: bv32, bytes: nat)
    ensures (codepoint, bytes) == Decoded(utf8)
  {
    hide Joined;
    if |utf8| <= 0 {
      return 0, 0;
    }
    var initial := utf8[0] as bv32;
    if (initial | 0x7F) == 0x7F {
      codepoint, bytes := initial, 1;
    } else if (initial | 0x1F) == 0xDF {
      codepoint, bytes := initial & 0x1F, 2;
    } else if (initial | 0x0F) == 0xEF {
      codepoint, bytes := initial & 0x0F, 3;
    } else if (initial | 0x07) == 0xF7 {
      codepoint, bytes := initial & 0x07, 4;
    } else {
      return 0xFFFD, 1;
    }
    if bytes > |utf8| {
      return 0, 0;
    }
    ghost var first := codepoint;
    for i := 1 to bytes
      invariant codepoint == Gathered(first, utf8, i)
    {
      codepoint := Joined(codepoint, utf8[i]);
    }
    GatheredAtOnce(first, utf8, bytes);
  }

  lemma GatheredAtOnce(initial: bv32, utf8: seq<byte>, n: nat)
    requires 1 <= n <= |utf8| && n <= 4
    ensures n == 1 ==> Gathered(initial, utf8, n) == initial
    ensures n == 2 ==> Gathered(initial, utf8, n) == Joined(initial, utf8[1])
    ensures n == 3 ==> Gathered(initial, utf8, n) == Joined(Joined(initial, utf8[1]), utf8[2])
    ensures n == 4 ==> Gathered(initial, utf8, n) == Joined(Joined(Joined(initial, utf8[1]), utf8[2]), utf8[3])
  {
    hide Joined;
  }

  /** Reading undoes writing, whatever bytes follow. */
  lemma ReadUndoesWrite(codepoint: bv32, rest: seq<byte>)
    requires codepoint <= 0x1FFFFF
    ensures Decoded(Encoded(codepoint) + rest) == (codepoint, |Encoded(codepoint)|)
  {
    hide Joined, Trail;
    var bytes := Encoded(codepoint);
    if codepoint <= 0x7F {
      assert (codepoint | 0x7F) == 0x7F;
    } else if codepoint <= 0x7FF {
      TwoBytes(codepoint);
    } else if codepoint <= 0xFFFF {
      ThreeBytes(codepoint);
    } else {
      FourBytes(codepoint);
    }
    assert (bytes + rest)[..|bytes|] == bytes;
  }

  /** The first byte written announces the length that charsize reports. */
  lemma SizeIsAnnounced(codepoint: bv32)
    requires codepoint <= 0x1FFFFF
    ensures CharSize(Encoded(codepoint)[0]) == |Encoded(codepoint)|
  {
  }

  // ----- the form of the bytes written -----

  /** A continuation byte. */
  predicate Continues(b: byte) {
    0x80 <= b <= 0xBF
  }

  /** The bits that bytes of this form carry, given those of the first byte. */
  function Payload(high: bv32, trail: byte): bv32 {
    high * 64 + ((trail - 0x80) as bv32)
  }

  /** One to four bytes of the form of section 3 of RFC 3629, which carry the value. */
  predicate Carries(s: seq<byte>, value: bv32) {
    match |s|
    case 1 => s[0] < 0x80 && value == s[0] as bv32
    case 2 =>
      0xC0 <= s[0] <= 0xDF && Continues(s[1]) && value == Payload((s[0] - 0xC0) as bv32, s[1])
    case 3 =>
      0xE0 <= s[0] <= 0xEF && Continues(s[1]) && Continues(s[2]) &&
        value == Payload(Payload((s[0] - 0xE0) as bv32, s[1]), s[2])
    case 4 =>
      0xF0 <= s[0] <= 0xF7 && Continues(s[1]) && Continues(s[2]) && Continues(s[3]) &&
        value == Payload(Payload(Payload((s[0] - 0xF0) as bv32, s[1]), s[2]), s[3])
    case _ => false
  }

  /** The number of bytes that a value needs. */
  function Need(value: bv32): nat {
    if value < 0x80 then 1 else if value < 0x800 then 2 else if value < 0x10000 then 3 else 4
  }

  lemma CarriedApart(value: bv32, high: bv32, trail: byte)
    requires high <= 0x7FFF && Continues(trail) && value == Payload(high, trail)
    ensures high == Drop(value) && trail == Trail(value)
  {
  }

  lemma CarriedTogether(value: bv32)
    requires value <= 0x1FFFFF
    ensures Continues(Trail(value)) && value == Payload(Drop(value), Trail(value))
  {
  }

  /** A continuation byte carries the lowest six bits. */
  lemma CarryIff(value: bv32, high: bv32, trail: byte)
    requires high <= 0x7FFF && value <= 0x1FFFFF
    ensures Continues(trail) && value == Payload(high, trail) <==> high == Drop(value) && trail == Trail(value)
  {
    hide Continues, Payload, Drop, Trail;
    CarriedTogether(value);
    if Continues(trail) && value == Payload(high, trail) {
      CarriedApart(value, high, trail);
    }
  }

  lemma LeadIff(codepoint: bv32, a: byte)
    requires codepoint <= 0x1FFFFF
    ensures codepoint <= 0x7FF ==> (a == (0xC0 | (codepoint >> 6)) as byte <==>
              0xC0 <= a <= 0xDF && (a - 0xC0) as bv32 == codepoint >> 6)
    ensures codepoint <= 0xFFFF ==> (a == (0xE0 | (codepoint >> 12)) as byte <==>
              0xE0 <= a <= 0xEF && (a - 0xE0) as bv32 == codepoint >> 12)
    ensures a == (0xF0 | (codepoint >> 18)) as byte <==> 0xF0 <= a <= 0xF7 && (a - 0xF0) as bv32 == codepoint >> 18
  {
  }

  /** What continuation bytes after a first one carry. */
  lemma CarriesIff(value: bv32, high: bv32, b: byte, c: byte, d: byte)
    requires value <= 0x1FFFFF && high <= 0x1F
    ensures Continues(b) && value == Payload(high, b) <==> high == value >> 6 && b == Trail(value)
    ensures high <= 0x0F ==>
      (Continues(b) && Continues(c) && value == Payload(Payload(high, b), c) <==>
         high == value >> 12 && b == Trail(value >> 6) && c == Trail(value))
    ensures high <= 0x07 ==>
      (Continues(b) && Continues(c) && Continues(d) && value == Payload(Payload(Payload(high, b), c), d) <==>
         high == value >> 18 && b == Trail(value >> 12) && c == Trail(value >> 6) && d == Trail(value))
  {
    hide Continues, Payload, Trail, Joined;
    Drops(value);
    Shrinks(value);
    CarryIff(value, high, b);
    if Continues(b) && high <= 0x0F {
      JoinedIsPayload(high, b);
      CarryIff(value, Payload(high, b), c);
    }
    CarryIff(value >> 6, high, b);
    if Continues(b) && Continues(c) && high <= 0x07 {
      JoinedIsPayload(Payload(high, b), c);
      CarryIff(value, Payload(Payload(high, b), c), d);
      CarryIff(value >> 6, Payload(high, b), c);
    }
    CarryIff(value >> 12, high, b);
    TrailContinues(value);
    TrailContinues(value >> 6);
    TrailContinues(value >> 12);
  }

  lemma Shrinks(value: bv32)
    requires value <= 0x1FFFFF
    ensures Drop(value) <= 0x7FFF && Drop(Drop(value)) <= 0x1FF
    ensures Drop(value >> 6) == value >> 12 && Drop(value >> 12) == value >> 18 && value >> 6 <= 0x1FFFFF
    ensures value >> 12 <= 0x1FFFFF
  {
  }

  lemma TrailContinues(value: bv32)
    ensures Continues(Trail(value))
  {
  }

  /** The encoding is the only byte string of the right form and length that carries
      the codepoint. */
  lemma EncodedIff(codepoint: bv32, s: seq<byte>)
    requires codepoint <= 0x1FFFFF
    ensures s == Encoded(codepoint) <==> |s| == Need(codepoint) && Carries(s, codepoint)
  {
    hide Trail, Payload, Continues;
    Leads(codepoint);
    if |s| == Need(codepoint) && |s| > 1 {
      LeadIff(codepoint, s[0]);
      match |s|
      case 2 => if 0xC0 <= s[0] <= 0xDF { CarriesIff(codepoint, (s[0] - 0xC0) as bv32, s[1], 0, 0); }
      case 3 => if 0xE0 <= s[0] <= 0xEF { CarriesIff(codepoint, (s[0] - 0xE0) as bv32, s[1], s[2], 0); }
      case _ => if 0xF0 <= s[0] <= 0xF7 { CarriesIff(codepoint, (s[0] - 0xF0) as bv32, s[1], s[2], s[3]); }
    }
  }

  lemma JoinedIsPayload(high: bv32, trail: byte)
    requires high <= 0x7FFF
    ensures Continues(trail) ==> Joined(high, trail) == Payload(high, trail)
    ensures Continues(trail) ==> (high <= 0x0F ==> Payload(high, trail) <= 0x3FF)
    ensures Continues(trail) ==> (high <= 0x07 ==> Payload(high, trail) <= 0x1FF)
    ensures Continues(trail) ==> (high <= 0x1FF ==> Payload(high, trail) <= 0x7FFF)
    ensures Joined(high, trail) == Joined(high, 0x80 | (trail & 0x3F)) && Continues(0x80 | (trail & 0x3F))
  {
  }

  lemma LeadBits(a: byte)
    ensures a < 0x80 ==> ((a as bv32) | 0x7F) == 0x7F
    ensures 0xC0 <= a ==> ((a as bv32) | 0x7F) != 0x7F
    ensures 0xC0 <= a <= 0xDF ==> ((a as bv32) | 0x1F) == 0xDF && (a as bv32) & 0x1F == (a - 0xC0) as bv32
    ensures 0xE0 <= a <= 0xEF ==> ((a as bv32) | 0x1F) != 0xDF && ((a as bv32) | 0x0F) == 0xEF
    ensures 0xE0 <= a <= 0xEF ==> (a as bv32) & 0x0F == (a - 0xE0) as bv32
    ensures 0xF0 <= a <= 0xF7 ==> ((a as bv32) | 0x1F) != 0xDF && ((a as bv32) | 0x0F) != 0xEF
    ensures 0xF0 <= a <= 0xF7 ==> ((a as bv32) | 0x07) == 0xF7 && (a as bv32) & 0x07 == (a - 0xF0) as bv32
    ensures ((a as bv32) & 0x1F) <= 0x1F && ((a as bv32) & 0x0F) <= 0x0F && ((a as bv32) & 0x07) <= 0x07
  {
  }

  /** Bytes of the right form are read as what they carry, also where fewer would do. */
  lemma CarriedIsRead(s: seq<byte>, value: bv32, rest: seq<byte>)
    requires Carries(s, value)
    ensures Decoded(s + rest) == (value, |s|)
  {
    hide Joined, Payload, Continues;
    LeadBits(s[0]);
    assert (s + rest)[..|s|] == s;
    match |s|
    case 2 => JoinedAsCarried((s[0] - 0xC0) as bv32, s[1], 0x80, 0x80);
    case 3 => JoinedAsCarried((s[0] - 0xE0) as bv32, s[1], s[2], 0x80);
    case 4 => JoinedAsCarried((s[0] - 0xF0) as bv32, s[1], s[2], s[3]);
    case _ =>
  }

  lemma JoinedAsCarried(high: bv32, b: byte, c: byte, d: byte)
    requires high <= 0x1F && Continues(b)
    ensures Joined(high, b) == Payload(high, b)
    ensures high <= 0x0F && Continues(c) ==> Joined(Joined(high, b), c) == Payload(Payload(high, b), c)
    ensures high <= 0x07 && Continues(c) && Continues(d) ==>
      Joined(Joined(Joined(high, b), c), d) == Payload(Payload(Payload(high, b), c), d)
  {
    hide Joined, Payload, Continues;
    JoinedIsPayload(high, b);
    if high <= 0x0F && Continues(c) {
      assert Payload(high, b) <= 0x3FF && (high <= 0x07 ==> Payload(high, b) <= 0x1FF);
      JoinedIsPayload(Payload(high, b), c);
      if high <= 0x07 && Continues(d) {
        JoinedIsPayload(Payload(Payload(high, b), c), d);
      }
    }
  }

  /** No other int is encoded: a question mark stands for the larger ones, and the lowest
      byte for the negative ones. */
  lemma OthersWritten(codepoint: bv32)
    ensures 0x1FFFFF < codepoint <= 0x7FFF_FFFF ==> Encoded(codepoint) == [0x3F]
    ensures codepoint > 0x7FFF_FFFF ==> Encoded(codepoint) == [(codepoint & 0xFF) as byte]
  {
  }
}
