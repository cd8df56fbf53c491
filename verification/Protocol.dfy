/** The writing side of libguac/src/socket.c and libguac/src/protocol.c: what the
    functions that send instructions put on the wire. */
module Protocol {
  import opened Base64
  import opened Utf8

  const DOT: byte := 0x2E
  const COMMA: byte := 0x2C
  const SEMICOLON: byte := 0x3B

  function DigitByte(d: nat): (c: byte)
    requires d < 10
    ensures 0x30 <= c <= 0x39
  {
    if d == 0 then 0x30 else if d == 1 then 0x31 else if d == 2 then 0x32 else if d == 3 then 0x33
    else if d == 4 then 0x34 else if d == 5 then 0x35 else if d == 6 then 0x36 else if d == 7 then 0x37
    else if d == 8 then 0x38 else 0x39
  }

  /** The decimal digits of a length or an index. */
  function Decimal(n: nat): (digits: seq<byte>)
    ensures digits != [] && forall k :: 0 <= k < |digits| ==> 0x30 <= digits[k] <= 0x39
  {
    if n < 10 then [DigitByte(n)] else Decimal(n / 10) + [DigitByte(n % 10)]
  }

  /** One element: its length in characters, a dot, and its content. */
  function Element(s: seq<byte>): seq<byte> {
    Decimal(Chars(s)) + [DOT] + s
  }

  /** An instruction: its elements separated by commas and closed by a semicolon. */
  function Print(elements: seq<seq<byte>>): seq<byte>
    requires elements != []
  {
    Element(elements[0]) + Rest(elements[1..])
  }

  function Rest(elements: seq<seq<byte>>): seq<byte> {
    if elements == [] then [SEMICOLON] else [COMMA] + Element(elements[0]) + Rest(elements[1..])
  }

  /** What stands before the semicolon when some elements are written. */
  function Begun(elements: seq<seq<byte>>): seq<byte> {
    if elements == [] then [] else Begun(elements[..|elements| - 1]) + [COMMA] + Element(elements[|elements| - 1])
  }

  lemma {:induction false} BegunThenRest(first: seq<seq<byte>>, more: seq<seq<byte>>)
    ensures Begun(first) + Rest(more) == Rest(first + more)
    decreases |first|
  {
    hide Element;
    if first == [] {
      assert first + more == more;
    } else {
      var front, last := first[..|first| - 1], first[|first| - 1];
      BegunThenRest(front, [last] + more);
      assert front + ([last] + more) == first + more && ([last] + more)[1..] == more;
      assert Begun(front) + ([COMMA] + Element(last) + Rest(more)) == Begun(first) + Rest(more);
    }
  }

  const ARGS: seq<byte> := [0x61, 0x72, 0x67, 0x73]
  const CONNECT: seq<byte> := [0x63, 0x6F, 0x6E, 0x6E, 0x65, 0x63, 0x74]
  const BLOB: seq<byte> := [0x62, 0x6C, 0x6F, 0x62]

  /** An instruction as it goes over the wire: "4.args,3.foo,0.;". */
  lemma Example()
    ensures Print([ARGS, [0x66, 0x6F, 0x6F], []]) ==
      [0x34, 0x2E, 0x61, 0x72, 0x67, 0x73, 0x2C, 0x33, 0x2E, 0x66, 0x6F, 0x6F, 0x2C, 0x30, 0x2E, 0x3B]
    ensures Decimal(1024) == [0x31, 0x30, 0x32, 0x34]
  {
    hide Chars;
    var foo: seq<byte> := [0x66, 0x6F, 0x6F];
    AsciiString(ARGS);
    AsciiString(foo);
    AsciiString([]);
    assert Element(ARGS) == [0x34, 0x2E, 0x61, 0x72, 0x67, 0x73];
    assert Element(foo) == [0x33, 0x2E, 0x66, 0x6F, 0x6F] && Element([]) == [0x30, 0x2E];
    assert Rest([[]]) == [0x2C, 0x30, 0x2E, 0x3B];
    assert [foo, []][1..] == [[]];
    assert [ARGS, foo, []][1..] == [foo, []];
    assert Decimal(10) == [0x31, 0x30] && Decimal(102) == [0x31, 0x30, 0x32];
  }

  /** The element of a short ASCII string, as the literals spell it. */
  lemma Literal(opcode: seq<byte>)
    requires |opcode| < 10 && forall k :: 0 <= k < |opcode| ==> opcode[k] < 0x80
    ensures Element(opcode) == [DigitByte(|opcode|), DOT] + opcode
  {
    hide Chars;
    AsciiString(opcode);
  }

  // ----- base64 in pieces -----

  /** The output for all whole triplets, and the bytes left over. */
  function Triplets(data: seq<byte>): seq<byte> {
    if |data| < 3 then [] else Triplet(data[0], Byte(data[1]), Byte(data[2])) + Triplets(data[3..])
  }

  function Leftover(data: seq<byte>): (left: seq<byte>)
    ensures |left| < 3
  {
    if |data| < 3 then data else Leftover(data[3..])
  }

  lemma {:induction false} TripletsThenRest(data: seq<byte>)
    ensures Encode(data) == Triplets(data) + Encode(Leftover(data))
  {
    hide Triplet;
    if |data| >= 3 {
      TripletsThenRest(data[3..]);
    }
  }

  lemma {:induction false} OneMoreByte(data: seq<byte>, b: byte)
    ensures var left := Leftover(data);
      if |left| == 2 then
        Triplets(data + [b]) == Triplets(data) + Triplet(left[0], Byte(left[1]), Byte(b)) && Leftover(data + [b]) == []
      else Triplets(data + [b]) == Triplets(data) && Leftover(data + [b]) == left + [b]
  {
    hide Triplet;
    if |data| >= 3 {
      OneMoreByte(data[3..], b);
      assert (data + [b])[3..] == data[3..] + [b];
    }
  }

  lemma NoTriplets(data: seq<byte>)
    requires |data| < 3
    ensures Triplets(data) == [] && Leftover(data) == data
  {
  }

  class Socket {
    /** The bytes that the write handler has taken. */
    var output: seq<byte>
    var ready: int
    const readyBuf: array<Input>

    ghost predicate Valid()
      reads this, readyBuf
    {
      readyBuf.Length == 3 && 0 <= ready < 3 && forall i :: 0 <= i < ready ==> readyBuf[i].Byte?
    }

    /** The bytes of the triplet begun. */
    ghost function Pending(): (p: seq<byte>)
      requires Valid()
      reads this, readyBuf
      ensures |p| == ready && forall i :: 0 <= i < ready ==> readyBuf[i] == Byte(p[i])
    {
      seq(ready, i requires Valid() && 0 <= i < ready reads this, readyBuf => readyBuf[i].value)
    }

    constructor ()
      ensures Valid() && output == [] && ready == 0 && fresh(readyBuf)
    {
      output, ready := [], 0;
      readyBuf := new Input[3](i => Missing);
    }

    /** The write handler: takes some of the bytes. */
    method Handler(buf: seq<byte>) returns (written: int)
      requires buf != []
      modifies this`output
      ensures 1 <= written <= |buf| && output == old(output) + buf[..written]
    {
      written :| 1 <= written <= |buf|;
      output := output + buf[..written];
    }

    /** guac_socket_write */
    method Write(buf: seq<byte>)
      modifies this`output
      ensures output == old(output) + buf
    {
      var done := 0;
      while done < |buf|
        invariant 0 <= done <= |buf| && output == old(output) + buf[..done]
      {
        var written := Handler(buf[done..]);
        assert buf[..done] + buf[done..][..written] == buf[..done + written];
        done := done + written;
      }
      assert buf[..done] == buf;
    }

    /** __guac_socket_write_length_string */
    method WriteLengthString(str: seq<byte>)
      modifies this`output
      ensures output == old(output) + Element(str)
    {
      var length := StrLen(str);
      Write(Decimal(length));
      Write([DOT]);
      Write(str);
    }

    /** __guac_socket_write_base64_triplet */
    method WriteTriplet(a: Input, b: Input, c: Input)
      requires a.Byte?
      modifies this`output
      ensures output == old(output) + Triplet(a.value, b, c)
    {
      Write(Triplet(a.value, b, c));
    }

    /** __guac_socket_write_base64_byte */
    method WriteByte(buf: Input)
      requires readyBuf.Length == 3 && 0 <= ready < 3 && (if ready == 0 then buf.Byte? else readyBuf[0].Byte?)
      modifies this`output, this`ready, readyBuf
      ensures old(ready) < 2 ==>
        ready == old(ready) + 1 && output == old(output) && readyBuf[..] == old(readyBuf[..])[old(ready) := buf]
      ensures old(ready) == 2 ==>
        ready == 0 && output == old(output) + Triplet(old(readyBuf[0].value), old(readyBuf[1]), buf)
    {
      readyBuf[ready] := buf;
      ready := ready + 1;
      if ready == 3 {
        WriteTriplet(readyBuf[0], readyBuf[1], readyBuf[2]);
        ready := 0;
      }
    }

    /** guac_socket_write_base64 */
    method WriteBase64(data: seq<byte>)
      requires Valid()
      modifies this`output, this`ready, readyBuf
      ensures Valid() && Pending() == Leftover(old(Pending()) + data)
      ensures output == old(output) + Triplets(old(Pending()) + data)
    {
      hide Triplet, Triplets, Leftover;
      NoTriplets(Pending());
      assert old(Pending()) + data[..0] == old(Pending());
      for i := 0 to |data|
        invariant Valid() && Pending() == Leftover(old(Pending()) + data[..i])
        invariant output == old(output) + Triplets(old(Pending()) + data[..i])
      {
        OneMoreByte(old(Pending()) + data[..i], data[i]);
        assert old(Pending()) + data[..i] + [data[i]] == old(Pending()) + data[..i + 1];
        ghost var was := readyBuf[..];
        WriteByte(Byte(data[i]));
        assert ready > 0 ==> forall k :: 0 <= k < 3 ==> readyBuf[k] == readyBuf[..][k];
      }
      assert data[..|data|] == data;
    }

    /** guac_socket_flush_base64 */
    method FlushBase64()
      requires Valid()
      modifies this`output, this`ready, readyBuf
      ensures Valid() && ready == 0 && output == old(output) + Encode(old(Pending()))
    {
      hide Triplet;
      ghost var p := Pending();
      while ready > 0
        invariant readyBuf.Length == 3 && 0 <= ready < 3
        invariant ready > 0 ==> p != [] && output == old(output) && |p| <= ready
        invariant ready > 0 ==> forall k :: 0 <= k < ready ==> readyBuf[k] == if k < |p| then Byte(p[k]) else Missing
        invariant ready == 0 ==> output == old(output) + Encode(p)
        decreases if ready == 0 then 0 else 4 - ready
      {
        WriteByte(Missing);
        assert ready > 0 ==> forall k :: 0 <= k < 3 ==> readyBuf[k] == readyBuf[..][k];
      }
    }

    /** __guac_protocol_send_args, and __guac_protocol_send_connect, which differs
        only in its opcode. */
    method SendList(opcode: seq<byte>, literal: seq<byte>, args: seq<seq<byte>>)
      requires literal == Element(opcode)
      modifies this`output
      ensures output == old(output) + Print([opcode] + args)
    {
      hide Element;
      Write(literal);
      for i := 0 to |args|
        invariant output == old(output) + literal + Begun(args[..i])
      {
        Write([COMMA]);
        WriteLengthString(args[i]);
        assert args[..i + 1][..i] == args[..i];
      }
      Write([SEMICOLON]);
      assert args[..|args|] == args && args + [] == args && ([opcode] + args)[1..] == args;
      BegunThenRest(args, []);
    }

    method SendArgs(args: seq<seq<byte>>)
      modifies this`output
      ensures output == old(output) + Print([ARGS] + args)
    {
      Literal(ARGS);
      SendList(ARGS, [0x34, DOT] + ARGS, args);
    }

    method SendConnect(args: seq<seq<byte>>)
      modifies this`output
      ensures output == old(output) + Print([CONNECT] + args)
    {
      Literal(CONNECT);
      SendList(CONNECT, [0x37, DOT] + CONNECT, args);
    }

    /** guac_protocol_send_blob: the length announced is that of the text emitted. */
    method SendBlob(index: nat, data: seq<byte>)
      requires Valid() && ready == 0
      modifies this`output, this`ready, readyBuf
      ensures Valid() && ready == 0
      ensures output == old(output) + Print([BLOB, Decimal(index), Encode(data)])
    {
      hide Element, Triplet, Print, Encode, Decimal, Triplets, Leftover;
      ghost var base := output;
      var base64Length := (|data| + 2) / 3 * 4;
      Write([0x34, DOT] + BLOB + [COMMA]);
      WriteLengthString(Decimal(index));
      Write([COMMA]);
      ghost var head := [0x34, DOT] + BLOB + [COMMA] + Element(Decimal(index)) + [COMMA];
      assert output == base + head;
      Write(Decimal(base64Length));
      Write([DOT]);
      ghost var prefix := Decimal(base64Length) + [DOT];
      assert output == base + head + prefix;
      assert Pending() + data == data;
      WriteBase64(data);
      FlushBase64();
      TripletsThenRest(data);
      assert output == base + head + prefix + Encode(data);
      Write([SEMICOLON]);
      BlobLayout(index, data);
      assert base + head + prefix + Encode(data) + [SEMICOLON] == base + (head + (prefix + Encode(data)) + [SEMICOLON]);
    }
  }

  lemma ThreeElements(a: seq<byte>, b: seq<byte>, c: seq<byte>)
    ensures Print([a, b, c]) == Element(a) + [COMMA] + Element(b) + [COMMA] + Element(c) + [SEMICOLON]
  {
    hide Element;
    assert [a, b, c][1..] == [b, c] && [b, c] + [] == [b, c];
    BegunThenRest([b, c], []);
    assert [b, c][..1] == [b] && [b][..0] == [];
    assert Begun([b]) == [COMMA] + Element(b);
    assert Begun([b, c]) == [COMMA] + Element(b) + [COMMA] + Element(c);
  }

  lemma BlobLayout(index: nat, data: seq<byte>)
    ensures Print([BLOB, Decimal(index), Encode(data)]) ==
      [0x34, DOT] + BLOB + [COMMA] + Element(Decimal(index)) + [COMMA]
        + (Decimal((|data| + 2) / 3 * 4) + [DOT] + Encode(data)) + [SEMICOLON]
  {
    hide Decimal, Encode, Chars, Print;
    Literal(BLOB);
    EncodeAscii(data);
    EncodeLength(data);
    AsciiString(Encode(data));
    ThreeElements(BLOB, Decimal(index), Encode(data));
  }
}
