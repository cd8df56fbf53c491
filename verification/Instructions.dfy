/** Instructions from one end of a connection to the other: what is printed is what
    is read, whatever the pieces in which the bytes arrive. */
module Instructions {
  import opened Base64
  import opened Feeding
  import opened Grammar
  import opened Parsers
  import opened Protocol
  import opened Utf8

  predicate NulFree(s: seq<byte>) {
    forall k :: 0 <= k < |s| ==> s[k] != 0
  }

  /** What the parser takes: strings of whole characters within its limits. */
  predicate Sendable(elements: seq<seq<byte>>) {
    && 0 < |elements| < MAX_ELEMENTS && Printable(elements) && |Print(elements)| <= BUFFER_SIZE
    && forall k :: 0 <= k < |elements| ==> NulFree(elements[k])
  }

  predicate AllSendable(sent: seq<seq<seq<byte>>>) {
    forall k :: 0 <= k < |sent| ==> Sendable(sent[k])
  }

  /** The bytes of several instructions. */
  function Stream(sent: seq<seq<seq<byte>>>): seq<byte>
    requires AllSendable(sent)
  {
    if sent == [] then [] else Print(sent[0]) + Stream(sent[1..])
  }

  /** An argument, or the opcode, as the caller of the parser sees it: the string at
      the element's pointer, up to its NUL. */
  method Fetch(parser: Parser, i: int, ghost st: State, ghost base: int, ghost at: int) returns (s: seq<byte>)
    requires parser.Stands(st, base, at) && st.mode.Complete? && 0 <= i < parser.elementc && NulFree(st.done[i])
    ensures s == st.done[i]
  {
    ghost var content := st.done[i];
    var p := parser.elementv[i];
    assert parser.Finished(p, content);
    s := [];
    assert forall k :: 0 <= k < |content| ==> parser.buf[p..p + |content|][k] == content[k];
    while parser.buf[p + |s|] != 0
      invariant |s| <= |content| && s == content[..|s|]
      decreases |content| - |s|
    {
      s := s + [parser.buf[p + |s|]];
    }
  }

  /** Reads one instruction that was printed at the front of the stream. */
  method ReadPrinted(parser: Parser, source: Source, ghost elements: seq<seq<byte>>, ghost more: seq<byte>)
    returns (ghost st: State, ghost base: int)
    requires parser.Ready() && Sendable(elements) && parser.Unparsed() + source.input == Print(elements) + more
    modifies source, parser, parser.elementv, parser.buf
    ensures parser.Ready() && parser.Unparsed() + source.input == more
    ensures st == State(Complete, elements, []) && parser.Stands(st, base, parser.unparsedStart)
  {
    hide Print, Run, Fed, Parser.Stands;
    ParseUndoesPrint(elements, more);
    var result;
    ghost var pieces;
    result, st, pieces := parser.Read(source);
    base := parser.unparsedStart - |Print(elements)|;
  }

  /** The elements of that instruction. */
  method Receive(parser: Parser, source: Source, ghost elements: seq<seq<byte>>, ghost more: seq<byte>)
    returns (received: seq<seq<byte>>)
    requires parser.Ready() && Sendable(elements) && parser.Unparsed() + source.input == Print(elements) + more
    modifies source, parser, parser.elementv, parser.buf
    ensures parser.Ready() && parser.Unparsed() + source.input == more && received == elements
  {
    hide Print, Printable, Run, Parser.Stands;
    ghost var st, base := ReadPrinted(parser, source, elements, more);
    received := [];
    parser.Fields(st, base, parser.unparsedStart);
    for i := 0 to parser.elementc
      invariant received == elements[..i]
      modifies {}
    {
      var s := Fetch(parser, i, st, base, parser.unparsedStart);
      received := received + [s];
    }
  }

  lemma NothingSent(more: seq<byte>)
    ensures Stream([]) + more == more
  {
  }

  lemma StreamStep(sent: seq<seq<seq<byte>>>, i: nat, more: seq<byte>)
    requires AllSendable(sent) && i < |sent|
    ensures sent[i] != [] && Stream(sent[i..]) + more == Print(sent[i]) + (Stream(sent[i + 1..]) + more)
  {
    hide Print, Printable, NulFree;
    assert sent[i..][1..] == sent[i + 1..];
    assert Print(sent[i]) + Stream(sent[i + 1..]) + more == Print(sent[i]) + (Stream(sent[i + 1..]) + more);
  }

  /** Successive reads return exactly the instructions sent, in order, and leave what
      follows them unread. */
  method ReceiveAll(parser: Parser, source: Source, count: nat, ghost sent: seq<seq<seq<byte>>>, ghost more: seq<byte>)
    returns (received: seq<seq<seq<byte>>>)
    requires parser.Ready() && |sent| == count && AllSendable(sent)
    requires parser.Unparsed() + source.input == Stream(sent) + more
    modifies source, parser, parser.elementv, parser.buf
    ensures parser.Ready() && received == sent && parser.Unparsed() + source.input == more
  {
    hide Print, Sendable, Stream, Run, Parser.Unparsed;
    received := [];
    assert sent[0..] == sent && sent[count..] == [];
    NothingSent(more);
    for i := 0 to count
      invariant parser.Ready() && received == sent[..i]
      invariant parser.Unparsed() + source.input == Stream(sent[i..]) + more
    {
      StreamStep(sent, i, more);
      var elements := Receive(parser, source, sent[i], Stream(sent[i + 1..]) + more);
      received := received + [elements];
    }
  }

  /** No piece ends within the content of the last element. */
  ghost predicate LastElementWhole(elements: seq<seq<byte>>, pieces: seq<seq<byte>>)
    requires elements != []
  {
    forall i :: 0 <= i <= |pieces| ==> !(LastContent(elements) <= |Joint(pieces[..i])| < |Print(elements)|)
  }

  /** An instruction of exactly 64 elements is read exactly if no piece read ends within
      the content of its last element; otherwise it is a parse error. */
  method ReadAtLimit(parser: Parser, source: Source, ghost elements: seq<seq<byte>>)
    returns (result: Outcome, ghost pieces: seq<seq<byte>>)
    requires |elements| == MAX_ELEMENTS && Printable(elements) && |Print(elements)| <= BUFFER_SIZE
    requires parser.Ready() && parser.Unparsed() + source.input == Print(elements)
    modifies source, parser, parser.elementv, parser.buf
    ensures result == if LastElementWhole(elements, pieces) then Ok else ParseError
    ensures Joint(pieces) + source.input == Print(elements)
  {
    hide Print, Printable, Run, Fed, Joint, Parser.Stands, LastContent, Judged, LastElementWhole;
    ghost var st;
    result, st, pieces := parser.Read(source);
    AtLimit(elements, pieces, source.input, result);
  }

  lemma AtLimit(elements: seq<seq<byte>>, pieces: seq<seq<byte>>, input: seq<byte>, result: Outcome)
    requires |elements| == MAX_ELEMENTS && Printable(elements) && |Print(elements)| <= BUFFER_SIZE
    requires Joint(pieces) + input == Print(elements)
    requires Judged(Print(elements), result) && (result == Closed ==> input == [])
    requires result == Ok <==> Fed(pieces).0.mode.Complete?
    requires result == ParseError <==> Fed(pieces).0.mode.Error?
    ensures result == if LastElementWhole(elements, pieces) then Ok else ParseError
  {
    hide Print, Printable, Run, Fed, Joint, LastContent;
    var p := Print(elements);
    assert p + [] == p && p[..|p|] == p;
    ParseUndoesPrint(elements, []);
    FedIs(pieces);
    forall i | 0 <= i <= |pieces|
      ensures Accepted(Run(START, Joint(pieces[..i])).0) <==> !(LastContent(elements) <= |Joint(pieces[..i])| < |p|)
    {
      JointPrefix(pieces, i);
      assert Joint(pieces[..i]) == p[..|Joint(pieces[..i])|];
      CutAcceptedIff(elements, |Joint(pieces[..i])|);
    }
    assert pieces[..|pieces|] == pieces;
    assert input == [] ==> Joint(pieces) == p;
  }

  /** Both ends at once: arguments sent by one side are those that the other receives. */
  method Exchange(args: seq<seq<byte>>) returns (received: seq<seq<byte>>)
    requires Sendable([CONNECT] + args)
    ensures received == [CONNECT] + args
  {
    hide Print, Printable, NulFree, Sendable;
    var socket := new Socket();
    socket.SendConnect(args);
    var source := new Source(socket.output);
    var parser := new Parser();
    assert parser.Unparsed() + source.input == Print([CONNECT] + args) + [];
    received := Receive(parser, source, [CONNECT] + args, []);
  }

  // ----- blobs -----

  /** The largest blob whose base64 still fits an element. */
  const BLOB_MAX := 6144

  function Ten(digits: nat): nat {
    if digits == 0 then 1 else 10 * Ten(digits - 1)
  }

  lemma {:induction false} DecimalLength(n: nat, digits: nat)
    requires digits > 0 && n < Ten(digits)
    ensures |Decimal(n)| <= digits
    decreases digits
  {
    hide DigitByte;
    if n >= 10 {
      DecimalLength(n / 10, digits - 1);
    }
  }

  lemma TenDigits()
    ensures Ten(10) == 10_000_000_000
  {
    assert Ten(2) == 100 && Ten(4) == 10_000 && Ten(6) == 1_000_000 && Ten(8) == 100_000_000;
  }

  lemma NoNul(index: nat, data: seq<byte>)
    ensures NulFree(BLOB) && NulFree(Decimal(index)) && NulFree(Encode(data))
  {
    EncodeAscii(data);
  }

  /** The three elements of a blob, of which the last is as long as its bytes. */
  lemma BlobElements(index: nat, data: seq<byte>)
    requires index < 0x8000_0000
    ensures Whole(BLOB) && Whole(Decimal(index)) && Whole(Encode(data))
    ensures Chars(BLOB) == 4 && Chars(Decimal(index)) == |Decimal(index)| <= 10
    ensures Chars(Encode(data)) == |Encode(data)| == (|data| + 2) / 3 * 4
  {
    hide Decimal, Encode, Chars, Whole, Ten;
    TenDigits();
    DecimalLength(index, 10);
    EncodeLength(data);
    EncodeAscii(data);
    AsciiString(BLOB);
    AsciiString(Decimal(index));
    AsciiString(Encode(data));
  }

  lemma BlobSize(index: nat, data: seq<byte>)
    requires index < 0x8000_0000 && |data| <= BLOB_MAX
    ensures |Print([BLOB, Decimal(index), Encode(data)])| <= BUFFER_SIZE
  {
    hide Decimal, Encode, Chars, Print, Ten;
    BlobElements(index, data);
    TenDigits();
    DecimalLength((|data| + 2) / 3 * 4, 10);
    DecimalLength(|Decimal(index)|, 10);
    BlobLayout(index, data);
  }

  /** A blob can be received exactly if it has at most 6144 bytes; those that write
      image and stream data cut it into at most 6048. */
  lemma BlobSendable(index: nat, data: seq<byte>)
    requires index < 0x8000_0000
    ensures Sendable([BLOB, Decimal(index), Encode(data)]) <==> |data| <= BLOB_MAX
  {
    hide Decimal, Encode, Chars, Whole, Print, NulFree;
    BlobElements(index, data);
    NoNul(index, data);
    if |data| <= BLOB_MAX {
      BlobSize(index, data);
    } else {
      assert Chars([BLOB, Decimal(index), Encode(data)][2]) > MAX_LENGTH;
    }
  }

  /** A blob sent by one side and decoded, in the parser's buffer, by the other. */
  method ExchangeBlob(index: nat, data: seq<byte>) returns (decoded: seq<byte>)
    requires index < 0x8000_0000 && |data| <= BLOB_MAX
    ensures decoded == data
  {
    hide Print, Sendable, Encode, Decimal, Decode, Run, Parser.Stands, NulFree;
    var socket := new Socket();
    socket.SendBlob(index, data);
    var source := new Source(socket.output);
    var parser := new Parser();
    ghost var elements := [BLOB, Decimal(index), Encode(data)];
    BlobSendable(index, data);
    assert parser.Unparsed() + source.input == Print(elements) + [];
    ghost var st, base := ReadPrinted(parser, source, elements, []);
    var p := ArgumentAt(parser, 2, st, base, parser.unparsedStart);
    ghost var tail := parser.buf[p + |Encode(data)|..];
    assert parser.buf[p..] == Encode(data) + tail;
    assert 0 in parser.buf[p..] by {
      assert parser.buf[p..][|Encode(data)|] == 0;
    }
    DecodeUndoesEncode(data, 0, tail);
    var length := DecodeInPlace(parser.buf, p);
    decoded := parser.buf[p..p + length];
  }

  /** Where an element stands in the buffer. */
  method ArgumentAt(parser: Parser, i: int, ghost st: State, ghost base: int, ghost at: int) returns (p: int)
    requires parser.Stands(st, base, at) && 0 <= i < |st.done|
    ensures p == parser.elementv[i] && 0 <= p && p + |st.done[i]| < parser.buf.Length
    ensures parser.buf[p..p + |st.done[i]|] == st.done[i] && parser.buf[p + |st.done[i]|] == 0
  {
    p := parser.elementv[i];
    assert parser.Finished(p, st.done[i]);
  }
}
