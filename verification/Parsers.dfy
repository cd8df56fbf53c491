/** The incremental parser of libguac/src/parser.c over its instruction buffer.
    Pointers into the buffer are offsets. */
module Parsers {
  import opened Feeding
  import opened Grammar
  import opened Protocol
  import opened Utf8

  const BUFFER_SIZE := 32768

  datatype ParseState = LengthState | ContentState | CompleteState | ErrorState

  /** How guac_parser_read ends: with an instruction, or with one of its errors. */
  datatype Outcome = Ok | TooLong | Closed | ParseError

  /** The connection that instructions are read from. */
  class Source {
    /** The bytes still to arrive. */
    var input: seq<byte>

    constructor (bytes: seq<byte>)
      ensures input == bytes
    {
      input := bytes;
    }

    /** guac_socket_read: some bytes that have arrived, none at the end of stream. */
    method Read(room: int) returns (chunk: seq<byte>)
      requires room > 0
      modifies this
      ensures chunk == [] <==> old(input) == []
      ensures |chunk| <= room && old(input) == chunk + input
    {
      if input == [] {
        return [];
      }
      var n :| 1 <= n <= |input| && n <= room;
      chunk, input := input[..n], input[n..];
    }
  }

  class Parser {
    var state: ParseState
    var elementLength: int
    var elementc: int
    const elementv: array<int>
    const buf: array<byte>
    var unparsedStart: int
    var unparsedEnd: int
    var opcode: int
    var argc: int

    ghost predicate Shaped() {
      buf.Length == BUFFER_SIZE && elementv.Length == MAX_ELEMENTS
    }

    /** The element finished at this offset has this content, and a NUL after it. */
    ghost predicate Finished(start: int, content: seq<byte>)
      reads buf
    {
      && 0 <= start && start + |content| < buf.Length
      && buf[start..start + |content|] == content && buf[start + |content|] == 0
    }

    /** The parser, with its instruction begun at base and read up to offset at,
        stands in the given state. */
    ghost predicate Stands(st: State, base: int, at: int)
      reads this`state, this`elementLength, this`elementc, elementv, buf
    {
      && Shaped() && 0 <= base <= at <= BUFFER_SIZE
      && (match st.mode
          case Length(n) => state == LengthState && elementLength == n
          case Content(left) => state == ContentState && elementLength == left
          case Complete => state == CompleteState
          case Error => false)
      && elementc == st.Elements() <= MAX_ELEMENTS
      && (forall i :: 0 <= i < |st.done| ==>
            base <= elementv[i] && elementv[i] + |st.done[i]| < at && Finished(elementv[i], st.done[i]))
      && (forall i :: 0 < i < elementc ==> elementv[i - 1] + |st.done[i - 1]| < elementv[i])
      && (if st.mode.Content? then
            base <= elementv[|st.done|] && elementv[|st.done|] + |st.partial| == at &&
              buf[elementv[|st.done|]..at] == st.partial
          else st.partial == [])
    }

    /** Ready for the next instruction: none has been begun. */
    ghost predicate Ready()
      reads this
    {
      && Shaped() && 0 <= unparsedStart <= unparsedEnd <= BUFFER_SIZE
      && (state == CompleteState || (state == LengthState && elementc == 0 && elementLength == 0))
    }

    ghost function Unparsed(): seq<byte>
      requires Ready()
      reads this, buf
    {
      buf[unparsedStart..unparsedEnd]
    }

    /** guac_parser_alloc */
    constructor ()
      ensures Ready() && Unparsed() == [] && fresh(buf) && fresh(elementv)
    {
      buf := new byte[BUFFER_SIZE];
      elementv := new int[MAX_ELEMENTS];
      state, elementLength, elementc := LengthState, 0, 0;
      unparsedStart, unparsedEnd, opcode, argc := 0, 0, 0, 0;
    }

    /** guac_parser_reset */
    method Reset(ghost base: int)
      requires Shaped() && 0 <= base <= BUFFER_SIZE
      modifies this`state, this`elementc, this`elementLength, this`argc
      ensures Stands(START, base, base)
    {
      argc := 0;
      state := LengthState;
      elementc := 0;
      elementLength := 0;
    }

    /** Records the start of an element whose length has been read. */
    method BeginElement(p: int, ghost st: State, ghost base: int, ghost at: int)
      requires Stands(st, base, at) && st.mode.Length? && at <= p <= BUFFER_SIZE && elementc < MAX_ELEMENTS
      modifies this`state, this`elementc, elementv
      ensures Stands(State(Content(st.mode.n), st.done, []), base, p)
    {
      elementv[elementc] := p;
      elementc := elementc + 1;
      state := ContentState;
    }

    /** Saves the length of the element; only that field of the state changes. */
    method SaveLength(n: nat, ghost st: State, ghost base: int, ghost at: int, ghost to: int) returns (ghost st': State)
      requires Stands(st, base, at) && (st.mode.Length? || st.mode.Content?)
      requires at <= to <= BUFFER_SIZE && (st.mode.Content? ==> to == at)
      modifies this`elementLength
      ensures st' == st.(mode := if st.mode.Length? then Length(n) else Content(n)) && Stands(st', base, to)
    {
      hide Finished;
      elementLength := n;
      st' := st.(mode := if st.mode.Length? then Length(n) else Content(n));
    }

    /** The first part of guac_parser_append: digits up to a dot. All digits at hand
        are taken before the length is checked. */
    method ParseLength(at: int, length: int, ghost st: State, ghost base: int) returns (parsed: int, ghost st': State)
      requires Stands(st, base, at) && st.mode.Length? && 0 <= length && at + length <= BUFFER_SIZE
      requires st.mode.n <= MAX_LENGTH && elementc < MAX_ELEMENTS
      modifies this`state, this`elementLength, this`elementc, elementv
      ensures 0 <= parsed <= length
      ensures state == ErrorState ==> RunOne(st, buf[at..at + length]).0 == FAILED
      ensures state != ErrorState ==>
        && Stands(st', base, at + parsed)
        && (st'.mode.Content? || (st'.mode.Length? && st'.mode.n <= MAX_LENGTH && parsed == length))
        && RunOne(st, buf[at..at + length]) == RunOne(st', buf[at + parsed..at + length])
    {
      hide CharSize, DigitValue, RunOne, Finished, Stands;
      Fields(st, base, at);
      var parsedLength := elementLength;
      ghost var s := buf[at..at + length];
      ghost var now, reached := st, at;
      parsed, st' := 0, st;
      assert s[0..] == s;
      while parsed < length
        invariant 0 <= parsed <= length && parsedLength >= 0
        invariant now == st && reached == at && Stands(st, base, at) && elementc < MAX_ELEMENTS
        invariant parsedLength <= MAX_LENGTH ==> RunOne(st, s) == RunOne(st.(mode := Length(parsedLength)), s[parsed..])
        invariant parsedLength > MAX_LENGTH ==> RunOne(st, s).0 == FAILED
      {
        var c := buf[at + parsed];
        assert c == s[parsed];
        LengthStep(st, s, parsed, parsedLength);
        parsed := parsed + 1;
        if IsDigit(c) {
          parsedLength := parsedLength * 10 + DigitValue(c);
        } else if c == DOT {
          BeginElement(at + parsed, st, base, at);
          now, reached := State(Content(st.mode.n), st.done, []), at + parsed;
          break;
        } else {
          state := ErrorState;
          return 0, FAILED;
        }
      }
      if parsedLength > MAX_LENGTH {
        state := ErrorState;
        return 0, FAILED;
      }
      st' := SaveLength(parsedLength, now, base, reached, at + parsed);
      Fields(st', base, at + parsed);
      assert buf[at + parsed..at + length] == s[parsed..];
    }

    lemma Fields(st: State, base: int, at: int)
      requires Stands(st, base, at)
      ensures Shaped() && 0 <= base <= at <= BUFFER_SIZE
      ensures match st.mode
        case Length(n) => state == LengthState && elementLength == n && st.partial == []
        case Content(left) => state == ContentState && elementLength == left
        case Complete => state == CompleteState
        case Error => false
      ensures elementc == st.Elements() <= MAX_ELEMENTS
    {
    }

    /** Overwrites the terminator of the element in progress. */
    method Terminate(p: int, ghost st: State, ghost base: int)
      requires Stands(st, base, p) && st.mode.Content? && p < BUFFER_SIZE
      modifies buf
      ensures forall k :: 0 <= k < BUFFER_SIZE && k != p ==> buf[k] == old(buf[k])
      ensures forall i :: 0 <= i < |st.done| ==> Finished(elementv[i], st.done[i])
      ensures Finished(elementv[|st.done|], st.partial)
    {
      buf[p] := 0;
      forall i | 0 <= i < |st.done| ensures Finished(elementv[i], st.done[i]) {
        assert old(Finished(elementv[i], st.done[i]));
        assert forall k :: elementv[i] <= k <= elementv[i] + |st.done[i]| ==> buf[k] == old(buf[k]);
      }
    }

    /** The end of an element: the terminator decides how to go on. */
    method EndElement(p: int, charLength: int, ghost st: State, ghost base: int) returns (ghost st': State)
      requires Stands(st, base, p) && st.mode == Content(0) && 0 < charLength && p + charLength <= BUFFER_SIZE
      modifies this`state, this`opcode, this`argc, buf
      ensures forall k :: 0 <= k < BUFFER_SIZE && k != p ==> buf[k] == old(buf[k])
      ensures state == ErrorState <==> old(buf[p]) != SEMICOLON && old(buf[p]) != COMMA
      ensures state != ErrorState ==> Stands(st', base, p + charLength)
      ensures state != ErrorState ==>
        st' == State(if old(buf[p]) == SEMICOLON then Complete else Length(0), st.done + [st.partial], [])
      ensures state == CompleteState ==> opcode == elementv[0] && argc == elementc - 1
    {
      hide Finished;
      var c := buf[p];
      Terminate(p, st, base);
      st' := FAILED;
      if c == SEMICOLON {
        state := CompleteState;
        opcode := elementv[0];
        argc := elementc - 1;
        st' := State(Complete, st.done + [st.partial], []);
      } else if c == COMMA {
        state := LengthState;
        st' := State(Length(0), st.done + [st.partial], []);
      } else {
        state := ErrorState;
      }
    }

    /** One more character of the content. */
    method TakeChar(p: int, charLength: int, ghost st: State, ghost base: int) returns (ghost st': State)
      requires Stands(st, base, p) && st.mode.Content? && st.mode.left > 0 && 0 < charLength &&
        p + charLength <= BUFFER_SIZE
      modifies this`elementLength
      ensures st' == State(Content(st.mode.left - 1), st.done, st.partial + buf[p..p + charLength])
      ensures Stands(st', base, p + charLength)
    {
      hide Finished;
      elementLength := elementLength - 1;
      st' := State(Content(elementLength), st.done, st.partial + buf[p..p + charLength]);
      assert buf[elementv[|st.done|]..p + charLength] == buf[elementv[|st.done|]..p] + buf[p..p + charLength];
    }

    lemma Slices(from: int, until: int, n: nat)
      requires 0 <= from && from + n <= until <= buf.Length
      ensures buf[from..until][..n] == buf[from..from + n] && buf[from..until][n..] == buf[from + n..until]
    {
    }

    lemma Same(bytes: seq<byte>, from: int, until: int)
      requires 0 <= from <= until <= buf.Length && |bytes| == until - from
      requires forall k :: from <= k < until ==> buf[k] == bytes[k - from]
      ensures buf[from..until] == bytes
    {
    }

    /** One character of the content, if all of it has arrived, or the terminator. */
    method ParseChar(p: int, end: int, ghost st: State, ghost base: int) returns (n: int, ghost st': State)
      requires Stands(st, base, p) && st.mode.Content? && p < end <= BUFFER_SIZE
      modifies this`state, this`elementLength, this`opcode, this`argc, buf
      ensures 0 <= n <= end - p && forall k :: p + n <= k < BUFFER_SIZE ==> buf[k] == old(buf[k])
      ensures state == ErrorState ==> RunOne(st, old(buf[p..end])).0 == FAILED
      ensures state != ErrorState ==> Stands(st', base, p + n) && (state == ContentState <==> st'.mode.Content?)
      ensures state == ContentState ==> elementLength >= 0
      ensures state != ErrorState && (n == 0 || !st'.mode.Content?) ==>
        RunOne(st, old(buf[p..end])) == (st', buf[p + n..end])
      ensures state != ErrorState && st'.mode.Content? ==>
        buf[..] == old(buf[..]) && RunOne(st, old(buf[p..end])) == RunOne(st', buf[p + n..end])
      ensures state != ErrorState && st'.mode.Length? ==> st'.mode.n == 0
      ensures state != ErrorState && st'.mode.Complete? ==> opcode == elementv[0] && argc == elementc - 1
    {
      hide CharSize, RunOne, Finished, Stands;
      Fields(st, base, p);
      ghost var rest := buf[p..end];
      ContentStep(st, rest);
      n, st' := CharSize(buf[p]), st;
      if p + n > end {
        return 0, st;
      }
      Slices(p, end, n);
      if elementLength == 0 {
        st' := EndElement(p, n, st, base);
        Same(rest[n..], p + n, end);
      } else {
        st' := TakeChar(p, n, st, base);
      }
      if state != ErrorState {
        Fields(st', base, p + n);
      }
    }

    /** The second part of guac_parser_append: whole characters up to the end of the
        element, whose terminator is overwritten with NUL. */
    method ParseContent(at: int, from: int, length: int, ghost st: State, ghost base: int)
      returns (parsed: int, ghost st': State)
      requires Stands(st, base, at + from) && st.mode.Content? && 0 <= at && 0 <= from <= length &&
        at + length <= BUFFER_SIZE
      modifies this`state, this`elementLength, this`opcode, this`argc, buf
      ensures from <= parsed <= length || (parsed == 0 && state == ErrorState)
      ensures state == ErrorState ==> RunOne(st, old(buf[at + from..at + length])).0 == FAILED
      ensures state != ErrorState ==>
        && Stands(st', base, at + parsed) && (st'.mode.Length? ==> st'.mode.n == 0)
        && RunOne(st, old(buf[at + from..at + length])) == (st', buf[at + parsed..at + length])
        && (forall k :: at + parsed <= k < BUFFER_SIZE ==> buf[k] == old(buf[k]))
        && (st'.mode.Complete? ==> opcode == elementv[0] && argc == elementc - 1)
    {
      hide RunOne, Finished, Stands;
      Fields(st, base, at + from);
      ghost var s := buf[at + from..at + length];
      parsed, st' := from, st;
      while parsed < length && elementLength >= 0
        invariant from <= parsed <= length && Stands(st', base, at + parsed)
        invariant elementLength >= 0
        invariant Shaped() && state == ContentState && st'.mode.Content? && buf[..] == old(buf[..])
        invariant RunOne(st, s) == RunOne(st', buf[at + parsed..at + length])
        decreases length - parsed
      {
        var n: int;
        n, st' := ParseChar(at + parsed, at + length, st', base);
        if state == ErrorState {
          return 0, FAILED;
        }
        parsed := parsed + n;
        if n == 0 || state != ContentState {
          return;
        }
      }
      RunOneStep(st', []);
      assert parsed == length && buf[at + parsed..at + length] == [];
    }

    /** guac_parser_append on bytes of the buffer: it fails within the last element
        allowed, and otherwise takes steps of the machine up to the end of an element. */
    method Append(at: int, length: int, ghost st: State, ghost base: int) returns (parsed: int, ghost st': State)
      requires Stands(st, base, at) && !st.mode.Complete? && 0 <= length && at + length <= BUFFER_SIZE
      requires st.mode.Length? ==> st.mode.n <= MAX_LENGTH
      modifies this`state, this`elementLength, this`elementc, this`opcode, this`argc, elementv, buf
      ensures 0 <= parsed <= length && (state == ErrorState ==> parsed == 0)
      ensures state == ErrorState <==>
        st.Elements() == MAX_ELEMENTS || RunOne(st, old(buf[at..at + length])).0 == FAILED
      ensures state != ErrorState ==>
        && Stands(st', base, at + parsed) && (st'.mode.Length? ==> st'.mode.n <= MAX_LENGTH)
        && RunOne(st, old(buf[at..at + length])) == (st', buf[at + parsed..at + length])
        && (forall k :: at + parsed <= k < BUFFER_SIZE ==> buf[k] == old(buf[k]))
        && (st'.mode.Complete? ==> opcode == elementv[0] && argc == elementc - 1)
    {
      hide CharSize, RunOne, Finished, Stands, Next;
      Fields(st, base, at);
      if elementc == MAX_ELEMENTS && state != CompleteState {
        state := ErrorState;
        return 0, FAILED;
      }
      parsed, st' := 0, st;
      if state == LengthState {
        parsed, st' := ParseLength(at, length, st, base);
        if state == ErrorState {
          return 0, FAILED;
        }
        Fields(st', base, at + parsed);
        RunOneStep(st', []);
        assert parsed == length ==> buf[at + parsed..at + length] == [];
      }
      if state == ContentState {
        parsed, st' := ParseContent(at, parsed, length, st', base);
        if state == ErrorState {
          return 0, FAILED;
        }
        Fields(st', base, at + parsed);
      }
    }

    /** "Shift backward": moves the instruction begun, and the bytes that follow, to
        the start of the buffer, and its elements' pointers with them. */
    method Compact(offset: int, at: int, end: int, ghost st: State)
      requires Stands(st, offset, at) && at <= end <= BUFFER_SIZE
      modifies buf, elementv
      ensures Stands(st, 0, at - offset)
      ensures buf[at - offset..end - offset] == old(buf[at..end])
    {
      hide Finished, Holds;
      ghost var was := buf[..];
      assert buf[at..end] == was[at..end];
      forall i | 0 <= i < |st.done| ensures Holds(was, elementv[i], st.done[i]) {
        assert Finished(elementv[i], st.done[i]);
        FinishedHolds(elementv[i], st.done[i]);
      }
      assert st.mode.Content? ==> was[elementv[|st.done|]..at] == st.partial;
      forall k | 0 <= k < end - offset {
        buf[k] := buf[offset + k];
      }
      MovePointers(offset);
      forall i | 0 <= i < |st.done| ensures Finished(elementv[i], st.done[i]) {
        assert Holds(was, old(elementv[i]), st.done[i]);
        Moved(offset, end, was, old(elementv[i]), st.done[i]);
      }
      if st.mode.Content? {
        MovedSlice(offset, end, was, old(elementv[|st.done|]), at);
        assert elementv[|st.done|] == old(elementv[|st.done|]) - offset;
        assert buf[elementv[|st.done|]..at - offset] == st.partial;
      }
      MovedSlice(offset, end, was, at, end);
      assert forall i :: 0 < i < elementc ==> elementv[i - 1] + |st.done[i - 1]| < elementv[i];
      assert forall i :: 0 <= i < |st.done| ==> 0 <= elementv[i] && elementv[i] + |st.done[i]| < at - offset;
    }

    /** Finished, in bytes seen as a value. */
    ghost predicate Holds(bytes: seq<byte>, start: int, content: seq<byte>) {
      0 <= start && start + |content| < |bytes| && bytes[start..start + |content|] == content &&
        bytes[start + |content|] == 0
    }

    lemma FinishedHolds(start: int, content: seq<byte>)
      ensures Finished(start, content) == Holds(buf[..], start, content)
    {
    }

    lemma MovedSlice(offset: int, end: int, was: seq<byte>, from: int, to: int)
      requires 0 <= offset <= from <= to <= end <= |was| == buf.Length
      requires forall k :: 0 <= k < end - offset ==> buf[k] == was[offset + k]
      ensures buf[from - offset..to - offset] == was[from..to]
    {
    }

    method MovePointers(offset: int)
      requires 0 <= elementc <= elementv.Length
      modifies elementv
      ensures forall k :: 0 <= k < elementv.Length ==>
        elementv[k] == old(elementv[k]) - if k < elementc then offset else 0
    {
      for i := 0 to elementc
        invariant forall k :: 0 <= k < elementv.Length ==> elementv[k] == old(elementv[k]) - if k < i then offset else 0
      {
        elementv[i] := elementv[i] - offset;
      }
    }

    /** A finished element is found again in the bytes moved. */
    lemma Moved(offset: int, end: int, was: seq<byte>, start: int, content: seq<byte>)
      requires Holds(was, start, content) && 0 <= offset <= start && start + |content| < end <= |was| == buf.Length
      requires forall k :: 0 <= k < end - offset ==> buf[k] == was[offset + k]
      ensures Finished(start - offset, content)
    {
      MovedSlice(offset, end, was, start, start + |content|);
    }

    /** What the read loop keeps: m bytes of the stream have arrived since the
        instruction began at base, and the machine has come to st and at. */
    ghost predicate Reading(stream: seq<byte>, input: seq<byte>, st: State, base: int, at: int, end: int)
      reads this`state, this`elementLength, this`elementc, elementv, buf
    {
      && Stands(st, base, at) && at <= end <= BUFFER_SIZE && (st.mode.Length? ==> st.mode.n <= MAX_LENGTH)
      && end - base <= |stream| && input == stream[end - base..]
      && Run(START, stream[..end - base]) == Run(st, buf[at..end])
    }

    /** "Begin next instruction if previous was ended" */
    method BeginReading(ghost input: seq<byte>)
      requires Ready()
      modifies this`state, this`elementc, this`elementLength, this`argc
      ensures Reading(old(Unparsed()) + input, input, START, unparsedStart, unparsedStart, unparsedEnd)
      ensures state == LengthState
    {
      hide Run, Finished;
      if state == CompleteState {
        Reset(unparsedStart);
      }
      ghost var stream := Unparsed() + input;
      assert stream[unparsedEnd - unparsedStart..] == input;
      assert stream[..unparsedEnd - unparsedStart] == Unparsed();
    }

    /** The elements, begun at these offsets, are finished in the bytes. */
    ghost predicate AllFinished(bytes: seq<byte>, starts: seq<int>, done: seq<seq<byte>>) {
      forall i :: 0 <= i < |done| && i < |starts| ==>
        0 <= starts[i] && starts[i] + |done[i]| < |bytes| &&
        bytes[starts[i]..starts[i] + |done[i]|] == done[i] && bytes[starts[i] + |done[i]|] == 0
    }

    /** Finished elements before an offset depend on nothing behind it. */
    lemma FinishedBefore(done: seq<seq<byte>>, end: int)
      requires Shaped() && 0 <= end <= BUFFER_SIZE && |done| <= MAX_ELEMENTS
      requires forall i :: 0 <= i < |done| ==> 0 <= elementv[i] && elementv[i] + |done[i]| < end
      ensures AllFinished(buf[..end], elementv[..], done) <==>
        forall i :: 0 <= i < |done| ==> Finished(elementv[i], done[i])
    {
      forall i | 0 <= i < |done|
        ensures buf[..end][elementv[i]..elementv[i] + |done[i]|] == buf[elementv[i]..elementv[i] + |done[i]|]
      {
      }
    }

    /** Puts bytes into the buffer from offset end on. */
    method Put(chunk: seq<byte>, end: int)
      requires 0 <= end && end + |chunk| <= buf.Length
      modifies buf
      ensures buf[..end] == old(buf[..end]) && buf[end..end + |chunk|] == chunk
    {
      forall k | 0 <= k < |chunk| {
        buf[end + k] := chunk[k];
      }
    }

    /** Stores bytes from offset end on, which leaves the parser where it stands. */
    method Store(chunk: seq<byte>, end: int, ghost st: State, ghost base: int, ghost at: int)
      requires Stands(st, base, at) && at <= end && end + |chunk| <= BUFFER_SIZE
      modifies buf
      ensures Stands(st, base, at) && buf[at..end + |chunk|] == old(buf[at..end]) + chunk
    {
      hide Finished, AllFinished;
      FinishedBefore(st.done, end);
      ghost var before, starts := buf[..end], elementv[..];
      if st.mode.Content? {
        assert before[elementv[|st.done|]..at] == st.partial;
      }
      Put(chunk, end);
      assert elementv[..] == starts;
      FinishedBefore(st.done, end);
      if st.mode.Content? {
        assert buf[elementv[|st.done|]..at] == buf[..end][elementv[|st.done|]..at];
      }
      assert buf[at..end + |chunk|] == buf[..end][at..] + buf[end..end + |chunk|];
    }

    /** Reads more bytes behind those at hand. */
    method ReadMore(source: Source, end: int, ghost stream: seq<byte>, ghost st: State, ghost base: int, ghost at: int)
      returns (n: int, ghost chunk: seq<byte>)
      requires Reading(stream, source.input, st, base, at, end) && end < BUFFER_SIZE
      modifies source, buf
      ensures n >= 0 && (n == 0 <==> old(source.input) == []) && |source.input| == old(|source.input|) - n
      ensures Reading(stream, source.input, st, base, at, end + n)
      ensures n == |chunk| && old(source.input) == chunk + source.input
      ensures end + n <= BUFFER_SIZE && buf[at..end + n] == old(buf[at..end]) + chunk
    {
      hide Finished, Run, Stands;
      Fields(st, base, at);
      var bytes := source.Read(BUFFER_SIZE - end);
      n, chunk := |bytes|, bytes;
      Store(bytes, end, st, base, at);
      assert stream[..end + n - base] == stream[..end - base] + chunk;
      RunOn(START, stream[..end - base], st, old(buf[at..end]), chunk);
    }

    /** Where the machine comes to on more of the stream. */
    lemma Overall(stream: seq<byte>, input: seq<byte>, st: State, base: int, at: int, end: int, m: int)
      requires Reading(stream, input, st, base, at, end) && end - base <= m <= |stream|
      ensures Shaped() && 0 <= base <= at <= end <= BUFFER_SIZE && |stream| == end - base + |input|
      ensures Run(START, stream[..m]) == Run(st, buf[at..end] + stream[end - base..m])
      ensures Run(START, stream[..m]).0 == FAILED || st.Elements() <= Run(START, stream[..m]).0.Elements()
    {
      hide Run, Finished;
      assert stream[..m] == stream[..end - base] + stream[end - base..m];
      RunOn(START, stream[..end - base], st, buf[at..end], stream[end - base..m]);
      ElementsGrow(st, buf[at..end] + stream[end - base..m]);
    }

    /** The machine has failed, or come to as many elements as are allowed. */
    ghost predicate AtLimit(stream: seq<byte>, m: int)
      requires 0 <= m <= |stream|
    {
      Run(START, stream[..m]).0 == FAILED || Run(START, stream[..m]).0.Elements() >= MAX_ELEMENTS
    }

    lemma LimitReached(stream: seq<byte>, input: seq<byte>, st: State, base: int, at: int, end: int, m: int)
      requires Reading(stream, input, st, base, at, end) && end - base <= m <= |stream|
      requires st.Elements() == MAX_ELEMENTS || RunOne(st, buf[at..end]).0 == FAILED
      ensures AtLimit(stream, m)
    {
      hide Finished, Run, RunOne, Stands;
      Overall(stream, input, st, base, at, end, m);
      if st.Elements() < MAX_ELEMENTS {
        var s := buf[at..end];
        RunOneThenRun(st, s);
        CompleteStops(FAILED, RunOne(st, s).1);
        RunInPieces(st, s, stream[end - base..m]);
        CompleteStops(FAILED, Run(st, s).1 + stream[end - base..m]);
      }
    }

    /** One call of guac_parser_append within the loop. */
    method ParseMore(at: int, end: int, ghost stream: seq<byte>, ghost input: seq<byte>, ghost st: State,
                     ghost base: int)
      returns (parsed: int, ghost st': State)
      requires Reading(stream, input, st, base, at, end) && !st.mode.Complete?
      modifies this`state, this`elementLength, this`elementc, this`opcode, this`argc, elementv, buf
      ensures 0 <= parsed <= end - at
      ensures state == ErrorState ==>
        parsed == 0 && Feed(st, old(buf[at..end])).0 == FAILED && Judged(stream, ParseError)
      ensures state != ErrorState ==> Reading(stream, input, st', base, at + parsed, end)
      ensures state != ErrorState ==> Feed(st, old(buf[at..end])) == Feed(st', buf[at + parsed..end])
      ensures state != ErrorState && parsed == 0 ==>
        StepSize(st', buf[at..end]) == 0 && !st'.mode.Complete? && Feed(st', buf[at..end]) == (st', buf[at..end])
      ensures state == CompleteState ==> opcode == elementv[0] && argc == elementc - 1
    {
      hide Finished, Run, RunOne, Stands, StepSize, AtLimit, Judged;
      Fields(st, base, at);
      ghost var s := buf[at..end];
      if st.Elements() == MAX_ELEMENTS || RunOne(st, s).0 == FAILED {
        LimitReached(stream, input, st, base, at, end, Min(|stream|, BUFFER_SIZE));
        LimitReached(stream, input, st, base, at, end, |stream|);
        LimitJudged(stream);
      }
      parsed, st' := Append(at, end - at, st, base);
      RunOneThenRun(st, s);
      RunOneTakes(st, s);
      FeedStep(st, s);
      if state != ErrorState {
        Fields(st', base, at + parsed);
        if parsed == 0 {
          RunOneStep(st, s);
        }
      }
    }

    /** Compaction does not change what has been read. */
    method CompactReading(base: int, at: int, end: int, ghost stream: seq<byte>, ghost input: seq<byte>,
                          ghost st: State)
      requires Reading(stream, input, st, base, at, end)
      modifies buf, elementv
      ensures Reading(stream, input, st, 0, at - base, end - base) && buf[at - base..end - base] == old(buf[at..end])
    {
      hide Finished, Run, Stands;
      Fields(st, base, at);
      Compact(base, at, end, st);
    }

    /** A full buffer without room to shift holds no whole instruction. */
    lemma NoRoom(stream: seq<byte>, input: seq<byte>, st: State, at: int)
      requires Reading(stream, input, st, 0, at, BUFFER_SIZE) && !st.mode.Complete? &&
        StepSize(st, buf[at..BUFFER_SIZE]) == 0
      ensures Judged(stream, TooLong)
    {
      hide Finished, Run, Stands, StepSize;
      Fields(st, 0, at);
      RunStep(st, buf[at..BUFFER_SIZE]);
      var r := Run(START, stream);
      if r.0.mode.Complete? && |stream| - |r.1| <= BUFFER_SIZE {
        CompleteIsDecided(START, stream, BUFFER_SIZE);
      }
      Overall(stream, input, st, 0, at, BUFFER_SIZE, |stream|);
      assert stream[..|stream|] == stream;
    }

    /** At the end of stream, bytes that take no step hold no whole instruction. */
    lemma NoMore(stream: seq<byte>, st: State, base: int, at: int, end: int)
      requires Reading(stream, [], st, base, at, end) && !st.mode.Complete? && StepSize(st, buf[at..end]) == 0
      requires end < BUFFER_SIZE
      ensures Judged(stream, Closed)
    {
      hide Finished, Run, Stands, StepSize;
      Fields(st, base, at);
      Overall(stream, [], st, base, at, end, |stream|);
      assert buf[at..end] + stream[end - base..] == buf[at..end] && stream[..|stream|] == stream;
      RunStep(st, buf[at..end]);
    }

    /** Makes room if the buffer is full, and reads more; the outcome is Ok if some
        bytes could be read. */
    method Refill(source: Source, base: int, at: int, end: int, ghost stream: seq<byte>, ghost st: State)
      returns (outcome: Outcome, base': int, at': int, end': int, ghost chunk: seq<byte>)
      requires Reading(stream, source.input, st, base, at, end)
      requires !st.mode.Complete? && StepSize(st, buf[at..end]) == 0
      modifies source, elementv, buf
      ensures outcome != ParseError
      ensures outcome == TooLong || outcome == Closed ==> Judged(stream, outcome) && source.input == old(source.input)
      ensures outcome == Closed ==> source.input == []
      ensures outcome == Ok ==>
        && Reading(stream, source.input, st, base', at', end') && chunk != []
        && old(source.input) == chunk + source.input && |source.input| < old(|source.input|)
        && 0 <= at' <= end' <= BUFFER_SIZE && buf[at'..end'] == old(buf[at..end]) + chunk
    {
      hide Run, Finished, Stands, StepSize, Reading, Judged;
      base', at', end', chunk := base, at, end, [];
      if end == BUFFER_SIZE {
        if base != 0 {
          CompactReading(base, at, end, stream, source.input, st);
          end', at', base' := end - base, at - base, 0;
        } else {
          NoRoom(stream, source.input, st, at);
          return TooLong, base', at', end', [];
        }
      }
      Underway(stream, source.input, st, base', at', end');
      if source.input == [] {
        NoMore(stream, st, base', at', end');
      }
      var n: int;
      n, chunk := ReadMore(source, end', stream, st, base', at');
      outcome, end' := if n == 0 then Closed else Ok, end' + n;
    }

    /** The instruction at the front of the stream has been read. */
    lemma Arrived(stream: seq<byte>, input: seq<byte>, st: State, base: int, at: int, end: int)
      requires Reading(stream, input, st, base, at, end) && state == CompleteState
      ensures Shaped() && 0 <= base <= at <= end <= BUFFER_SIZE && Stands(st, base, at) && st.mode.Complete?
      ensures Run(START, stream) == (st, buf[at..end] + input) && base == at - (|stream| - |buf[at..end] + input|)
      ensures Judged(stream, Ok)
    {
      hide Finished, Run, Stands, StepSize;
      Fields(st, base, at);
      Overall(stream, input, st, base, at, end, |stream|);
      assert stream[..|stream|] == stream && stream[end - base..] == input;
      CompleteStops(st, buf[at..end] + input);
      var m := Min(|stream|, BUFFER_SIZE);
      Overall(stream, input, st, base, at, end, m);
      CompleteStops(st, buf[at..end] + stream[end - base..m]);
    }

    /** What is known in the loop: the mode is the state. */
    lemma Underway(stream: seq<byte>, input: seq<byte>, st: State, base: int, at: int, end: int)
      requires Reading(stream, input, st, base, at, end)
      ensures Shaped() && 0 <= base <= at <= end <= BUFFER_SIZE
      ensures (state == CompleteState <==> st.mode.Complete?) && !st.mode.Error?
    {
      hide Finished, Run, Stands;
      Fields(st, base, at);
    }

    /** guac_parser_read, on a connection without errors. The outcome is that of feeding
        the pieces read. Below the limit on elements it depends on the stream alone: the
        instruction that begins it is returned exactly if it is complete and fits the
        buffer. */
    method Read(source: Source) returns (result: Outcome, ghost st: State, ghost pieces: seq<seq<byte>>)
      requires Ready()
      modifies source, this, elementv, buf
      ensures var stream := old(Unparsed() + source.input);
        var r := Run(START, stream);
        result == Ok ==>
          && Ready() && r == (st, Unparsed() + source.input) && st.mode.Complete?
          && Stands(st, unparsedStart - (|stream| - |r.1|), unparsedStart)
          && opcode == elementv[0] && argc == elementc - 1
      ensures Judged(old(Unparsed() + source.input), result) && (result == Closed ==> source.input == [])
      ensures pieces != [] && pieces[0] == old(Unparsed())
      ensures old(Unparsed() + source.input) == Joint(pieces) + source.input
      ensures var fed := Fed(pieces);
        && (result == Ok <==> fed.0.mode.Complete?) && (result == Ok ==> fed == (st, Unparsed()))
        && (result == ParseError <==> fed.0.mode.Error?)
    {
      hide CharSize, Run, Finished, Stands, Next, StepSize, Reading, Feed, Fed, Joint, Judged;
      ghost var stream := Unparsed() + source.input;
      pieces := [Unparsed()];
      var end, start, base := unparsedEnd, unparsedStart, unparsedStart;
      BeginReading(source.input);
      FedFirst(buf[start..end]);
      st := START;
      while state != CompleteState && state != ErrorState
        invariant Shaped()
        invariant if state == ErrorState then Judged(stream, ParseError) && Fed(pieces).0 == FAILED
                  else Reading(stream, source.input, st, base, start, end)
        invariant state != ErrorState ==> 0 <= start <= end <= BUFFER_SIZE && Fed(pieces) == Feed(st, buf[start..end])
        invariant pieces != [] && pieces[0] == old(Unparsed()) && stream == Joint(pieces) + source.input
        invariant state == CompleteState ==> opcode == elementv[0] && argc == elementc - 1
        decreases |source.input|, end - start, if state == ErrorState then 0 else 1
      {
        Underway(stream, source.input, st, base, start, end);
        var parsed: int;
        parsed, st := ParseMore(start, end, stream, source.input, st, base);
        if parsed == 0 && state != ErrorState {
          Underway(stream, source.input, st, base, start, end);
          var outcome: Outcome;
          ghost var chunk, left := [], buf[start..end];
          outcome, base, start, end, chunk := Refill(source, base, start, end, stream, st);
          if outcome != Ok {
            return outcome, st, pieces;
          }
          FedMore(pieces, chunk, st, left, source.input);
          pieces := pieces + [chunk];
        } else {
          start := start + parsed;
        }
      }
      if state == ErrorState {
        return ParseError, st, pieces;
      }
      Arrived(stream, source.input, st, base, start, end);
      FeedStep(st, buf[start..end]);
      unparsedStart, unparsedEnd := start, end;
      return Ok, st, pieces;
    }

    lemma LimitJudged(stream: seq<byte>)
      requires AtLimit(stream, Min(|stream|, BUFFER_SIZE)) && AtLimit(stream, |stream|)
      ensures Judged(stream, ParseError)
    {
      hide Run;
      assert stream[..|stream|] == stream;
    }
  }

  /** What the stream says about the outcome. As long as there are fewer elements than
      the limit, as much of it as fits the buffer decides. */
  ghost predicate Judged(stream: seq<byte>, result: Outcome) {
    var (whole, left) := Run(START, stream);
    var st := Run(START, stream[..Min(|stream|, BUFFER_SIZE)]).0;
    && (whole.Elements() < MAX_ELEMENTS ==>
          (result == Ok <==> whole.mode.Complete? && |stream| - |left| <= BUFFER_SIZE))
    && (result == ParseError ==> whole == FAILED || whole.Elements() >= MAX_ELEMENTS)
    && (result == ParseError ==> st == FAILED || st.Elements() >= MAX_ELEMENTS)
    && (st.mode.Error? ==> result == ParseError)
    && (!st.mode.Error? && st.Elements() < MAX_ELEMENTS ==>
          result == if st.mode.Complete? then Ok else if |stream| >= BUFFER_SIZE then TooLong else Closed)
    && (result == TooLong ==> |stream| >= BUFFER_SIZE && !st.mode.Complete?)
    && (result == Closed ==> |stream| < BUFFER_SIZE && !whole.mode.Complete?)
  }

  /** One call within the loop, seen from the pieces. */
  lemma FeedStep(st: State, s: seq<byte>)
    ensures st.mode.Complete? || st.mode.Error? ==> Feed(st, s) == (st, s)
    ensures !st.mode.Complete? && !st.mode.Error? && st.Elements() >= MAX_ELEMENTS ==> Feed(st, s).0 == FAILED
    ensures !st.mode.Complete? && !st.mode.Error? && st.Elements() < MAX_ELEMENTS ==>
      var (next, rest) := RunOne(st, s);
      && (|rest| < |s| ==> Feed(st, s) == Feed(next, rest)) && (|rest| >= |s| ==> Feed(st, s) == (next, rest))
      && (next.mode.Error? ==> Feed(st, s).0 == next)
  {
    hide RunOne;
    RunOneTakes(st, s);
  }

  /** One turn of the loop over content. */
  lemma ContentStep(st: State, s: seq<byte>)
    requires st.mode.Content? && s != []
    ensures var n := CharSize(s[0]);
      if n > |s| then RunOne(st, s) == (st, s)
      else if st.mode.left > 0 then
        RunOne(st, s) == RunOne(State(Content(st.mode.left - 1), st.done, st.partial + s[..n]), s[n..])
      else if s[0] == SEMICOLON then
        RunOne(st, s) == (State(Complete, st.done + [st.partial], []), s[n..])
      else if s[0] == COMMA then
        RunOne(st, s) == (State(Length(0), st.done + [st.partial], []), s[n..])
      else RunOne(st, s).0 == FAILED
  {
    hide CharSize, RunOne;
    RunOneStep(st, s);
  }

  /** One turn of the loop over a length prefix. */
  lemma LengthStep(st: State, s: seq<byte>, parsed: nat, n: nat)
    requires st.mode.Length? && st.partial == [] && parsed < |s|
    requires n <= MAX_LENGTH ==> RunOne(st, s) == RunOne(st.(mode := Length(n)), s[parsed..])
    requires n > MAX_LENGTH ==> RunOne(st, s).0 == FAILED
    ensures var c := s[parsed];
      if n > MAX_LENGTH then RunOne(st, s).0 == FAILED
      else if IsDigit(c) then
        var m := n * 10 + DigitValue(c);
        if m <= MAX_LENGTH then RunOne(st, s) == RunOne(st.(mode := Length(m)), s[parsed + 1..])
        else RunOne(st, s).0 == FAILED
      else if c == DOT then RunOne(st, s) == RunOne(State(Content(n), st.done, []), s[parsed + 1..])
      else RunOne(st, s).0 == FAILED
  {
    hide CharSize, DigitValue, RunOne;
    if n <= MAX_LENGTH {
      RunOneStep(st.(mode := Length(n)), s[parsed..]);
      assert s[parsed..][1..] == s[parsed + 1..];
    }
  }
}
