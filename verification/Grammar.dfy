/** Instructions as libguac/src/parser.c reads them, one step at a time, over the
    whole stream of bytes. */
module Grammar {
  import opened Protocol
  import opened Utf8

  const MAX_LENGTH := 8192
  const MAX_ELEMENTS := 64

  predicate IsDigit(c: byte) {
    0x30 <= c <= 0x39
  }

  function DigitValue(c: byte): (d: nat)
    requires IsDigit(c)
    ensures d < 10 && DigitByte(d) == c
  {
    if c == 0x30 then 0 else if c == 0x31 then 1 else if c == 0x32 then 2 else if c == 0x33 then 3
    else if c == 0x34 then 4 else if c == 0x35 then 5 else if c == 0x36 then 6 else if c == 0x37 then 7
    else if c == 0x38 then 8 else 9
  }

  /** Reading a length so far n, or content of which left characters remain. */
  datatype Mode = Length(n: nat) | Content(left: nat) | Complete | Error

  /** The elements finished, and the bytes read of the one in progress. */
  datatype State = State(mode: Mode, done: seq<seq<byte>>, partial: seq<byte>) {
    function Elements(): nat {
      |done| + if mode.Content? then 1 else 0
    }
  }

  const START := State(Length(0), [], [])
  const FAILED := State(Error, [], [])

  /** The bytes that the next step takes, or 0 when it must wait or there is none. */
  function StepSize(st: State, s: seq<byte>): (n: nat)
    ensures n <= |s|
  {
    if s == [] then 0
    else
      match st.mode
      case Length(_) => 1
      case Content(_) => if CharSize(s[0]) <= |s| then CharSize(s[0]) else 0
      case _ => 0
  }

  function Next(st: State, s: seq<byte>): State
    requires StepSize(st, s) > 0
  {
    var c := s[0];
    match st.mode
    case Length(n) =>
      if IsDigit(c) then
        if n * 10 + DigitValue(c) > MAX_LENGTH then FAILED else st.(mode := Length(n * 10 + DigitValue(c)))
      else if c == DOT then State(Content(n), st.done, [])
      else FAILED
    case Content(left) =>
      if left > 0 then State(Content(left - 1), st.done, st.partial + s[..CharSize(c)])
      else if c == SEMICOLON then State(Complete, st.done + [st.partial], [])
      else if c == COMMA then State(Length(0), st.done + [st.partial], [])
      else FAILED
    case _ => st
  }

  /** Steps as far as the bytes go: the last state, and the bytes not taken. */
  function Run(st: State, s: seq<byte>): (State, seq<byte>)
    decreases |s|
  {
    var n := StepSize(st, s);
    if n == 0 then (st, s) else Run(Next(st, s), s[n..])
  }

  lemma RunStep(st: State, s: seq<byte>)
    ensures var n := StepSize(st, s);
      Run(st, s) == if n == 0 then (st, s) else Run(Next(st, s), s[n..])
  {
  }

  /** The bytes not taken end the bytes given. */
  lemma {:induction false} RunTakes(st: State, s: seq<byte>)
    ensures |Run(st, s).1| <= |s| && Run(st, s).1 == s[|s| - |Run(st, s).1|..]
    decreases |s|
  {
    hide StepSize, Next;
    var n := StepSize(st, s);
    if n != 0 {
      RunTakes(Next(st, s), s[n..]);
    }
  }

  /** More bytes do not change a step that can be taken. */
  lemma StepKeeps(st: State, s: seq<byte>, t: seq<byte>)
    requires StepSize(st, s) > 0
    ensures StepSize(st, s + t) == StepSize(st, s) && Next(st, s + t) == Next(st, s)
  {
    hide CharSize, DigitValue;
    assert (s + t)[0] == s[0] && (s + t)[..StepSize(st, s)] == s[..StepSize(st, s)];
  }

  /** Reading in one piece or in two comes to the same. */
  lemma {:induction false} RunInPieces(st: State, s: seq<byte>, t: seq<byte>)
    ensures Run(st, s + t) == Run(Run(st, s).0, Run(st, s).1 + t)
    decreases |s|
  {
    hide StepSize, Next;
    var n := StepSize(st, s);
    if n != 0 {
      StepKeeps(st, s, t);
      assert (s + t)[n..] == s[n..] + t;
      RunInPieces(Next(st, s), s[n..], t);
    }
  }

  /** Running on from a state that the bytes have not left. */
  lemma RunOn(st: State, s: seq<byte>, st': State, s': seq<byte>, t: seq<byte>)
    requires Run(st, s) == Run(st', s')
    ensures Run(st, s + t) == Run(st', s' + t)
  {
    RunInPieces(st, s, t);
    RunInPieces(st', s', t);
  }

  /** If more bytes complete an instruction at which the machine waits, the next
      step takes some of them. */
  lemma StuckNeedsMore(st: State, s: seq<byte>, t: seq<byte>)
    requires StepSize(st, s) == 0 && !st.mode.Complete?
    ensures Run(st, s + t).0.mode.Complete? ==> |Run(st, s + t).1| < |t|
  {
    hide CharSize, Next, Run;
    RunStep(st, s + t);
    var n := StepSize(st, s + t);
    if n > 0 {
      assert s != [] ==> (s + t)[0] == s[0];
      RunTakes(Next(st, s + t), (s + t)[n..]);
    }
  }

  /** Whether an instruction is complete is decided by its own bytes. */
  lemma CompleteIsDecided(st: State, s: seq<byte>, m: nat)
    requires Run(st, s).0.mode.Complete? && |s| - |Run(st, s).1| <= m <= |s|
    ensures Run(st, s[..m]).0 == Run(st, s).0
  {
    hide Run, StepSize, Next;
    var early := Run(st, s[..m]);
    assert s == s[..m] + s[m..];
    RunInPieces(st, s[..m], s[m..]);
    RunStops(st, s[..m]);
    if early.0.mode.Complete? {
      CompleteStops(early.0, early.1 + s[m..]);
    } else {
      StuckNeedsMore(early.0, early.1, s[m..]);
    }
  }

  lemma CompleteStops(st: State, s: seq<byte>)
    requires st.mode.Complete? || st.mode.Error?
    ensures Run(st, s) == (st, s)
  {
  }

  lemma {:induction false} RunStops(st: State, s: seq<byte>)
    ensures StepSize(Run(st, s).0, Run(st, s).1) == 0
    decreases |s|
  {
    hide StepSize, Next;
    var n := StepSize(st, s);
    if n != 0 {
      RunStops(Next(st, s), s[n..]);
    }
  }

  /** Elements are only ever added. */
  lemma {:induction false} ElementsGrow(st: State, s: seq<byte>)
    ensures Run(st, s).0 == FAILED || st.Elements() <= Run(st, s).0.Elements()
    decreases |s|
  {
    hide CharSize, DigitValue, Run;
    RunStep(st, s);
    var n := StepSize(st, s);
    if n != 0 {
      var next := Next(st, s);
      if next == FAILED {
        CompleteStops(next, s[n..]);
      } else {
        ElementsGrow(next, s[n..]);
      }
    }
  }

  // ----- parsing undoes printing -----

  lemma RunDigit(done: seq<seq<byte>>, n: nat, d: nat, t: seq<byte>)
    requires d < 10
    ensures Run(State(Length(n), done, []), [DigitByte(d)] + t) ==
      Run(if n * 10 + d > MAX_LENGTH then FAILED else State(Length(n * 10 + d), done, []), t)
  {
    hide CharSize, DigitByte, DigitValue, Run;
    DigitOfByte(d);
    RunStep(State(Length(n), done, []), [DigitByte(d)] + t);
    assert ([DigitByte(d)] + t)[1..] == t;
  }

  lemma DigitOfByte(d: nat)
    requires d < 10
    ensures DigitValue(DigitByte(d)) == d
  {
  }

  lemma RunDot(done: seq<seq<byte>>, n: nat, t: seq<byte>)
    ensures Run(State(Length(n), done, []), [DOT] + t) == Run(State(Content(n), done, []), t)
  {
    hide CharSize, DigitByte, DigitValue, Run;
    RunStep(State(Length(n), done, []), [DOT] + t);
    assert ([DOT] + t)[1..] == t;
  }

  lemma {:induction false} RunDecimal(done: seq<seq<byte>>, n: nat, t: seq<byte>)
    requires n <= MAX_LENGTH
    ensures Run(State(Length(0), done, []), Decimal(n) + t) == Run(State(Length(n), done, []), t)
    decreases n
  {
    hide Run, DigitByte;
    var last := DigitByte(n % 10);
    if n < 10 {
      RunDigit(done, 0, n, t);
    } else {
      RunDecimal(done, n / 10, [last] + t);
      RunDigit(done, n / 10, n % 10, t);
      assert Decimal(n) + t == Decimal(n / 10) + ([last] + t);
    }
  }

  lemma {:induction false} RunContent(done: seq<seq<byte>>, partial: seq<byte>, content: seq<byte>, t: seq<byte>)
    requires Whole(content)
    ensures Run(State(Content(Chars(content)), done, partial), content + t) ==
      Run(State(Content(0), done, partial + content), t)
    decreases |content|
  {
    hide CharSize, Run;
    if content == [] {
      assert content + t == t && partial + content == partial;
    } else {
      var n := CharSize(content[0]);
      RunStep(State(Content(Chars(content)), done, partial), content + t);
      RunContent(done, partial + content[..n], content[n..], t);
      CutBefore(content, t, n);
      assert partial + content[..n] + content[n..] == partial + content;
    }
  }

  lemma RunElement(done: seq<seq<byte>>, e: seq<byte>, t: seq<byte>)
    requires Whole(e) && Chars(e) <= MAX_LENGTH
    ensures Run(State(Length(0), done, []), Element(e) + t) == Run(State(Content(0), done, e), t)
  {
    hide Run, Decimal, Chars, Whole;
    var n := Chars(e);
    assert Element(e) + t == Decimal(n) + ([DOT] + (e + t));
    RunDecimal(done, n, [DOT] + (e + t));
    RunDot(done, n, e + t);
    RunContent(done, [], e, t);
    assert [] + e == e;
  }

  /** An element ends at a comma or, with the instruction, at a semicolon. */
  lemma RunEnd(done: seq<seq<byte>>, e: seq<byte>, t: seq<byte>)
    ensures Run(State(Content(0), done, e), [COMMA] + t) == Run(State(Length(0), done + [e], []), t)
    ensures Run(State(Content(0), done, e), [SEMICOLON] + t) == (State(Complete, done + [e], []), t)
  {
    hide CharSize, Run;
    AsciiSize(SEMICOLON);
    AsciiSize(COMMA);
    RunStep(State(Content(0), done, e), [COMMA] + t);
    RunStep(State(Content(0), done, e), [SEMICOLON] + t);
    CompleteStops(State(Complete, done + [e], []), t);
    assert ([COMMA] + t)[1..] == t && ([SEMICOLON] + t)[1..] == t;
  }

  predicate Printable(elements: seq<seq<byte>>) {
    forall k :: 0 <= k < |elements| ==> Whole(elements[k]) && Chars(elements[k]) <= MAX_LENGTH
  }

  lemma {:induction false} RunRest(done: seq<seq<byte>>, e: seq<byte>, elements: seq<seq<byte>>, more: seq<byte>)
    requires Printable(elements)
    ensures Run(State(Content(0), done, e), Rest(elements) + more) == (State(Complete, done + [e] + elements, []), more)
    decreases |elements|
  {
    hide Element, Chars, Whole, Run;
    if elements == [] {
      RunEnd(done, e, more);
      assert done + [e] + elements == done + [e];
    } else {
      var first, rest := elements[0], elements[1..];
      var tail := Element(first) + (Rest(rest) + more);
      assert Rest(elements) + more == [COMMA] + tail;
      RunEnd(done, e, tail);
      RunElement(done + [e], first, Rest(rest) + more);
      RunRest(done + [e], first, rest, more);
      assert done + [e] + [first] + rest == done + [e] + elements;
    }
  }

  /** The parser gets back exactly what was printed, and stops where it ended. */
  lemma ParseUndoesPrint(elements: seq<seq<byte>>, more: seq<byte>)
    requires elements != [] && Printable(elements)
    ensures Run(START, Print(elements) + more) == (State(Complete, elements, []), more)
  {
    hide Element, Chars, Whole, Run;
    var rest := Rest(elements[1..]) + more;
    assert Print(elements) + more == Element(elements[0]) + rest;
    RunElement([], elements[0], rest);
    RunRest([], elements[0], elements[1..], more);
    assert [] + [elements[0]] + elements[1..] == elements;
  }

  // ----- what is not read back -----

  /** Elements finished are kept. */
  lemma {:induction false} DoneStays(st: State, s: seq<byte>)
    ensures Run(st, s).0 == FAILED || st.done <= Run(st, s).0.done
    decreases |s|
  {
    hide CharSize, DigitValue, Run;
    RunStep(st, s);
    var n := StepSize(st, s);
    if n != 0 {
      var next := Next(st, s);
      if next == FAILED {
        CompleteStops(next, s[n..]);
      } else {
        DoneStays(next, s[n..]);
      }
    }
  }

  /** The element after done is read as e. */
  ghost predicate ReadAs(r: State, done: seq<seq<byte>>, e: seq<byte>) {
    r.mode.Complete? && |r.done| > |done| && r.done[|done|] == e
  }

  /** An element in progress is read as what it holds already or as something longer. */
  lemma {:induction false} ContentGrows(st: State, s: seq<byte>, e: seq<byte>)
    requires st.mode.Content? && |st.partial| > |e|
    ensures !ReadAs(Run(st, s).0, st.done, e)
    decreases |s|
  {
    hide CharSize, DigitValue, Run;
    RunStep(st, s);
    var n := StepSize(st, s);
    if n != 0 {
      var next := Next(st, s);
      if next == FAILED {
        CompleteStops(next, s[n..]);
      } else if next.mode.Content? {
        ContentGrows(next, s[n..], e);
      } else {
        DoneStays(next, s[n..]);
        assert next.done[|st.done|] == st.partial;
      }
    }
  }

  lemma CutBefore(s: seq<byte>, t: seq<byte>, n: nat)
    requires n <= |s|
    ensures (s + t)[..n] == s[..n] && (s + t)[n..] == s[n..] + t
  {
  }

  /** A character that is cut off takes bytes from beyond the element. */
  lemma {:induction false} ContentOverruns(done: seq<seq<byte>>, partial: seq<byte>, content: seq<byte>, t: seq<byte>)
    requires !Whole(content)
    ensures !ReadAs(Run(State(Content(Chars(content)), done, partial), content + t).0, done, partial + content)
    decreases |content|
  {
    hide CharSize, Run;
    var n := CharSize(content[0]);
    var st := State(Content(Chars(content)), done, partial);
    RunStep(st, content + t);
    if n <= |content| {
      ContentOverruns(done, partial + content[..n], content[n..], t);
      CutBefore(content, t, n);
      assert partial + content[..n] + content[n..] == partial + content;
    } else if n <= |content + t| {
      ContentGrows(Next(st, content + t), (content + t)[n..], partial + content);
    }
  }

  lemma {:induction false} DecimalTooLong(done: seq<seq<byte>>, n: nat, t: seq<byte>)
    requires n > MAX_LENGTH
    ensures Run(State(Length(0), done, []), Decimal(n) + t).0 == FAILED
    decreases n
  {
    hide Run, DigitByte;
    var last := DigitByte(n % 10);
    assert Decimal(n) + t == Decimal(n / 10) + ([last] + t);
    if n / 10 > MAX_LENGTH {
      DecimalTooLong(done, n / 10, [last] + t);
    } else {
      RunDecimal(done, n / 10, [last] + t);
      RunDigit(done, n / 10, n % 10, t);
      CompleteStops(FAILED, t);
    }
  }

  lemma ElementUnprintable(done: seq<seq<byte>>, e: seq<byte>, t: seq<byte>)
    requires !Whole(e) || Chars(e) > MAX_LENGTH
    ensures !ReadAs(Run(State(Length(0), done, []), Element(e) + t).0, done, e)
  {
    hide Run, Decimal, Chars, Whole;
    var n := Chars(e);
    assert Element(e) + t == Decimal(n) + ([DOT] + (e + t));
    if n > MAX_LENGTH {
      DecimalTooLong(done, n, [DOT] + (e + t));
    } else {
      RunDecimal(done, n, [DOT] + (e + t));
      RunDot(done, n, e + t);
      ContentOverruns(done, [], e, t);
      assert [] + e == e;
    }
  }

  lemma {:induction false} RestUnprintable(done: seq<seq<byte>>, e: seq<byte>, elements: seq<seq<byte>>,
                                           more: seq<byte>)
    requires !Printable(elements)
    ensures Run(State(Content(0), done, e), Rest(elements) + more).0 != State(Complete, done + [e] + elements, [])
    decreases |elements|
  {
    hide Element, Chars, Whole, Run;
    var first, rest := elements[0], elements[1..];
    var tail := Element(first) + (Rest(rest) + more);
    assert Rest(elements) + more == [COMMA] + tail;
    RunEnd(done, e, tail);
    if Whole(first) && Chars(first) <= MAX_LENGTH {
      RunElement(done + [e], first, Rest(rest) + more);
      RestUnprintable(done + [e], first, rest, more);
      assert done + [e] + [first] + rest == done + [e] + elements;
    } else {
      ElementUnprintable(done + [e], first, Rest(rest) + more);
      assert (done + [e] + elements)[|done + [e]|] == first;
    }
  }

  /** Instructions that are read back are exactly those whose elements are whole
      characters, at most 8192 of them each. */
  lemma ReadBackIff(elements: seq<seq<byte>>, more: seq<byte>)
    requires elements != []
    ensures Run(START, Print(elements) + more).0 == State(Complete, elements, []) <==> Printable(elements)
  {
    hide Element, Chars, Whole, Run;
    var first, rest := elements[0], elements[1..];
    var tail := Rest(rest) + more;
    assert Print(elements) + more == Element(first) + tail;
    if Printable(elements) {
      ParseUndoesPrint(elements, more);
    } else if Whole(first) && Chars(first) <= MAX_LENGTH {
      RunElement([], first, tail);
      RestUnprintable([], first, rest, more);
      assert [] + [first] + rest == elements;
    } else {
      ElementUnprintable([], first, tail);
    }
  }
}
