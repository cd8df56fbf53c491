/** The machine of `Grammar` as guac_parser_read drives it: bytes come in pieces, each
    call of guac_parser_append takes at most one element, and a call that starts within
    the last element allowed fails. */
module Feeding {
  import opened Grammar
  import opened Protocol
  import opened Utf8

  /** Steps to the end of the element, or as far as the bytes go. */
  function RunOne(st: State, s: seq<byte>): (State, seq<byte>)
    decreases |s|
  {
    var n := StepSize(st, s);
    if n == 0 then (st, s)
    else
      var next := Next(st, s);
      if next.mode.Error? || (st.mode.Content? && !next.mode.Content?) then (next, s[n..])
      else RunOne(next, s[n..])
  }

  lemma RunOneStep(st: State, s: seq<byte>)
    ensures var n := StepSize(st, s);
      RunOne(st, s) ==
        if n == 0 then (st, s)
        else if Next(st, s).mode.Error? || (st.mode.Content? && !Next(st, s).mode.Content?) then (Next(st, s), s[n..])
        else RunOne(Next(st, s), s[n..])
  {
  }

  /** One element after the other, the machine comes to the same. */
  lemma {:induction false} RunOneThenRun(st: State, s: seq<byte>)
    ensures Run(st, s) == Run(RunOne(st, s).0, RunOne(st, s).1)
    decreases |s|
  {
    hide StepSize, Next, Run, RunOne;
    RunStep(st, s);
    RunOneStep(st, s);
    var n := StepSize(st, s);
    if n != 0 {
      RunOneThenRun(Next(st, s), s[n..]);
    }
  }

  lemma {:induction false} RunOneTakes(st: State, s: seq<byte>)
    ensures |RunOne(st, s).1| <= |s| && (|RunOne(st, s).1| == |s| <==> StepSize(st, s) == 0)
    decreases |s|
  {
    hide StepSize, Next;
    var n := StepSize(st, s);
    if n != 0 {
      RunOneTakes(Next(st, s), s[n..]);
    }
  }

  /** Calls of guac_parser_append until one takes nothing, ends the instruction or fails. */
  function Feed(st: State, s: seq<byte>): (State, seq<byte>)
    decreases |s|
  {
    if st.mode.Complete? || st.mode.Error? then (st, s)
    else if st.Elements() >= MAX_ELEMENTS then (FAILED, s)
    else
      var (next, rest) := RunOne(st, s);
      if |rest| >= |s| then (next, rest) else Feed(next, rest)
  }

  /** Pieces as they are read, each behind what the ones before have left. */
  function Fed(pieces: seq<seq<byte>>): (State, seq<byte>) {
    if pieces == [] then (START, [])
    else
      var (st, rest) := Fed(pieces[..|pieces| - 1]);
      Feed(st, rest + pieces[|pieces| - 1])
  }

  function Joint(pieces: seq<seq<byte>>): seq<byte> {
    if pieces == [] then [] else Joint(pieces[..|pieces| - 1]) + pieces[|pieces| - 1]
  }

  lemma FedThen(pieces: seq<seq<byte>>, more: seq<byte>)
    ensures Fed(pieces + [more]) == Feed(Fed(pieces).0, Fed(pieces).1 + more)
    ensures Joint(pieces + [more]) == Joint(pieces) + more
  {
    assert (pieces + [more])[..|pieces|] == pieces;
  }

  /** One more piece is fed behind what was left over. */
  lemma FedMore(pieces: seq<seq<byte>>, more: seq<byte>, st: State, left: seq<byte>, rest: seq<byte>)
    requires Fed(pieces) == (st, left)
    ensures Fed(pieces + [more]) == Feed(st, left + more)
    ensures Joint(pieces + [more]) + rest == Joint(pieces) + (more + rest)
  {
    hide Fed, Joint, Feed;
    FedThen(pieces, more);
  }

  lemma FedFirst(piece: seq<byte>)
    ensures Fed([piece]) == Feed(START, piece) && Joint([piece]) == piece
  {
    hide Feed;
    FedThen([], piece);
    assert [] + [piece] == [piece] && [] + piece == piece;
  }

  /** Where the machine may stand between two calls. */
  predicate Accepted(st: State) {
    !st.mode.Error? && if st.mode.Complete? then |st.done| <= MAX_ELEMENTS else st.Elements() < MAX_ELEMENTS
  }

  /** A call that begins with an element to spare takes at most one. */
  lemma {:induction false} OneElement(st: State, s: seq<byte>)
    requires st.mode.Length? || st.mode.Content?
    ensures var (st', rest) := RunOne(st, s);
      || st' == FAILED
      || (!st'.mode.Error? && |st'.done| <= |st.done| + 1
          && (st'.mode.Content? ==> |st'.done| == |st.done| && StepSize(st', rest) == 0))
    decreases |s|
  {
    hide CharSize, DigitValue, RunOne;
    RunOneStep(st, s);
    var n := StepSize(st, s);
    if n != 0 && (Next(st, s).mode.Length? || Next(st, s).mode.Content?) &&
      (st.mode.Length? || Next(st, s).mode.Content?) {
      OneElement(Next(st, s), s[n..]);
    }
  }

  /** A complete instruction has an element that its length was read for. */
  lemma {:induction false} CompleteHasMore(st: State, s: seq<byte>)
    requires st.mode.Length? || st.mode.Content?
    ensures var r := Run(st, s).0; r.mode.Complete? ==> |r.done| > |st.done|
    decreases |s|
  {
    hide CharSize, DigitValue, Run;
    RunStep(st, s);
    var n := StepSize(st, s);
    if n != 0 {
      var next := Next(st, s);
      if next.mode.Length? || next.mode.Content? {
        CompleteHasMore(next, s[n..]);
      } else {
        CompleteStops(next, s[n..]);
      }
    }
  }

  /** Feeding a piece comes to what the machine comes to, if that is accepted, and
      fails otherwise. */
  lemma {:induction false} FeedIs(st: State, s: seq<byte>)
    requires Accepted(st)
    ensures if Accepted(Run(st, s).0) then Feed(st, s) == Run(st, s) else Feed(st, s).0 == FAILED
    decreases |s|
  {
    hide StepSize, Next, Run, RunOne;
    if st.mode.Complete? {
      CompleteStops(st, s);
    } else {
      var (next, rest) := RunOne(st, s);
      RunOneThenRun(st, s);
      RunOneTakes(st, s);
      OneElement(st, s);
      if |rest| == |s| {
        RunStep(st, s);
        RunOneStep(st, s);
      } else if next == FAILED {
        CompleteStops(next, rest);
      } else if Accepted(next) {
        FeedIs(next, rest);
      } else {
        ElementsGrow(next, rest);
        RunStep(next, rest);
        CompleteHasMore(next, rest);
      }
    }
  }

  /** However the bytes come, what counts is where the machine stands at each cut. */
  lemma {:induction false} FedIs(pieces: seq<seq<byte>>)
    ensures if forall i :: 0 <= i <= |pieces| ==> Accepted(Run(START, Joint(pieces[..i])).0)
            then Fed(pieces) == Run(START, Joint(pieces)) else Fed(pieces).0 == FAILED
  {
    hide StepSize, Next, Run, RunOne, Feed, Accepted;
    if pieces == [] {
      RunStep(START, []);
      assert pieces[..0] == [];
      assert Accepted(START) by { StartAccepted(); }
    } else {
      var n := |pieces| - 1;
      var front, last := pieces[..n], pieces[n];
      FedIs(front);
      assert forall i :: 0 <= i <= n ==> front[..i] == pieces[..i];
      assert pieces[..n + 1] == pieces;
      RunInPieces(START, Joint(front), last);
      if Accepted(Fed(front).0) {
        FeedIs(Fed(front).0, Fed(front).1 + last);
      }
      FailedStays(Fed(front).1 + last);
    }
  }

  lemma StartAccepted()
    ensures Accepted(START) && !Accepted(FAILED)
  {
  }

  lemma FailedStays(s: seq<byte>)
    ensures Feed(FAILED, s) == (FAILED, s)
  {
  }

  // ----- the limit on elements -----

  lemma {:induction false} JointPrefix(pieces: seq<seq<byte>>, i: nat)
    requires i <= |pieces|
    ensures Joint(pieces[..i]) <= Joint(pieces)
    decreases |pieces|
  {
    if i == |pieces| {
      assert pieces[..i] == pieces;
    } else {
      var front := pieces[..|pieces| - 1];
      JointPrefix(front, i);
      assert front[..i] == pieces[..i];
    }
  }

  /** Everything before the last element's dot. */
  lemma {:induction false} ToLast(done: seq<seq<byte>>, e: seq<byte>, elements: seq<seq<byte>>)
    returns (prefix: seq<byte>)
    requires elements != [] && Printable(elements)
    ensures var n := |elements| - 1;
      && Rest(elements) == prefix + [DOT] + elements[n] + [SEMICOLON]
      && Run(State(Content(0), done, e), prefix) ==
        (State(Length(Chars(elements[n])), done + [e] + elements[..n], []), [])
    decreases |elements|
  {
    hide Element, Chars, Whole, Run;
    var first, rest := elements[0], elements[1..];
    assert [COMMA] + Element(first) + Rest(rest) == [COMMA] + (Element(first) + Rest(rest));
    if rest == [] {
      prefix := OnlyElement(done, e, first);
      assert elements[..0] == [] && done + [e] + [] == done + [e];
    } else {
      var tail := ToLast(done + [e], first, rest);
      prefix := [COMMA] + (Element(first) + tail);
      RunEnd(done, e, Element(first) + tail);
      RunElement(done + [e], first, tail);
      var n := |rest| - 1;
      assert elements[..n + 1] == [first] + rest[..n];
      assert done + [e] + [first] + rest[..n] == done + [e] + elements[..n + 1];
      assert Rest(elements) == prefix + [DOT] + rest[n] + [SEMICOLON];
    }
  }

  lemma OnlyElement(done: seq<seq<byte>>, e: seq<byte>, last: seq<byte>) returns (prefix: seq<byte>)
    requires Chars(last) <= MAX_LENGTH
    ensures [COMMA] + (Element(last) + [SEMICOLON]) == prefix + [DOT] + last + [SEMICOLON]
    ensures Run(State(Content(0), done, e), prefix) == (State(Length(Chars(last)), done + [e], []), [])
  {
    hide Decimal, Chars, Run;
    var digits := Decimal(Chars(last));
    prefix := [COMMA] + digits;
    RunEnd(done, e, digits);
    assert digits + [] == digits;
    RunDecimal(done + [e], Chars(last), []);
    RunStep(State(Length(Chars(last)), done + [e], []), []);
  }

  /** The place just after the last element's dot. */
  function LastContent(elements: seq<seq<byte>>): int
    requires elements != []
  {
    |Print(elements)| - 1 - |elements[|elements| - 1]|
  }

  /** Where the machine stands just before and just after the last dot. */
  lemma AtLastDot(elements: seq<seq<byte>>)
    requires |elements| >= 2 && Printable(elements)
    ensures var n, d := |elements| - 1, LastContent(elements);
      && 0 < d < |Print(elements)|
      && Run(START, Print(elements)[..d - 1]).0 == State(Length(Chars(elements[n])), elements[..n], [])
      && Run(START, Print(elements)[..d]).0 == State(Content(Chars(elements[n])), elements[..n], [])
  {
    hide Element, Chars, Whole, Run;
    var first, rest := elements[0], elements[1..];
    var n, d := |elements| - 1, LastContent(elements);
    var prefix := ToLast([], first, rest);
    var whole := Element(first) + prefix;
    RunElement([], first, prefix);
    assert Print(elements) == whole + [DOT] + elements[n] + [SEMICOLON];
    assert Print(elements)[..d - 1] == whole && Print(elements)[..d] == whole + [DOT];
    assert [] + [first] + rest[..n - 1] == elements[..n];
    var at := Run(START, whole).0;
    RunInPieces(START, whole, [DOT]);
    assert [] + [DOT] == [DOT] + [];
    RunDot(at.done, at.mode.n, []);
    RunStep(State(Content(at.mode.n), at.done, []), []);
  }

  /** More bytes never bring fewer elements, and complete no instruction twice. */
  lemma CutBefore(elements: seq<seq<byte>>, k: nat, m: nat)
    requires elements != [] && Printable(elements) && k <= m <= |Print(elements)|
    ensures var p := Print(elements);
      var st, later := Run(START, p[..k]).0, Run(START, p[..m]).0;
      && st != FAILED && !st.mode.Error? && st.Elements() <= later.Elements() <= |elements|
      && (st.mode.Complete? ==> k == |p|)
  {
    hide Run, StepSize, Next, Print;
    var p := Print(elements);
    assert p + [] == p;
    ParseUndoesPrint(elements, []);
    CutStands(p, k, m);
    CutStands(p, k, |p|);
    CutStands(p, m, |p|);
    assert p[..|p|] == p;
  }

  lemma CutStands(p: seq<byte>, k: nat, m: nat)
    requires k <= m <= |p| && Run(START, p).1 == [] && !Run(START, p).0.mode.Error?
    ensures var st, later := Run(START, p[..k]).0, Run(START, p[..m]).0;
      && !st.mode.Error? && !later.mode.Error? && st.Elements() <= later.Elements() && (st.mode.Complete? ==> k == |p|)
  {
    hide Run, StepSize, Next;
    var (st, rest) := Run(START, p[..k]);
    var (later, rest') := Run(START, p[..m]);
    assert p[..m] == p[..k] + p[k..m] && p == p[..k] + p[k..] && p == p[..m] + p[m..];
    RunInPieces(START, p[..k], p[k..m]);
    RunInPieces(START, p[..k], p[k..]);
    RunInPieces(START, p[..m], p[m..]);
    ElementsGrow(st, rest + p[k..m]);
    if st.mode.Complete? || st.mode.Error? {
      CompleteStops(st, rest + p[k..]);
      assert |rest + p[k..]| == 0;
    }
    if later.mode.Error? {
      CompleteStops(later, rest' + p[m..]);
    }
  }

  /** With 64 elements, exactly the cuts within the last element's content are not
      accepted: from just after its dot up to, not including, the end. */
  lemma CutAcceptedIff(elements: seq<seq<byte>>, k: nat)
    requires |elements| == MAX_ELEMENTS && Printable(elements) && k <= |Print(elements)|
    ensures Accepted(Run(START, Print(elements)[..k]).0) <==> !(LastContent(elements) <= k < |Print(elements)|)
  {
    hide Run, Print;
    var p, d := Print(elements), LastContent(elements);
    AtLastDot(elements);
    if k == |p| {
      assert p[..k] == p && p + [] == p;
      ParseUndoesPrint(elements, []);
    } else if k < d {
      CutBefore(elements, k, d - 1);
    } else {
      CutBefore(elements, d, k);
      CutBefore(elements, k, k);
    }
  }

  /** Which instructions are read back under which divisions into pieces: those of up
      to 63 elements always, those of 64 exactly if no piece ends within the content of
      the last element, and longer ones never. */
  lemma DivisionIff(elements: seq<seq<byte>>, pieces: seq<seq<byte>>)
    requires elements != [] && Printable(elements) && Joint(pieces) == Print(elements)
    ensures Fed(pieces) == (State(Complete, elements, []), []) <==>
      || |elements| < MAX_ELEMENTS
      || (|elements| == MAX_ELEMENTS &&
          forall i :: 0 <= i <= |pieces| ==> !(LastContent(elements) <= |Joint(pieces[..i])| < |Print(elements)|))
    ensures Fed(pieces) == (State(Complete, elements, []), []) || Fed(pieces).0 == FAILED
  {
    hide Run, Print, Fed, Joint, LastContent;
    var p := Print(elements);
    assert p + [] == p && p[..|p|] == p;
    ParseUndoesPrint(elements, []);
    FedIs(pieces);
    forall i | 0 <= i <= |pieces|
      ensures Accepted(Run(START, Joint(pieces[..i])).0) <==>
        || |elements| < MAX_ELEMENTS
        || (|elements| == MAX_ELEMENTS && !(LastContent(elements) <= |Joint(pieces[..i])| < |p|))
        || (|elements| > MAX_ELEMENTS && Accepted(Run(START, Joint(pieces[..i])).0))
    {
      JointPrefix(pieces, i);
      var k := |Joint(pieces[..i])|;
      assert Joint(pieces[..i]) == p[..k];
      CutBefore(elements, k, |p|);
      if |elements| == MAX_ELEMENTS {
        CutAcceptedIff(elements, k);
      }
    }
    assert pieces[..|pieces|] == pieces;
  }

  /** Two pieces of an instruction of 64 elements: reading fails exactly if the cut lies
      from just after the last dot up to, not including, the end. */
  lemma TwoPiecesIff(elements: seq<seq<byte>>, k: nat)
    requires |elements| == MAX_ELEMENTS && Printable(elements) && k <= |Print(elements)|
    ensures var p := Print(elements);
      var fed := Fed([p[..k], p[k..]]);
      if LastContent(elements) <= k < |p| then fed.0 == FAILED else fed == (State(Complete, elements, []), [])
  {
    hide Print, Fed, LastContent;
    var p := Print(elements);
    var pieces := [p[..k], p[k..]];
    FedThen([], p[..k]);
    FedThen([p[..k]], p[k..]);
    assert [] + [p[..k]] == [p[..k]] && [p[..k]] + [p[k..]] == pieces;
    assert [] + p[..k] == p[..k] && p[..k] + p[k..] == p && Joint([]) == [];
    DivisionIff(elements, pieces);
    assert pieces[..0] == [] && pieces[..1] == [p[..k]] && pieces[..2] == pieces;
    assert |Joint(pieces[..0])| == 0 && |Joint(pieces[..1])| == k && |Joint(pieces[..2])| == |p|;
    AtLastDot(elements);
  }

  /** One that fails: 64 empty elements of which only the semicolon comes late. */
  lemma SemicolonTooLate(elements: seq<seq<byte>>)
    requires elements == seq(MAX_ELEMENTS, i => [])
    ensures Printable(elements)
    ensures var p := Print(elements); Fed([p[..|p| - 1], [SEMICOLON]]).0 == FAILED
  {
    hide Fed, Print;
    var p := Print(elements);
    AtLastDot(elements);
    TwoPiecesIff(elements, |p| - 1);
    LastIsSemicolon(elements);
    assert p[|p| - 1..] == [SEMICOLON];
  }

  lemma LastIsSemicolon(elements: seq<seq<byte>>)
    requires elements != []
    ensures var p := Print(elements); p != [] && p[|p| - 1] == SEMICOLON
  {
    RestEnds(elements[1..]);
  }

  lemma {:induction false} RestEnds(elements: seq<seq<byte>>)
    ensures var r := Rest(elements); r != [] && r[|r| - 1] == SEMICOLON
    decreases |elements|
  {
    hide Element;
    if elements != [] {
      RestEnds(elements[1..]);
    }
  }
}
