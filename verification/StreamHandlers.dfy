/** What the handlers of a user are told about its streams. The lifecycle itself is
    always lawful; what reaches the handlers is so for some users only. */
module StreamHandlers {
  import opened InputStreams
  import opened Streams

  predicate Told(e: Event) {
    !e.Ack? && e.target != Nobody
  }

  /** The events that reached a handler. */
  function Delivered(events: seq<Event>): seq<Event> {
    if events == [] then []
    else
      var last := events[|events| - 1];
      Delivered(events[..|events| - 1]) + if Told(last) then [last] else []
  }

  /** A run with the same handlers and objects throughout. */
  function Plain(u: User, objects: seq<Object>, calls: seq<Call>): (turns: seq<Turn>)
    requires |objects| == MAX_SLOTS
    ensures Turns(turns) && |turns| == |calls|
  {
    if calls == [] then []
    else Plain(u, objects, calls[..|calls| - 1]) + [Turn(u, objects, calls[|calls| - 1])]
  }

  function LogOf(u: User, objects: seq<Object>, calls: seq<Call>): seq<Event>
    requires |objects| == MAX_SLOTS
  {
    After(Plain(u, objects, calls)).1
  }

  predicate BeginsAll(u: User) {
    Audio in u.begins && Clipboard in u.begins && File in u.begins && Pipe in u.begins
  }

  /** Every defined object has somebody to take what is put. */
  predicate TakesAll(u: User, objects: seq<Object>) {
    forall o :: o in objects && o.index != CLOSED ==> PutTo(u, o) != Nobody
  }

  predicate TakesNone(u: User, objects: seq<Object>) {
    forall o :: o in objects && o.index != CLOSED ==> PutTo(u, o) == Nobody
  }

  /** Everything that opens a stream has a handler and so have ends, or nothing has. */
  predicate AllOrNothing(u: User, objects: seq<Object>) {
    || (u.endHandler && BeginsAll(u) && TakesAll(u, objects))
    || (u.begins == {} && !u.blobHandler && !u.endHandler && TakesNone(u, objects))
  }

  lemma PlainFront(u: User, objects: seq<Object>, calls: seq<Call>)
    requires calls != [] && |objects| == MAX_SLOTS
    ensures var n, turns := |calls| - 1, Plain(u, objects, calls);
      turns[..n] == Plain(u, objects, calls[..n]) && turns[n] == Turn(u, objects, calls[n])
  {
  }

  // ----- every begin and end told -----

  /** Only blobs may go without a handler. */
  ghost predicate Framed(events: seq<Event>) {
    forall k :: 0 <= k < |events| && !events[k].Ack? && !events[k].Blob? ==> Told(events[k])
  }

  lemma {:induction false} FramedAt(log: seq<Event>, i: int)
    requires Framed(log)
    ensures Framed(At(log, i))
  {
    if log != [] {
      FramedAt(log[..|log| - 1], i);
    }
  }

  lemma {:induction false} FramedDelivered(events: seq<Event>)
    requires Framed(events) && Lawful(events)
    ensures Lawful(Delivered(events)) && (Open(Delivered(events)) <==> Open(events))
  {
    if events != [] {
      var front, last := events[..|events| - 1], events[|events| - 1];
      FramedDelivered(front);
      if Told(last) {
        LawfulThen(Delivered(front), last);
      } else {
        assert Delivered(events) == Delivered(front);
      }
    }
  }

  lemma {:induction false} RunFramed(u: User, objects: seq<Object>, calls: seq<Call>)
    requires u.endHandler && BeginsAll(u) && TakesAll(u, objects) && |objects| == MAX_SLOTS
    ensures Framed(LogOf(u, objects, calls))
  {
    if calls != [] {
      PlainFront(u, objects, calls);
      RunFramed(u, objects, calls[..|calls| - 1]);
      RespondFramed(u, objects, After(Plain(u, objects, calls[..|calls| - 1])).0, calls[|calls| - 1]);
    }
  }

  lemma RespondFramed(u: User, objects: seq<Object>, streams: seq<Stream>, call: Call)
    requires u.endHandler && BeginsAll(u) && TakesAll(u, objects) && |streams| == |objects| == MAX_SLOTS
    ensures Framed(Respond(u, objects, streams, call).1)
  {
    if call.OpenStream? {
      match call.kind case Audio => case Clipboard => case File => case Pipe =>
    }
  }

  // ----- nothing told -----

  ghost predicate Silent(streams: seq<Stream>, log: seq<Event>) {
    && (forall i :: 0 <= i < |streams| ==> !streams[i].blobHandler && !streams[i].endHandler)
    && (forall k :: 0 <= k < |log| ==> !Told(log[k]))
  }

  lemma {:induction false} RunSilent(u: User, objects: seq<Object>, calls: seq<Call>)
    requires u.begins == {} && !u.blobHandler && !u.endHandler && TakesNone(u, objects) && |objects| == MAX_SLOTS
    ensures Silent(After(Plain(u, objects, calls)).0, LogOf(u, objects, calls))
  {
    hide Respond, Told;
    if calls != [] {
      PlainFront(u, objects, calls);
      RunSilent(u, objects, calls[..|calls| - 1]);
      RespondSilent(u, objects, After(Plain(u, objects, calls[..|calls| - 1])).0, calls[|calls| - 1]);
    }
  }

  lemma RespondSilent(u: User, objects: seq<Object>, streams: seq<Stream>, call: Call)
    requires u.begins == {} && !u.blobHandler && !u.endHandler && TakesNone(u, objects)
    requires |streams| == |objects| == MAX_SLOTS && Silent(streams, [])
    ensures var (now, events) := Respond(u, objects, streams, call); Silent(now, events)
  {
  }

  lemma {:induction false} SilentDelivered(log: seq<Event>, i: int)
    requires forall k :: 0 <= k < |log| ==> !Told(log[k])
    ensures Delivered(At(log, i)) == []
  {
    if log != [] {
      var front, last := log[..|log| - 1], log[|log| - 1];
      SilentDelivered(front, i);
      if last.index == i && !last.Ack? {
        assert At(log, i)[..|At(front, i)|] == At(front, i);
      } else {
        assert At(log, i) == At(front, i);
      }
    }
  }

  // ----- exactly when what is told is lawful -----

  lemma SafeRuns(u: User, objects: seq<Object>, calls: seq<Call>, i: int)
    requires |objects| == MAX_SLOTS && AllOrNothing(u, objects)
    ensures Lawful(Delivered(At(LogOf(u, objects, calls), i)))
  {
    hide At, Respond, After;
    var log := LogOf(u, objects, calls);
    if u.endHandler {
      AllRuns(Plain(u, objects, calls));
      RunFramed(u, objects, calls);
      FramedAt(log, i);
      LawfulAt(Plain(u, objects, calls), i);
      FramedDelivered(At(log, i));
    } else {
      RunSilent(u, objects, calls);
      SilentDelivered(log, i);
    }
  }

  lemma LawfulAt(turns: seq<Turn>, i: int)
    requires Turns(turns)
    ensures Lawful(At(After(turns).1, i))
  {
    hide At, After;
    AllRuns(turns);
  }

  /** The log of two calls. */
  lemma TwoCalls(u: User, objects: seq<Object>, a: Call, b: Call)
    requires |objects| == MAX_SLOTS
    ensures var (s, e) := Respond(u, objects, Closed(), a); LogOf(u, objects, [a, b]) == e + Respond(u, objects, s, b).1
  {
    hide Respond, Plain, After, Closed;
    AfterThen(u, objects, [], a);
    AfterThen(u, objects, [a], b);
    NoTurns(u, objects);
    assert [] + [a] == [a] && [a] + [b] == [a, b];
    assert [] + Respond(u, objects, Closed(), a).1 == Respond(u, objects, Closed(), a).1;
  }

  lemma NoTurns(u: User, objects: seq<Object>)
    requires |objects| == MAX_SLOTS
    ensures After(Plain(u, objects, [])) == (Closed(), [])
  {
  }

  lemma AfterThen(u: User, objects: seq<Object>, calls: seq<Call>, last: Call)
    requires |objects| == MAX_SLOTS
    ensures var (streams, log) := After(Plain(u, objects, calls));
      var (now, events) := Respond(u, objects, streams, last);
      After(Plain(u, objects, calls + [last])) == (now, log + events)
  {
    hide Respond;
    PlainFront(u, objects, calls + [last]);
    assert (calls + [last])[..|calls|] == calls;
  }

  /** What is told about an index, event by event. */
  lemma ToldThen(log: seq<Event>, e: Event, i: int)
    ensures Delivered(At(log + [e], i)) == Delivered(At(log, i)) + if e.index == i && Told(e) then [e] else []
  {
    var events := At(log, i);
    assert (log + [e])[..|log|] == log;
    assert e.index == i && !e.Ack? ==> At(log + [e], i) == events + [e] && (events + [e])[..|events|] == events;
    assert !(e.index == i && !e.Ack?) ==> At(log + [e], i) == events;
  }

  lemma ToldOfThree(a: Event, b: Event, c: Event, i: int)
    requires a.index == b.index == c.index == i && !Told(b) && Told(c) && (Told(a) <==> c.Begin?) &&
      (Told(a) ==> a.Begin?)
    ensures !Lawful(Delivered(At([a, b, c], i)))
  {
    hide At;
    ToldThen([], a, i);
    ToldThen([a], b, i);
    ToldThen([a, b], c, i);
    assert [] + [a] == [a] && [a] + [b] == [a, b] && [a, b] + [c] == [a, b, c];
    AtNothing(i);
    assert Delivered([]) == [];
    if Told(a) {
      assert Delivered(At([a, b, c], i)) == [a, c] && [a, c][..1] == [a];
      assert Open([a]);
    } else {
      assert Delivered(At([a, b, c], i)) == [c] && [c][..0] == [];
    }
  }

  /** A run whose handlers are told of a blob or an end without a begin, or of a begin
      without the end before it. */
  lemma UnsafeRun(u: User, objects: seq<Object>) returns (calls: seq<Call>)
    requires |objects| == MAX_SLOTS && !AllOrNothing(u, objects)
    ensures !Lawful(Delivered(At(LogOf(u, objects, calls), 0)))
  {
    if u.endHandler {
      if BeginsAll(u) {
        var o :| o in objects && o.index != CLOSED && PutTo(u, o) == Nobody;
        var number :| 0 <= number < |objects| && objects[number] == o;
        calls := UnheardBegin(u, objects, PutObject(number, 0, Leaves(false, false)), ForObject(number));
      } else {
        var kind :| kind !in u.begins;
        calls := UnheardBegin(u, objects, OpenStream(kind, 0, Leaves(false, false)), OfKind(kind));
      }
    } else if u.begins != {} {
      var kind :| kind in u.begins;
      calls := UnheardEnd(u, objects, OpenStream(kind, 0, Leaves(false, false)), OfKind(kind), OfUser);
    } else if !TakesNone(u, objects) {
      var o :| o in objects && o.index != CLOSED && PutTo(u, o) != Nobody;
      var number :| 0 <= number < |objects| && objects[number] == o;
      calls := UnheardEnd(u, objects, PutObject(number, 0, Leaves(false, false)), ForObject(number), PutTo(u, o));
    } else {
      calls := UnheardBegin(u, objects, OpenStream(Audio, 0, Leaves(false, false)), OfKind(Audio));
    }
  }

  /** An opening that nobody takes, and then an end or a blob that somebody does. */
  lemma UnheardBegin(u: User, objects: seq<Object>, opening: Call, purpose: Purpose) returns (calls: seq<Call>)
    requires |objects| == MAX_SLOTS && (u.endHandler || u.blobHandler)
    requires Respond(u, objects, Closed(), opening).1 == [Begin(0, purpose, Nobody), Ack(0, Unsupported)]
    requires Respond(u, objects, Closed(), opening).0[0] == Stream(0, false, false)
    ensures !Lawful(Delivered(At(LogOf(u, objects, calls), 0)))
  {
    hide At, Lawful, Delivered, After;
    var streams := Respond(u, objects, Closed(), opening).0;
    var next := if u.endHandler then EndStream(0) else SendBlob(0, []);
    var e := Respond(u, objects, streams, next).1[0];
    calls := [opening, next];
    TwoCalls(u, objects, opening, next);
    ToldOfThree(Begin(0, purpose, Nobody), Ack(0, Unsupported), e, 0);
    assert LogOf(u, objects, calls) == [Begin(0, purpose, Nobody), Ack(0, Unsupported), e];
  }

  /** An opening that somebody takes, twice, with an end between that nobody does. */
  lemma UnheardEnd(u: User, objects: seq<Object>, opening: Call, purpose: Purpose, target: Handler)
    returns (calls: seq<Call>)
    requires |objects| == MAX_SLOTS && !u.endHandler && target != Nobody
    requires var (now, events) := Respond(u, objects, Closed(), opening);
      events == [Begin(0, purpose, target)] &&
        Respond(u, objects, now, opening).1 == [End(0, Nobody), Begin(0, purpose, target)]
    ensures !Lawful(Delivered(At(LogOf(u, objects, calls), 0)))
  {
    hide At, Lawful, Delivered, After, Respond;
    var begin := Begin(0, purpose, target);
    calls := [opening, opening];
    TwoCalls(u, objects, opening, opening);
    ToldOfThree(begin, End(0, Nobody), begin, 0);
    assert LogOf(u, objects, calls) == [begin, End(0, Nobody), begin];
  }

  /** What the handlers are told about every index, in every run, is a prefix of
      (begin blob* end)* exactly for users with handlers for all or for nothing. */
  lemma HandlersSeeLifecycleIff(u: User, objects: seq<Object>)
    requires |objects| == MAX_SLOTS
    ensures (forall calls, i :: Lawful(Delivered(At(LogOf(u, objects, calls), i)))) <==> AllOrNothing(u, objects)
  {
    if AllOrNothing(u, objects) {
      forall calls, i ensures Lawful(Delivered(At(LogOf(u, objects, calls), i))) {
        SafeRuns(u, objects, calls, i);
      }
    } else {
      var calls := UnsafeRun(u, objects);
    }
  }
}
