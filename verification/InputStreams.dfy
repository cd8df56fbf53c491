/** The streams that a user opens: libguac/src/user-handlers.c. */
module InputStreams {
  import opened Base64
  import opened Streams
  import opened Utf8

  datatype Kind = Audio | Clipboard | File | Pipe

  /** What a stream is opened for: one of the kinds, or the body of an object. */
  datatype Purpose = OfKind(kind: Kind) | ForObject(number: int)

  /** Whose handler is called, if one is set. */
  datatype Handler = Nobody | OfStream | OfObject | OfUser

  datatype Status = BadRequest | Unsupported

  /** What happens to a stream, with the handler that is told, and acknowledgements. */
  datatype Event =
    | Begin(index: int, purpose: Purpose, target: Handler)
    | Blob(index: int, data: seq<byte>, target: Handler)
    | End(index: int, target: Handler)
    | Ack(index: int, status: Status)

  /** The slot of a stream; handlers are there or not. */
  datatype Stream = Stream(index: int, blobHandler: bool, endHandler: bool)

  datatype Object = Object(index: int, putHandler: bool)

  /** The handlers of a user: for beginning streams, for blobs and for ends. */
  datatype User = User(begins: set<Kind>, putHandler: bool, blobHandler: bool, endHandler: bool)

  /** The handlers that a begin handler leaves in the stream. */
  datatype Leaves = Leaves(blobHandler: bool, endHandler: bool)

  datatype Call =
    | OpenStream(kind: Kind, index: int, leaves: Leaves)
    | PutObject(number: int, index: int, leaves: Leaves)
    | SendBlob(index: int, text: seq<byte>)
    | EndStream(index: int)

  function BlobTo(u: User, s: Stream): Handler {
    if s.blobHandler then OfStream else if u.blobHandler then OfUser else Nobody
  }

  function EndTo(u: User, s: Stream): Handler {
    if s.endHandler then OfStream else if u.endHandler then OfUser else Nobody
  }

  function BeginTo(u: User, kind: Kind): Handler {
    if kind in u.begins then OfUser else Nobody
  }

  function PutTo(u: User, o: Object): Handler {
    if o.putHandler then OfObject else if u.putHandler then OfUser else Nobody
  }

  predicate InRange(index: int) {
    0 <= index < MAX_SLOTS
  }

  predicate IsOpenAt(streams: seq<Stream>, index: int)
    requires |streams| == MAX_SLOTS
  {
    InRange(index) && streams[index].index != CLOSED
  }

  /** The end that reopening forces. */
  function Forced(u: User, s: Stream): seq<Event> {
    if s.index != CLOSED then [End(s.index, EndTo(u, s))] else []
  }

  function Opening(u: User, s: Stream, index: int, purpose: Purpose, target: Handler, leaves: Leaves): (Stream,
                   seq<Event>) {
    if target == Nobody then
      (Stream(index, false, false), Forced(u, s) + [Begin(index, purpose, target), Ack(index, Unsupported)])
    else
      (Stream(index, leaves.blobHandler, leaves.endHandler), Forced(u, s) + [Begin(index, purpose, target)])
  }

  /** What each instruction does. */
  function Respond(u: User, objects: seq<Object>, streams: seq<Stream>, call: Call): (r: (seq<Stream>, seq<Event>))
    requires |streams| == MAX_SLOTS && |objects| == MAX_SLOTS
    ensures |r.0| == MAX_SLOTS
  {
    match call
    case OpenStream(kind, index, leaves) =>
      if !InRange(index) then (streams, [Ack(index, BadRequest)])
      else
        var (s, events) := Opening(u, streams[index], index, OfKind(kind), BeginTo(u, kind), leaves);
        (streams[index := s], events)
    case PutObject(number, index, leaves) =>
      if !InRange(number) || objects[number].index == CLOSED then (streams, [])
      else if !InRange(index) then (streams, [Ack(index, BadRequest)])
      else
        var (s, events) := Opening(u, streams[index], index, ForObject(number), PutTo(u, objects[number]), leaves);
        (streams[index := s], events)
    case SendBlob(index, text) =>
      if !IsOpenAt(streams, index) then (streams, [Ack(index, BadRequest)])
      else if BlobTo(u, streams[index]) == Nobody then (streams, [Blob(index, [], Nobody), Ack(index, Unsupported)])
      else (streams, [Blob(index, Decode(text + [0], 0, 0), BlobTo(u, streams[index]))])
    case EndStream(index) =>
      if !IsOpenAt(streams, index) then (streams, [Ack(index, BadRequest)])
      else (streams[index := streams[index].(index := CLOSED)], [End(index, EndTo(u, streams[index]))])
  }

  // ----- the lifecycle of a stream -----

  /** What happened at one index. */
  function At(log: seq<Event>, i: int): seq<Event> {
    if log == [] then []
    else
      var front, last := log[..|log| - 1], log[|log| - 1];
      At(front, i) + if last.index == i && !last.Ack? then [last] else []
  }

  lemma {:induction false} AtAppend(log: seq<Event>, events: seq<Event>, i: int)
    ensures At(log + events, i) == At(log, i) + At(events, i)
    decreases |events|
  {
    if events == [] {
      assert log + events == log;
    } else {
      var front := events[..|events| - 1];
      AtAppend(log, front, i);
      assert (log + events)[..|log + events| - 1] == log + front;
    }
  }

  predicate Open(events: seq<Event>) {
    events != [] && !events[|events| - 1].End?
  }

  /** Begins only when closed, blobs and ends only when open. */
  predicate Lawful(events: seq<Event>) {
    events == [] ||
    (var front, last := events[..|events| - 1], events[|events| - 1];
     Lawful(front) && (last.Begin? <==> !Open(front)) && !last.Ack?)
  }

  lemma LawfulThen(events: seq<Event>, e: Event)
    requires Lawful(events) && !e.Ack? && (e.Begin? <==> !Open(events))
    ensures Lawful(events + [e]) && (Open(events + [e]) <==> !e.End?)
  {
    assert (events + [e])[..|events|] == events;
  }

  /** The streams are open that the log says. */
  ghost predicate Accounted(log: seq<Event>, streams: seq<Stream>) {
    && |streams| == MAX_SLOTS
    && (forall i :: InRange(i) ==>
          Lawful(At(log, i)) && streams[i].index == if Open(At(log, i)) then i else CLOSED)
    && (forall i :: !InRange(i) ==> At(log, i) == [])
  }

  /** Some events at one index, as its stream takes them. */
  ghost predicate Follows(was: Stream, events: seq<Event>, index: int, now: Stream) {
    && (forall k :: 0 <= k < |events| ==> events[k].index == index)
    && (forall before :: Lawful(before) && was.index == (if Open(before) then index else CLOSED) ==>
          Lawful(before + At(events, index)) && now.index == if Open(before + At(events, index)) then index else CLOSED)
  }

  lemma AtElsewhere(events: seq<Event>, i: int)
    requires forall k :: 0 <= k < |events| ==> events[k].index != i
    ensures At(events, i) == []
  {
    if events != [] {
      AtElsewhere(events[..|events| - 1], i);
    }
  }

  lemma AtOne(e: Event, i: int)
    ensures At([e], i) == if e.index == i && !e.Ack? then [e] else []
  {
    assert [e][..0] == [] && At([], i) == [];
  }

  lemma AtTwo(e: Event, f: Event, i: int)
    ensures At([e, f], i) == At([e], i) + At([f], i)
  {
    AtAppend([e], [f], i);
    assert [e] + [f] == [e, f];
  }

  lemma FollowsFrom(was: Stream, events: seq<Event>, index: int, now: Stream, before: seq<Event>)
    requires Follows(was, events, index, now)
    requires Lawful(before) && was.index == if Open(before) then index else CLOSED
    ensures Lawful(before + At(events, index)) &&
      now.index == if Open(before + At(events, index)) then index else CLOSED
    ensures forall k :: 0 <= k < |events| ==> events[k].index == index
  {
  }

  /** The events of one call are lawful after lawful ones. */
  lemma AccountedThen(log: seq<Event>, streams: seq<Stream>, events: seq<Event>, index: int, now: Stream)
    requires Accounted(log, streams) && InRange(index) && Follows(streams[index], events, index, now)
    ensures Accounted(log + events, streams[index := now])
  {
    hide Lawful, Open, At, Follows;
    FollowsFrom(streams[index], events, index, now, At(log, index));
    forall i ensures At(log + events, i) == if i == index then At(log, i) + At(events, i) else At(log, i) {
      AtAppend(log, events, i);
      if i != index {
        AtElsewhere(events, i);
      }
    }
  }

  /** What opening does to the stream at its index: an end if it was open, and a begin. */
  lemma OpeningAt(u: User, s: Stream, index: int, purpose: Purpose, target: Handler, leaves: Leaves)
    requires s.index == index || s.index == CLOSED
    ensures var (now, events) := Opening(u, s, index, purpose, target, leaves);
      && (forall k :: 0 <= k < |events| ==> events[k].index == index) && now.index == index
      && At(events, index) == Forced(u, s) + [Begin(index, purpose, target)]
  {
    hide At;
    var begin := Begin(index, purpose, target);
    var rest := if target == Nobody then [begin, Ack(index, Unsupported)] else [begin];
    AtOne(begin, index);
    AtOne(Ack(index, Unsupported), index);
    AtTwo(begin, Ack(index, Unsupported), index);
    assert [begin] + [] == [begin];
    AtNothing(index);
    AtOne(End(index, EndTo(u, s)), index);
    AtAppend(Forced(u, s), rest, index);
  }

  lemma AtNothing(i: int)
    ensures At([], i) == []
  {
  }

  lemma OpeningFollows(u: User, s: Stream, index: int, purpose: Purpose, target: Handler, leaves: Leaves)
    requires s.index == index || s.index == CLOSED
    requires InRange(index)
    ensures var (now, events) := Opening(u, s, index, purpose, target, leaves); Follows(s, events, index, now)
  {
    hide Lawful, Open, At, Opening;
    var (now, events) := Opening(u, s, index, purpose, target, leaves);
    OpeningAt(u, s, index, purpose, target, leaves);
    var begin := Begin(index, purpose, target);
    forall before | Lawful(before) && s.index == (if Open(before) then index else CLOSED)
      ensures Lawful(before + At(events, index)) && Open(before + At(events, index))
    {
      if s.index != CLOSED {
        var end := End(index, EndTo(u, s));
        LawfulThen(before, end);
        LawfulThen(before + [end], begin);
        assert before + [end] + [begin] == before + ([end] + [begin]);
      } else {
        LawfulThen(before, begin);
        assert [] + [begin] == [begin];
      }
    }
  }

  lemma BlobFollows(s: Stream, index: int, blob: Event)
    requires s.index == index && InRange(index) && blob.Blob? && blob.index == index
    ensures Follows(s, [blob], index, s) && Follows(s, [blob, Ack(index, Unsupported)], index, s)
  {
    hide Lawful, Open;
    AtOne(blob, index);
    AtOne(Ack(index, Unsupported), index);
    AtTwo(blob, Ack(index, Unsupported), index);
    assert [blob] + [] == [blob];
    forall before | Lawful(before) && s.index == (if Open(before) then index else CLOSED)
      ensures Lawful(before + [blob]) && Open(before + [blob])
    {
      LawfulThen(before, blob);
    }
  }

  lemma EndFollows(s: Stream, index: int, end: Event)
    requires s.index == index && InRange(index) && end.End? && end.index == index
    ensures Follows(s, [end], index, s.(index := CLOSED))
  {
    hide Lawful, Open;
    AtOne(end, index);
    forall before | Lawful(before) && s.index == (if Open(before) then index else CLOSED)
      ensures Lawful(before + [end]) && !Open(before + [end])
    {
      LawfulThen(before, end);
    }
  }

  lemma AckFollows(log: seq<Event>, streams: seq<Stream>, index: int)
    requires Accounted(log, streams)
    ensures Accounted(log + [Ack(index, BadRequest)], streams)
  {
    hide Lawful, Open;
    forall i ensures At(log + [Ack(index, BadRequest)], i) == At(log, i) {
      AtOne(Ack(index, BadRequest), i);
      AtAppend(log, [Ack(index, BadRequest)], i);
    }
  }

  /** Every instruction keeps the log lawful. */
  lemma RespondKeeps(u: User, objects: seq<Object>, streams: seq<Stream>, call: Call, log: seq<Event>)
    requires |objects| == MAX_SLOTS == |streams| && Accounted(log, streams)
    ensures var (now, events) := Respond(u, objects, streams, call); Accounted(log + events, now)
  {
    hide At, Lawful, Follows, Opening, Decode, Accounted;
    var (now, events) := Respond(u, objects, streams, call);
    AckFollows(log, streams, call.index);
    assert log + [] == log;
    if InRange(call.index) {
      AccountedAt(log, streams, call.index);
      match call
      case OpenStream(kind, index, leaves) =>
        OpeningFollows(u, streams[index], index, OfKind(kind), BeginTo(u, kind), leaves);
        AccountedThen(log, streams, events, index, now[index]);
      case PutObject(number, index, leaves) =>
        if InRange(number) && objects[number].index != CLOSED {
          OpeningFollows(u, streams[index], index, ForObject(number), PutTo(u, objects[number]), leaves);
          AccountedThen(log, streams, events, index, now[index]);
        }
      case SendBlob(index, text) =>
        if IsOpenAt(streams, index) {
          BlobFollows(streams[index], index, events[0]);
          AccountedThen(log, streams, events, index, streams[index]);
          assert streams[index := streams[index]] == streams;
        }
      case EndStream(index) =>
        if IsOpenAt(streams, index) {
          EndFollows(streams[index], index, events[0]);
          AccountedThen(log, streams, events, index, now[index]);
        }
    }
  }

  lemma AccountedAt(log: seq<Event>, streams: seq<Stream>, i: int)
    requires Accounted(log, streams) && InRange(i)
    ensures streams[i].index == i || streams[i].index == CLOSED
  {
  }

  // ----- runs -----

  /** An instruction, with the handlers and objects at the time it arrives. */
  datatype Turn = Turn(user: User, objects: seq<Object>, call: Call)

  ghost predicate Turns(turns: seq<Turn>) {
    forall k :: 0 <= k < |turns| ==> |turns[k].objects| == MAX_SLOTS
  }

  /** guac_user_alloc */
  function Closed(): seq<Stream> {
    seq(MAX_SLOTS, i => Stream(CLOSED, false, false))
  }

  function After(turns: seq<Turn>): (r: (seq<Stream>, seq<Event>))
    requires Turns(turns)
    ensures |r.0| == MAX_SLOTS
  {
    if turns == [] then (Closed(), [])
    else
      var (streams, log) := After(turns[..|turns| - 1]);
      var last := turns[|turns| - 1];
      var (now, events) := Respond(last.user, last.objects, streams, last.call);
      (now, log + events)
  }

  /** Over every run, each stream is begun, gets its blobs and ends, again and again,
      and nothing happens at an index that is out of range. */
  lemma {:induction false} AllRuns(turns: seq<Turn>)
    requires Turns(turns)
    ensures Accounted(After(turns).1, After(turns).0)
  {
    if turns == [] {
      assert forall i :: At([], i) == [];
    } else {
      var before := After(turns[..|turns| - 1]);
      var last := turns[|turns| - 1];
      AllRuns(turns[..|turns| - 1]);
      RespondKeeps(last.user, last.objects, before.0, last.call, before.1);
    }
  }

  // ----- the lifecycle as a regular expression -----

  /** One use of an index. */
  datatype Session = Session(begin: Event, blobs: seq<Event>, end: seq<Event>)

  ghost predicate Proper(s: Session) {
    && s.begin.Begin? && |s.end| <= 1 && (forall k :: 0 <= k < |s.blobs| ==> s.blobs[k].Blob?)
    && (s.end != [] ==> s.end[0].End?)
  }

  /** Sessions of which all but the last have ended. */
  ghost predicate Sequence(sessions: seq<Session>) {
    && (forall k :: 0 <= k < |sessions| ==> Proper(sessions[k]))
    && (forall k :: 0 <= k < |sessions| - 1 ==> sessions[k].end != [])
  }

  function Flatten(sessions: seq<Session>): seq<Event> {
    if sessions == [] then []
    else
      var last := sessions[|sessions| - 1];
      Flatten(sessions[..|sessions| - 1]) + ([last.begin] + last.blobs + last.end)
  }

  lemma {:induction false} BlobsLawful(events: seq<Event>, blobs: seq<Event>)
    requires Lawful(events) && Open(events) && forall k :: 0 <= k < |blobs| ==> blobs[k].Blob?
    ensures Lawful(events + blobs) && Open(events + blobs)
    decreases |blobs|
  {
    if blobs == [] {
      assert events + blobs == events;
    } else {
      var front, last := blobs[..|blobs| - 1], blobs[|blobs| - 1];
      BlobsLawful(events, front);
      LawfulThen(events + front, last);
      assert events + front + [last] == events + blobs;
    }
  }

  lemma SessionThen(before: seq<Event>, s: Session)
    requires Lawful(before) && !Open(before) && Proper(s)
    ensures var events := before + ([s.begin] + s.blobs + s.end); Lawful(events) && (Open(events) <==> s.end == [])
  {
    hide Lawful, Open;
    LawfulThen(before, s.begin);
    BlobsLawful(before + [s.begin], s.blobs);
    var open := before + [s.begin] + s.blobs;
    if s.end == [] {
      assert before + ([s.begin] + s.blobs + s.end) == open;
    } else {
      LawfulThen(open, s.end[0]);
      assert before + ([s.begin] + s.blobs + s.end) == open + [s.end[0]];
    }
  }

  lemma {:induction false} SequenceLawful(sessions: seq<Session>)
    requires Sequence(sessions)
    ensures Lawful(Flatten(sessions))
    ensures Open(Flatten(sessions)) <==> sessions != [] && sessions[|sessions| - 1].end == []
  {
    hide Lawful, Open, Proper;
    NothingLawful();
    if sessions != [] {
      SequenceLawful(sessions[..|sessions| - 1]);
      SessionThen(Flatten(sessions[..|sessions| - 1]), sessions[|sessions| - 1]);
    }
  }

  lemma NothingLawful()
    ensures Lawful([]) && !Open([])
  {
  }

  /** Where the next event of a lawful stream goes. */
  lemma NextEvent(sessions: seq<Session>, e: Event) returns (more: seq<Session>)
    requires Sequence(sessions) && !e.Ack?
    requires e.Begin? <==> sessions == [] || sessions[|sessions| - 1].end != []
    ensures Sequence(more) && Flatten(more) == Flatten(sessions) + [e] && more != []
    ensures more[|more| - 1].end == [] <==> !e.End?
  {
    if e.Begin? {
      more := sessions + [Session(e, [], [])];
      assert more[..|more| - 1] == sessions;
    } else {
      var front, last := sessions[..|sessions| - 1], sessions[|sessions| - 1];
      var longer := if e.End? then last.(end := [e]) else last.(blobs := last.blobs + [e]);
      more := front + [longer];
      assert more[..|more| - 1] == front;
      assert [last.begin] + longer.blobs + longer.end == [last.begin] + last.blobs + last.end + [e];
    }
  }

  lemma {:induction false} LawfulSequence(events: seq<Event>) returns (sessions: seq<Session>)
    requires Lawful(events)
    ensures Sequence(sessions) && Flatten(sessions) == events
    ensures Open(events) <==> sessions != [] && sessions[|sessions| - 1].end == []
    decreases |events|
  {
    hide Flatten, Sequence;
    if events == [] {
      NoSessions();
      return [];
    }
    var front, e := events[..|events| - 1], events[|events| - 1];
    var before := LawfulSequence(front);
    sessions := NextEvent(before, e);
  }

  lemma NoSessions()
    ensures Sequence([]) && Flatten([]) == []
  {
  }

  /** Lawful events are the prefixes of (begin blob* end)*. */
  lemma LawfulIff(events: seq<Event>)
    ensures Lawful(events) <==> exists sessions :: Sequence(sessions) && Flatten(sessions) == events
  {
    if Lawful(events) {
      var sessions := LawfulSequence(events);
    }
    forall sessions | Sequence(sessions) && Flatten(sessions) == events ensures Lawful(events) {
      SequenceLawful(sessions);
    }
  }

  // ----- the handlers -----

  class UserStreams {
    /** The handlers set by whoever serves the user. */
    var user: User
    var objects: seq<Object>
    const streams: array<Stream>
    /** Handlers called and acknowledgements sent. */
    var log: seq<Event>

    ghost predicate Valid()
      reads this, streams
    {
      streams.Length == MAX_SLOTS == |objects| && Accounted(log, streams[..])
    }

    /** guac_user_alloc */
    constructor (handlers: User)
      ensures Valid() && fresh(streams) && log == [] && user == handlers
    {
      user, log := handlers, [];
      objects := seq(MAX_SLOTS, i => Object(CLOSED, false));
      streams := new Stream[MAX_SLOTS](i => Stream(CLOSED, false, false));
    }

    /** __get_input_stream */
    method GetInputStream(index: int) returns (slot: int)
      modifies this`log
      ensures slot == if InRange(index) then index else -1
      ensures log == old(log) + if InRange(index) then [] else [Ack(index, BadRequest)]
    {
      if index < 0 || index >= MAX_SLOTS {
        log := log + [Ack(index, BadRequest)];
        return -1;
      }
      return index;
    }

    /** __get_open_input_stream */
    method GetOpenInputStream(index: int) returns (slot: int)
      requires streams.Length == MAX_SLOTS
      modifies this`log
      ensures slot == if IsOpenAt(streams[..], index) then index else -1
      ensures log == old(log) + if IsOpenAt(streams[..], index) then [] else [Ack(index, BadRequest)]
    {
      slot := GetInputStream(index);
      if slot == -1 {
        return;
      }
      if streams[slot].index == CLOSED {
        log := log + [Ack(index, BadRequest)];
        return -1;
      }
    }

    /** __init_input_stream */
    method InitInputStream(index: int) returns (slot: int)
      requires streams.Length == MAX_SLOTS
      modifies this`log, streams
      ensures slot == if InRange(index) then index else -1
      ensures !InRange(index) ==> log == old(log) + [Ack(index, BadRequest)] && streams[..] == old(streams[..])
      ensures InRange(index) ==> log == old(log) + Forced(user, old(streams[index]))
      ensures InRange(index) ==> streams[..] == old(streams[..])[index := Stream(index, false, false)]
    {
      slot := GetInputStream(index);
      if slot == -1 {
        return;
      }
      if streams[slot].index != CLOSED {
        if streams[slot].endHandler {
          log := log + [End(streams[slot].index, OfStream)];
        } else if user.endHandler {
          log := log + [End(streams[slot].index, OfUser)];
        } else {
          log := log + [End(streams[slot].index, Nobody)];
        }
      }
      streams[slot] := Stream(index, false, false);
    }

    /** The handler for the stream, or the refusal where there is none. */
    method BeginStream(slot: int, purpose: Purpose, target: Handler, leaves: Leaves)
      requires streams.Length == MAX_SLOTS && InRange(slot) && streams[slot] == Stream(slot, false, false)
      modifies this`log, streams
      ensures target != Nobody ==>
        (log == old(log) + [Begin(slot, purpose, target)]
         && streams[..] == old(streams[..])[slot := Stream(slot, leaves.blobHandler, leaves.endHandler)])
      ensures target == Nobody ==>
        log == old(log) + [Begin(slot, purpose, Nobody), Ack(slot, Unsupported)] && streams[..] == old(streams[..])
    {
      log := log + [Begin(slot, purpose, target)];
      if target != Nobody {
        streams[slot] := Stream(slot, leaves.blobHandler, leaves.endHandler);
      } else {
        log := log + [Ack(slot, Unsupported)];
      }
    }

    /** __guac_handle_audio, __guac_handle_clipboard, __guac_handle_file and
        __guac_handle_pipe, which differ in the handler that they call. */
    method HandleOpen(kind: Kind, index: int, leaves: Leaves)
      requires Valid()
      modifies this`log, streams
      ensures Valid() && Responded(old(streams[..]), old(log), OpenStream(kind, index, leaves))
    {
      hide Accounted;
      ghost var was, logged := streams[..], log;
      ghost var r := Respond(user, objects, was, OpenStream(kind, index, leaves));
      RespondKeeps(user, objects, was, OpenStream(kind, index, leaves), log);
      var slot := InitInputStream(index);
      if slot != -1 {
        BeginStream(slot, OfKind(kind), if kind in user.begins then OfUser else Nobody, leaves);
        OpeningInTwo(user, was, index, OfKind(kind), BeginTo(user, kind), leaves, logged);
      }
      assert streams[..] == r.0 && log == logged + r.1;
    }

    /** The end that is forced, then the begin. */
    lemma OpeningInTwo(u: User, was: seq<Stream>, index: int, purpose: Purpose, target: Handler, leaves: Leaves,
                       logged: seq<Event>)
      requires |was| == MAX_SLOTS && InRange(index)
      ensures var (now, events) := Opening(u, was[index], index, purpose, target, leaves);
        var begin := [Begin(index, purpose, target)];
        var rest := if target == Nobody then begin + [Ack(index, Unsupported)] else begin;
        && logged + Forced(u, was[index]) + rest == logged + events
        && was[index := Stream(index, false, false)][index := now] == was[index := now]
    {
    }

    /** What the handlers promise: the new state is the one specified. */
    ghost predicate Responded(was: seq<Stream>, logged: seq<Event>, call: Call)
      requires |was| == MAX_SLOTS == |objects|
      reads this, streams
    {
      (streams[..], log) == (Respond(user, objects, was, call).0, logged + Respond(user, objects, was, call).1)
    }

    /** __guac_handle_put */
    method HandlePut(number: int, index: int, leaves: Leaves)
      requires Valid()
      modifies this`log, streams
      ensures Valid() && Responded(old(streams[..]), old(log), PutObject(number, index, leaves))
    {
      hide Accounted;
      ghost var was, logged := streams[..], log;
      ghost var r := Respond(user, objects, was, PutObject(number, index, leaves));
      RespondKeeps(user, objects, was, PutObject(number, index, leaves), log);
      assert log + [] == log;
      if number < 0 || number >= MAX_SLOTS {
        return;
      }
      var o := objects[number];
      if o.index == CLOSED {
        return;
      }
      var slot := InitInputStream(index);
      if slot != -1 {
        var target := if o.putHandler then OfObject else if user.putHandler then OfUser else Nobody;
        BeginStream(slot, ForObject(number), target, leaves);
        OpeningInTwo(user, was, index, ForObject(number), PutTo(user, o), leaves, logged);
      }
      assert streams[..] == r.0 && log == logged + r.1;
    }

    /** The base64 text in the parser's buffer, which ends it with NUL. */
    method Terminated(text: seq<byte>) returns (buf: array<byte>)
      ensures fresh(buf) && buf.Length == |text| + 1 && buf[0..] == text + [0] && buf[0..][|text|] == 0
    {
      buf := new byte[|text| + 1](i requires 0 <= i <= |text| => if i < |text| then text[i] else 0);
      assert buf[0..] == text + [0];
    }

    /** __guac_handle_blob */
    method HandleBlob(index: int, text: seq<byte>)
      requires Valid()
      modifies this`log
      ensures Valid() && Responded(old(streams[..]), old(log), SendBlob(index, text))
    {
      hide Accounted;
      RespondKeeps(user, objects, streams[..], SendBlob(index, text), log);
      assert log + [] == log;
      var slot := GetOpenInputStream(index);
      if slot == -1 {
        return;
      }
      if streams[slot].blobHandler || user.blobHandler {
        var buf := Terminated(text);
        var length := DecodeInPlace(buf, 0);
        log := log + [Blob(index, buf[..length], if streams[slot].blobHandler then OfStream else OfUser)];
        return;
      }
      log := log + [Blob(index, [], Nobody), Ack(index, Unsupported)];
    }

    /** __guac_handle_end */
    method HandleEnd(index: int)
      requires Valid()
      modifies this`log, streams
      ensures Valid() && Responded(old(streams[..]), old(log), EndStream(index))
    {
      hide Accounted;
      RespondKeeps(user, objects, streams[..], EndStream(index), log);
      assert log + [] == log;
      var slot := GetOpenInputStream(index);
      if slot == -1 {
        return;
      }
      if streams[slot].endHandler {
        log := log + [End(index, OfStream)];
      } else if user.endHandler {
        log := log + [End(index, OfUser)];
      } else {
        log := log + [End(index, Nobody)];
      }
      streams[slot] := streams[slot].(index := CLOSED);
    }
  }
}
