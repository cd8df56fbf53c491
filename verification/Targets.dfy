/** Who is told what happens to the streams of a user, by the instructions alone:
    libguac/src/user-handlers.c. */
module Targets {
  import opened Base64
  import opened InputStreams
  import opened Streams

  /** The index at which the instruction opens a stream, if it does. */
  function OpensAt(t: Turn): int
    requires |t.objects| == MAX_SLOTS
  {
    match t.call
    case OpenStream(_, index, _) => if 0 <= index < MAX_SLOTS then index else CLOSED
    case PutObject(number, index, _) =>
      if 0 <= number < MAX_SLOTS && t.objects[number].index != CLOSED && 0 <= index < MAX_SLOTS then index else CLOSED
    case _ => CLOSED
  }

  /** Somebody takes the stream that the instruction opens. */
  predicate Taken(t: Turn)
    requires |t.objects| == MAX_SLOTS
  {
    match t.call
    case OpenStream(kind, _, _) => kind in t.user.begins
    case PutObject(number, _, _) =>
      0 <= number < MAX_SLOTS && (t.objects[number].putHandler || t.user.putHandler)
    case _ => false
  }

  /** The last instruction that opened or ended the stream opened it. */
  predicate InUse(turns: seq<Turn>, i: int)
    requires Turns(turns)
  {
    turns != [] &&
    var last := turns[|turns| - 1];
    OpensAt(last) == i || (last.call != EndStream(i) && InUse(turns[..|turns| - 1], i))
  }

  /** The handlers that whoever took the stream last opened at the index left in it. */
  function Own(turns: seq<Turn>, i: int): Leaves
    requires Turns(turns)
  {
    if turns == [] then Leaves(false, false)
    else
      var last := turns[|turns| - 1];
      if OpensAt(last) != i then Own(turns[..|turns| - 1], i)
      else if Taken(last) then last.call.leaves
      else Leaves(false, false)
  }

  /** The slots are as the instructions say. */
  lemma {:induction false} SlotsAre(turns: seq<Turn>, i: int)
    requires Turns(turns) && 0 <= i < MAX_SLOTS
    ensures var s, own := After(turns).0[i], Own(turns, i);
      && s.index == (if InUse(turns, i) then i else CLOSED)
      && s.blobHandler == own.blobHandler && s.endHandler == own.endHandler
  {
    hide Decode;
    if turns != [] {
      SlotsAre(turns[..|turns| - 1], i);
    }
  }

  lemma OneMoreTurn(turns: seq<Turn>, t: Turn)
    requires Turns(turns) && |t.objects| == MAX_SLOTS
    ensures Turns(turns + [t])
    ensures var (streams, log) := After(turns);
      After(turns + [t]) == (Respond(t.user, t.objects, streams, t.call).0,
                             log + Respond(t.user, t.objects, streams, t.call).1)
  {
    hide Respond;
    assert (turns + [t])[..|turns|] == turns;
  }

  /** A blob of an open stream goes to the stream's own handler, to the user's only if it
      has none, and is refused as unsupported exactly if neither exists. */
  lemma BlobGoesTo(turns: seq<Turn>, t: Turn)
    requires Turns(turns) && |t.objects| == MAX_SLOTS && t.call.SendBlob?
    ensures Turns(turns + [t])
    ensures var i, data := t.call.index, Decode(t.call.text + [0], 0, 0);
      After(turns + [t]).1 == After(turns).1 +
        if !(0 <= i < MAX_SLOTS) || !InUse(turns, i) then [Ack(i, BadRequest)]
        else if Own(turns, i).blobHandler then [Blob(i, data, OfStream)]
        else if t.user.blobHandler then [Blob(i, data, OfUser)]
        else [Blob(i, [], Nobody), Ack(i, Unsupported)]
  {
    hide Decode, After, InUse, Own;
    OneMoreTurn(turns, t);
    if 0 <= t.call.index < MAX_SLOTS {
      SlotsAre(turns, t.call.index);
    }
  }

  /** So does an end, which is never refused. */
  lemma EndGoesTo(turns: seq<Turn>, t: Turn)
    requires Turns(turns) && |t.objects| == MAX_SLOTS && t.call.EndStream?
    ensures Turns(turns + [t])
    ensures var i := t.call.index;
      After(turns + [t]).1 == After(turns).1 +
        if !(0 <= i < MAX_SLOTS) || !InUse(turns, i) then [Ack(i, BadRequest)]
        else if Own(turns, i).endHandler then [End(i, OfStream)]
        else if t.user.endHandler then [End(i, OfUser)]
        else [End(i, Nobody)]
  {
    hide Decode, After, InUse, Own;
    OneMoreTurn(turns, t);
    if 0 <= t.call.index < MAX_SLOTS {
      SlotsAre(turns, t.call.index);
    }
  }

  /** Opening a stream first ends the one in use at its index, which is told as above.
      The new one goes to the user's handler of its kind, or to the object's, and to the
      user's only if the object has none; without any it is refused as unsupported. An
      index out of range is refused as a bad request; an object that does not exist is
      ignored before that. */
  lemma OpeningGoesTo(turns: seq<Turn>, t: Turn)
    requires Turns(turns) && |t.objects| == MAX_SLOTS && (t.call.OpenStream? || t.call.PutObject?)
    ensures Turns(turns + [t])
    ensures var i := t.call.index;
      var missing := t.call.PutObject? &&
        !(0 <= t.call.number < MAX_SLOTS && t.objects[t.call.number].index != CLOSED);
      After(turns + [t]).1 == After(turns).1 +
        if missing then []
        else if !(0 <= i < MAX_SLOTS) then [Ack(i, BadRequest)]
        else
          (if !InUse(turns, i) then []
           else if Own(turns, i).endHandler then [End(i, OfStream)]
           else if t.user.endHandler then [End(i, OfUser)]
           else [End(i, Nobody)]) +
          match t.call
          case OpenStream(kind, _, _) =>
            if kind in t.user.begins then [Begin(i, OfKind(kind), OfUser)]
            else [Begin(i, OfKind(kind), Nobody), Ack(i, Unsupported)]
          case PutObject(number, _, _) =>
            if t.objects[number].putHandler then [Begin(i, ForObject(number), OfObject)]
            else if t.user.putHandler then [Begin(i, ForObject(number), OfUser)]
            else [Begin(i, ForObject(number), Nobody), Ack(i, Unsupported)]
          case _ => []
  {
    hide Decode, After, InUse, Own;
    OneMoreTurn(turns, t);
    if 0 <= t.call.index < MAX_SLOTS {
      SlotsAre(turns, t.call.index);
    }
  }
}
