/** One direction of the shared-memory socket, libguac/src/socket-shared-memory.c
    from line 2661 on: a ring of packets that may be read in part. Every method is
    one step under the queue's mutex. Packets are not streamlined. */
module Rings {

  function Min(a: int, b: int): int { if a < b then a else b }

  ghost function Flat<T>(chunks: seq<seq<T>>): seq<T> {
    if chunks == [] then [] else chunks[0] + Flat(chunks[1..])
  }

  lemma {:induction false} FlatAppend<T>(a: seq<seq<T>>, b: seq<seq<T>>)
    ensures Flat(a + b) == Flat(a) + Flat(b)
  {
    if a == [] {
      assert a + b == b;
    } else {
      FlatAppend(a[1..], b);
      assert (a + b)[1..] == a[1..] + b;
      assert a[0] + (Flat(a[1..]) + Flat(b)) == (a[0] + Flat(a[1..])) + Flat(b);
    }
  }

  /** Packets that n bytes need. */
  function Needed(n: int, packetSize: int): nat
    requires packetSize > 0
    decreases n
  {
    if n <= 0 then 0 else 1 + Needed(n - packetSize, packetSize)
  }

  /** std::ceil of the quotient, in exact arithmetic. */
  function CeilDiv(n: nat, packetSize: int): int
    requires packetSize > 0
  {
    (n + packetSize - 1) / packetSize
  }

  lemma {:induction false} CeilIsNeeded(n: nat, packetSize: int)
    requires packetSize > 0
    ensures CeilDiv(n, packetSize) == Needed(n, packetSize)
    decreases n
  {
    if n == 0 {
      SmallQuotient(packetSize - 1, packetSize);
    } else if n <= packetSize {
      SmallQuotient(n - 1, packetSize);
      NextQuotient(n - 1, packetSize);
    } else {
      CeilIsNeeded(n - packetSize, packetSize);
      NextQuotient(n - 1, packetSize);
    }
  }

  lemma SmallQuotient(a: int, b: int)
    requires 0 <= a < b
    ensures a / b == 0 && a % b == a
  {
  }

  lemma NextQuotient(a: int, b: int)
    requires 0 <= a && b > 0
    ensures (a + b) / b == a / b + 1 && (a + b) % b == a % b
  {
    var q, r := (a + b) / b, (a + b) % b;
    assert a + b == b * q + r && a == b * (a / b) + a % b;
    assert b * (q - a / b - 1) == a % b - r;
    Multiples(b, q - a / b - 1);
  }

  lemma Multiples(b: int, k: int)
    requires b > 0
    ensures k >= 1 ==> b * k >= b
    ensures k <= -1 ==> b * k <= -b
  {
  }

  /** The pieces in which at most k packets take up a message. */
  function Cut<T>(bytes: seq<T>, packetSize: int, k: nat): (chunks: seq<seq<T>>)
    requires packetSize > 0
    ensures forall i :: 0 <= i < |chunks| ==> 0 < |chunks[i]| <= packetSize
    decreases k
  {
    if k == 0 || bytes == [] then []
    else
      var n := Min(|bytes|, packetSize);
      [bytes[..n]] + Cut(bytes[n..], packetSize, k - 1)
  }

  /** The pieces make up a beginning of the message, all of it if there is room. */
  lemma {:induction false} CutTakes<T>(bytes: seq<T>, packetSize: int, k: nat)
    requires packetSize > 0
    ensures Flat(Cut(bytes, packetSize, k)) <= bytes
    ensures Flat(Cut(bytes, packetSize, k)) == bytes <==> Needed(|bytes|, packetSize) <= k
    ensures |Cut(bytes, packetSize, k)| == Min(Needed(|bytes|, packetSize), k)
    decreases k
  {
    if k != 0 && bytes != [] {
      var n := Min(|bytes|, packetSize);
      CutTakes(bytes[n..], packetSize, k - 1);
      assert bytes == bytes[..n] + bytes[n..];
      assert Cut(bytes, packetSize, k)[1..] == Cut(bytes[n..], packetSize, k - 1);
      assert |bytes| - n == 0 || n == packetSize;
    }
  }

  lemma NothingNeeded(n: nat, packetSize: int)
    requires packetSize > 0
    ensures Needed(n, packetSize) == 0 <==> n == 0
  {
  }

  /** The next packet takes the next piece of the rest of the message. */
  lemma CutStep<T>(bytes: seq<T>, done: nat, packetSize: int, k: nat)
    requires packetSize > 0 && k > 0 && done <= |bytes| && Needed(|bytes| - done, packetSize) > 0
    ensures done < |bytes|
    ensures var n := Min(|bytes| - done, packetSize);
      && Needed(|bytes| - done - n, packetSize) == Needed(|bytes| - done, packetSize) - 1
      && Cut(bytes[done..], packetSize, k) == [bytes[done..done + n]] + Cut(bytes[done + n..], packetSize, k - 1)
  {
    var n := Min(|bytes| - done, packetSize);
    assert bytes[done..][..n] == bytes[done..done + n] && bytes[done..][n..] == bytes[done + n..];
  }

  /** Nothing is cut once the message is taken or no packet is free. */
  lemma CutDone<T>(bytes: seq<T>, done: nat, packetSize: int, k: nat)
    requires packetSize > 0 && done <= |bytes| && (k == 0 || Needed(|bytes| - done, packetSize) == 0)
    ensures Cut(bytes[done..], packetSize, k) == []
    ensures done == |bytes| <==> Needed(|bytes| - done, packetSize) == 0
  {
  }

  class Ring<T(0,!new)> {
    const maxSize: int
    const packetSize: int
    /** The packets' buffers, current_packet_size and current_read_byte. */
    const data: array2<T>
    const sizes: array<int>
    const offsets: array<int>
    var currentSize: int
    var readMarker: int
    var writeMarker: int
    /** The unread bytes of each queued packet, and all bytes since the last reset. */
    ghost var chunks: seq<seq<T>>
    ghost var accepted: seq<T>
    ghost var delivered: seq<T>

    /** The packet has exactly these bytes left to read. */
    ghost predicate Holds(slot: int, chunk: seq<T>)
      requires 0 <= slot < data.Length0 && slot < sizes.Length && slot < offsets.Length
      reads data, sizes, offsets
    {
      && chunk != [] && sizes[slot] == |chunk| && 0 <= offsets[slot] && offsets[slot] + |chunk| <= data.Length1
      && forall j :: 0 <= j < |chunk| ==> data[slot, offsets[slot] + j] == chunk[j]
    }

    /** The packet i places after the read marker. */
    function Slot(i: int): int
      reads this
    {
      if readMarker + i < maxSize then readMarker + i else readMarker + i - maxSize
    }

    ghost predicate Shaped() {
      && 0 < maxSize && 0 < packetSize && data.Length0 == maxSize && data.Length1 == packetSize
      && sizes.Length == maxSize && offsets.Length == maxSize && sizes != offsets
    }

    ghost predicate Valid()
      reads this, data, sizes, offsets
    {
      && Shaped()
      && 0 <= currentSize == |chunks| <= maxSize && 0 <= readMarker < maxSize && 0 <= writeMarker < maxSize
      && writeMarker == Slot(currentSize)
      && (forall i :: 0 <= i < currentSize ==> Holds(Slot(i), chunks[i]))
      && accepted == delivered + Flat(chunks)
    }

    constructor (queueSize: int, packetSize: int)
      requires queueSize > 0 && packetSize > 0
      ensures Valid() && chunks == [] && accepted == [] && maxSize == queueSize && this.packetSize == packetSize
    {
      maxSize, this.packetSize := queueSize, packetSize;
      data := new T[queueSize, packetSize];
      var s, o := new int[queueSize](i => 0), new int[queueSize](i => 0);
      sizes, offsets := s, o;
      currentSize, readMarker, writeMarker := 0, 0, 0;
      chunks, accepted, delivered := [], [], [];
    }

    /** queue_clear, called by the reset handler. */
    method Clear()
      requires Valid()
      modifies this, sizes, offsets
      ensures Valid() && chunks == [] && accepted == [] && delivered == []
    {
      currentSize, readMarker, writeMarker := 0, 0, 0;
      forall i | 0 <= i < maxSize { offsets[i] := 0; }
      forall i | 0 <= i < maxSize { sizes[i] := 0; }
      chunks, accepted, delivered := [], [], [];
    }

    /** The remainder that moves a marker on is a step round the ring. */
    lemma Round(k: int)
      requires 0 <= k < maxSize
      ensures (k + 1) % maxSize == if k + 1 == maxSize then 0 else k + 1
    {
      if k + 1 == maxSize {
        NextQuotient(0, maxSize);
      } else {
        SmallQuotient(k + 1, maxSize);
      }
    }

    /** queue_pop, on a queue whose first packet has been read to its end. */
    method Pop()
      requires Shaped() && 0 < currentSize == |chunks| && currentSize <= maxSize && 0 <= readMarker < maxSize
      requires 0 <= writeMarker < maxSize && writeMarker == Slot(currentSize)
      requires forall i :: 1 <= i < currentSize ==> Holds(Slot(i), chunks[i])
      requires accepted == delivered + Flat(chunks[1..])
      modifies this, sizes, offsets
      ensures Valid() && chunks == old(chunks[1..]) && accepted == old(accepted) && delivered == old(delivered)
    {
      offsets[readMarker], sizes[readMarker] := 0, 0;
      Round(readMarker);
      readMarker := (readMarker + 1) % maxSize;
      currentSize := currentSize - 1;
      chunks := chunks[1..];
      if currentSize == 0 {
        readMarker, writeMarker := 0, 0;
      }
      assert forall i :: 0 <= i < currentSize ==> Slot(i) == old(Slot(i + 1));
    }

    /** What reading n bytes from the first packet delivers and leaves. */
    ghost function AfterRead(n: int): seq<seq<T>>
      requires n > 0 && chunks != []
      reads this
    {
      if n >= |chunks[0]| then chunks[1..] else [chunks[0][n..]] + chunks[1..]
    }

    /** The body of both reads: takes up to n bytes from the first packet, and pops
        it when it is done. */
    method ReadPacket(n: int) returns (bytes: seq<T>)
      requires Valid() && n > 0 && currentSize > 0
      modifies this, sizes, offsets
      ensures Valid() && chunks == old(AfterRead(n)) && bytes == old(chunks[0][..Min(n, |chunks[0]|)])
      ensures delivered == old(delivered) + bytes && accepted == old(accepted)
    {
      hide Flat, Holds;
      var slot := readMarker;
      assert Slot(0) == slot && forall i :: 1 <= i < currentSize ==> Slot(i) != slot;
      ghost var was, after := chunks, AfterRead(n);
      ReadKeeps(was, n, was[0][..Min(n, |was[0]|)], after);
      bytes := Advance(slot, n, was[0]);
      assert delivered + (bytes + Flat(after)) == (delivered + bytes) + Flat(after);
      delivered := delivered + bytes;
      if sizes[slot] == 0 {
        assert after == chunks[1..];
        Pop();
      } else {
        chunks := after;
        forall i | 0 <= i < currentSize ensures Holds(Slot(i), chunks[i]) {
          assert i > 0 ==> chunks[i] == was[i];
        }
      }
    }

    /** Moves up to n bytes of a packet past its offset; other packets keep theirs. */
    method Advance(slot: int, n: int, ghost chunk: seq<T>) returns (bytes: seq<T>)
      requires Shaped() && 0 <= slot < maxSize && n > 0 && Holds(slot, chunk)
      modifies sizes, offsets
      ensures bytes == chunk[..Min(n, |chunk|)] && sizes[slot] == |chunk| - |bytes|
      ensures |bytes| < |chunk| ==> Holds(slot, chunk[|bytes|..])
      ensures forall other, c :: 0 <= other < maxSize && other != slot && old(Holds(other, c)) ==> Holds(other, c)
    {
      var size, offset := Min(n, sizes[slot]), offsets[slot];
      bytes := seq(size, j requires 0 <= j < size reads data => data[slot, offset + j]);
      assert bytes == chunk[..size];
      offsets[slot] := offset + size;
      sizes[slot] := sizes[slot] - size;
      assert forall j :: 0 <= j < |chunk| - size ==> chunk[size..][j] == chunk[size + j];
    }

    /** single_packet_read */
    method SingleRead(count: nat) returns (bytes: seq<T>)
      requires Valid()
      modifies this, sizes, offsets
      ensures Valid() && delivered == old(delivered) + bytes && accepted == old(accepted)
      ensures count == 0 || old(chunks) == [] ==> bytes == [] && chunks == old(chunks)
      ensures count > 0 && old(chunks) != [] ==>
        bytes == old(chunks[0][..Min(count, |chunks[0]|)]) &&
          chunks == old(if count > 0 && chunks != [] then AfterRead(count) else chunks)
    {
      if count == 0 || currentSize == 0 {
        return [];
      }
      bytes := ReadPacket(count);
    }

    /** multi_packet_read: fills the caller's buffer as far as there are bytes. */
    method MultiRead(count: nat) returns (bytes: seq<T>)
      requires Valid()
      modifies this, sizes, offsets
      ensures Valid() && delivered == old(delivered) + bytes && accepted == old(accepted)
      ensures |bytes| == Min(count, old(|Flat(chunks)|)) && bytes + Flat(chunks) == old(Flat(chunks))
    {
      hide Valid, Flat;
      bytes := [];
      var left := count;
      assert [] + Flat(chunks) == Flat(chunks);
      while left > 0 && currentSize > 0
        invariant Valid() && 0 <= left == count - |bytes|
        invariant delivered == old(delivered) + bytes && accepted == old(accepted)
        invariant bytes + Flat(chunks) == old(Flat(chunks))
        decreases left
      {
        ghost var was, before := chunks, bytes;
        NonEmpty();
        var more := ReadPacket(left);
        ReadKeeps(was, left, more, chunks);
        assert before + (more + Flat(chunks)) == before + more + Flat(chunks);
        left := left - |more|;
        bytes := bytes + more;
      }
      if left > 0 {
        Emptied();
      }
    }

    lemma NonEmpty()
      requires Valid() && currentSize > 0
      ensures chunks != [] && chunks[0] != []
    {
      assert Holds(Slot(0), chunks[0]);
    }

    lemma Emptied()
      requires Valid() && currentSize <= 0
      ensures chunks == [] && Flat(chunks) == []
    {
    }

    static lemma ReadKeeps(was: seq<seq<T>>, n: int, bytes: seq<T>, now: seq<seq<T>>)
      requires was != [] && n > 0 && bytes == was[0][..Min(n, |was[0]|)]
      requires now == if n >= |was[0]| then was[1..] else [was[0][n..]] + was[1..]
      ensures bytes + Flat(now) == Flat(was)
    {
      hide Flat;
      FlatHead(was[0], was[1..]);
      assert was == [was[0]] + was[1..];
      if n < |was[0]| {
        var rest := was[0][n..];
        FlatHead(rest, was[1..]);
        assert bytes + (rest + Flat(was[1..])) == (bytes + rest) + Flat(was[1..]);
        assert bytes + rest == was[0];
      } else {
        assert bytes == was[0];
      }
    }

    static lemma FlatHead(head: seq<T>, tail: seq<seq<T>>)
      ensures Flat([head] + tail) == head + Flat(tail)
    {
      assert ([head] + tail)[1..] == tail;
    }

    /** One turn of the write loop: start_push, the copy, and end_push. */
    method Push(bytes: seq<T>)
      requires Valid() && currentSize < maxSize && 0 < |bytes| <= packetSize
      modifies this, data, sizes, offsets
      ensures Valid() && chunks == old(chunks) + [bytes]
      ensures accepted == old(accepted) + bytes && delivered == old(delivered)
    {
      hide Holds, Flat;
      var slot := writeMarker;
      assert forall i :: 0 <= i < currentSize ==> Slot(i) != slot;
      Fill(slot, bytes);
      Round(writeMarker);
      currentSize := currentSize + 1;
      writeMarker := (writeMarker + 1) % maxSize;
      FlatAppend(chunks, [bytes]);
      FlatOne(bytes);
      chunks, accepted := chunks + [bytes], accepted + bytes;
    }

    /** The bytes of a packet being written; other packets keep theirs. */
    method Fill(slot: int, bytes: seq<T>)
      requires Shaped() && 0 <= slot < maxSize && 0 < |bytes| <= packetSize
      modifies data, sizes, offsets
      ensures Holds(slot, bytes)
      ensures forall other, chunk :: 0 <= other < maxSize && other != slot && old(Holds(other, chunk)) ==>
        Holds(other, chunk)
    {
      offsets[slot] := 0;
      sizes[slot] := 0;
      forall j | 0 <= j < |bytes| {
        data[slot, j] := bytes[j];
      }
      sizes[slot] := |bytes|;
    }

    static lemma FlatOne(bytes: seq<T>)
      ensures Flat([bytes]) == bytes
    {
    }

    lemma Room()
      requires Valid()
      ensures packetSize > 0 && 0 <= currentSize == |chunks| <= maxSize
    {
    }

    /** The write handler: takes as much of the message as free packets allow. */
    method Write(bytes: seq<T>) returns (written: int)
      requires Valid()
      modifies this, data, sizes, offsets
      ensures Valid() && 0 <= written <= |bytes|
      ensures accepted == old(accepted) + bytes[..written] && delivered == old(delivered)
      ensures chunks == old(chunks) + Cut(bytes, packetSize, maxSize - old(currentSize))
      ensures written == |bytes| <==> CeilDiv(|bytes|, packetSize) <= maxSize - old(currentSize)
    {
      hide Needed, CeilDiv, Flat, Cut, Valid;
      Room();
      CeilIsNeeded(|bytes|, packetSize);
      CutTakes(bytes, packetSize, maxSize - currentSize);
      NothingNeeded(|bytes|, packetSize);
      if |bytes| == 0 {
        return 0;
      }
      var packets := Min(CeilDiv(|bytes|, packetSize), maxSize - currentSize);
      if packets == 0 {
        return 0;
      }
      var done := 0;
      var i := 0;
      while i < packets
        invariant 0 <= i <= packets <= maxSize - old(currentSize) && currentSize == old(currentSize) + i
        invariant Valid() && 0 <= done <= |bytes|
        invariant Needed(|bytes| - done, packetSize) == Needed(|bytes|, packetSize) - i
        invariant chunks + Cut(bytes[done..], packetSize, maxSize - currentSize)
                  == old(chunks) + Cut(bytes, packetSize, maxSize - old(currentSize))
        invariant accepted == old(accepted) + bytes[..done] && delivered == old(delivered)
      {
        Room();
        var size := Min(|bytes| - done, packetSize);
        CutStep(bytes, done, packetSize, maxSize - currentSize);
        assert bytes[..done] + bytes[done..done + size] == bytes[..done + size];
        Push(bytes[done..done + size]);
        Room();
        done := done + size;
        i := i + 1;
      }
      CutDone(bytes, done, packetSize, maxSize - currentSize);
      return done;
    }
  }

  /** A message of at most one packet is cut into itself, or waits for a packet. */
  lemma MessageWhole<T>(message: seq<T>, packetSize: int, k: nat)
    requires 0 < |message| <= packetSize
    ensures Cut(message, packetSize, k) == if k == 0 then [] else [message]
    ensures CeilDiv(|message|, packetSize) == 1
  {
    CeilIsNeeded(|message|, packetSize);
    assert Needed(|message| - packetSize, packetSize) == 0;
    if k != 0 {
      assert message[..|message|] == message && message[|message|..] == [];
    }
  }

  datatype Event<T> = Send(message: seq<T>) | Receive(count: nat)

  /** A write of a message of at most one packet. */
  method Offer<T(0,!new)>(ring: Ring<T>, message: seq<T>) returns (taken: bool)
    requires ring.Valid() && 0 < |message| <= ring.packetSize
    modifies ring, ring.data, ring.sizes, ring.offsets
    ensures ring.Valid() && ring.chunks == old(ring.chunks) + if taken then [message] else []
  {
    hide Cut, CeilDiv, Ring.Valid;
    ring.Room();
    MessageWhole(message, ring.packetSize, ring.maxSize - ring.currentSize);
    var written := ring.Write(message);
    taken := written == |message|;
  }

  /** A single-packet read with room for one. */
  method Collect<T(0,!new)>(ring: Ring<T>, count: nat) returns (bytes: seq<T>)
    requires ring.Valid() && ring.packetSize <= count && forall k :: 0 <= k < |ring.chunks| ==> 0 < |ring.chunks[k]|
    modifies ring, ring.sizes, ring.offsets
    ensures ring.Valid()
    ensures if old(ring.chunks) == [] then bytes == [] && ring.chunks == []
            else bytes == old(ring.chunks[0]) && ring.chunks == old(ring.chunks[1..])
  {
    hide Flat;
    ghost var was := ring.chunks;
    if was != [] {
      assert ring.Holds(ring.Slot(0), was[0]);
      assert was[0][..|was[0]|] == was[0];
    }
    bytes := ring.SingleRead(count);
  }

  /** Over every interleaving of writes of at most one packet and single-packet
      reads with room for one, the messages written whole are the messages read,
      each whole and in order, followed by those still queued. */
  method Converse<T(0,!new)>(ring: Ring<T>, events: seq<Event<T>>) returns (sent: seq<seq<T>>, received: seq<seq<T>>)
    requires ring.Valid() && ring.chunks == []
    requires forall k :: 0 <= k < |events| ==>
      match events[k]
      case Send(message) => 0 < |message| <= ring.packetSize
      case Receive(count) => ring.packetSize <= count
    modifies ring, ring.data, ring.sizes, ring.offsets
    ensures ring.Valid() && sent == received + ring.chunks
  {
    hide Ring.Valid;
    sent, received := [], [];
    for k := 0 to |events|
      invariant ring.Valid() && sent == received + ring.chunks
      invariant forall k :: 0 <= k < |ring.chunks| ==> 0 < |ring.chunks[k]|
    {
      ghost var was := ring.chunks;
      match events[k]
      case Send(message) =>
        var taken := Offer(ring, message);
        if taken {
          assert received + (was + [message]) == (received + was) + [message];
          sent := sent + [message];
        } else {
          assert was + [] == was;
        }
      case Receive(count) =>
        var bytes := Collect(ring, count);
        if bytes != [] {
          assert (received + [bytes]) + was[1..] == received + was;
          received := received + [bytes];
        }
    }
  }
}
