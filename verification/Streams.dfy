/** Stream, object and buffer identifiers over the pools: libguac/src/client.c and
    libguac/src/user.c. */
module Streams {
  import opened Pools

  /** GUAC_CLIENT_MAX_STREAMS, GUAC_USER_MAX_STREAMS, GUAC_USER_MAX_OBJECTS */
  const MAX_SLOTS := 64
  /** GUAC_CLIENT_CLOSED_STREAM_INDEX, GUAC_USER_CLOSED_STREAM_INDEX,
      GUAC_USER_UNDEFINED_OBJECT_INDEX */
  const CLOSED := -1

  /** How the index of a slot is written on the wire: streams of the client are odd,
      those of a user even, objects are plain. */
  datatype Scheme = ClientStream | UserStream | UserObject {
    function Index(slot: int): int {
      match this
      case ClientStream => slot * 2 + 1
      case UserStream => slot * 2
      case UserObject => slot
    }

    /** The value that the free functions give back to the pool. */
    function Slot(index: int): int
      requires index >= 0
    {
      match this
      case ClientStream => (index - 1) / 2
      case UserStream => index / 2
      case UserObject => index
    }
  }

  lemma SlotOfIndex(scheme: Scheme, slot: nat)
    ensures scheme.Index(slot) >= 0 && scheme.Slot(scheme.Index(slot)) == slot
  {
  }

  /** With a slot to spare, the next value is one that is not in use. */
  lemma TakeSlot(a: Account)
    requires Sound(a) && a.min == 0 && a.next <= MAX_SLOTS && |a.live| < MAX_SLOTS
    ensures var (v, b) := Take(a);
      0 <= v < MAX_SLOTS && v !in a.live && b.live == a.live + {v} && b.next <= MAX_SLOTS && b.min == 0 && Sound(b)
  {
    TakeKeepsSound(a);
    LiveCount(a);
  }

  /** Slots that a pool without minimum size hands out. */
  class Slots {
    const scheme: Scheme
    const pool: Pool
    const index: array<int>

    /** The slots in use are the pool's live values. */
    ghost predicate Valid()
      reads this, pool, pool.nodes, index
    {
      && pool.Valid() && pool.minSize == 0 && Sound(pool.account) && index.Length == MAX_SLOTS &&
        pool.nextValue <= MAX_SLOTS
      && forall s :: 0 <= s < MAX_SLOTS ==> index[s] == if s in pool.account.live then scheme.Index(s) else CLOSED
    }

    constructor (kind: Scheme)
      ensures Valid() && fresh(pool) && fresh(index) && pool.account == Fresh(0) && pool.nodes == [] && scheme == kind
    {
      scheme := kind;
      pool := new Pool(0);
      index := new int[MAX_SLOTS](i => CLOSED);
    }

    /** Every live value has its slot, so the count of live values is that of the slots
        in use. */
    lemma Counted()
      requires Valid()
      ensures pool.active == |pool.account.live| <= MAX_SLOTS && pool.account.min == 0 &&
        pool.account.next == pool.nextValue
      ensures forall v :: v in pool.account.live ==> 0 <= v < MAX_SLOTS
    {
      LiveCount(pool.account);
    }

    /** guac_client_alloc_stream, guac_user_alloc_stream, guac_user_alloc_object: no
        slot exactly if all are in use, otherwise one that was not. */
    method Alloc() returns (slot: int)
      requires Valid()
      modifies pool, index
      ensures Valid()
      ensures slot == -1 <==> |old(pool.account.live)| == MAX_SLOTS
      ensures slot == -1 ==> pool.account == old(pool.account)
      ensures slot != -1 ==>
        0 <= slot < MAX_SLOTS && slot !in old(pool.account.live) && pool.account.live == old(pool.account.live) + {slot}
      ensures slot != -1 ==>
        index[slot] == match scheme
                       case ClientStream => 2 * slot + 1
                       case UserStream => 2 * slot
                       case UserObject => slot
      ensures forall s :: 0 <= s < MAX_SLOTS && s != slot ==> index[s] == old(index[s])
      ensures forall k :: 0 <= k < |pool.nodes| ==> pool.nodes[k] in old(pool.nodes)
    {
      hide Sound, Take, Pool.Valid;
      Counted();
      if pool.active == MAX_SLOTS {
        return -1;
      }
      TakeSlot(pool.account);
      slot := pool.NextInt();
      index[slot] := scheme.Index(slot);
    }

    /** guac_client_free_stream, guac_user_free_stream, guac_user_free_object: the pool
        gets back the very value that the slot was. */
    method Free(slot: int)
      requires Valid() && slot in pool.account.live
      modifies pool, pool.nodes, index
      ensures Valid() && pool.account == Give(old(pool.account), slot, slot)
      ensures forall s :: 0 <= s < MAX_SLOTS && s != slot ==> index[s] == old(index[s])
    {
      hide Sound, Pool.Valid;
      Counted();
      SlotOfIndex(scheme, slot);
      GiveKeepsSound(pool.account, slot);
      pool.FreeInt(scheme.Slot(index[slot]), slot);
      index[slot] := CLOSED;
    }

    /** __guac_handle_ack: the stream that an acknowledgement is for. */
    method AckTarget(streamIndex: int) returns (slot: int)
      requires Valid() && scheme == UserStream
      ensures slot != -1 ==> slot in pool.account.live && index[slot] == streamIndex
      ensures slot == -1 ==> forall s :: 0 <= s < MAX_SLOTS && s in pool.account.live ==> index[s] != streamIndex
    {
      if streamIndex % 2 != 0 {
        return -1;
      }
      slot := streamIndex / 2;
      if slot < 0 || slot >= MAX_SLOTS {
        return -1;
      }
      if index[slot] == CLOSED {
        return -1;
      }
    }
  }

  /** No two slots in use share an index, whether of one owner or of a client and one
      of its users. */
  lemma IndicesDiffer(a: Slots, b: Slots, s: int, t: int)
    requires a.Valid() && b.Valid() && a.scheme != UserObject && b.scheme != UserObject
    requires s in a.pool.account.live && t in b.pool.account.live
    requires a.scheme != b.scheme || s != t
    ensures 0 <= s < MAX_SLOTS && 0 <= t < MAX_SLOTS && a.index[s] != b.index[t]
    ensures a.index[s] == if a.scheme == ClientStream then 2 * s + 1 else 2 * s
  {
    a.Counted();
    b.Counted();
  }

  // ----- buffers -----

  /** GUAC_BUFFER_POOL_INITIAL_SIZE */
  const BUFFER_POOL_SIZE := 1024

  lemma TakeNew(a: Account)
    requires Sound(a)
    ensures var (v, b) := Take(a);
      0 <= v && v !in a.live && b.live == a.live + {v} && Sound(b) && (a.next < a.min ==> v == a.next)
  {
    TakeKeepsSound(a);
  }

  /** The buffers of a client. */
  class Buffers {
    const pool: Pool

    ghost predicate Valid()
      reads this, pool, pool.nodes
    {
      pool.Valid() && pool.minSize == BUFFER_POOL_SIZE && Sound(pool.account)
    }

    /** The indices of the buffers in use. */
    ghost predicate InUse(layer: int)
      reads this, pool
    {
      -layer - 1 in pool.account.live
    }

    constructor ()
      ensures Valid() && fresh(pool) && pool.nodes == [] && forall layer :: !InUse(layer)
    {
      pool := new Pool(BUFFER_POOL_SIZE);
    }

    lemma MinSize()
      requires Valid()
      ensures pool.account.min == BUFFER_POOL_SIZE
    {
    }

    /** guac_client_alloc_buffer: a negative index not in use. */
    method Alloc() returns (layer: int)
      requires Valid()
      modifies pool
      ensures Valid() && layer < 0 && !old(InUse(layer))
      ensures forall other :: InUse(other) <==> old(InUse(other)) || other == layer
      ensures old(pool.account.next) < BUFFER_POOL_SIZE ==> old(pool.account.next) + layer == -1
    {
      hide Sound, Take, Pool.Valid;
      TakeNew(pool.account);
      MinSize();
      var value := pool.NextInt();
      assert value in pool.account.live;
      layer := -value - 1;
    }

    /** guac_client_free_buffer */
    method Free(layer: int)
      requires Valid() && InUse(layer)
      modifies pool, pool.nodes
      ensures Valid() && forall other :: InUse(other) <==> old(InUse(other)) && other != layer
    {
      hide Sound, Pool.Valid;
      GiveKeepsSound(pool.account, -layer - 1);
      pool.FreeInt(-layer - 1, -layer - 1);
    }
  }
}
