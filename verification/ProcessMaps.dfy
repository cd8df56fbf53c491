/** The map of client processes in guacservice/src/GuacClientProcessHandlerMap.cpp. */
module ProcessMaps {
  import opened Lists
  import opened Utf8

  /** GUACD_CLIENT_MAX_CONNECTIONS */
  const MAX_CONNECTIONS := 65536
  const BUCKETS := MAX_CONNECTIONS * 2

  /** The value of a char, which is signed. */
  function Signed(c: byte): int {
    if c < 0x80 then c as int else c as int - 256
  }

  /** The polynomial in 65599 over the characters before the first NUL. */
  function Hash(id: seq<byte>): (h: int)
    ensures 0 <= h < 0x1_0000_0000
  {
    if id == [] then 0 else Advance(Hash(id[..|id| - 1]), id[|id| - 1])
  }

  function Advance(h: int, c: byte): int {
    (h * 65599 + Signed(c)) % 0x1_0000_0000
  }

  function CString(id: seq<byte>): seq<byte> {
    if id == [] || id[0] == 0 then [] else [id[0]] + CString(id[1..])
  }

  /** The macro for the number of buckets has no parentheses, so the remainder is
      taken first: only buckets with an even index are ever used. */
  function BucketOf(id: seq<byte>): (b: int)
    ensures 0 <= b < BUCKETS && b % 2 == 0
  {
    Hash(CString(id)) % MAX_CONNECTIONS * 2
  }

  function Power(n: nat): nat {
    if n == 0 then 1 else Power(n - 1) * 65599
  }

  /** The hash is the polynomial whose coefficients are the characters: that of a
      concatenation is made of the hashes of its parts, and that of one character is the
      32-bit two's complement of the character. */
  lemma {:induction false} HashIsPolynomial(s: seq<byte>, t: seq<byte>)
    ensures Hash(s + t) == (Hash(s) * Power(|t|) + Hash(t)) % 0x1_0000_0000
    decreases |t|
  {
    hide Advance;
    if t == [] {
      assert s + t == s;
      HashOfNone();
    } else {
      var front, last := t[..|t| - 1], t[|t| - 1];
      assert s + t == s + front + [last] && t == front + [last];
      HashThen(s + front, last);
      HashThen(front, last);
      HashIsPolynomial(s, front);
      ShiftedHashes(Hash(s), Power(|front|), Hash(front), last);
    }
  }

  lemma ShiftedHashes(h: int, p: nat, f: int, c: byte)
    ensures Advance((h * p + f) % 0x1_0000_0000, c) == (h * (p * 65599) + Advance(f, c)) % 0x1_0000_0000
  {
    hide Signed;
    var x, y, d := h * p, h * (p * 65599), Signed(c);
    assert y == x * 65599;
    Wrapped(x + f, d);
    Folded(y, f * 65599 + d);
  }

  lemma HashOfOne(c: byte)
    ensures Hash([c]) == Signed(c) % 0x1_0000_0000
    ensures -128 <= Signed(c) < 128 && (Signed(c) - (c as int)) % 256 == 0
  {
    HashOfNone();
    HashThen([], c);
    assert [] + [c] == [c];
    ByteAsInt(c);
  }

  lemma ByteAsInt(c: byte)
    ensures 0 <= c as int < 256 && (c < 0x80 <==> c as int < 128)
  {
  }

  lemma HashThen(s: seq<byte>, c: byte)
    ensures Hash(s + [c]) == Advance(Hash(s), c)
  {
    assert (s + [c])[..|s|] == s;
  }

  /** A remainder may be taken before another step. */
  lemma Wrapped(x: int, c: int)
    ensures ((x % 0x1_0000_0000) * 65599 + c) % 0x1_0000_0000 == (x * 65599 + c) % 0x1_0000_0000
  {
    var q := x / 0x1_0000_0000;
    assert x == q * 0x1_0000_0000 + x % 0x1_0000_0000;
    Multiples((x % 0x1_0000_0000) * 65599 + c, q * 65599);
  }

  lemma Folded(x: int, y: int)
    ensures (x + y % 0x1_0000_0000) % 0x1_0000_0000 == (x + y) % 0x1_0000_0000
  {
    Multiples(x + y % 0x1_0000_0000, y / 0x1_0000_0000);
  }

  lemma Multiples(x: int, k: int)
    ensures (x + k * 0x1_0000_0000) % 0x1_0000_0000 == x % 0x1_0000_0000
  {
  }

  /** Ids share a bucket exactly if their hashes agree in the lower 16 bits, although
      there are twice as many buckets. */
  lemma SameBucketIff(a: seq<byte>, b: seq<byte>)
    ensures BucketOf(a) == BucketOf(b) <==> Hash(CString(a)) % 65536 == Hash(CString(b)) % 65536
    ensures BucketOf(a) / 2 == Hash(CString(a)) % 65536
  {
    hide Hash;
  }

  lemma {:induction false} CStringStep(id: seq<byte>, k: nat)
    requires k < |id| && id[k] == 0 && forall i :: 0 <= i < k ==> id[i] != 0
    ensures CString(id) == id[..k]
  {
    if k > 0 {
      CStringStep(id[1..], k - 1);
      assert id[..k] == [id[0]] + id[1..][..k - 1];
    }
  }

  lemma HashStep(id: seq<byte>, k: nat)
    requires k < |id|
    ensures Hash(id[..k + 1]) == Advance(Hash(id[..k]), id[k])
  {
    hide Advance;
    assert id[..k + 1][..k] == id[..k];
  }

  lemma HashOfNone()
    ensures Hash([]) == 0
  {
  }

  /** GetBucketHash */
  method GetBucketHash(id: seq<byte>) returns (hash: int)
    ensures hash == Hash(CString(id))
  {
    hide Hash, CString, Signed;
    hash := 0;
    var k := 0;
    HashOfNone();
    while k < |id| && id[k] != 0
      invariant 0 <= k <= |id| && hash == Hash(id[..k]) && forall i :: 0 <= i < k ==> id[i] != 0
    {
      HashStep(id, k);
      hash := (hash * 65599 + Signed(id[k])) % 0x1_0000_0000;
      k := k + 1;
    }
    if k < |id| {
      CStringStep(id, k);
    } else {
      WithoutNul(id);
      assert id[..k] == id;
    }
  }

  lemma {:induction false} WithoutNul(id: seq<byte>)
    requires forall i :: 0 <= i < |id| ==> id[i] != 0
    ensures CString(id) == id
  {
    if id != [] {
      WithoutNul(id[1..]);
    }
  }

  class Handler {
    const id: seq<byte>

    constructor (processID: seq<byte>)
      ensures id == processID
    {
      id := processID;
    }
  }

  datatype Notice = Created(id: seq<byte>) | Removed(id: seq<byte>)

  /** The processes that an observer who follows the notices knows of. */
  function Known(notices: seq<Notice>): set<seq<byte>> {
    if notices == [] then {}
    else
      var before := Known(notices[..|notices| - 1]);
      match notices[|notices| - 1]
      case Created(id) => before + {id}
      case Removed(id) => before - {id}
  }

  lemma KnownThen(notices: seq<Notice>, last: Notice)
    ensures Known(notices + [last]) ==
      if last.Created? then Known(notices) + {last.id} else Known(notices) - {last.id}
  {
    assert (notices + [last])[..|notices|] == notices;
  }

  ghost predicate IsEntry(p: Handler, b: int, contents: map<seq<byte>, Handler>) {
    p.id in contents && contents[p.id] == p && BucketOf(p.id) == b
  }

  ghost predicate Holds(elements: seq<Element<Handler>>, p: Handler) {
    exists k :: 0 <= k < |elements| && elements[k].data == p
  }

  lemma HeldBehind(element: Element<Handler>, elements: seq<Element<Handler>>, p: Handler)
    requires element.data == p || Holds(elements, p)
    ensures Holds([element] + elements, p)
  {
    if element.data == p {
      assert ([element] + elements)[0].data == p;
    } else {
      var k :| 0 <= k < |elements| && elements[k].data == p;
      assert ([element] + elements)[k + 1].data == p;
    }
  }

  lemma HeldWithout(elements: seq<Element<Handler>>, k: nat, p: Handler)
    requires Holds(elements, p) && k < |elements| && elements[k].data != p
    ensures Holds(elements[..k] + elements[k + 1..], p)
  {
    var j :| 0 <= j < |elements| && elements[j].data == p;
    assert (elements[..k] + elements[k + 1..])[if j < k then j else j - 1].data == p;
  }

  /** Entries of a bucket, each under its own id. */
  ghost predicate Entries(elements: seq<Element<Handler>>, b: int, contents: map<seq<byte>, Handler>) {
    && (forall k :: 0 <= k < |elements| ==> IsEntry(elements[k].data, b, contents))
    && (forall j, k :: 0 <= j < k < |elements| ==> elements[j].data.id != elements[k].data.id)
  }

  lemma NoEntries(b: int)
    ensures Entries([], b, map[])
  {
  }

  /** Entries of other buckets do not matter to a bucket. */
  lemma EntriesElsewhere(elements: seq<Element<Handler>>, b: int, contents: map<seq<byte>, Handler>, id: seq<byte>,
                         p: Handler)
    requires Entries(elements, b, contents) && BucketOf(id) != b
    ensures Entries(elements, b, contents[id := p]) && Entries(elements, b, contents - {id})
  {
    hide BucketOf;
    forall k | 0 <= k < |elements|
      ensures IsEntry(elements[k].data, b, contents[id := p]) && IsEntry(elements[k].data, b, contents - {id})
    {
      assert IsEntry(elements[k].data, b, contents);
    }
  }

  lemma EntriesWith(element: Element<Handler>, elements: seq<Element<Handler>>, b: int,
                    contents: map<seq<byte>, Handler>)
    requires Entries(elements, b, contents)
    requires var p := element.data; BucketOf(p.id) == b && p.id !in contents
    ensures var p := element.data; Entries([element] + elements, b, contents[p.id := p])
  {
    hide BucketOf;
    var p := element.data;
    var s := [element] + elements;
    forall k | 0 <= k < |s| ensures IsEntry(s[k].data, b, contents[p.id := p]) {
      assert k > 0 ==> s[k] == elements[k - 1] && IsEntry(elements[k - 1].data, b, contents);
    }
    assert forall k :: 0 < k < |s| ==> s[k] == elements[k - 1];
  }

  lemma EntriesWithout(elements: seq<Element<Handler>>, k: nat, b: int, contents: map<seq<byte>, Handler>)
    requires Entries(elements, b, contents) && k < |elements|
    ensures Entries(elements[..k] + elements[k + 1..], b, contents - {elements[k].data.id})
  {
    hide BucketOf;
    var s := elements[..k] + elements[k + 1..];
    assert forall j :: 0 <= j < |s| ==> s[j] == elements[if j < k then j else j + 1];
    forall j | 0 <= j < |s| ensures IsEntry(s[j].data, b, contents - {elements[k].data.id}) {
      assert IsEntry(elements[if j < k then j else j + 1].data, b, contents);
    }
  }

  /** InitBuckets: an empty list in every bucket. */
  method InitBuckets(buckets: array<List<Handler>>) returns (ghost lists: set<object>)
    modifies buckets
    ensures fresh(lists) && forall b :: 0 <= b < buckets.Length ==> buckets[b] in lists
    ensures forall b :: 0 <= b < buckets.Length ==> buckets[b].Valid() && buckets[b].elements == []
    ensures forall a, b :: 0 <= a < b < buckets.Length ==> buckets[a] != buckets[b]
  {
    lists := {};
    for i := 0 to buckets.Length
      invariant fresh(lists) && forall b :: 0 <= b < i ==> buckets[b] in lists
      invariant forall b :: 0 <= b < i ==> buckets[b].Valid() && buckets[b].elements == []
      invariant forall a, b :: 0 <= a < b < i ==> buckets[a] != buckets[b]
    {
      var list := new List<Handler>();
      buckets[i] := list;
      lists := lists + {list};
    }
  }

  class ProcessMap {
    const buckets: array<List<Handler>>
    /** What the observers have been told. */
    var notices: seq<Notice>
    /** The finite map that the buckets stand for. */
    ghost var contents: map<seq<byte>, Handler>
    /** The lists and their elements. */
    ghost var repr: set<object>

    ghost predicate Valid()
      reads this, buckets, repr
    {
      Stands() && Known(notices) == contents.Keys
    }

    ghost predicate Stands()
      reads this`contents, this`repr, buckets, repr
    {
      && this !in repr && buckets.Length == BUCKETS
      && (forall a, b :: 0 <= a < b < BUCKETS ==> buckets[a] != buckets[b])
      && (forall b :: 0 <= b < BUCKETS ==> buckets[b] in repr)
      && (forall b, k :: 0 <= b < BUCKETS && 0 <= k < |buckets[b].elements| ==> buckets[b].elements[k] in repr)
      && (forall b :: 0 <= b < BUCKETS ==> buckets[b].Valid() && Entries(buckets[b].elements, b, contents))
      && (forall id :: id in contents ==> contents[id].id == id && Holds(buckets[BucketOf(id)].elements, contents[id]))
    }

    constructor ()
      ensures Valid() && fresh(buckets) && fresh(repr) && contents == map[] && notices == []
    {
      hide BucketOf, List.Valid, Entries, Holds, IsEntry;
      var first := new List<Handler>();
      buckets := new List<Handler>[BUCKETS](i => first);
      notices, contents, repr := [], map[], {};
      new;
      repr := InitBuckets(buckets);
      forall b | 0 <= b < BUCKETS ensures Entries(buckets[b].elements, b, contents) {
        NoEntries(b);
      }
    }

    /** Lists do not share elements. */
    lemma Apart(b: int)
      requires Stands() && 0 <= b < BUCKETS
      ensures forall a, j, k ::
        0 <= a < BUCKETS && a != b && 0 <= j < |buckets[a].elements| && 0 <= k < |buckets[b].elements| ==>
          buckets[a].elements[j] != buckets[b].elements[k]
    {
      hide BucketOf, IsEntry, Holds;
      forall a, j, k | 0 <= a < BUCKETS && a != b && 0 <= j < |buckets[a].elements| && 0 <= k < |buckets[b].elements|
        ensures buckets[a].elements[j] != buckets[b].elements[k]
      {
        assert buckets[a].Valid() && buckets[b].Valid();
        assert buckets[a].elements[j].owner == buckets[a] && buckets[b].elements[k].owner == buckets[b];
      }
    }

    /** GetBucketElement */
    method GetBucketElement(bucket: List<Handler>, id: seq<byte>) returns (current: Element?<Handler>, ghost k: nat)
      requires bucket.Valid()
      ensures current == null ==> forall j :: 0 <= j < |bucket.elements| ==> bucket.elements[j].data.id != id
      ensures current != null ==> k < |bucket.elements| && current == bucket.elements[k] && current.data.id == id
    {
      current, k := bucket.head, 0;
      while current != null
        invariant 0 <= k <= |bucket.elements| && current == bucket.At(bucket.elements, k)
        invariant forall j :: 0 <= j < k ==> bucket.elements[j].data.id != id
        decreases |bucket.elements| - k
      {
        if current.data.id == id {
          break;
        }
        current := current.next;
        k := k + 1;
      }
    }

    /** GetBucket */
    method GetBucket(id: seq<byte>) returns (bucket: List<Handler>)
      requires buckets.Length == BUCKETS
      ensures bucket == buckets[BucketOf(id)]
    {
      var hash := GetBucketHash(id);
      bucket := buckets[hash % MAX_CONNECTIONS * 2];
    }

    /** The search in its bucket finds an id exactly if the map has it. */
    method Find(id: seq<byte>) returns (bucket: List<Handler>, found: Element?<Handler>, ghost k: nat)
      requires Valid()
      ensures bucket == buckets[BucketOf(id)] && (found != null <==> id in contents)
      ensures bucket in repr && forall j :: 0 <= j < |bucket.elements| ==> bucket.elements[j] in repr
      ensures found != null ==>
        k < |bucket.elements| && found == bucket.elements[k] && found.data == contents[id] && found.data.id == id
    {
      hide BucketOf, List.Valid;
      bucket := GetBucket(id);
      assert bucket.Valid() && Entries(bucket.elements, BucketOf(id), contents);
      assert id in contents ==> Holds(bucket.elements, contents[id]);
      found, k := GetBucketElement(bucket, id);
      assert found != null ==> IsEntry(bucket.elements[k].data, BucketOf(id), contents);
    }

    /** RetrieveProcessHandler */
    method Retrieve(id: seq<byte>) returns (process: Handler?)
      requires Valid()
      ensures process == if id in contents then contents[id] else null
    {
      var bucket, found, k := Find(id);
      process := if found != null then found.data else null;
    }

    /** HasProcessHandler */
    method Has(id: seq<byte>) returns (has: bool)
      requires Valid()
      ensures has <==> id in contents
    {
      var bucket, found, k := Find(id);
      has := found != null;
    }

    /** Adds a process whose id is new to its bucket. */
    method Insert(bucket: List<Handler>, process: Handler)
      requires Stands() && bucket == buckets[BucketOf(process.id)] && process.id !in contents
      modifies this`contents, this`repr, bucket, bucket.elements
      ensures Stands() && fresh(repr - old(repr)) && contents == old(contents)[process.id := process]
    {
      hide BucketOf, List.Valid, Entries, Holds, IsEntry;
      ghost var b, was, elements := BucketOf(process.id), contents, bucket.elements;
      Apart(b);
      assert bucket.Valid() && Entries(elements, b, was);
      var element := bucket.Add(process);
      contents := contents[process.id := process];
      repr := repr + {element};
      EntriesWith(element, elements, b, was);
      forall a | 0 <= a < BUCKETS ensures buckets[a].Valid() && Entries(buckets[a].elements, a, contents) {
        if a != b {
          assert buckets[a].Valid() && Entries(buckets[a].elements, a, was);
          EntriesElsewhere(buckets[a].elements, a, was, process.id, process);
        }
      }
      forall id | id in contents ensures contents[id].id == id && Holds(buckets[BucketOf(id)].elements, contents[id]) {
        if BucketOf(id) == b {
          HeldBehind(element, elements, contents[id]);
        } else {
          assert Holds(buckets[BucketOf(id)].elements, was[id]);
        }
      }
    }

    /** CreateProcessHandler, for the id that the new process generates. */
    method Create(id: seq<byte>) returns (process: Handler?)
      requires Valid()
      modifies this, repr
      ensures Valid() && fresh(repr - old(repr))
      ensures process == null <==> id in old(contents)
      ensures process == null ==> contents == old(contents) && notices == old(notices)
      ensures process != null ==>
        && fresh(process) && process.id == id
        && contents == old(contents)[id := process] && notices == old(notices) + [Created(id)]
    {
      hide BucketOf, Known, Stands;
      var made := new Handler(id);
      var bucket, found, k := Find(id);
      if found != null {
        return null;
      }
      Insert(bucket, made);
      Outside();
      KnownThen(notices, Created(id));
      assert contents.Keys == old(contents.Keys) + {id};
      notices := notices + [Created(id)];
      return made;
    }

    /** Takes an element out of its bucket; the other buckets stay as they are. */
    method Unlink(bucket: List<Handler>, found: Element<Handler>, ghost k: nat, ghost b: int)
      requires Stands() && k < |bucket.elements| && found == bucket.elements[k]
      requires 0 <= b < BUCKETS && bucket == buckets[b]
      modifies bucket, bucket.elements
      ensures bucket.Valid() && bucket.elements == old(bucket.elements[..k] + bucket.elements[k + 1..])
      ensures forall a :: 0 <= a < BUCKETS && a != b ==>
        && buckets[a].Valid() && buckets[a].elements == old(buckets[a].elements)
        && Entries(buckets[a].elements, a, contents)
    {
      hide BucketOf, List.Valid, Entries, Holds, IsEntry;
      Apart(b);
      bucket.Remove(found, k);
      forall a | 0 <= a < BUCKETS && a != b ensures buckets[a].Valid() && Entries(buckets[a].elements, a, contents) {
        assert old(buckets[a].Valid() && Entries(buckets[a].elements, a, contents));
      }
    }

    /** Removes the entry found in its bucket. */
    method Delete(bucket: List<Handler>, found: Element<Handler>, ghost k: nat)
      requires Stands() && k < |bucket.elements| && found == bucket.elements[k] && found.data.id in contents
      requires bucket == buckets[BucketOf(found.data.id)]
      modifies this`contents, bucket, bucket.elements
      ensures Stands() && contents == old(contents) - {found.data.id}
    {
      hide BucketOf, List.Valid, Entries, Holds, IsEntry;
      ghost var id, was, elements := found.data.id, contents, bucket.elements;
      ghost var b := BucketOf(id);
      Unlink(bucket, found, k, b);
      contents := contents - {id};
      EntriesWithout(elements, k, b, was);
      forall a | 0 <= a < BUCKETS ensures Entries(buckets[a].elements, a, contents) {
        if a != b {
          EntriesElsewhere(buckets[a].elements, a, was, id, found.data);
        }
      }
      forall other | other in contents
        ensures contents[other].id == other && Holds(buckets[BucketOf(other)].elements, contents[other])
      {
        if BucketOf(other) == b {
          HeldWithout(elements, k, contents[other]);
        } else {
          assert Holds(buckets[BucketOf(other)].elements, was[other]);
        }
      }
    }

    /** RemoveProcessHandler */
    method Remove(id: seq<byte>) returns (process: Handler?)
      requires Valid()
      modifies this, repr
      ensures Valid() && repr == old(repr) && contents == old(contents) - {id}
      ensures process == if id in old(contents) then old(contents)[id] else null
      ensures notices == old(notices) + if id in old(contents) then [Removed(id)] else []
    {
      hide BucketOf, Known, Stands;
      var bucket, found, k := Find(id);
      if found == null {
        return null;
      }
      process := found.data;
      Delete(bucket, found, k);
      Outside();
      KnownThen(notices, Removed(id));
      assert contents.Keys == old(contents.Keys) - {id};
      notices := notices + [Removed(id)];
    }

    lemma Outside()
      requires Stands()
      ensures this !in repr
    {
    }
  }
}
