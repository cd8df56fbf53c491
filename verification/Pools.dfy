/** The integer pools of libguac/src/pool.c. */
module Pools {

  /** What a pool has done. Values given back are kept in the order in which they
      came; given and reused are the whole history of both. */
  datatype Account = Account(min: int, next: nat, free: seq<int>, live: set<int>, given: seq<int>, reused: seq<int>)

  function Fresh(min: int): Account {
    Account(min, 0, [], {}, [], [])
  }

  predicate Issues(a: Account) {
    a.free == [] || a.next < a.min
  }

  /** guac_pool_next_int */
  function Take(a: Account): (int, Account) {
    if Issues(a) then
      (a.next, a.(next := a.next + 1, live := a.live + {a.next}))
    else
      (a.free[0], a.(free := a.free[1..], live := a.live + {a.free[0]}, reused := a.reused + [a.free[0]]))
  }

  /** guac_pool_free_int on the value that stands for a holding. */
  function Give(a: Account, held: int, value: int): Account {
    a.(free := a.free + [value], live := a.live - {held}, given := a.given + [value])
  }

  predicate Distinct(s: seq<int>) {
    forall i, j :: 0 <= i < j < |s| ==> s[i] != s[j]
  }

  /** The values issued so far are either live or free, never both; values come back
      in the order in which they were given; none does before min were issued. */
  ghost predicate Sound(a: Account) {
    && Distinct(a.free) && (forall k :: 0 <= k < |a.free| ==> a.free[k] !in a.live)
    && (forall v :: 0 <= v < a.next <==> v in a.live || v in a.free)
    && a.given == a.reused + a.free && (a.reused != [] ==> a.next >= a.min)
  }

  lemma TakeKeepsSound(a: Account)
    requires Sound(a)
    ensures var (v, b) := Take(a); v !in a.live && b.live == a.live + {v} && Sound(b)
  {
    var (v, b) := Take(a);
    if Issues(a) {
      assert v !in a.free && v !in a.live;
    } else {
      assert a.reused + a.free == b.reused + b.free;
      FirstRemoved(a.free);
      assert v in a.free && 0 <= v < a.next;
      assert forall k :: 0 <= k < |b.free| ==> b.free[k] == a.free[k + 1];
    }
  }

  lemma FirstRemoved(s: seq<int>)
    requires s != [] && Distinct(s)
    ensures Distinct(s[1..]) && s[0] !in s[1..] && forall x :: x in s <==> x == s[0] || x in s[1..]
  {
    assert s == [s[0]] + s[1..];
  }

  lemma GiveKeepsSound(a: Account, v: int)
    requires Sound(a) && v in a.live
    ensures Sound(Give(a, v, v))
  {
    var b := Give(a, v, v);
    assert v !in a.free;
    forall x ensures x in b.free <==> x in a.free || x == v {
      assert b.free[|a.free|] == v;
      if x in a.free {
        var k :| 0 <= k < |a.free| && a.free[k] == x;
        assert b.free[k] == x;
      }
    }
    assert a.reused + a.free + [v] == b.reused + b.free;
  }

  function Range(n: nat): (s: set<int>)
    ensures |s| == n && forall v :: v in s <==> 0 <= v < n
  {
    if n == 0 then {} else Range(n - 1) + {n - 1}
  }

  function Elements(s: seq<int>): set<int> {
    set k | 0 <= k < |s| :: s[k]
  }

  lemma {:induction false} ElementsCount(s: seq<int>)
    requires Distinct(s)
    ensures |Elements(s)| == |s|
  {
    if s != [] {
      var front, last := s[..|s| - 1], s[|s| - 1];
      ElementsCount(front);
      assert Elements(s) == Elements(front) + {last} by {
        forall x | x in Elements(s) ensures x in Elements(front) + {last} {
          var k :| 0 <= k < |s| && s[k] == x;
          if k < |front| {
            assert front[k] == x;
          }
        }
        forall x | x in Elements(front) ensures x in Elements(s) {
          var k :| 0 <= k < |front| && front[k] == x;
          assert s[k] == x;
        }
      }
      assert last !in Elements(front);
    }
  }

  /** What is issued and not free is live. */
  lemma LiveCount(a: Account)
    requires Sound(a)
    ensures |a.live| == a.next - |a.free|
  {
    ElementsCount(a.free);
    assert Elements(a.free) + a.live == Range(a.next);
    assert Elements(a.free) !! a.live;
  }

  // ----- runs -----

  datatype Call = Next | Free(value: int)

  /** A run in which only live values are freed. */
  ghost predicate Legal(calls: seq<Call>, a: Account)
    decreases |calls|
  {
    calls == [] ||
    match calls[0]
    case Next => Legal(calls[1..], Take(a).1)
    case Free(v) => v in a.live && Legal(calls[1..], Give(a, v, v))
  }

  function After(calls: seq<Call>, a: Account): Account
    decreases |calls|
  {
    if calls == [] then a
    else After(calls[1..], match calls[0] case Next => Take(a).1 case Free(v) => Give(a, v, v))
  }

  lemma {:induction false} RunKeepsSound(calls: seq<Call>, a: Account)
    requires Sound(a) && Legal(calls, a)
    ensures Sound(After(calls, a))
    decreases |calls|
  {
    hide Sound;
    if calls != [] {
      match calls[0]
      case Next =>
        TakeKeepsSound(a);
        RunKeepsSound(calls[1..], Take(a).1);
      case Free(v) =>
        GiveKeepsSound(a, v);
        RunKeepsSound(calls[1..], Give(a, v, v));
    }
  }

  /** Over every run of a new pool: what is live and what is free partition the values
      issued, the count of live values is known, and reuse is first in, first out. */
  lemma AllRuns(calls: seq<Call>, min: int)
    requires Legal(calls, Fresh(min))
    ensures var a := After(calls, Fresh(min));
      && (forall v :: 0 <= v < a.next <==> v in a.live || v in a.free)
      && (forall k :: 0 <= k < |a.free| ==> a.free[k] !in a.live) && Distinct(a.free)
      && |a.live| == a.next - |a.free| && a.given == a.reused + a.free
      && (a.reused != [] ==> a.next >= min) && Take(a).0 !in a.live
  {
    hide Take, Give;
    RunKeepsSound(calls, Fresh(min));
    MinStays(calls, Fresh(min));
    var a := After(calls, Fresh(min));
    LiveCount(a);
    TakeKeepsSound(a);
  }

  lemma {:induction false} MinStays(calls: seq<Call>, a: Account)
    ensures After(calls, a).min == a.min
    decreases |calls|
  {
    if calls != [] {
      MinStays(calls[1..], match calls[0] case Next => Take(a).1 case Free(v) => Give(a, v, v));
    }
  }

  // ----- when values are reused -----

  function Max(a: int, b: int): int { if a > b then a else b }

  function Least(a: int, b: int): int { if a < b then a else b }

  /** The number of values asked for in a run. */
  function Nexts(calls: seq<Call>): nat {
    if calls == [] then 0 else Nexts(calls[1..]) + if calls[0].Next? then 1 else 0
  }

  /** The largest number of live values at any moment of a run, if the run and what
      came before it had at most p so far. */
  function Peak(calls: seq<Call>, a: Account, p: int): int
    decreases |calls|
  {
    var q := Max(p, |a.live|);
    if calls == [] then q
    else Peak(calls[1..], match calls[0] case Next => Take(a).1 case Free(v) => Give(a, v, v), q)
  }

  lemma {:induction false} IssuedFrom(calls: seq<Call>, a: Account, p: int, n: nat)
    requires Sound(a) && Legal(calls, a) && |a.live| <= p <= n && a.next == Max(p, Least(n, a.min))
    ensures After(calls, a).next == Max(Peak(calls, a, p), Least(n + Nexts(calls), a.min))
    decreases |calls|
  {
    hide Sound, Take, Give;
    if calls != [] {
      match calls[0]
      case Next =>
        var b := Take(a).1;
        TakeKeepsSound(a);
        IssuedNext(a, p, n);
        PeakOf(calls[1..], b, p, Max(p, |b.live|));
        IssuedFrom(calls[1..], b, Max(p, |b.live|), n + 1);
      case Free(v) =>
        var b := Give(a, v, v);
        IssuedFreed(a, v, p);
        PeakOf(calls[1..], b, p, Max(p, |b.live|));
        IssuedFrom(calls[1..], b, p, n);
    }
  }

  lemma IssuedFreed(a: Account, v: int, p: int)
    requires Sound(a) && v in a.live && |a.live| <= p
    ensures var b := Give(a, v, v); Sound(b) && |b.live| <= p && b.next == a.next && b.min == a.min
  {
    hide Sound;
    GiveKeepsSound(a, v);
    assert a.live == Give(a, v, v).live + {v};
  }

  lemma IssuedNext(a: Account, p: int, n: nat)
    requires Sound(a) && |a.live| <= p <= n && a.next == Max(p, Least(n, a.min))
    ensures var b := Take(a).1;
      |b.live| <= n + 1 && b.next == Max(Max(p, |b.live|), Least(n + 1, a.min)) && b.min == a.min
  {
    hide Sound;
    TakeKeepsSound(a);
    LiveCount(a);
    LiveCount(Take(a).1);
  }

  lemma SoundParts(a: Account)
    requires Sound(a)
    ensures a.given == a.reused + a.free
  {
  }

  lemma PeakOf(calls: seq<Call>, a: Account, p: int, q: int)
    requires q == Max(p, |a.live|)
    ensures Peak(calls, a, p) == Peak(calls, a, q)
  {
  }

  /** Over every run of a new pool, as many values have been issued as were ever live at
      once, or as the minimum size asks for if that many calls were made and it is more. */
  lemma IssuedIs(calls: seq<Call>, min: int)
    requires Legal(calls, Fresh(min))
    ensures After(calls, Fresh(min)).next == Max(Peak(calls, Fresh(min), 0), Least(Nexts(calls), min))
  {
    IssuedFrom(calls, Fresh(min), 0, 0);
  }

  /** After every run of a new pool, once the minimum size has been issued, the value that
      was freed first and not reused since comes next, if there is any. */
  lemma ReusesOldest(calls: seq<Call>, min: int)
    requires Legal(calls, Fresh(min))
    ensures var a := After(calls, Fresh(min));
      a.next >= min && |a.given| > |a.reused| ==> Take(a).0 == a.given[|a.reused|] && Take(a).1.next == a.next
    ensures var a := After(calls, Fresh(min));
      a.next < min || |a.given| == |a.reused| ==> Take(a).0 == a.next && Take(a).1.next == a.next + 1
  {
    RunKeepsSound(calls, Fresh(min));
    MinStays(calls, Fresh(min));
    SoundParts(After(calls, Fresh(min)));
  }

  /** guac_client_free_layer gives back the layer's index, which is one more than the
      value that was taken. After the call the value taken is neither live nor free,
      and the one given in its place is both exactly if the next layer is live. */
  lemma FreeLayerLosesValue(a: Account, v: int)
    requires Sound(a) && v in a.live
    ensures var b := Give(a, v, v + 1);
      && v !in b.live && v !in b.free && 0 <= v < b.next && !Sound(b)
      && (v + 1 in b.live && v + 1 in b.free <==> v + 1 in a.live)
  {
    var b := Give(a, v, v + 1);
    assert b.free[|a.free|] == v + 1;
    assert v !in b.free;
  }

  function Takes(a: Account, n: nat): Account
    decreases n
  {
    if n == 0 then a else Takes(Take(a).1, n - 1)
  }

  /** The next value handed out after n more is live already. */
  predicate Collides(a: Account, n: nat) {
    Take(Takes(a, n)).0 in Takes(a, n).live
  }

  lemma CollidesLater(a: Account, n: nat)
    requires Collides(Take(a).1, n)
    ensures Collides(a, n + 1)
  {
  }

  /** A new value that is live already is issued once the free ones are used up. */
  lemma {:induction false} IssuedTwice(a: Account) returns (n: nat)
    requires a.next in a.live && a.next >= a.min
    ensures Collides(a, n)
    decreases |a.free|
  {
    if Issues(a) {
      n := 0;
    } else {
      n := IssuedTwice(Take(a).1);
      CollidesLater(a, n);
      n := n + 1;
    }
  }

  /** A free value that is also live, free twice, or not yet issued, is handed out
      while it is live. */
  lemma {:induction false} HandedOutTwice(a: Account, w: int) returns (n: nat)
    requires w in a.free
    requires w in a.live || w == a.next || exists i, j :: 0 <= i < j < |a.free| && a.free[i] == a.free[j] == w
    ensures Collides(a, n)
    decreases if a.next < a.min then a.min - a.next else 0, |a.free|
  {
    var (v, b) := Take(a);
    if v in a.live {
      return 0;
    }
    if Issues(a) {
      n := HandedOutTwice(b, w);
    } else {
      assert a.free == [v] + b.free;
      if v == w && w == a.next && w !in b.free {
        n := IssuedTwice(b);
      } else {
        if i, j :| 0 <= i < j < |a.free| && a.free[i] == a.free[j] == w {
          assert b.free[j - 1] == w;
          assert i > 0 ==> b.free[i - 1] == w;
        }
        n := HandedOutTwice(b, w);
      }
    }
    CollidesLater(a, n);
    n := n + 1;
  }

  /** However many layers there are, freeing one leads to two layers with the same
      index once enough others are allocated. */
  lemma FreeLayerCollides(a: Account, v: int) returns (n: nat)
    requires Sound(a) && v in a.live
    ensures Collides(Give(a, v, v + 1), n)
  {
    var b, w := Give(a, v, v + 1), v + 1;
    assert b.free[|a.free|] == w;
    assert 0 <= v < a.next;
    if w !in a.live && w != a.next {
      assert w in a.free;
      var i :| 0 <= i < |a.free| && a.free[i] == w;
      assert b.free[i] == w;
    }
    n := HandedOutTwice(b, w);
  }

  // ----- the queue of free values -----

  class Node {
    var value: int
    var next: Node?

    constructor (v: int)
      ensures value == v && next == null
    {
      value, next := v, null;
    }
  }

  class Pool {
    const minSize: int
    var active: int
    var nextValue: int
    var head: Node?
    var tail: Node?
    ghost var nodes: seq<Node>
    ghost var account: Account

    /** The nodes are linked from head to tail, and hold the free values. */
    ghost predicate Valid()
      reads this, nodes
    {
      && (nodes == [] ==> head == null && tail == null)
      && (nodes != [] ==> head == nodes[0] && tail == nodes[|nodes| - 1] && tail.next == null)
      && (forall i :: 0 <= i < |nodes| - 1 ==> nodes[i].next == nodes[i + 1])
      && (forall i, j :: 0 <= i < j < |nodes| ==> nodes[i] != nodes[j])
      && |account.free| == |nodes| && (forall i :: 0 <= i < |nodes| ==> nodes[i].value == account.free[i])
      && account.min == minSize && account.next == nextValue && active == nextValue - |nodes|
    }

    /** guac_pool_alloc */
    constructor (size: int)
      ensures Valid() && account == Fresh(size) && minSize == size && nodes == []
    {
      minSize := size;
      active, nextValue := 0, 0;
      head, tail := null, null;
      nodes, account := [], Fresh(size);
    }

    /** guac_pool_next_int */
    method NextInt() returns (value: int)
      requires Valid()
      modifies this
      ensures Valid() && (value, account) == Take(old(account)) && active == old(active) + 1
      ensures forall k :: 0 <= k < |nodes| ==> nodes[k] in old(nodes)
    {
      active := active + 1;
      if head == null || nextValue < minSize {
        value := nextValue;
        nextValue := nextValue + 1;
        account := Take(account).1;
        return;
      }
      value := head.value;
      if tail == head {
        head, tail := null, null;
      } else {
        head := head.next;
      }
      nodes := nodes[1..];
      account := Take(account).1;
    }

    /** guac_pool_free_int */
    method FreeInt(value: int, ghost held: int)
      requires Valid()
      modifies this, nodes
      ensures Valid() && account == Give(old(account), held, value) && active == old(active) - 1
      ensures |nodes| == old(|nodes|) + 1 && nodes[..old(|nodes|)] == old(nodes) && fresh(nodes[old(|nodes|)])
    {
      var poolInt := new Node(value);
      active := active - 1;
      if tail == null {
        head, tail := poolInt, poolInt;
      } else {
        tail.next := poolInt;
        tail := poolInt;
      }
      nodes := nodes + [poolInt];
      account := Give(account, held, value);
    }
  }
}
