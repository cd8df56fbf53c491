/** The linked lists of common/src/list.c, whose elements know the link that points
    to them. */
module Lists {

  /** The place that an element's pointer is stored in. */
  datatype Link<T> = HeadOf(list: List<T>) | NextOf(element: Element<T>)

  class Element<T> {
    const data: T
    var next: Element?<T>
    var link: Link<T>
    /** The list that the element was made for. */
    ghost const owner: List<T>

    constructor (d: T, n: Element?<T>, list: List<T>)
      ensures data == d && next == n && link == HeadOf(list) && owner == list
    {
      data, next, link, owner := d, n, HeadOf(list), list;
    }
  }

  class List<T> {
    var head: Element?<T>
    /** The elements from the head on. */
    ghost var elements: seq<Element<T>>

    ghost function At(s: seq<Element<T>>, k: int): Element?<T> {
      if 0 <= k < |s| then s[k] else null
    }

    /** The link that leads to the element in this place. */
    ghost function LinkTo(s: seq<Element<T>>, k: int): Link<T> {
      if 0 < k <= |s| then NextOf(s[k - 1]) else HeadOf(this)
    }

    /** Every link leads to the next element, and every element knows the link that
        leads to it. */
    ghost predicate Valid()
      reads this, elements
    {
      && head == At(elements, 0)
      && (forall k :: 0 <= k < |elements| ==>
            && elements[k].owner == this && elements[k].next == At(elements, k + 1)
            && elements[k].link == LinkTo(elements, k))
      && (forall j, k :: 0 <= j < k < |elements| ==> elements[j] != elements[k])
    }

    /** guac_common_list_alloc */
    constructor ()
      ensures Valid() && elements == []
    {
      head, elements := null, [];
    }

    /** guac_common_list_add */
    method Add(data: T) returns (element: Element<T>)
      requires Valid()
      modifies this, elements
      ensures Valid() && fresh(element) && element.data == data && elements == [element] + old(elements)
    {
      element := new Element(data, head, this);
      if head != null {
        head.link := NextOf(element);
      }
      head := element;
      elements := [element] + elements;
    }

    /** "Point previous (or head) to next": one link and one back link change. */
    method Unlink(element: Element<T>, ghost k: nat)
      requires Valid() && k < |elements| && element == elements[k]
      modifies this`head, elements
      ensures head == if k == 0 then At(elements, 1) else old(head)
      ensures forall j :: 0 <= j < |elements| ==>
        elements[j].next == if j == k - 1 then At(elements, k + 1) else At(elements, j + 1)
      ensures forall j :: 0 <= j < |elements| ==>
        elements[j].link == if j == k + 1 then LinkTo(elements, k) else LinkTo(elements, j)
    {
      assert element.link == LinkTo(elements, k) && element.next == At(elements, k + 1);
      match element.link {
        case HeadOf(list) => list.head := element.next;
        case NextOf(previous) => previous.next := element.next;
      }
      if element.next != null {
        element.next.link := element.link;
      }
    }

    /** Neighbours once an element is left out. */
    lemma WithoutOne(s: seq<Element<T>>, k: nat, j: nat)
      requires k < |s| && j < |s| - 1
      ensures var rest := s[..k] + s[k + 1..];
        var i := if j < k then j else j + 1;
        && rest[j] == s[i] && At(rest, j + 1) == (if i == k - 1 then At(s, k + 1) else At(s, i + 1))
        && LinkTo(rest, j) == (if i == k + 1 then LinkTo(s, k) else LinkTo(s, i))
    {
    }

    lemma WithoutFirst(s: seq<Element<T>>, k: nat)
      requires k < |s|
      ensures At(s[..k] + s[k + 1..], 0) == if k == 0 then At(s, 1) else At(s, 0)
    {
    }

    /** guac_common_list_remove: the link that leads to the element is led past it. */
    method Remove(element: Element<T>, ghost k: nat)
      requires Valid() && k < |elements| && element == elements[k]
      modifies this, elements
      ensures Valid() && elements == old(elements[..k] + elements[k + 1..])
    {
      hide List.At, List.LinkTo;
      ghost var was := elements;
      Unlink(element, k);
      ghost var rest := was[..k] + was[k + 1..];
      forall j | 0 <= j < |rest|
        ensures rest[j].owner == this && rest[j].next == At(rest, j + 1) && rest[j].link == LinkTo(rest, j)
      {
        WithoutOne(was, k, j);
        assert rest[j] == elements[if j < k then j else j + 1];
      }
      assert At(rest, 0) == if k == 0 then At(was, 1) else At(was, 0) by {
        WithoutFirst(was, k);
      }
      elements := rest;
    }
  }
}
