/**
  The circular doubly linked list of src/core/list-embedded.c, whose links are
  embedded in its elements. A ring refines the ghost sequence of its links, the
  list head first; the list's elements are the links after the head.
 */
module EmbeddedList {
  import opened Basics

  class Link {
    var next: Link?
    var prev: Link?

    /** vms_list_embedded_init: the head of an empty list. */
    constructor ()
      ensures Ring([this])
    {
      next := this;
      prev := this;
    }
  }

  ghost predicate Disjoint<X>(s: seq<X>, t: seq<X>) {
    forall i, j :: 0 <= i < |s| && 0 <= j < |t| ==> s[i] != t[j]
  }

  /** Going along `next` or back along `prev` visits the links in order, and closes. */
  ghost predicate Ring(links: seq<Link>)
    reads links
  {
    && links != []
    && Distinct(links)
    && links[|links| - 1].next == links[0]
    && links[0].prev == links[|links| - 1]
    && forall i, j :: 0 <= i && j == i + 1 && j < |links| ==> links[i].next == links[j] && links[j].prev == links[i]
  }

  /** The new element comes right after the head. */
  method InsertAfter(list: Link, elm: Link, ghost links: seq<Link>)
    requires Ring(links) && links[0] == list && elm !in links
    modifies links, elm
    ensures Ring([list, elm] + links[1..])
  {
    assert 1 < |links| ==> list.next == links[1];
    elm.prev := list;
    elm.next := list.next;
    list.next := elm;
    elm.next.prev := elm;
    ghost var links' := [list, elm] + links[1..];
    assert forall k :: 2 <= k < |links'| ==> links'[k] == links[k - 1];
  }

  /** The head, then the other list's elements, then the old ones. */
  ghost function Spliced<X>(links: seq<X>, others: seq<X>): (r: seq<X>)
    requires links != [] && others != []
    ensures |r| == |links| + |others| - 1 && r[0] == links[0]
    ensures forall k :: 1 <= k < |others| ==> r[k] == others[k]
    ensures forall k :: |others| <= k < |r| ==> r[k] == links[k - |others| + 1]
  {
    [links[0]] + others[1..] + links[1..]
  }

  lemma SplicedDistinct<X>(links: seq<X>, others: seq<X>)
    requires links != [] && others != []
    requires Distinct(links) && Distinct(others) && Disjoint(links, others)
    ensures Distinct(Spliced(links, others)) && others[0] !in Spliced(links, others)
  {
  }

  /** The other list's elements end up in front of the old ones, in their order. The
      other head is not touched, so unless its list was empty it now points into a ring
      that does not lead back to it. */
  method InsertList(list: Link, other: Link, ghost links: seq<Link>, ghost others: seq<Link>)
    requires Ring(links) && links[0] == list
    requires Ring(others) && others[0] == other && Disjoint(links, others)
    modifies links, others
    ensures Ring([list] + others[1..] + links[1..])
    ensures other.next == old(other.next) && other.prev == old(other.prev)
    ensures Ring(others) <==> |others| == 1
  {
    ghost var n := |others| - 1;
    ghost var links' := Spliced(links, others);
    SplicedDistinct(links, others);
    assert 1 < |others| ==> other.next == others[1] && other.prev == others[n];
    assert 1 < |links| ==> list.next == links[1];
    if other.next == other {
      assert |others| == 1;
      assert links' == links;
      return;
    }
    other.next.prev := list;
    other.prev.next := list.next;
    list.next.prev := other.prev;
    list.next := other.next;
    forall a, b | 0 <= a && b == a + 1 && b < |links'|
      ensures links'[a].next == links'[b] && links'[b].prev == links'[a]
    {
      if 0 < a && b <= n {
        assert others[a].next == others[b] && others[b].prev == others[a];
      } else if n < a {
        assert links[a - n].next == links[b - n] && links[b - n].prev == links[a - n];
      }
    }
    assert others[1].prev == list;
  }

  method Remove(elm: Link, ghost links: seq<Link>, ghost i: nat)
    requires Ring(links) && 0 < i < |links| && links[i] == elm
    modifies links
    ensures Ring(links[..i] + links[i + 1..])
    ensures elm.next == null && elm.prev == null
  {
    assert elm.prev == links[i - 1];
    assert elm.next == if i + 1 < |links| then links[i + 1] else links[0];
    elm.prev.next := elm.next;
    elm.next.prev := elm.prev;
    elm.prev := null;
    elm.next := null;
    ghost var links' := links[..i] + links[i + 1..];
    assert forall k :: i <= k < |links'| ==> links'[k] == links[k + 1];
  }

  method Empty(list: Link, ghost links: seq<Link>) returns (empty: bool)
    requires Ring(links) && links[0] == list
    ensures empty <==> |links| == 1
  {
    assert 1 < |links| ==> list.next == links[1];
    empty := list.next == list;
  }

  /** Counts the elements; the walk ends because the ring is closed. */
  method Size(list: Link, ghost links: seq<Link>) returns (n: nat)
    requires Ring(links) && links[0] == list
    ensures n == |links| - 1
  {
    n := 0;
    assert 1 < |links| ==> list.next == links[1];
    var cur := list.next;
    while cur != list
      invariant n < |links|
      invariant cur == if n + 1 < |links| then links[n + 1] else list
      decreases |links| - n
    {
      assert n + 2 < |links| ==> links[n + 1].next == links[n + 2];
      cur := cur.next;
      n := n + 1;
    }
  }
}
