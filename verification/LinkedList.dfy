/**
  The doubly linked list of src/core/list.c, on the heap, that keeps auxiliary
  buffers ordered by age. The list refines the ghost sequence of its nodes.
 */
module LinkedList {
  import opened Basics

  class Node<T> {
    var next: Node?<T>
    var prev: Node?<T>
    var data: T

    constructor (data: T)
      ensures this.data == data && next == null && prev == null
    {
      this.data := data;
      next, prev := null, null;
    }
  }

  class List<T> {
    var first: Node?<T>
    var last: Node?<T>
    var size: nat
    ghost var elems: seq<Node<T>>

    /** Everything but the backward links. */
    ghost predicate ForwardValid()
      reads this, elems
    {
      && size == |elems|
      && Distinct(elems)
      && (elems == [] ==> first == null && last == null)
      && (elems != [] ==> first == elems[0] && last == elems[|elems| - 1] && elems[|elems| - 1].next == null)
      && forall i, j :: 0 <= i && j == i + 1 && j < |elems| ==> elems[i].next == elems[j]
    }

    ghost predicate BackwardValid()
      reads this, elems
    {
      && (elems != [] ==> elems[0].prev == null)
      && forall i, j :: 0 <= i && j == i + 1 && j < |elems| ==> elems[j].prev == elems[i]
    }

    ghost predicate Valid()
      reads this, elems
    {
      ForwardValid() && BackwardValid()
    }

    constructor ()
      ensures Valid() && elems == []
    {
      first, last, size, elems := null, null, 0, [];
    }

    method AppendElem(elem: Node<T>) returns (n: nat)
      requires Valid() && elem !in elems
      modifies this, elems`next, elem`next, elem`prev
      ensures Valid() && elems == old(elems) + [elem] && n == size
    {
      elem.next := null;
      elem.prev := last;
      if last != null {
        last.next := elem;
      }
      last := elem;
      if first == null {
        first := elem;
      }
      size := size + 1;
      elems := elems + [elem];
      n := size;
    }

    method Append(data: T) returns (n: nat)
      requires Valid()
      modifies this, elems`next
      ensures Valid() && |elems| == |old(elems)| + 1 && n == size
      ensures elems[..|old(elems)|] == old(elems) && fresh(elems[|old(elems)|])
      ensures elems[|old(elems)|].data == data
    {
      var elem := new Node(data);
      n := AppendElem(elem);
    }

    method InsertElemAfter(elem: Node<T>, elem': Node<T>, ghost i: nat) returns (n: nat)
      requires Valid() && i < |elems| && elems[i] == elem && elem' !in elems
      modifies this, elems`next, elems`prev, elem'`next, elem'`prev
      ensures Valid() && elems == old(elems)[..i + 1] + [elem'] + old(elems)[i + 1..] && n == size
    {
      ghost var was := elems;
      assert i + 1 < |was| ==> elem.next == was[i + 1];
      elem'.next := elem.next;
      elem'.prev := elem;
      if elem.next != null {
        elem.next.prev := elem';
      }
      elem.next := elem';
      if elem == last {
        last := elem';
      }
      size := size + 1;
      InsertDistinct(was, i + 1, elem');
      elems := Insert(was, i + 1, elem');
      forall a, b | 0 <= a && b == a + 1 && b < |elems|
        ensures elems[a].next == elems[b] && elems[b].prev == elems[a]
      {
        if b <= i {
          assert was[a].next == was[b] && was[b].prev == was[a];
        } else if a > i + 1 {
          assert was[a - 1].next == was[b - 1] && was[b - 1].prev == was[a - 1];
        }
      }
      n := size;
    }

    method InsertAfter(elem: Node<T>, data: T, ghost i: nat) returns (n: nat)
      requires Valid() && i < |elems| && elems[i] == elem
      modifies this, elems`next, elems`prev
      ensures Valid() && |elems| == |old(elems)| + 1 && n == size
      ensures fresh(elems[i + 1]) && elems[i + 1].data == data
      ensures elems == old(elems)[..i + 1] + [elems[i + 1]] + old(elems)[i + 1..]
    {
      var elem' := new Node(data);
      n := InsertElemAfter(elem, elem', i);
    }

    method InsertBefore(elem: Node<T>, data: T, ghost i: nat) returns (n: nat)
      requires Valid() && i < |elems| && elems[i] == elem
      modifies this, elems`next, elems`prev
      ensures Valid() && |elems| == |old(elems)| + 1 && n == size
      ensures fresh(elems[i]) && elems[i].data == data
      ensures elems == old(elems)[..i] + [elems[i]] + old(elems)[i..]
    {
      ghost var was := elems;
      assert 0 < i ==> elem.prev == was[i - 1];
      var elem' := new Node(data);
      elem'.next := elem;
      if elem.prev != null {
        elem.prev.next := elem';
      }
      elem'.prev := elem.prev;
      elem.prev := elem';
      if elem == first {
        first := elem';
      }
      size := size + 1;
      InsertDistinct(was, i, elem');
      elems := Insert(was, i, elem');
      forall a, b | 0 <= a && b == a + 1 && b < |elems|
        ensures elems[a].next == elems[b] && elems[b].prev == elems[a]
      {
        if b < i {
          assert was[a].next == was[b] && was[b].prev == was[a];
        } else if a > i {
          assert was[a - 1].next == was[b - 1] && was[b - 1].prev == was[a - 1];
        }
      }
      n := size;
    }

    /** The removed element keeps its own links. */
    method Remove(elem: Node<T>, ghost i: nat) returns (n: nat)
      requires Valid() && i < |elems| && elems[i] == elem
      modifies this, elems`next, elems`prev
      ensures Valid() && elems == old(elems)[..i] + old(elems)[i + 1..] && n == size
      ensures elem.next == old(elem.next) && elem.prev == old(elem.prev)
    {
      ghost var was := elems;
      assert 0 < i ==> elem.prev == was[i - 1];
      assert i + 1 < |was| ==> elem.next == was[i + 1];
      if elem.next != null {
        elem.next.prev := elem.prev;
      }
      if elem.prev != null {
        elem.prev.next := elem.next;
      }
      if elem == first {
        first := elem.next;
      }
      if elem == last {
        last := elem.prev;
      }
      size := size - 1;
      WithoutDistinct(was, i);
      elems := Without(was, i);
      forall a, b | 0 <= a && b == a + 1 && b < |elems|
        ensures elems[a].next == elems[b] && elems[b].prev == elems[a]
      {
        if b < i {
          assert was[a].next == was[b] && was[b].prev == was[a];
        } else if a >= i {
          assert was[a + 1].next == was[b + 1] && was[b + 1].prev == was[a + 1];
        }
      }
      n := size;
    }

    /** vms_list_prepend leaves the backward link of the old first element as it was,
        so the list stays in order exactly when it was empty. */
    method Prepend(data: T) returns (n: nat)
      requires Valid()
      modifies this
      ensures |elems| == |old(elems)| + 1 && n == size
      ensures elems[1..] == old(elems) && fresh(elems[0]) && elems[0].data == data
      ensures ForwardValid()
      ensures Valid() <==> old(elems) == []
    {
      var elem := new Node(data);
      elem.next := first;
      elem.prev := null;
      first := elem;
      if last == null {
        last := elem;
      }
      size := size + 1;
      elems := [elem] + elems;
      n := size;
      assert 1 < |elems| ==> elems[1].prev == null;
    }

    /** Moving an element to the end, as writer_get_aux_buffer does with the buffer it
        reuses: the list stays a permutation of itself with that element last. */
    method MoveToEnd(elem: Node<T>, ghost i: nat)
      requires Valid() && i < |elems| && elems[i] == elem
      modifies this, elems`next, elems`prev
      ensures Valid() && elems == old(elems)[..i] + old(elems)[i + 1..] + [elem]
    {
      var n := Remove(elem, i);
      n := AppendElem(elem);
    }
  }
}
