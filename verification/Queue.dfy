/** inc/queue.h: the intrusive doubly linked list that every kernel queue and free list uses. The
    macros rewrite the links of the elements in place; `elems` is the list that the links spell. */
module Queue {
  import opened Common

  datatype Status = UNKNOWN | NEW | READY | EXIT

  /** An environment, as far as the queues are concerned: its link fields, identifier and status. */
  class Node {
    const id: nat
    var next: Node?
    var prev: Node?
    var status: Status

    constructor (id: nat)
      ensures this.id == id && next == null && prev == null && status == UNKNOWN
    {
      this.id, next, prev, status := id, null, null, UNKNOWN;
    }
  }

  /** The list without its element `x`. */
  function Without<T(==)>(s: seq<T>, x: T): (r: seq<T>)
    ensures x !in s ==> r == s
  {
    if s == [] then []
    else if s[0] == x then s[1..]
    else [s[0]] + Without(s[1..], x)
  }

  lemma {:induction false} WithoutLength<T>(s: seq<T>, x: T)
    requires x in s
    ensures |Without(s, x)| == |s| - 1
  {
    if s[0] != x {
      WithoutLength(s[1..], x);
    }
  }

  /** Position by position, what is left without `x`, which is first found at `k`. */
  lemma {:induction false} WithoutIndex<T>(s: seq<T>, x: T, k: nat, i: nat)
    requires k < |s| && s[k] == x && (forall h | 0 <= h < k :: s[h] != x) && i < |s| - 1
    ensures |Without(s, x)| == |s| - 1
    ensures Without(s, x)[i] == s[if i < k then i else i + 1]
  {
    WithoutLength(s, x);
    if k > 0 && i > 0 {
      WithoutIndex(s[1..], x, k - 1, i - 1);
    }
  }

  lemma WithoutAt<T>(s: seq<T>, k: nat)
    requires Distinct(s) && k < |s|
    ensures Without(s, s[k]) == s[..k] + s[k + 1..]
  {
    hide Without;
    var w, t := Without(s, s[k]), s[..k] + s[k + 1..];
    WithoutLength(s, s[k]);
    forall i | 0 <= i < |w|
      ensures w[i] == t[i]
    {
      WithoutIndex(s, s[k], k, i);
    }
  }

  lemma {:induction false} WithoutMembers<T>(s: seq<T>, e: T)
    requires Distinct(s)
    ensures forall x :: x in Without(s, e) <==> x in s && x != e
  {
    if s == [] {
    } else {
      assert s == [s[0]] + s[1..];
      WithoutMembers(s[1..], e);
    }
  }

  /** The element at position `i`, null past either end. */
  function At(s: seq<Node>, i: int): Node? {
    if 0 <= i < |s| then s[i] else null
  }

  ghost predicate Linked(s: seq<Node>, i: nat)
    requires i < |s|
    reads s[i]
  {
    s[i].prev == At(s, i - 1) && s[i].next == At(s, i + 1)
  }

  class Queue {
    var first: Node?
    var last: Node?
    var size: nat
    ghost var elems: seq<Node>

    ghost predicate Valid()
      reads this, elems
    {
      && size == |elems| && Distinct(elems)
      && first == At(elems, 0) && last == At(elems, |elems| - 1)
      && forall i | 0 <= i < |elems| :: Linked(elems, i)
    }

    constructor ()
      ensures Valid() && elems == []
    {
      first, last, size, elems := null, null, 0, [];
    }

    lemma ElementsDistinct()
      requires Valid()
      ensures Distinct(elems) && first == At(elems, 0)
    {
    }

    method InsertHead(elm: Node)
      requires Valid() && elm !in elems
      modifies this, elm`next, elm`prev, elems`next, elems`prev
      ensures Valid() && elems == [elm] + old(elems)
    {
      ghost var was := elems;
      elm.next := first;
      if elm.next != null {
        first.prev := elm;
      } else {
        last := elm;
      }
      first := elm;
      elm.prev := null;
      size := size + 1;
      elems := [elm] + was;
      forall i | 0 <= i < |elems|
        ensures Linked(elems, i)
      {
        if i > 0 {
          assert elems[i] == was[i - 1] && old(Linked(was, i - 1));
        }
      }
    }

    method InsertTail(elm: Node)
      requires Valid() && elm !in elems
      modifies this, elm`next, elm`prev, elems`next, elems`prev
      ensures Valid() && elems == old(elems) + [elm]
    {
      ghost var was := elems;
      elm.prev := last;
      if elm.prev != null {
        last.next := elm;
      } else {
        first := elm;
      }
      last := elm;
      elm.next := null;
      size := size + 1;
      elems := was + [elm];
      forall i | 0 <= i < |elems|
        ensures Linked(elems, i)
      {
        if i < |was| {
          assert elems[i] == was[i] && old(Linked(was, i));
        }
      }
    }

    method InsertAfter(listelm: Node, elm: Node, ghost k: nat)
      requires Valid() && elm !in elems && k < |elems| && elems[k] == listelm
      modifies this, elm`next, elm`prev, elems`next, elems`prev
      ensures Valid() && elems == old(elems[..k + 1] + [elm] + elems[k + 1..])
    {
      ghost var was := elems;
      assert Linked(was, k);
      elm.next := listelm.next;
      if elm.next != null {
        listelm.next.prev := elm;
      }
      listelm.next := elm;
      elm.prev := listelm;
      if elm.next == null {
        last := elm;
      }
      size := size + 1;
      elems := was[..k + 1] + [elm] + was[k + 1..];
      forall i | 0 <= i < |elems|
        ensures Linked(elems, i)
      {
        if i <= k {
          assert elems[i] == was[i] && old(Linked(was, i));
        } else if i > k + 1 {
          assert elems[i] == was[i - 1] && old(Linked(was, i - 1));
        }
      }
    }

    method InsertBefore(listelm: Node, elm: Node, ghost k: nat)
      requires Valid() && elm !in elems && k < |elems| && elems[k] == listelm
      modifies this, elm`next, elm`prev, elems`next, elems`prev
      ensures Valid() && elems == old(elems[..k] + [elm] + elems[k..])
    {
      ghost var was := elems;
      assert Linked(was, k);
      elm.prev := listelm.prev;
      elm.next := listelm;
      if listelm.prev != null {
        listelm.prev.next := elm;
      } else {
        first := elm;
      }
      listelm.prev := elm;
      size := size + 1;
      elems := was[..k] + [elm] + was[k..];
      forall i | 0 <= i < |elems|
        ensures Linked(elems, i)
      {
        if i < k {
          assert elems[i] == was[i] && old(Linked(was, i));
        } else if i > k {
          assert elems[i] == was[i - 1] && old(Linked(was, i - 1));
        }
      }
    }

    method Remove(elm: Node)
      requires Valid() && elm in elems
      modifies this, elems`next, elems`prev
      ensures Valid() && elems == Without(old(elems), elm)
      ensures forall x :: x in elems <==> x in old(elems) && x != elm
      ensures elm.next == null && elm.prev == null
    {
      hide Without;
      ghost var was := elems;
      ghost var k :| 0 <= k < |elems| && elems[k] == elm;
      WithoutAt(was, k);
      assert Linked(was, k);
      if elm.next != null {
        elm.next.prev := elm.prev;
      } else {
        last := elm.prev;
      }
      if elm.prev != null {
        elm.prev.next := elm.next;
      } else {
        first := elm.next;
      }
      elm.next := null;
      elm.prev := null;
      size := size - 1;
      elems := was[..k] + was[k + 1..];
      forall i | 0 <= i < |elems|
        ensures Linked(elems, i)
      {
        if i < k {
          assert elems[i] == was[i] && old(Linked(was, i));
        } else {
          assert elems[i] == was[i + 1] && old(Linked(was, i + 1));
        }
      }
      WithoutMembers(was, elm);
    }
  }
}
