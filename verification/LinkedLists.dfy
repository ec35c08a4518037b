/** The doubly linked list of ids that the memory store keeps its indexes in: elements can be removed
    through a reference to them, without a search. */
module LinkedLists {

  class Element {
    const value: int
    var next: Element?
    var prev: Element?

    constructor (value: int)
      ensures this.value == value && next == null && prev == null
    {
      this.value := value;
      next, prev := null, null;
    }
  }

  class LinkedList {
    var front: Element?
    var back: Element?
    var len: nat
    ghost var spine: seq<Element>
    ghost var Repr: set<object>

    /** The links run along the spine in both directions. */
    ghost predicate Valid()
      reads this, Repr
      ensures Valid() ==> this in Repr && len == |spine|
    {
      && this in Repr && (forall i :: 0 <= i < |spine| ==> spine[i] in Repr)
      && len == |spine|
      && (forall i, j :: 0 <= i < j < |spine| ==> spine[i] != spine[j])
      && (forall i {:trigger spine[i].next} :: 0 <= i < |spine| - 1 ==> spine[i].next == spine[i + 1])
      && (forall i {:trigger spine[i].prev} :: 1 <= i < |spine| ==> spine[i].prev == spine[i - 1])
      && (spine == [] ==> front == null && back == null)
      && (spine != [] ==> front == spine[0] && back == spine[|spine| - 1] && front.prev == null && back.next == null)
    }

    /** The n-th element seen from one end, or null past the other end. */
    ghost function Nth(fromBack: bool, n: nat): Element?
      reads this
    {
      if n >= |spine| then null else if fromBack then spine[|spine| - 1 - n] else spine[n]
    }

    lemma Walk(fromBack: bool, n: nat)
      requires Valid()
      ensures Nth(fromBack, 0) == if fromBack then back else front
      ensures n < |spine| ==> Nth(fromBack, n).next == Nth(fromBack, n + 1) || fromBack
      ensures n < |spine| ==> Nth(fromBack, n).prev == Nth(fromBack, n + 1) || !fromBack
    {
    }

    constructor ()
      ensures Valid() && spine == [] && Repr == {this}
    {
      front, back, len, spine := null, null, 0, [];
      Repr := {this};
    }

    method PushBack(value: int) returns (e: Element)
      requires Valid()
      modifies Repr
      ensures Valid()
      ensures fresh(e) && e.value == value
      ensures spine == old(spine) + [e] && Repr == old(Repr) + {e}
    {
      e := new Element(value);
      e.prev := back;
      if back == null {
        front := e;
      } else {
        back.next := e;
      }
      back := e;
      len := len + 1;
      spine := spine + [e];
      Repr := Repr + {e};
    }

    /** Unlinks an element of this list; `k` is its position. */
    method Remove(e: Element, ghost k: nat)
      requires Valid()
      requires k < |spine| && spine[k] == e
      modifies Repr
      ensures Valid() && Repr == old(Repr)
      ensures spine == old(spine)[..k] + old(spine)[k + 1..]
    {
      var p, n := e.prev, e.next;
      ghost var was := spine;
      assert p == if k == 0 then null else was[k - 1];
      assert n == if k == |was| - 1 then null else was[k + 1];
      if p == null {
        front := n;
      } else {
        p.next := n;
      }
      if n == null {
        back := p;
      } else {
        n.prev := p;
      }
      e.next, e.prev := null, null;
      len := len - 1;
      spine := was[..k] + was[k + 1..];
    }
  }
}
