/**
  Circular doubly-linked lists with a dummy head (ares_llist.c).  A node is an object of its
  own here; in the source it is a field of the record that its `data` points to.
 */
module LinkedList {
  import opened Wire

  class Node<T> {
    var prev: Node?<T>
    var next: Node?<T>
    var data: Option<T>

    /** Storage for a node; InitListHead or InitListNode makes something of it. */
    constructor () {
      prev, next, data := null, null, None;
    }
  }

  /** The nodes of s, in this order, are linked as a list that hangs off head, which itself has to
      lead to first and last. */
  ghost predicate Strand<T>(head: Node<T>, s: seq<Node<T>>, first: Node?<T>, last: Node?<T>)
    reads s
  {
    && head !in s && NoDuplicates(s)
    && (s == [] ==> first == head && last == head)
    && (s != [] ==> first == s[0] && s[0].prev == head && last == s[|s| - 1] && s[|s| - 1].next == head)
    && (forall i {:trigger s[i].next} :: 0 <= i < |s| - 1 ==> s[i].next == s[i + 1])
    && (forall i {:trigger s[i].prev} :: 0 < i < |s| ==> s[i].prev == s[i - 1])
  }

  /** The nodes of s, in this order, are the list that hangs off head. */
  ghost predicate Ring<T>(head: Node<T>, s: seq<Node<T>>)
    reads head, s
  {
    Strand(head, s, head.next, head.prev)
  }

  function InsertAt<X>(s: seq<X>, k: nat, x: X): seq<X>
    requires k <= |s|
  {
    s[..k] + [x] + s[k..]
  }

  lemma InsertAtIndices<X>(s: seq<X>, k: nat, x: X)
    requires k <= |s|
    ensures var t := InsertAt(s, k, x);
            && |t| == |s| + 1 && t[k] == x && (forall i :: 0 <= i < k ==> t[i] == s[i])
            && (forall i :: k < i < |t| ==> t[i] == s[i - 1])
    ensures x !in s && NoDuplicates(s) ==> NoDuplicates(InsertAt(s, k, x))
  {
  }

  function RemoveAt<X>(s: seq<X>, k: nat): seq<X>
    requires k < |s|
  {
    s[..k] + s[k + 1..]
  }

  lemma RemoveAtIndices<X>(s: seq<X>, k: nat)
    requires k < |s|
    ensures var t := RemoveAt(s, k);
            && |t| == |s| - 1 && (forall i :: 0 <= i < k ==> t[i] == s[i])
            && (forall i :: k <= i < |t| ==> t[i] == s[i + 1])
    ensures NoDuplicates(s) ==> NoDuplicates(RemoveAt(s, k))
    ensures forall y :: y in RemoveAt(s, k) ==> y in s
  {
  }

  /** In a ring, next and prev undo each other. */
  lemma NextPrevInverse<T>(head: Node<T>, s: seq<Node<T>>, x: Node<T>)
    requires Ring(head, s) && (x == head || x in s)
    ensures x.next != null && (x.next == head || x.next in s) && x.next.prev == x
    ensures x.prev != null && (x.prev == head || x.prev in s) && x.prev.next == x
  {
    if x in s {
      var i :| 0 <= i < |s| && s[i] == x;
      if i < |s| - 1 {
        assert s[i + 1].prev == s[i];
      }
      if i > 0 {
        assert s[i - 1].next == s[i];
      }
    }
  }

  /** Two rings with different heads, neither of which is in the other list, share no node. */
  lemma {:induction false} RingsAreDisjoint<T>(a: Node<T>, s: seq<Node<T>>, i: nat, b: Node<T>, t: seq<Node<T>>, j: nat)
    requires Ring(a, s) && Ring(b, t) && a != b && a !in t && b !in s
    requires i < |s| && j < |t|
    ensures s[i] != t[j]
    decreases i
  {
    assert i > 0 ==> s[i].prev == s[i - 1] && s[i - 1] in s;
    assert j > 0 ==> t[j].prev == t[j - 1] && t[j - 1] in t;
    if i > 0 && j > 0 {
      RingsAreDisjoint(a, s, i - 1, b, t, j - 1);
    }
  }

  method InitListHead<T>(head: Node<T>)
    modifies head
    ensures Ring(head, []) && head.data == None
  {
    head.prev := head;
    head.next := head;
    head.data := None;
  }

  method InitListNode<T>(node: Node<T>, d: T)
    modifies node
    ensures node.prev == null && node.next == null && node.data == Some(d)
  {
    node.prev := null;
    node.next := null;
    node.data := Some(d);
  }

  method IsListEmpty<T>(head: Node<T>, ghost s: seq<Node<T>>) returns (empty: bool)
    requires Ring(head, s)
    ensures empty <==> s == []
  {
    empty := head.next == head && head.prev == head;
  }

  /** Puts newNode before oldNode, which is either the k-th node of the list or, when k is its
      length, the head.  Only newNode, oldNode and oldNode's predecessor are touched. */
  method InsertInList<T>(newNode: Node<T>, oldNode: Node<T>, ghost head: Node<T>, ghost s: seq<Node<T>>, ghost k: nat)
    requires Ring(head, s) && newNode != head && newNode !in s
    requires k <= |s| && oldNode == (if k < |s| then s[k] else head)
    modifies newNode, oldNode, oldNode.prev
    ensures Ring(head, InsertAt(s, k, newNode))
    ensures newNode.data == old(newNode.data) && oldNode.data == old(oldNode.data)
    ensures old(oldNode.prev).data == old(oldNode.prev.data)
  {
    hide InsertAt, NoDuplicates;
    NextPrevInverse(head, s, oldNode);
    InsertAtIndices(s, k, newNode);
    assert oldNode.prev == if k > 0 then s[k - 1] else head;
    newNode.next := oldNode;
    newNode.prev := oldNode.prev;
    oldNode.prev.next := newNode;
    oldNode.prev := newNode;
    ghost var t := InsertAt(s, k, newNode);
    forall i {:trigger t[i].next} | 0 <= i < |t| - 1 ensures t[i].next == t[i + 1] {
    }
    forall i {:trigger t[i].prev} | 0 < i < |t| ensures t[i].prev == t[i - 1] {
    }
  }

  /** Takes a node out of the list it is in; a node that is in no list is left alone.  Only the
      node and its two neighbours are touched. */
  method RemoveFromList<T>(node: Node<T>, ghost head: Node<T>, ghost s: seq<Node<T>>, ghost k: nat)
    requires node.next != null ==> Ring(head, s) && k < |s| && node == s[k]
    modifies node, node.prev, node.next
    ensures old(node.next) != null ==> Ring(head, RemoveAt(s, k)) && node.prev == null
    ensures old(node.next) == null ==> unchanged(node) && (old(node.prev) != null ==> unchanged(old(node.prev)))
    ensures node.next == null && node.data == old(node.data)
    ensures old(node.prev) != null ==> old(node.prev).data == old(if node.prev != null then node.prev.data else None)
    ensures old(node.next) != null ==> old(node.next).data == old(if node.next != null then node.next.data else None)
  {
    hide RemoveAt;
    if node.next != null {
      RemoveAtIndices(s, k);
      NextPrevInverse(head, s, node);
      node.prev.next := node.next;
      node.next.prev := node.prev;
      node.prev := null;
      node.next := null;
    }
  }

  lemma RingIsStrand<T>(head: Node<T>, s: seq<Node<T>>)
    ensures Ring(head, s) <==> Strand(head, s, head.next, head.prev)
    ensures Ring(head, s) ==> head !in s && (s != [] ==> head.next in s && head.prev in s)
  {
  }

  lemma DisjointNodes<T>(a: Node<T>, s: seq<Node<T>>, b: Node<T>, t: seq<Node<T>>)
    requires Ring(a, s) && Ring(b, t) && a != b && a !in t && b !in s
    ensures forall x :: x in s ==> x !in t
  {
    forall x | x in s ensures x !in t {
      var i :| 0 <= i < |s| && s[i] == x;
      forall j | 0 <= j < |t| ensures t[j] != x {
        RingsAreDisjoint(a, s, i, b, t, j);
      }
    }
  }

  /** Hangs a list that may be empty off another head. */
  method Rehang<T>(head: Node<T>, isEmpty: bool, prev: Node<T>, next: Node<T>, data: Option<T>,
                   ghost from: Node<T>, ghost s: seq<Node<T>>)
    requires Strand(from, s, next, prev) && head !in s && (isEmpty <==> s == [])
    modifies head, if isEmpty then {} else {next, prev}
    ensures Ring(head, s) && head.data == if isEmpty then None else data
    ensures forall x :: x in s ==> x.data == old(x.data)
  {
    if isEmpty {
      InitListHead(head);
    } else {
      head.prev, head.next, head.data := prev, next, data;
      next.prev := head;
      prev.next := head;
    }
  }

  /** Exchanges two whole lists, either of which may be empty. */
  method SwapLists<T>(a: Node<T>, b: Node<T>, ghost s: seq<Node<T>>, ghost t: seq<Node<T>>)
    requires Ring(a, s) && Ring(b, t)
    requires a != b && a !in t && b !in s
    modifies a, b, a.next, a.prev, b.next, b.prev
    ensures Ring(a, t) && Ring(b, s)
    ensures b.data == if s == [] then None else old(a.data)
    ensures a.data == if t == [] then None else old(b.data)
    ensures forall x :: x in s || x in t ==> x.data == old(x.data)
  {
    hide Ring, Strand;
    DisjointNodes(a, s, b, t);
    RingIsStrand(a, s);
    RingIsStrand(b, t);
    NextPrevInverse(a, s, a);
    NextPrevInverse(b, t, b);
    var isAEmpty := IsListEmpty(a, s);
    var isBEmpty := IsListEmpty(b, t);
    var aPrev, aNext, aData := a.prev, a.next, a.data;
    var bPrev, bNext, bData := b.prev, b.next, b.data;
    Rehang(b, isAEmpty, aPrev, aNext, aData, a, s);
    Rehang(a, isBEmpty, bPrev, bNext, bData, b, t);
  }
}
