/**
  Many lists side by side.  A channel keeps every query in several lists at once; `rings` gives
  the nodes of each list by its head, and `home` the list that a node is in.
 */
module ListForest {
  import opened Wire
  import opened LinkedList

  type Rings<!T> = map<Node<T>, seq<Node<T>>>
  type Homes<!T> = map<Node<T>, Node<T>>

  /** Every node is in the list that is its home, and in no other; heads are in none. */
  ghost predicate Placed<T>(rings: Rings<T>, home: Homes<T>) {
    && (forall h, x :: h in rings && x in rings[h] ==> x in home && home[x] == h)
    && (forall x :: x in home ==> x !in rings && home[x] in rings && x in rings[home[x]])
  }

  ghost predicate Forest<T>(rings: Rings<T>, home: Homes<T>)
    reads rings.Keys, home.Keys
  {
    Placed(rings, home) && forall h :: h in rings ==> Ring(h, rings[h])
  }

  /** s without its first x. */
  ghost function Without<X>(s: seq<X>, x: X): seq<X> {
    if s == [] then []
    else if s[0] == x then s[1..]
    else [s[0]] + Without(s[1..], x)
  }

  lemma WithoutCons<X>(y: X, s: seq<X>, x: X)
    ensures Without([y] + s, x) == if y == x then s else [y] + Without(s, x)
    ensures Without([], x) == []
  {
    assert ([y] + s)[1..] == s;
  }

  lemma {:induction false} WithoutAt<X>(s: seq<X>, k: nat)
    requires NoDuplicates(s) && k < |s|
    ensures Without(s, s[k]) == RemoveAt(s, k)
  {
    if k == 0 {
      assert RemoveAt(s, 0) == s[1..];
    } else {
      WithoutAt(s[1..], k - 1);
      assert s[1..][k - 1] == s[k];
      assert RemoveAt(s, k) == [s[0]] + RemoveAt(s[1..], k - 1);
    }
  }

  lemma {:induction false} WithoutMember<X>(s: seq<X>, x: X, y: X)
    requires NoDuplicates(s)
    ensures y in Without(s, x) <==> y in s && y != x
  {
    if s != [] {
      WithoutMember(s[1..], x, y);
      assert s == [s[0]] + s[1..];
    }
  }

  lemma {:induction false} WithoutNothing<X>(s: seq<X>, x: X)
    requires x !in s
    ensures Without(s, x) == s
  {
    if s != [] {
      WithoutNothing(s[1..], x);
    }
  }

  lemma WithoutDuplicates<X>(s: seq<X>, x: X)
    requires NoDuplicates(s)
    ensures NoDuplicates(Without(s, x))
  {
    if x in s {
      var k :| 0 <= k < |s| && s[k] == x;
      WithoutAt(s, k);
      RemoveAtIndices(s, k);
    } else {
      WithoutNothing(s, x);
    }
  }

  ghost function Linked<T>(rings: Rings<T>, h: Node<T>, x: Node<T>): Rings<T>
    requires h in rings
  {
    rings[h := rings[h] + [x]]
  }

  ghost function Unlinked<T>(rings: Rings<T>, home: Homes<T>, x: Node<T>): Rings<T> {
    if x in home && home[x] in rings then rings[home[x] := Without(rings[home[x]], x)] else rings
  }

  lemma UnlinkedKeys<T>(rings: Rings<T>, home: Homes<T>, x: Node<T>)
    ensures Unlinked(rings, home, x).Keys == rings.Keys
  {
  }

  /** Taking x out of its list is taking it out of every list. */
  lemma UnlinkedAt<T>(rings: Rings<T>, home: Homes<T>, x: Node<T>, h: Node<T>)
    requires Placed(rings, home) && h in rings
    ensures Unlinked(rings, home, x).Keys == rings.Keys
    ensures Unlinked(rings, home, x)[h] == Without(rings[h], x)
  {
    if x !in rings[h] {
      WithoutNothing(rings[h], x);
    }
  }

  lemma UnlinkedPlaced<T>(rings: Rings<T>, home: Homes<T>, x: Node<T>)
    requires Placed(rings, home) && x in home && NoDuplicates(rings[home[x]])
    ensures Placed(Unlinked(rings, home, x), home - {x})
  {
    var h := home[x];
    var rings', home' := Unlinked(rings, home, x), home - {x};
    forall g, y | g in rings' && y in rings'[g] ensures y in home' && home'[y] == g {
      WithoutMember(rings[h], x, y);
    }
    forall y | y in home' ensures y in rings'[home'[y]] {
      WithoutMember(rings[h], x, y);
    }
  }

  lemma UnlinkedEverywhere<T>(rings: Rings<T>, home: Homes<T>, x: Node<T>)
    requires Placed(rings, home) && forall g :: g in rings ==> NoDuplicates(rings[g])
    ensures var r := Unlinked(rings, home, x);
            && r.Keys == rings.Keys && Placed(r, home - {x})
            && (forall h :: h in rings ==> r[h] == Without(rings[h], x))
            && (forall h :: h in rings ==> NoDuplicates(r[h]))
  {
    forall h | h in rings
      ensures Unlinked(rings, home, x).Keys == rings.Keys && Unlinked(rings, home, x)[h] == Without(rings[h], x)
      ensures NoDuplicates(Without(rings[h], x))
    {
      UnlinkedAt(rings, home, x, h);
      WithoutDuplicates(rings[h], x);
    }
    if x in home {
      UnlinkedPlaced(rings, home, x);
    } else {
      assert home - {x} == home;
    }
  }

  lemma {:induction false} WithoutSnoc<X>(s: seq<X>, x: X, y: X)
    requires x != y
    ensures Without(s + [y], x) == Without(s, x) + [y]
  {
    if s == [] {
      assert [] + [y] == [y];
      assert [y][1..] == [];
      assert Without([y][1..], x) == [];
    } else {
      WithoutSnoc(s[1..], x, y);
      assert (s + [y])[1..] == s[1..] + [y];
    }
  }

  lemma LinkedPlaced<T>(rings: Rings<T>, home: Homes<T>, h: Node<T>, x: Node<T>)
    requires Placed(rings, home) && h in rings && x !in rings && x !in home
    ensures Placed(Linked(rings, h, x), home[x := h])
  {
  }

  lemma MovedPlaced<T>(rings: Rings<T>, home: Homes<T>, x: Node<T>, t: Node<T>)
    requires Placed(rings, home) && t in rings && x !in rings
    requires x in home && home[x] in rings ==> NoDuplicates(rings[home[x]])
    ensures t in Unlinked(rings, home, x)
    ensures Placed(Linked(Unlinked(rings, home, x), t, x), (home - {x})[x := t])
  {
    if x in home {
      UnlinkedPlaced(rings, home, x);
    } else {
      assert home - {x} == home;
    }
    LinkedPlaced(Unlinked(rings, home, x), home - {x}, t, x);
  }

  /** Moving x to the end of the list of t. */
  lemma MovedAt<T>(rings: Rings<T>, home: Homes<T>, x: Node<T>, t: Node<T>, h: Node<T>)
    requires Placed(rings, home) && h in rings && t in rings && x !in rings
    requires x in home && home[x] in rings ==> NoDuplicates(rings[home[x]])
    ensures t in Unlinked(rings, home, x)
    ensures var r := Linked(Unlinked(rings, home, x), t, x);
            && r.Keys == rings.Keys && Placed(r, (home - {x})[x := t])
            && r[h] == if h == t then Without(rings[h], x) + [x] else Without(rings[h], x)
  {
    hide Placed, Without, Unlinked;
    UnlinkedAt(rings, home, x, h);
    UnlinkedAt(rings, home, x, t);
    MovedPlaced(rings, home, x, t);
  }

  lemma RingMembers<T>(h: Node<T>, s: seq<Node<T>>)
    requires Ring(h, s)
    ensures h !in s && NoDuplicates(s)
    ensures h.prev != null && (h.prev == h || h.prev in s)
    ensures forall x :: x in s ==> x.prev != null && (x.prev == h || x.prev in s)
    ensures forall x :: x in s ==> x.next != null && (x.next == h || x.next in s)
  {
    forall x | x in s
      ensures x.prev != null && x.next != null && (x.prev == h || x.prev in s) && (x.next == h || x.next in s)
    {
      NextPrevInverse(h, s, x);
    }
  }

  lemma AppendIsInsert<X>(s: seq<X>, x: X)
    ensures InsertAt(s, |s|, x) == s + [x]
  {
  }

  twostate predicate DataKept<T>(rings: Rings<T>, home: Homes<T>)
    reads rings.Keys, home.Keys
  {
    forall y :: y in rings.Keys + home.Keys ==> y.data == old(y.data)
  }

  /** Appends x, which is in no list, to the list of h. */
  method Link<T>(x: Node<T>, h: Node<T>, ghost rings: Rings<T>, ghost home: Homes<T>)
    requires Forest(rings, home) && h in rings && x !in rings && x !in home
    modifies x, rings.Keys, home.Keys
    ensures Forest(Linked(rings, h, x), home[x := h])
    ensures DataKept(rings, home) && x.data == old(x.data)
  {
    hide Ring, InsertAt, Without;
    ghost var s := rings[h];
    assert Ring(h, s);
    RingMembers(h, s);
    AppendIsInsert(s, x);
    ghost var last := h.prev;
    assert last == h || last in s;
    InsertInList(x, h, h, s, |s|);
    forall g | g in rings && g != h ensures Ring(g, rings[g]) {
      assert old(Ring(g, rings[g]));
      assert g != x && g != h && g != last;
      assert forall y :: y in rings[g] ==> home[y] == g;
      assert x !in rings[g] && h !in rings[g] && last !in rings[g];
    }
    LinkedPlaced(rings, home, h, x);
  }

  /** Takes x out of the list that it is in, if any. */
  method Unlink<T>(x: Node<T>, ghost rings: Rings<T>, ghost home: Homes<T>)
    requires Forest(rings, home) && x !in rings && (x !in home ==> x.next == null && x.prev == null)
    modifies x, rings.Keys, home.Keys
    ensures Forest(Unlinked(rings, home, x), home - {x})
    ensures x.next == null && x.prev == null
    ensures DataKept(rings, home) && x.data == old(x.data)
  {
    hide Ring, RemoveAt, Without;
    if x in home {
      RingMembers(home[x], rings[home[x]]);
    }
    if x.next == null {
      RemoveFromList(x, x, [], 0);
    } else {
      ghost var h := home[x];
      ghost var s := rings[h];
      assert Ring(h, s);
      RingMembers(h, s);
      ghost var k :| 0 <= k < |s| && s[k] == x;
      ghost var before, after := x.prev, x.next;
      WithoutAt(s, k);
      RemoveFromList(x, h, s, k);
      forall g | g in rings && g != h ensures Ring(g, rings[g]) {
        assert old(Ring(g, rings[g]));
        assert g != x && g != before && g != after;
        assert forall y :: y in rings[g] ==> home[y] == g;
        assert x !in rings[g] && before !in rings[g] && after !in rings[g];
      }
      UnlinkedPlaced(rings, home, x);
    }
  }
}
