/** Stable sorting by a key, on sequences. */
module StableOrder {

  /** The elements of s with key k, in order. */
  function WithKey<T>(s: seq<T>, key: T -> nat, k: nat): seq<T> {
    if s == [] then [] else (if key(s[0]) == k then [s[0]] else []) + WithKey(s[1..], key, k)
  }

  ghost predicate SortedBy<T>(s: seq<T>, key: T -> nat) {
    forall i, j :: 0 <= i < j < |s| ==> key(s[i]) <= key(s[j])
  }

  /** t has the elements of s, those with equal keys in the same order. */
  ghost predicate SameByKey<T>(s: seq<T>, t: seq<T>, key: T -> nat) {
    forall k: nat :: WithKey(s, key, k) == WithKey(t, key, k)
  }

  /** t is s, stably sorted. */
  ghost predicate StablySorted<T>(s: seq<T>, t: seq<T>, key: T -> nat) {
    SortedBy(t, key) && SameByKey(s, t, key)
  }

  lemma WithKeyCons<T>(x: T, s: seq<T>, key: T -> nat, k: nat)
    ensures WithKey([x] + s, key, k) == (if key(x) == k then [x] else []) + WithKey(s, key, k)
    ensures WithKey([], key, k) == []
  {
    assert ([x] + s)[1..] == s;
  }

  lemma {:induction false} WithKeyConcat<T>(s: seq<T>, t: seq<T>, key: T -> nat, k: nat)
    ensures WithKey(s + t, key, k) == WithKey(s, key, k) + WithKey(t, key, k)
  {
    if s == [] {
      assert [] + t == t;
    } else {
      hide WithKey;
      WithKeyConcat(s[1..], t, key, k);
      WithKeyCons(s[0], s[1..], key, k);
      WithKeyCons(s[0], s[1..] + t, key, k);
      assert s == [s[0]] + s[1..] && s + t == [s[0]] + (s[1..] + t);
    }
  }

  lemma {:induction false} WithKeyNone<T>(s: seq<T>, key: T -> nat, k: nat)
    requires forall x :: x in s ==> key(x) != k
    ensures WithKey(s, key, k) == []
  {
    if s != [] {
      assert s[0] in s;
      WithKeyNone(s[1..], key, k);
    }
  }

  lemma WithKeyParts<T>(a: seq<T>, b: seq<T>, c: seq<T>, d: seq<T>, key: T -> nat, k: nat)
    ensures WithKey(a + b + c + d, key, k) ==
              WithKey(a, key, k) + WithKey(b, key, k) + WithKey(c, key, k) + WithKey(d, key, k)
  {
    hide WithKey;
    WithKeyConcat(a + b + c, d, key, k);
    WithKeyConcat(a + b, c, key, k);
    WithKeyConcat(a, b, key, k);
  }

  lemma EmptyBetween<T>(a: seq<T>, b: seq<T>, c: seq<T>)
    requires b == [] || c == []
    ensures a + b + c == a + c + b
  {
  }

  /** Moving an element back over elements of larger key. */
  lemma MoveBack<T>(a: seq<T>, over: seq<T>, x: T, b: seq<T>, key: T -> nat)
    requires forall y :: y in over ==> key(y) > key(x)
    ensures SameByKey(a + over + [x] + b, a + [x] + over + b, key)
  {
    forall k: nat ensures WithKey(a + over + [x] + b, key, k) == WithKey(a + [x] + over + b, key, k) {
      WithKeyParts(a, over, [x], b, key, k);
      WithKeyParts(a, [x], over, b, key, k);
      if k == key(x) {
        WithKeyNone(over, key, k);
      } else {
        WithKeyNone([x], key, k);
      }
      EmptyBetween(WithKey(a, key, k), WithKey(over, key, k), WithKey([x], key, k));
    }
  }

  lemma {:induction false} WithKeyMember<T>(s: seq<T>, key: T -> nat, k: nat, x: T)
    ensures multiset(WithKey(s, key, k))[x] == if key(x) == k then multiset(s)[x] else 0
  {
    if s != [] {
      WithKeyMember(s[1..], key, k, x);
      assert s == [s[0]] + s[1..];
    }
  }

  /** A stable rearrangement is a permutation. */
  lemma StableIsPermutation<T>(s: seq<T>, t: seq<T>, key: T -> nat)
    requires SameByKey(s, t, key)
    ensures multiset(s) == multiset(t)
  {
    forall x ensures multiset(s)[x] == multiset(t)[x] {
      WithKeyMember(s, key, key(x), x);
      WithKeyMember(t, key, key(x), x);
    }
  }

  lemma WithKeyTail<T>(s: seq<T>, key: T -> nat, j: nat)
    requires s != []
    ensures WithKey(s[1..], key, j) == if key(s[0]) == j then WithKey(s, key, j)[1..] else WithKey(s, key, j)
  {
  }

  lemma FirstKey<T>(s: seq<T>, t: seq<T>, key: T -> nat)
    requires s != [] && t != [] && SortedBy(t, key) && multiset(s) == multiset(t)
    ensures key(t[0]) <= key(s[0])
  {
    assert s[0] in multiset(s);
    assert s[0] in t;
    var i :| 0 <= i < |t| && t[i] == s[0];
  }

  /** There is only one way to sort stably. */
  lemma {:induction false} StableIsUnique<T>(s: seq<T>, t: seq<T>, key: T -> nat)
    requires SortedBy(s, key) && SortedBy(t, key) && SameByKey(s, t, key)
    ensures s == t
    decreases |s|
  {
    StableIsPermutation(s, t, key);
    assert |s| == |multiset(s)| == |multiset(t)| == |t|;
    if s != [] {
      var k := key(s[0]);
      FirstKey(s, t, key);
      FirstKey(t, s, key);
      assert WithKey(s, key, k)[0] == s[0] && WithKey(t, key, k)[0] == t[0];
      forall j: nat ensures WithKey(s[1..], key, j) == WithKey(t[1..], key, j) {
        assert WithKey(s, key, j) == WithKey(t, key, j);
        WithKeyTail(s, key, j);
        WithKeyTail(t, key, j);
      }
      StableIsUnique(s[1..], t[1..], key);
      assert s == [s[0]] + s[1..] && t == [t[0]] + t[1..];
    }
  }
}
