/**
  The queries of a channel as a sequence, and what its index by query id has to contain.
 */
module QueryIndex {
  import opened Wire
  import opened LinkedList
  import opened ListForest

  const QID_TABLE_SIZE := 2048
  const TIMEOUT_TABLE_SIZE := 1024

  /** A query in progress (struct query).  It is threaded through four kinds of list. */
  class Query {
    const qid: nat
    const byQid: Node<Query>
    const byTimeout: Node<Query>
    const toServer: Node<Query>
    const all: Node<Query>

    const tcpbuf: array<byte>
    const callback: nat
    const arg: nat

    var timeout: nat
    var tryCount: nat
    var server: nat
    var usingTcp: bool
    var errorStatus: Status
    var timeouts: nat

    ghost function Nodes(): set<Node<Query>> {
      {byQid, byTimeout, toServer, all}
    }

    ghost predicate Threaded()
      reads Nodes()
    {
      && byQid != byTimeout && byQid != toServer && byQid != all
      && byTimeout != toServer && byTimeout != all && toServer != all
      && byQid.data == byTimeout.data == toServer.data == all.data == Some(this)
    }

    /** The four list nodes of a new query are in no list and point back to it. */
    constructor (qid: nat, tcpbuf: array<byte>, callback: nat, arg: nat, server: nat, usingTcp: bool)
      ensures this.qid == qid && this.tcpbuf == tcpbuf && this.callback == callback && this.arg == arg
      ensures this.server == server && this.usingTcp == usingTcp
      ensures timeout == 0 && tryCount == 0 && timeouts == 0 && errorStatus == ECONNREFUSED
      ensures fresh(byQid) && fresh(byTimeout) && fresh(toServer) && fresh(all)
      ensures Threaded()
      ensures forall x :: x in Nodes() ==> x.next == null && x.prev == null
    {
      this.qid, this.tcpbuf, this.callback, this.arg := qid, tcpbuf, callback, arg;
      this.server, this.usingTcp := server, usingTcp;
      timeout, tryCount, timeouts, errorStatus := 0, 0, 0, ECONNREFUSED;
      byQid := new Node();
      byTimeout := new Node();
      toServer := new Node();
      all := new Node();
      new;
      InitListNode(byQid, this);
      InitListNode(byTimeout, this);
      InitListNode(toServer, this);
      InitListNode(all, this);
    }

    /** The request, which follows its length in the TCP buffer. */
    function Request(): seq<byte>
      reads tcpbuf
    {
      if tcpbuf.Length >= 2 then tcpbuf[2..] else []
    }
  }

  /** The queries whose id falls into slot k of the table, in order. */
  ghost function Bucket(qs: seq<Query>, k: nat): seq<Query> {
    if qs == [] then []
    else (if qs[0].qid % QID_TABLE_SIZE == k then [qs[0]] else []) + Bucket(qs[1..], k)
  }

  ghost function AllNodes(qs: seq<Query>): seq<Node<Query>> {
    if qs == [] then [] else [qs[0].all] + AllNodes(qs[1..])
  }

  ghost function QidNodes(qs: seq<Query>): seq<Node<Query>> {
    if qs == [] then [] else [qs[0].byQid] + QidNodes(qs[1..])
  }

  /** The first query with the given id among some candidates: what a scan of the whole list
      finds. */
  ghost function FirstAmong(qs: seq<Query>, id: nat, candidates: set<Query>): Option<Query> {
    if qs == [] then None
    else if qs[0].qid == id && qs[0] in candidates then Some(qs[0])
    else FirstAmong(qs[1..], id, candidates)
  }

  ghost function FirstWithId(qs: seq<Query>, id: nat): Option<Query> {
    FirstAmong(qs, id, set q | q in qs)
  }

  /** If a candidate has the id, one is found. */
  lemma {:induction false} FirstAmongFinds(qs: seq<Query>, id: nat, candidates: set<Query>, q: Query)
    requires q in qs && q in candidates && q.qid == id
    ensures var found := FirstAmong(qs, id, candidates);
            found.Some? && found.value in qs && found.value in candidates && found.value.qid == id
  {
    if qs[0].qid != id || qs[0] !in candidates {
      FirstAmongFinds(qs[1..], id, candidates, q);
    }
  }

  /** What is found stands before all other candidates with the id; nothing is found only when
      there is none. */
  lemma {:induction false} FirstAmongMeaning(qs: seq<Query>, id: nat, candidates: set<Query>, i: nat)
    requires i < |qs|
    ensures FirstAmong(qs, id, candidates).None? ==> qs[i].qid != id || qs[i] !in candidates
    ensures qs[i].qid == id && qs[i] in candidates
            && (forall j :: 0 <= j < i ==> qs[j].qid != id || qs[j] !in candidates) ==>
              FirstAmong(qs, id, candidates) == Some(qs[i])
  {
    if i > 0 {
      FirstAmongMeaning(qs[1..], id, candidates, i - 1);
      assert forall j :: 0 <= j < i - 1 ==> qs[1..][j] == qs[j + 1];
    }
  }

  /** Searching the one bucket finds what scanning all queries would find. */
  lemma {:induction false} BucketSearch(qs: seq<Query>, id: nat, candidates: set<Query>)
    ensures FirstAmong(Bucket(qs, id % QID_TABLE_SIZE), id, candidates) == FirstAmong(qs, id, candidates)
  {
    if qs != [] {
      var k := id % QID_TABLE_SIZE;
      BucketSearch(qs[1..], id, candidates);
      if qs[0].qid % QID_TABLE_SIZE == k {
        assert Bucket(qs, k)[1..] == Bucket(qs[1..], k);
      } else {
        assert Bucket(qs, k) == Bucket(qs[1..], k);
      }
    }
  }

  /** The buckets partition the queries: a query is in the bucket of its id, and in no other. */
  lemma {:induction false} BucketMember(qs: seq<Query>, k: nat, q: Query)
    ensures q in Bucket(qs, k) <==> q in qs && q.qid % QID_TABLE_SIZE == k
  {
    if qs != [] {
      BucketMember(qs[1..], k, q);
      assert qs == [qs[0]] + qs[1..];
    }
  }

  lemma BucketCons(p: Query, rest: seq<Query>, k: nat)
    ensures Bucket([p] + rest, k) == if p.qid % QID_TABLE_SIZE == k then [p] + Bucket(rest, k) else Bucket(rest, k)
    ensures Bucket([], k) == []
  {
    assert ([p] + rest)[1..] == rest;
  }

  lemma {:induction false} BucketAppend(qs: seq<Query>, q: Query, k: nat)
    ensures Bucket(qs + [q], k) == Bucket(qs, k) + if q.qid % QID_TABLE_SIZE == k then [q] else []
  {
    hide Bucket;
    if qs == [] {
      assert [] + [q] == [q] + [];
      BucketCons(q, [], k);
    } else {
      BucketAppend(qs[1..], q, k);
      BucketCons(qs[0], qs[1..], k);
      BucketCons(qs[0], qs[1..] + [q], k);
      assert qs == [qs[0]] + qs[1..] && qs + [q] == [qs[0]] + (qs[1..] + [q]);
    }
  }

  lemma {:induction false} AllNodesAppend(qs: seq<Query>, q: Query)
    ensures AllNodes(qs + [q]) == AllNodes(qs) + [q.all]
  {
    if qs == [] {
      assert ([] + [q])[1..] == [];
    } else {
      AllNodesAppend(qs[1..], q);
      assert (qs + [q])[1..] == qs[1..] + [q];
    }
  }

  lemma {:induction false} QidNodesAppend(qs: seq<Query>, q: Query)
    ensures QidNodes(qs + [q]) == QidNodes(qs) + [q.byQid]
  {
    if qs == [] {
      assert ([] + [q])[1..] == [];
    } else {
      QidNodesAppend(qs[1..], q);
      assert (qs + [q])[1..] == qs[1..] + [q];
    }
  }

  lemma {:induction false} BucketWithout(qs: seq<Query>, q: Query, k: nat)
    requires NoDuplicates(qs)
    ensures Bucket(Without(qs, q), k) == Without(Bucket(qs, k), q)
    ensures NoDuplicates(Bucket(qs, k))
  {
    hide Bucket, Without;
    if qs == [] {
      BucketCons(q, [], k);
      WithoutCons(q, [], q);
    } else {
      var p, rest := qs[0], qs[1..];
      BucketWithout(rest, q, k);
      BucketMember(rest, k, p);
      assert qs == [p] + rest;
      BucketCons(p, rest, k);
      WithoutCons(p, rest, q);
      WithoutCons(p, Bucket(rest, k), q);
      if p == q {
        WithoutNothing(Bucket(rest, k), q);
      } else {
        BucketCons(p, Without(rest, q), k);
      }
    }
  }

  lemma {:induction false} AllNodesIndex(qs: seq<Query>, i: nat)
    requires i < |qs|
    ensures |AllNodes(qs)| == |qs| && AllNodes(qs)[i] == qs[i].all
  {
    if |qs| > 1 {
      AllNodesIndex(qs[1..], if i == 0 then 0 else i - 1);
    }
  }

  lemma {:induction false} QidNodesIndex(qs: seq<Query>, i: nat)
    requires i < |qs|
    ensures |QidNodes(qs)| == |qs| && QidNodes(qs)[i] == qs[i].byQid
  {
    if |qs| > 1 {
      QidNodesIndex(qs[1..], if i == 0 then 0 else i - 1);
    }
  }

  lemma {:induction false} AllNodesWithout(qs: seq<Query>, q: Query)
    requires q.Threaded() && forall p :: p in qs ==> p.Threaded()
    ensures AllNodes(Without(qs, q)) == Without(AllNodes(qs), q.all)
  {
    if qs != [] {
      assert qs[0] in qs;
      if qs[0] != q {
        forall p | p in qs[1..] ensures p.Threaded() {
          assert p in qs;
        }
        AllNodesWithout(qs[1..], q);
        assert Without(qs, q)[1..] == Without(qs[1..], q);
        assert qs[0].all.data != q.all.data;
      }
      assert AllNodes(qs)[1..] == AllNodes(qs[1..]);
    }
  }

  lemma {:induction false} QidNodesWithout(qs: seq<Query>, q: Query)
    requires q.Threaded() && forall p :: p in qs ==> p.Threaded()
    ensures QidNodes(Without(qs, q)) == Without(QidNodes(qs), q.byQid)
  {
    if qs != [] {
      assert qs[0] in qs;
      if qs[0] != q {
        forall p | p in qs[1..] ensures p.Threaded() {
          assert p in qs;
        }
        QidNodesWithout(qs[1..], q);
        assert Without(qs, q)[1..] == Without(qs[1..], q);
        assert qs[0].byQid.data != q.byQid.data;
      }
      assert QidNodes(qs)[1..] == QidNodes(qs[1..]);
    }
  }
}
