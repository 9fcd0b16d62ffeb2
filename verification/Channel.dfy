/**
  The query lists of a channel (ares_send.c, ares_query.c, ares_cancel.c, and the bookkeeping
  of ares_process.c): every query is in the list of all queries and in the bucket of its id,
  and may be in a timeout bucket and in the list of a server.
 */
module Channels {
  import opened Wire
  import opened ExpandName
  import opened LinkedList
  import opened ListForest
  import opened MkQuery
  import opened NameRoundTrip
  import opened QueryIndex
  import opened Questions

  /** The list heads of a channel. */
  datatype Heads = Heads(all: Node<Query>, byQid: seq<Node<Query>>, byTimeout: seq<Node<Query>>,
                         toServer: seq<Node<Query>>)
  {
    ghost function Set(): set<Node<Query>> {
      {all} + (set h | h in byQid) + (set h | h in byTimeout) + (set h | h in toServer)
    }

    ghost predicate Distinct() {
      && |byQid| == QID_TABLE_SIZE && |byTimeout| == TIMEOUT_TABLE_SIZE && |toServer| > 0
      && NoDuplicates(byQid) && NoDuplicates(byTimeout) && NoDuplicates(toServer)
      && all !in byQid && all !in byTimeout && all !in toServer
      && (forall h :: h in byTimeout ==> h !in byQid)
      && (forall h :: h in toServer ==> h !in byQid && h !in byTimeout)
    }
  }

  /** The list of all queries is `listed`, and each slot of the id table holds exactly those of
      the queries `hashed` that belong there, in the same order. */
  ghost predicate Holds(hs: Heads, rings: Rings<Query>, listed: seq<Query>, hashed: seq<Query>)
    requires hs.Distinct() && rings.Keys == hs.Set()
  {
    && rings[hs.all] == AllNodes(listed)
    && forall k :: 0 <= k < QID_TABLE_SIZE ==> rings[hs.byQid[k]] == QidNodes(Bucket(hashed, k))
  }

  /** The id table indexes exactly the active queries. */
  ghost predicate Indexed(hs: Heads, rings: Rings<Query>, active: seq<Query>)
    requires hs.Distinct() && rings.Keys == hs.Set()
  {
    Holds(hs, rings, active, active)
  }

  function Slot(q: Query): nat {
    q.qid % QID_TABLE_SIZE
  }

  // ----- the index under sending and freeing

  ghost function SentRings(hs: Heads, rings: Rings<Query>, q: Query): Rings<Query>
    requires hs.Distinct() && rings.Keys == hs.Set()
  {
    Linked(Linked(rings, hs.all, q.all), hs.byQid[Slot(q)], q.byQid)
  }

  lemma SentIndexed(hs: Heads, rings: Rings<Query>, active: seq<Query>, q: Query)
    requires hs.Distinct() && rings.Keys == hs.Set() && Indexed(hs, rings, active)
    ensures SentRings(hs, rings, q).Keys == hs.Set()
    ensures Indexed(hs, SentRings(hs, rings, q), active + [q])
  {
    var rings' := SentRings(hs, rings, q);
    AllNodesAppend(active, q);
    assert hs.byQid[Slot(q)] in hs.byQid;
    forall k | 0 <= k < QID_TABLE_SIZE ensures rings'[hs.byQid[k]] == QidNodes(Bucket(active + [q], k)) {
      BucketAppend(active, q, k);
      QidNodesAppend(Bucket(active, k), q);
      assert hs.byQid[k] in hs.byQid;
      assert Bucket(active, k) + [] == Bucket(active, k);
    }
  }

  /** Where a query of the channel may be. */
  ghost predicate AtHome(hs: Heads, home: Homes<Query>, q: Query)
    requires hs.Distinct()
  {
    && q.all in home && home[q.all] == hs.all
    && q.byQid in home && home[q.byQid] == hs.byQid[Slot(q)]
    && (q.byTimeout in home ==> home[q.byTimeout] in hs.byTimeout)
    && (q.toServer in home ==> home[q.toServer] in hs.toServer)
  }

  lemma UnlinkedOther(hs: Heads, rings: Rings<Query>, home: Homes<Query>, x: Node<Query>,
                      listed: seq<Query>, hashed: seq<Query>)
    requires hs.Distinct() && rings.Keys == hs.Set() && Holds(hs, rings, listed, hashed)
    requires x in home ==> home[x] in hs.byTimeout || home[x] in hs.toServer
    ensures Unlinked(rings, home, x).Keys == hs.Set()
    ensures Holds(hs, Unlinked(rings, home, x), listed, hashed)
  {
    forall k | 0 <= k < QID_TABLE_SIZE
      ensures Unlinked(rings, home, x)[hs.byQid[k]] == QidNodes(Bucket(hashed, k))
    {
      assert hs.byQid[k] in hs.byQid;
    }
  }

  lemma LinkedOther(hs: Heads, rings: Rings<Query>, h: Node<Query>, x: Node<Query>, active: seq<Query>)
    requires hs.Distinct() && rings.Keys == hs.Set() && Indexed(hs, rings, active)
    requires h in hs.byTimeout || h in hs.toServer
    ensures Linked(rings, h, x).Keys == hs.Set()
    ensures Indexed(hs, Linked(rings, h, x), active)
  {
    forall k | 0 <= k < QID_TABLE_SIZE
      ensures Linked(rings, h, x)[hs.byQid[k]] == QidNodes(Bucket(active, k))
    {
      assert hs.byQid[k] in hs.byQid;
    }
  }

  lemma UnlinkedFromBucket(hs: Heads, rings: Rings<Query>, home: Homes<Query>, active: seq<Query>, q: Query)
    requires hs.Distinct() && rings.Keys == hs.Set() && Indexed(hs, rings, active)
    requires q.byQid in home && home[q.byQid] == hs.byQid[Slot(q)]
    requires NoDuplicates(active) && q.Threaded() && forall p :: p in active ==> p.Threaded()
    ensures Unlinked(rings, home, q.byQid).Keys == hs.Set()
    ensures Holds(hs, Unlinked(rings, home, q.byQid), active, Without(active, q))
  {
    var rings' := Unlinked(rings, home, q.byQid);
    assert hs.byQid[Slot(q)] in hs.byQid;
    forall k | 0 <= k < QID_TABLE_SIZE ensures rings'[hs.byQid[k]] == QidNodes(Bucket(Without(active, q), k)) {
      assert hs.byQid[k] in hs.byQid;
      BucketWithout(active, q, k);
      BucketMember(active, k, q);
      if k == Slot(q) {
        forall p | p in Bucket(active, k) ensures p.Threaded() {
          BucketMember(active, k, p);
        }
        QidNodesWithout(Bucket(active, k), q);
      } else {
        WithoutNothing(Bucket(active, k), q);
      }
    }
  }

  lemma UnlinkedFromAll(hs: Heads, rings: Rings<Query>, home: Homes<Query>, active: seq<Query>, q: Query)
    requires hs.Distinct() && rings.Keys == hs.Set() && Holds(hs, rings, active, Without(active, q))
    requires q.all in home && home[q.all] == hs.all
    requires q.Threaded() && forall p :: p in active ==> p.Threaded()
    ensures Unlinked(rings, home, q.all).Keys == hs.Set()
    ensures Indexed(hs, Unlinked(rings, home, q.all), Without(active, q))
  {
    AllNodesWithout(active, q);
    forall k | 0 <= k < QID_TABLE_SIZE
      ensures Unlinked(rings, home, q.all)[hs.byQid[k]] == QidNodes(Bucket(Without(active, q), k))
    {
      assert hs.byQid[k] in hs.byQid;
    }
  }

  // ----- the lists on the heap

  /** Where q is: its timeout decides its timeout bucket, if it is in one, and its server the list
      of a server, if it is in one. */
  ghost predicate Sited(hs: Heads, home: Homes<Query>, q: Query)
    requires hs.Distinct()
    reads q
  {
    && AtHome(hs, home, q)
    && (q.byTimeout in home ==> home[q.byTimeout] == hs.byTimeout[q.timeout % TIMEOUT_TABLE_SIZE])
    && q.server < |hs.toServer|
    && (q.toServer in home ==> home[q.toServer] == hs.toServer[q.server])
  }

  ghost predicate SitedAll(hs: Heads, home: Homes<Query>, active: seq<Query>, repr: set<object>)
    requires hs.Distinct()
    reads active
  {
    forall q :: q in active ==> q in repr && Sited(hs, home, q)
  }

  ghost predicate Loose(x: Node<Query>)
    reads x
  {
    x.next == null && x.prev == null
  }

  /** q's nodes point back to it, and those that are in no list are unlinked. */
  ghost predicate Wired(home: Homes<Query>, q: Query)
    reads q.Nodes()
  {
    && q.Threaded()
    && (q.byTimeout !in home ==> Loose(q.byTimeout))
    && (q.toServer !in home ==> Loose(q.toServer))
  }

  ghost predicate WiredAll(rings: Rings<Query>, home: Homes<Query>, active: seq<Query>, repr: set<object>)
    reads repr
  {
    forall p :: p in active ==> p.Nodes() <= repr && p.Nodes() !! rings.Keys && Wired(home, p)
  }

  /** Only nodes of active queries are in lists. */
  ghost predicate NoStrangers(home: Homes<Query>, active: seq<Query>)
    reads home.Keys
  {
    forall x :: x in home ==> x.data.Some? && x.data.value in active && x in x.data.value.Nodes()
  }

  ghost predicate Fixed(hs: Heads, rings: Rings<Query>, home: Homes<Query>, active: seq<Query>, repr: set<object>) {
    && hs.Distinct() && rings.Keys == hs.Set() && rings.Keys <= repr && home.Keys <= repr
    && NoDuplicates(active)
    && Indexed(hs, rings, active)
  }

  /** The requests of the queries are there to be compared with replies, and their ids are those
      that the queries are indexed by. */
  ghost predicate Requested(active: seq<Query>, repr: set<object>)
    reads set q | q in active :: q.tcpbuf
  {
    forall q :: q in active ==> q.tcpbuf !in repr && |q.Request()| >= HFIXEDSZ && q.qid == Get16(q.Request(), 0)
  }

  lemma RequestedWithout(active: seq<Query>, q: Query, repr: set<object>)
    requires NoDuplicates(active) && Requested(active, repr)
    ensures Requested(Without(active, q), repr)
  {
    forall p | p in Without(active, q) ensures p in active {
      WithoutMember(active, q, p);
    }
  }

  lemma RequestedAppend(active: seq<Query>, q: Query, repr: set<object>)
    requires Requested(active, repr)
    requires q.tcpbuf !in repr && |q.Request()| >= HFIXEDSZ && q.qid == Get16(q.Request(), 0)
    ensures Requested(active + [q], repr + {q} + q.Nodes())
  {
  }

  /** The invariant of the lists of a channel. */
  ghost predicate Kept(hs: Heads, rings: Rings<Query>, home: Homes<Query>, active: seq<Query>, repr: set<object>)
    reads active, repr
  {
    && Fixed(hs, rings, home, active, repr)
    && Forest(rings, home)
    && SitedAll(hs, home, active, repr)
    && WiredAll(rings, home, active, repr)
    && NoStrangers(home, active)
  }

  /** Link, seen from the queries: x is a node of one of them. */
  method LinkNode(x: Node<Query>, h: Node<Query>, ghost q: Query, ghost rings: Rings<Query>, ghost home: Homes<Query>,
                  ghost active: seq<Query>, ghost repr: set<object>)
    requires Forest(rings, home) && h in rings && x !in home && q in active && x in q.Nodes()
    requires WiredAll(rings, home, active, repr) && NoStrangers(home, active)
    requires rings.Keys <= repr && home.Keys <= repr
    modifies x, rings.Keys, home.Keys
    ensures Forest(Linked(rings, h, x), home[x := h])
    ensures WiredAll(Linked(rings, h, x), home[x := h], active, repr)
    ensures NoStrangers(home[x := h], active)
  {
    hide Forest;
    Link(x, h, rings, home);
    forall p | p in active ensures Wired(home[x := h], p) {
      assert old(Wired(home, p));
    }
  }

  // ----- sending

  ghost function SentHome(hs: Heads, home: Homes<Query>, q: Query): Homes<Query>
    requires hs.Distinct()
  {
    home[q.all := hs.all][q.byQid := hs.byQid[Slot(q)]]
  }

  lemma EnlistedFixed(hs: Heads, q: Query, rings: Rings<Query>, home: Homes<Query>, active: seq<Query>,
                      repr: set<object>, repr': set<object>)
    requires Fixed(hs, rings, home, active, repr) && q !in active && repr + {q} + q.Nodes() <= repr'
    ensures Fixed(hs, SentRings(hs, rings, q), SentHome(hs, home, q), active + [q], repr')
  {
    SentIndexed(hs, rings, active, q);
  }

  lemma EnlistedSited(hs: Heads, q: Query, home: Homes<Query>, active: seq<Query>, repr: set<object>,
                      repr': set<object>)
    requires hs.Distinct() && q.Nodes() !! home.Keys && SitedAll(hs, home, active, repr) && repr + {q} <= repr'
    requires forall p :: p in active ==> p.Nodes() !! q.Nodes()
    requires q.server < |hs.toServer| && q.all != q.byQid
    requires q.all != q.byTimeout && q.all != q.toServer && q.byQid != q.byTimeout && q.byQid != q.toServer
    ensures SitedAll(hs, SentHome(hs, home, q), active + [q], repr')
  {
    assert hs.byQid[Slot(q)] in hs.byQid;
    forall p | p in active ensures Sited(hs, SentHome(hs, home, q), p) {
      assert Sited(hs, home, p);
    }
  }

  /** A query in no list yet can be counted among the active ones. */
  lemma NewcomerApart(hs: Heads, q: Query, rings: Rings<Query>, home: Homes<Query>, active: seq<Query>,
                      repr: set<object>)
    requires hs.Distinct() && SitedAll(hs, home, active, repr) && WiredAll(rings, home, active, repr)
    requires q !in repr && q.Nodes() !! repr
    ensures q !in active && forall p :: p in active ==> p.Nodes() !! q.Nodes()
  {
  }

  lemma NewcomerWired(q: Query, rings: Rings<Query>, home: Homes<Query>, active: seq<Query>, repr: set<object>)
    requires WiredAll(rings, home, active, repr) && NoStrangers(home, active)
    requires q.Nodes() !! rings.Keys && q.Threaded() && Loose(q.byTimeout) && Loose(q.toServer)
    ensures WiredAll(rings, home, active + [q], repr + {q} + q.Nodes()) && NoStrangers(home, active + [q])
  {
  }

  /** Chains a query into the list of all queries and into the bucket of its id. */
  method PutIn(hs: Heads, q: Query, ghost rings: Rings<Query>, ghost home: Homes<Query>, ghost active: seq<Query>,
               ghost repr: set<object>)
    requires Forest(rings, home) && hs.Distinct() && rings.Keys == hs.Set() && q in active
    requires q.Nodes() !! home.Keys && q.all != q.byQid && q.Nodes() <= repr
    requires WiredAll(rings, home, active, repr) && NoStrangers(home, active)
    requires rings.Keys <= repr && home.Keys <= repr
    modifies rings.Keys, home.Keys, q.byQid, q.all
    ensures Forest(SentRings(hs, rings, q), SentHome(hs, home, q))
    ensures WiredAll(SentRings(hs, rings, q), SentHome(hs, home, q), active, repr)
    ensures NoStrangers(SentHome(hs, home, q), active)
  {
    hide Forest, WiredAll, NoStrangers;
    assert hs.byQid[Slot(q)] in hs.byQid;
    LinkNode(q.all, hs.all, q, rings, home, active, repr);
    LinkNode(q.byQid, hs.byQid[Slot(q)], q, Linked(rings, hs.all, q.all), home[q.all := hs.all], active, repr);
  }

  /** Puts a new query at the end of the list of all queries and of the bucket of its id. */
  method Enlist(hs: Heads, q: Query, ghost rings: Rings<Query>, ghost home: Homes<Query>, ghost active: seq<Query>,
                ghost repr: set<object>)
    requires Kept(hs, rings, home, active, repr) && q !in repr && q.Nodes() !! repr && q.server < |hs.toServer|
    requires q.Threaded() && Loose(q.byTimeout) && Loose(q.toServer)
    modifies rings.Keys, home.Keys, q.byQid, q.all
    ensures Kept(hs, SentRings(hs, rings, q), SentHome(hs, home, q), active + [q], repr + {q} + q.Nodes())
  {
    hide Forest, AtHome, SitedAll, WiredAll, NoStrangers, Indexed, SentRings, SentHome;
    ghost var repr', active' := repr + {q} + q.Nodes(), active + [q];
    NewcomerApart(hs, q, rings, home, active, repr);
    EnlistedFixed(hs, q, rings, home, active, repr, repr');
    NewcomerWired(q, rings, home, active, repr);
    PutIn(hs, q, rings, home, active', repr');
    EnlistedSited(hs, q, home, active, repr, repr');
  }

  // ----- freeing

  /** Unlink, seen from the queries: x is a node of one of them. */
  method UnlinkNode(x: Node<Query>, ghost q: Query, ghost rings: Rings<Query>, ghost home: Homes<Query>,
                    ghost active: seq<Query>, ghost repr: set<object>)
    requires Forest(rings, home) && q in active && x in q.Nodes() && (x !in home ==> Loose(x))
    requires WiredAll(rings, home, active, repr) && NoStrangers(home, active)
    requires rings.Keys <= repr && home.Keys <= repr
    modifies x, rings.Keys, home.Keys
    ensures Forest(Unlinked(rings, home, x), home - {x})
    ensures WiredAll(Unlinked(rings, home, x), home - {x}, active, repr)
    ensures NoStrangers(home - {x}, active)
    ensures Unlinked(rings, home, x).Keys == rings.Keys
  {
    hide Forest, Unlinked;
    UnlinkedKeys(rings, home, x);
    Unlink(x, rings, home);
    assert forall y: Node<Query> :: y in repr ==> y.data == old(y.data);
    forall p | p in active ensures Wired(home - {x}, p) {
      assert old(Wired(home, p));
    }
  }

  /** The lists without q, in the order in which ares__free_query takes it out. */
  ghost function ReleasedRings(rings: Rings<Query>, home: Homes<Query>, q: Query): Rings<Query> {
    var r1 := Unlinked(rings, home, q.byQid);
    var r2 := Unlinked(r1, home - {q.byQid}, q.byTimeout);
    var r3 := Unlinked(r2, home - {q.byQid} - {q.byTimeout}, q.toServer);
    Unlinked(r3, home - {q.byQid} - {q.byTimeout} - {q.toServer}, q.all)
  }

  ghost function ReleasedHome(home: Homes<Query>, q: Query): Homes<Query> {
    home - {q.byQid} - {q.byTimeout} - {q.toServer} - {q.all}
  }

  /** A list without the nodes of q. */
  ghost function WithoutNodes(s: seq<Node<Query>>, q: Query): seq<Node<Query>> {
    Without(Without(Without(Without(s, q.byQid), q.byTimeout), q.toServer), q.all)
  }

  /** Freeing q takes its nodes out of every list, and changes nothing else. */
  lemma ReleasedLists(q: Query, rings: Rings<Query>, home: Homes<Query>)
    requires Placed(rings, home) && forall g :: g in rings ==> NoDuplicates(rings[g])
    ensures ReleasedRings(rings, home, q).Keys == rings.Keys
    ensures forall h :: h in rings ==> ReleasedRings(rings, home, q)[h] == WithoutNodes(rings[h], q)
  {
    hide Without, Placed, Unlinked, NoDuplicates;
    var h1 := home - {q.byQid};
    var h2 := h1 - {q.byTimeout};
    UnlinkedEverywhere(rings, home, q.byQid);
    var r1 := Unlinked(rings, home, q.byQid);
    UnlinkedEverywhere(r1, h1, q.byTimeout);
    var r2 := Unlinked(r1, h1, q.byTimeout);
    UnlinkedEverywhere(r2, h2, q.toServer);
    var r3 := Unlinked(r2, h2, q.toServer);
    UnlinkedEverywhere(r3, h2 - {q.toServer}, q.all);
  }

  lemma ReleasedFixed(hs: Heads, q: Query, rings: Rings<Query>, home: Homes<Query>, active: seq<Query>,
                      repr: set<object>)
    requires Fixed(hs, rings, home, active, repr) && q in active
    requires SitedAll(hs, home, active, repr) && WiredAll(rings, home, active, repr)
    ensures Fixed(hs, ReleasedRings(rings, home, q), ReleasedHome(home, q), Without(active, q), repr)
  {
    hide Indexed, Holds, Unlinked;
    var h0 := home;
    var h1 := h0 - {q.byQid};
    var h2 := h1 - {q.byTimeout};
    var h3 := h2 - {q.toServer};
    assert Sited(hs, home, q) && Wired(home, q);
    UnlinkedFromBucket(hs, rings, home, active, q);
    var r1 := Unlinked(rings, h0, q.byQid);
    UnlinkedOther(hs, r1, h1, q.byTimeout, active, Without(active, q));
    var r2 := Unlinked(r1, h1, q.byTimeout);
    UnlinkedOther(hs, r2, h2, q.toServer, active, Without(active, q));
    var r3 := Unlinked(r2, h2, q.toServer);
    UnlinkedFromAll(hs, r3, h3, active, q);
    WithoutDuplicates(active, q);
  }

  /** p is in the lists that it was in. */
  ghost predicate StaysPut(home: Homes<Query>, home': Homes<Query>, p: Query) {
    forall x :: x in p.Nodes() ==> (x in home' <==> x in home) && (x in home ==> home'[x] == home[x])
  }

  lemma OwnPlaces(home: Homes<Query>, p: Query, q: Query)
    requires p.Nodes() !! q.Nodes()
    ensures StaysPut(home, ReleasedHome(home, q), p)
  {
    forall x | x in p.Nodes() ensures x !in q.Nodes() {
    }
  }

  /** Another query stays where it was. */
  lemma ReleasedSited(hs: Heads, q: Query, rings: Rings<Query>, home: Homes<Query>, active: seq<Query>,
                      repr: set<object>)
    requires Fixed(hs, rings, home, active, repr) && q in active && SitedAll(hs, home, active, repr)
    requires forall p :: p in active && p != q ==> p.Nodes() !! q.Nodes()
    ensures SitedAll(hs, ReleasedHome(home, q), Without(active, q), repr)
  {
    var home' := ReleasedHome(home, q);
    forall p: Query | p in Without(active, q) ensures p in repr && Sited(hs, home', p) {
      WithoutMember(active, q, p);
      assert Sited(hs, home, p);
      OwnPlaces(home, p, q);
    }
  }

  lemma NodesApart(q: Query, rings: Rings<Query>, home: Homes<Query>, active: seq<Query>, repr: set<object>)
    requires q in active && WiredAll(rings, home, active, repr)
    ensures forall p :: p in active && p != q ==> p.Nodes() !! q.Nodes()
  {
    assert Wired(home, q);
    forall p | p in active && p != q ensures p.Nodes() !! q.Nodes() {
      assert Wired(home, p);
    }
  }

  lemma UnlinkedAreLoose(q: Query, rings: Rings<Query>, home: Homes<Query>, active: seq<Query>, repr: set<object>)
    requires q in active && WiredAll(rings, home, active, repr)
    ensures q.byTimeout !in home ==> Loose(q.byTimeout)
    ensures q.toServer !in home ==> Loose(q.toServer)
  {
    assert Wired(home, q);
  }

  lemma ReleasedWired(q: Query, rings: Rings<Query>, home: Homes<Query>, active: seq<Query>, repr: set<object>)
    requires NoDuplicates(active) && q in active && q.Nodes() !! home.Keys
    requires WiredAll(rings, home, active, repr) && NoStrangers(home, active)
    ensures WiredAll(rings, home, Without(active, q), repr) && NoStrangers(home, Without(active, q))
  {
    forall p | p in Without(active, q) ensures p in active {
      WithoutMember(active, q, p);
    }
    forall x | x in home ensures x.data.value in Without(active, q) {
      WithoutMember(active, q, x.data.value);
    }
  }

  lemma OwnNodes(hs: Heads, q: Query, rings: Rings<Query>, home: Homes<Query>, active: seq<Query>, repr: set<object>)
    requires hs.Distinct() && q in active
    requires SitedAll(hs, home, active, repr) && WiredAll(rings, home, active, repr)
    ensures q in repr && q.Nodes() <= repr && q.Nodes() !! rings.Keys
    ensures q.all in home && q.byQid in home
    ensures forall x :: x in q.Nodes() && x !in home ==> Loose(x)
    ensures q.byQid != q.byTimeout && q.byQid != q.toServer && q.byQid != q.all
    ensures q.byTimeout != q.toServer && q.byTimeout != q.all && q.toServer != q.all
  {
    assert Sited(hs, home, q) && Wired(home, q);
  }

  /** The list part of ares__free_query: q leaves every list that it is in. */
  method TakeOut(q: Query, ghost rings: Rings<Query>, ghost home: Homes<Query>, ghost active: seq<Query>,
                 ghost repr: set<object>)
    requires Forest(rings, home) && q in active && q.all in home && q.byQid in home && q.all != q.byTimeout
    requires q.all != q.byQid && q.all != q.toServer
    requires WiredAll(rings, home, active, repr) && NoStrangers(home, active)
    requires rings.Keys <= repr && home.Keys <= repr
    modifies rings.Keys, home.Keys, q.Nodes()
    ensures Forest(ReleasedRings(rings, home, q), ReleasedHome(home, q))
    ensures WiredAll(ReleasedRings(rings, home, q), ReleasedHome(home, q), active, repr)
    ensures NoStrangers(ReleasedHome(home, q), active)
    ensures ReleasedRings(rings, home, q).Keys == rings.Keys
  {
    hide Forest, WiredAll, NoStrangers, Unlinked;
    UnlinkNode(q.byQid, q, rings, home, active, repr);
    ghost var r1, h1 := Unlinked(rings, home, q.byQid), home - {q.byQid};
    UnlinkedAreLoose(q, r1, h1, active, repr);
    UnlinkNode(q.byTimeout, q, r1, h1, active, repr);
    ghost var r2, h2 := Unlinked(r1, h1, q.byTimeout), h1 - {q.byTimeout};
    UnlinkedAreLoose(q, r2, h2, active, repr);
    UnlinkNode(q.toServer, q, r2, h2, active, repr);
    ghost var r3, h3 := Unlinked(r2, h2, q.toServer), h2 - {q.toServer};
    UnlinkNode(q.all, q, r3, h3, active, repr);
  }

  method Release(hs: Heads, q: Query, ghost rings: Rings<Query>, ghost home: Homes<Query>, ghost active: seq<Query>,
                 ghost repr: set<object>)
    requires Kept(hs, rings, home, active, repr) && q in active
    modifies rings.Keys, home.Keys, q.Nodes()
    ensures Kept(hs, ReleasedRings(rings, home, q), ReleasedHome(home, q), Without(active, q), repr)
    ensures home.Keys - q.Nodes() == ReleasedHome(home, q).Keys
  {
    hide Forest, AtHome, SitedAll, WiredAll, NoStrangers, Indexed, ReleasedRings;
    OwnNodes(hs, q, rings, home, active, repr);
    ReleasedFixed(hs, q, rings, home, active, repr);
    NodesApart(q, rings, home, active, repr);
    TakeOut(q, rings, home, active, repr);
    ReleasedWired(q, ReleasedRings(rings, home, q), ReleasedHome(home, q), active, repr);
    ReleasedSited(hs, q, rings, home, active, repr);
  }

  // ----- rescheduling

  /** The lists after ares__send_query has moved q to the end of the bucket of its new timeout
      and to the end of the list of its server. */
  ghost function RescheduledRings(hs: Heads, rings: Rings<Query>, home: Homes<Query>, q: Query, sec: nat,
                                  server: nat): Rings<Query>
    requires hs.Distinct() && rings.Keys == hs.Set() && server < |hs.toServer|
  {
    var t, s := hs.byTimeout[sec % TIMEOUT_TABLE_SIZE], hs.toServer[server];
    assert t in hs.byTimeout && s in hs.toServer;
    var r1 := Unlinked(rings, home, q.byTimeout);
    var r2 := Linked(r1, t, q.byTimeout);
    var r3 := Unlinked(r2, (home - {q.byTimeout})[q.byTimeout := t], q.toServer);
    Linked(r3, s, q.toServer)
  }

  ghost function RescheduledHome(hs: Heads, home: Homes<Query>, q: Query, sec: nat, server: nat): Homes<Query>
    requires hs.Distinct() && server < |hs.toServer|
  {
    var t, s := hs.byTimeout[sec % TIMEOUT_TABLE_SIZE], hs.toServer[server];
    ((home - {q.byTimeout})[q.byTimeout := t] - {q.toServer})[q.toServer := s]
  }

  /** Every query is where it should be, except that q's timeout may have changed. */
  ghost predicate SitedBut(hs: Heads, home: Homes<Query>, active: seq<Query>, repr: set<object>, q: Query)
    requires hs.Distinct()
    reads active
  {
    forall p :: p in active ==> p in repr && (p != q ==> Sited(hs, home, p))
  }

  lemma MovedPlaces(hs: Heads, home: Homes<Query>, p: Query, q: Query, sec: nat)
    requires hs.Distinct() && q.server < |hs.toServer| && p.Nodes() !! q.Nodes()
    ensures StaysPut(home, RescheduledHome(hs, home, q, sec, q.server), p)
  {
    forall x | x in p.Nodes() ensures x !in q.Nodes() {
    }
  }

  lemma RescheduledSited(hs: Heads, q: Query, home: Homes<Query>, active: seq<Query>, repr: set<object>)
    requires hs.Distinct() && q in active && SitedBut(hs, home, active, repr, q)
    requires AtHome(hs, home, q) && q.server < |hs.toServer| && q.Threaded()
    requires forall p :: p in active && p != q ==> p.Nodes() !! q.Nodes()
    ensures SitedAll(hs, RescheduledHome(hs, home, q, q.timeout, q.server), active, repr)
  {
    var home' := RescheduledHome(hs, home, q, q.timeout, q.server);
    assert hs.toServer[q.server] in hs.toServer && hs.byTimeout[q.timeout % TIMEOUT_TABLE_SIZE] in hs.byTimeout;
    forall p | p in active ensures Sited(hs, home', p) {
      if p != q {
        assert Sited(hs, home, p);
        MovedPlaces(hs, home, p, q, q.timeout);
      }
    }
  }

  lemma RescheduledFixed(hs: Heads, q: Query, sec: nat, rings: Rings<Query>, home: Homes<Query>, active: seq<Query>,
                         repr: set<object>)
    requires Fixed(hs, rings, home, active, repr) && q in active && q.byTimeout != q.toServer
    requires AtHome(hs, home, q) && q.Nodes() <= repr && q.server < |hs.toServer|
    ensures Fixed(hs, RescheduledRings(hs, rings, home, q, sec, q.server),
                  RescheduledHome(hs, home, q, sec, q.server), active, repr)
  {
    hide Holds, Unlinked, Linked;
    var t, s := hs.byTimeout[sec % TIMEOUT_TABLE_SIZE], hs.toServer[q.server];
    assert t in hs.byTimeout && s in hs.toServer;
    UnlinkedOther(hs, rings, home, q.byTimeout, active, active);
    var r1 := Unlinked(rings, home, q.byTimeout);
    LinkedOther(hs, r1, t, q.byTimeout, active);
    var r2, h2 := Linked(r1, t, q.byTimeout), (home - {q.byTimeout})[q.byTimeout := t];
    UnlinkedOther(hs, r2, h2, q.toServer, active, active);
    var r3 := Unlinked(r2, h2, q.toServer);
    LinkedOther(hs, r3, s, q.toServer, active);
  }

  /** What becomes of the list s of h. */
  ghost function RescheduledList(hs: Heads, s: seq<Node<Query>>, h: Node<Query>, q: Query, sec: nat,
                                 server: nat): seq<Node<Query>>
    requires hs.Distinct() && server < |hs.toServer|
  {
    var others := Without(Without(s, q.byTimeout), q.toServer);
    if h == hs.byTimeout[sec % TIMEOUT_TABLE_SIZE] then others + [q.byTimeout]
    else if h == hs.toServer[server] then others + [q.toServer]
    else others
  }

  /** Rescheduling takes q's two nodes out of wherever they are, and appends them to the bucket
      of the new timeout and to the list of the server; no list changes otherwise. */
  lemma RescheduledLists(hs: Heads, q: Query, sec: nat, server: nat, rings: Rings<Query>, home: Homes<Query>,
                         h: Node<Query>)
    requires hs.Distinct() && rings.Keys == hs.Set() && server < |hs.toServer| && h in rings
    requires Placed(rings, home) && (forall g :: g in rings ==> NoDuplicates(rings[g]))
    requires q.byTimeout != q.toServer && q.Nodes() !! rings.Keys
    requires q.toServer in home ==> home[q.toServer] in hs.toServer
    ensures RescheduledRings(hs, rings, home, q, sec, server).Keys == hs.Set()
    ensures RescheduledRings(hs, rings, home, q, sec, server)[h] == RescheduledList(hs, rings[h], h, q, sec, server)
  {
    hide Without, Placed, Linked, Unlinked, NoDuplicates;
    var t, s := hs.byTimeout[sec % TIMEOUT_TABLE_SIZE], hs.toServer[server];
    assert t in hs.byTimeout && s in hs.toServer;
    MovedAt(rings, home, q.byTimeout, t, h);
    var r2, h2 := Linked(Unlinked(rings, home, q.byTimeout), t, q.byTimeout), (home - {q.byTimeout})[q.byTimeout := t];
    if q.toServer in home {
      MovedAt(rings, home, q.byTimeout, t, home[q.toServer]);
      WithoutDuplicates(rings[home[q.toServer]], q.byTimeout);
    }
    MovedAt(r2, h2, q.toServer, s, h);
    WithoutSnoc(Without(rings[h], q.byTimeout), q.toServer, q.byTimeout);
  }

  lemma MovedNodes(hs: Heads, q: Query, rings: Rings<Query>, home: Homes<Query>, active: seq<Query>, repr: set<object>)
    requires hs.Distinct() && q in active && SitedAll(hs, home, active, repr) && WiredAll(rings, home, active, repr)
    ensures SitedBut(hs, home, active, repr, q) && AtHome(hs, home, q) && q.server < |hs.toServer|
    ensures q.Threaded() && q in repr && q.Nodes() <= repr
  {
    assert Sited(hs, home, q) && Wired(home, q);
  }

  method MoveNodes(hs: Heads, q: Query, sec: nat, server: nat, ghost rings: Rings<Query>, ghost home: Homes<Query>,
                   ghost active: seq<Query>, ghost repr: set<object>)
    requires Forest(rings, home) && q in active && hs.Distinct() && rings.Keys == hs.Set() && server < |hs.toServer|
    requires WiredAll(rings, home, active, repr) && NoStrangers(home, active)
    requires rings.Keys <= repr && home.Keys <= repr && q.Nodes() <= repr
    modifies rings.Keys, home.Keys, q.Nodes()
    ensures Forest(RescheduledRings(hs, rings, home, q, sec, server), RescheduledHome(hs, home, q, sec, server))
    ensures WiredAll(RescheduledRings(hs, rings, home, q, sec, server), RescheduledHome(hs, home, q, sec, server),
                     active, repr)
    ensures NoStrangers(RescheduledHome(hs, home, q, sec, server), active)
  {
    hide Forest, WiredAll, NoStrangers, Unlinked;
    ghost var t, s := hs.byTimeout[sec % TIMEOUT_TABLE_SIZE], hs.toServer[server];
    assert t in hs.byTimeout && s in hs.toServer;
    UnlinkedAreLoose(q, rings, home, active, repr);
    UnlinkNode(q.byTimeout, q, rings, home, active, repr);
    ghost var r1, h1 := Unlinked(rings, home, q.byTimeout), home - {q.byTimeout};
    LinkNode(q.byTimeout, hs.byTimeout[sec % TIMEOUT_TABLE_SIZE], q, r1, h1, active, repr);
    ghost var r2, h2 := Linked(r1, t, q.byTimeout), h1[q.byTimeout := t];
    UnlinkedAreLoose(q, r2, h2, active, repr);
    UnlinkNode(q.toServer, q, r2, h2, active, repr);
    ghost var r3, h3 := Unlinked(r2, h2, q.toServer), h2 - {q.toServer};
    LinkNode(q.toServer, hs.toServer[server], q, r3, h3, active, repr);
  }

  method SetTimeout(hs: Heads, q: Query, sec: nat, ghost rings: Rings<Query>, ghost home: Homes<Query>,
                    ghost active: seq<Query>, ghost repr: set<object>)
    requires hs.Distinct() && SitedBut(hs, home, active, repr, q) && WiredAll(rings, home, active, repr)
    modifies q`timeout
    ensures q.timeout == sec && SitedBut(hs, home, active, repr, q) && WiredAll(rings, home, active, repr)
  {
    q.timeout := sec;
    forall p | p in active ensures Wired(home, p) {
      assert old(Wired(home, p));
    }
    forall p | p in active && p != q ensures Sited(hs, home, p) {
      assert old(Sited(hs, home, p));
    }
  }

  lemma MovedThreaded(hs: Heads, q: Query, sec: nat, rings: Rings<Query>, home: Homes<Query>, active: seq<Query>,
                      repr: set<object>)
    requires q in active && hs.Distinct() && rings.Keys == hs.Set() && q.server < |hs.toServer|
    requires WiredAll(RescheduledRings(hs, rings, home, q, sec, q.server),
                      RescheduledHome(hs, home, q, sec, q.server), active, repr)
    ensures q.Threaded()
  {
    assert Wired(RescheduledHome(hs, home, q, sec, q.server), q);
  }

  /** The list part of ares__send_query. */
  method Reschedule(hs: Heads, q: Query, sec: nat, ghost rings: Rings<Query>, ghost home: Homes<Query>,
                    ghost active: seq<Query>, ghost repr: set<object>)
    requires Kept(hs, rings, home, active, repr) && q in active
    modifies rings.Keys, home.Keys, q.Nodes(), q`timeout
    ensures q.timeout == sec && q.server < |hs.toServer|
    ensures Kept(hs, RescheduledRings(hs, rings, home, q, sec, q.server),
                 RescheduledHome(hs, home, q, sec, q.server), active, repr)
  {
    hide Forest, AtHome, SitedAll, WiredAll, NoStrangers, Indexed, RescheduledRings, RescheduledHome, SitedBut;
    MovedNodes(hs, q, rings, home, active, repr);
    RescheduledFixed(hs, q, sec, rings, home, active, repr);
    NodesApart(q, rings, home, active, repr);
    SetTimeout(hs, q, sec, rings, home, active, repr);
    MoveNodes(hs, q, sec, q.server, rings, home, active, repr);
    MovedThreaded(hs, q, sec, rings, home, active, repr);
    RescheduledSited(hs, q, home, active, repr);
  }

  // ----- the channel

  /** One call of a query's callback. */
  datatype Call = Call(callback: nat, arg: nat, status: Status, timeouts: nat)

  /** Where the links of a ring lead from its head and from its i-th node. */
  lemma RingLinks(head: Node<Query>, s: seq<Node<Query>>, i: nat)
    requires Ring(head, s) && i <= |s|
    ensures head.next == if s == [] then head else s[0]
    ensures i < |s| ==> s[i] != head && s[i].next == if i + 1 < |s| then s[i + 1] else head
  {
    assert i < |s| ==> s[i] in s;
  }

  lemma BucketRing(hs: Heads, rings: Rings<Query>, home: Homes<Query>, active: seq<Query>, repr: set<object>, k: nat)
    requires Kept(hs, rings, home, active, repr) && k < QID_TABLE_SIZE
    ensures Ring(hs.byQid[k], QidNodes(Bucket(active, k)))
    ensures forall q :: q in active ==> q.Threaded()
  {
    hide Ring, QidNodes, Bucket;
    assert hs.byQid[k] in hs.byQid;
    forall q | q in active ensures q.Threaded() {
      assert Wired(home, q);
    }
  }

  lemma QidNodesLength(qs: seq<Query>)
    ensures |QidNodes(qs)| == |qs|
  {
  }

  lemma KeptRepr(hs: Heads, rings: Rings<Query>, home: Homes<Query>, active: seq<Query>, repr: set<object>)
    requires Kept(hs, rings, home, active, repr)
    ensures rings.Keys <= repr && home.Keys <= repr
    ensures hs.Distinct() && rings.Keys == hs.Set()
    ensures NoDuplicates(active) && forall q :: q in active ==> q in repr && q.Nodes() <= repr
  {
  }

  /** A node is in one list at most, and there only once. */
  lemma KeptPlaces(hs: Heads, rings: Rings<Query>, home: Homes<Query>, active: seq<Query>, repr: set<object>)
    requires Kept(hs, rings, home, active, repr)
    ensures Placed(rings, home) && forall h :: h in rings ==> NoDuplicates(rings[h])
  {
    hide Placed, NoDuplicates, Ring, SitedAll, WiredAll, NoStrangers, Fixed;
    forall h | h in rings ensures NoDuplicates(rings[h]) {
      RingMembers(h, rings[h]);
    }
  }

  lemma KeptOwn(hs: Heads, rings: Rings<Query>, home: Homes<Query>, active: seq<Query>, repr: set<object>, q: Query)
    requires Kept(hs, rings, home, active, repr) && q in active
    ensures hs.Distinct() && rings.Keys == hs.Set() && q.server < |hs.toServer|
    ensures q.byTimeout != q.toServer && q.Nodes() !! rings.Keys
    ensures q.toServer in home ==> home[q.toServer] in hs.toServer
  {
    hide Forest, NoStrangers, Holds, Indexed;
    OwnNodes(hs, q, rings, home, active, repr);
    MovedNodes(hs, q, rings, home, active, repr);
  }

  lemma KeptSited(hs: Heads, rings: Rings<Query>, home: Homes<Query>, active: seq<Query>, repr: set<object>, q: Query)
    requires Kept(hs, rings, home, active, repr) && q in active
    ensures hs.Distinct() && Sited(hs, home, q)
  {
    hide Forest, WiredAll, NoStrangers, Indexed, Sited;
  }

  lemma KeptThreaded(hs: Heads, rings: Rings<Query>, home: Homes<Query>, active: seq<Query>, repr: set<object>,
                     q: Query)
    requires Kept(hs, rings, home, active, repr) && q in active
    ensures q.Threaded()
  {
    hide Forest, SitedAll, NoStrangers, Fixed, Query.Threaded;
    assert Wired(home, q);
  }

  lemma InPlace(hs: Heads, rings: Rings<Query>, home: Homes<Query>, q: Query)
    requires hs.Distinct() && AtHome(hs, home, q) && Placed(rings, home) && q.Threaded()
    ensures q.all in home && home[q.all] == hs.all
    ensures q.byQid in home && home[q.byQid] == hs.byQid[q.qid % 2048]
    ensures forall x :: x in q.Nodes() ==> x.data == Some(q)
    ensures forall x :: x in q.Nodes() && x in home ==> home[x] in rings && x in rings[home[x]]
  {
  }

  /** Different queries have different nodes. */
  lemma KeptApart(hs: Heads, rings: Rings<Query>, home: Homes<Query>, active: seq<Query>, repr: set<object>,
                  p: Query, q: Query)
    requires Kept(hs, rings, home, active, repr) && p in active && q in active && p != q
    ensures p.Nodes() !! q.Nodes()
  {
    hide Forest, SitedAll, NoStrangers, Fixed, Query.Nodes, WiredAll;
    NodesApart(q, rings, home, active, repr);
  }

  /** Freeing q leaves the other queries in their lists. */
  lemma OthersStayPut(hs: Heads, rings: Rings<Query>, home: Homes<Query>, active: seq<Query>, repr: set<object>,
                      q: Query)
    requires Kept(hs, rings, home, active, repr) && q in active
    ensures forall p :: p in active && p != q ==> StaysPut(home, ReleasedHome(home, q), p)
  {
    hide Kept, Query.Nodes;
    forall p | p in active && p != q ensures StaysPut(home, ReleasedHome(home, q), p) {
      KeptApart(hs, rings, home, active, repr, p, q);
      OwnPlaces(home, p, q);
    }
  }

  /** Rescheduling q, seen from every list and from the other queries. */
  lemma AllRescheduled(hs: Heads, q: Query, sec: nat, rings: Rings<Query>, home: Homes<Query>, active: seq<Query>,
                       repr: set<object>)
    requires Kept(hs, rings, home, active, repr) && q in active
    ensures hs.Distinct() && rings.Keys == hs.Set() && q.server < |hs.toServer|
    ensures var rings' := RescheduledRings(hs, rings, home, q, sec, q.server);
            rings'.Keys == rings.Keys &&
            forall h :: h in rings ==> rings'[h] == RescheduledList(hs, rings[h], h, q, sec, q.server)
    ensures forall p :: p in active && p != q ==> StaysPut(home, RescheduledHome(hs, home, q, sec, q.server), p)
  {
    hide Kept, Query.Nodes, Placed, NoDuplicates, RescheduledRings, RescheduledList;
    KeptPlaces(hs, rings, home, active, repr);
    KeptOwn(hs, rings, home, active, repr, q);
    RescheduledLists(hs, q, sec, q.server, rings, home, hs.all);
    forall h | h in rings
      ensures RescheduledRings(hs, rings, home, q, sec, q.server)[h] ==
                RescheduledList(hs, rings[h], h, q, sec, q.server)
    {
      RescheduledLists(hs, q, sec, q.server, rings, home, h);
    }
    forall p | p in active && p != q ensures StaysPut(home, RescheduledHome(hs, home, q, sec, q.server), p) {
      KeptApart(hs, rings, home, active, repr, p, q);
      MovedPlaces(hs, home, p, q, sec);
    }
  }

  /** Following the links of slot k visits the bucket in order and ends at its head. */
  lemma BucketLinks(hs: Heads, rings: Rings<Query>, home: Homes<Query>, active: seq<Query>, repr: set<object>, k: nat,
                    i: nat)
    requires Kept(hs, rings, home, active, repr) && k < QID_TABLE_SIZE && i <= |Bucket(active, k)|
    ensures var bucket, head := Bucket(active, k), hs.byQid[k];
            && (i == 0 ==> head.next == if bucket == [] then head else bucket[0].byQid)
            && (i < |bucket| ==> bucket[i].byQid != head)
            && (i < |bucket| ==> bucket[i].byQid.data == Some(bucket[i]))
            && (i < |bucket| ==> bucket[i].byQid.next == if i + 1 < |bucket| then bucket[i + 1].byQid else head)
  {
    hide Kept, Ring, Bucket, QidNodes;
    KeptRepr(hs, rings, home, active, repr);
    BucketRing(hs, rings, home, active, repr, k);
    var bucket := Bucket(active, k);
    QidNodesLength(bucket);
    RingLinks(hs.byQid[k], QidNodes(bucket), i);
    if i < |bucket| {
      BucketMember(active, k, bucket[i]);
      QidNodesIndex(bucket, i);
      QidNodesIndex(bucket, 0);
      if i + 1 < |bucket| {
        QidNodesIndex(bucket, i + 1);
      }
    }
  }

  /** The first node of the list of all queries, and the node after it. */
  lemma AllLinks(hs: Heads, rings: Rings<Query>, home: Homes<Query>, active: seq<Query>, repr: set<object>)
    requires Kept(hs, rings, home, active, repr)
    ensures hs.all.next == if active == [] then hs.all else active[0].all
    ensures active != [] ==>
              active[0].all != hs.all && active[0].all.data == Some(active[0])
              && active[0].all.next == if |active| > 1 then active[1].all else hs.all
  {
    var s := AllNodes(active);
    assert Ring(hs.all, s);
    if active != [] {
      assert Wired(home, active[0]);
      AllNodesIndex(active, 0);
      assert s[0] in s;
      if |active| > 1 {
        AllNodesIndex(active, 1);
      }
    }
  }

  /** Without queries all lists are empty. */
  lemma EmptyLists(hs: Heads, rings: Rings<Query>, home: Homes<Query>, repr: set<object>)
    requires Kept(hs, rings, home, [], repr)
    ensures forall h :: h in hs.Set() ==> h.next == h && h.prev == h
  {
    forall h | h in hs.Set() ensures h.next == h && h.prev == h {
      assert rings[h] != [] ==> rings[h][0] in rings[h];
      assert forall x :: x in rings[h] ==> x in home;
      assert Ring(h, rings[h]);
    }
  }

  lemma FirstAmongStep(qs: seq<Query>, i: nat, id: nat, candidates: set<Query>)
    requires i <= |qs|
    ensures FirstAmong(qs[i..], id, candidates) ==
              if i == |qs| then None
              else if qs[i].qid == id && qs[i] in candidates then Some(qs[i])
              else FirstAmong(qs[i + 1..], id, candidates)
  {
    if i < |qs| {
      assert qs[i..][1..] == qs[i + 1..];
    }
  }

  function Cancellations(qs: seq<Query>): seq<Call> {
    if qs == [] then [] else [Call(qs[0].callback, qs[0].arg, ECANCELLED, 0)] + Cancellations(qs[1..])
  }

  /** The calls that cancelling makes: one for every query, in order. */
  lemma {:induction false} CancellationsAt(qs: seq<Query>, i: nat)
    requires i < |qs|
    ensures |Cancellations(qs)| == |qs| && Cancellations(qs)[i] == Call(qs[i].callback, qs[i].arg, ECANCELLED, 0)
  {
    if |qs| > 1 {
      CancellationsAt(qs[1..], if i == 0 then 0 else i - 1);
    }
  }

  lemma NoCancellations()
    ensures Cancellations([]) == []
  {
  }

  lemma FirstCancelled(calls: seq<Call>, qs: seq<Query>)
    requires qs != []
    ensures Without(qs, qs[0]) == qs[1..]
    ensures var first := Call(qs[0].callback, qs[0].arg, ECANCELLED, 0);
            calls + [first] + Cancellations(qs[1..]) == calls + Cancellations(qs)
  {
  }

  /** The id that find_query_by_id looks for: it is stored high byte first and read back in the
      byte order of the host. */
  function HostOrder(id: nat, littleEndian: bool): nat {
    if littleEndian then id % 256 * 256 + id / 256 % 256 else id % 0x1_0000
  }

  lemma Exchanged(hi: nat, lo: nat)
    requires hi < 256 && lo < 256
    ensures (lo * 256 + hi) / 256 == lo && (lo * 256 + hi) % 256 == hi && lo * 256 + hi < 0x1_0000
  {
  }

  lemma HostOrderOf(hi: nat, lo: nat, littleEndian: bool)
    requires hi < 256 && lo < 256
    ensures HostOrder(hi * 256 + lo, littleEndian) == if littleEndian then lo * 256 + hi else hi * 256 + lo
  {
    Exchanged(lo, hi);
  }

  /** The search for an id that is about to be used looks at that id only on hosts that store the
      high byte first, or when both bytes are equal. */
  lemma SearchedId(id: nat, littleEndian: bool)
    requires id < 0x1_0000
    ensures HostOrder(id, littleEndian) == id <==> !littleEndian || id % 256 == id / 256
    ensures HostOrder(id, littleEndian) < 0x1_0000
    ensures HostOrder(HostOrder(id, littleEndian), littleEndian) == id
  {
    hide HostOrder;
    var hi, lo := id / 256, id % 256;
    assert hi < 256 && id == hi * 256 + lo;
    HostOrderOf(hi, lo, littleEndian);
    HostOrderOf(lo, hi, littleEndian);
  }

  ghost function NoRings(hs: Heads): Rings<Query> {
    map h | h in hs.Set() :: []
  }

  lemma NothingIndexed(hs: Heads, rings: Rings<Query>)
    requires hs.Distinct() && rings.Keys == hs.Set() && forall h :: h in rings ==> rings[h] == []
    ensures Indexed(hs, rings, [])
  {
    forall k | 0 <= k < QID_TABLE_SIZE ensures rings[hs.byQid[k]] == QidNodes(Bucket([], k)) {
      assert hs.byQid[k] in hs.byQid;
    }
  }

  lemma EmptyKept(hs: Heads)
    requires hs.Distinct() && forall h :: h in hs.Set() ==> Ring(h, [])
    ensures Kept(hs, NoRings(hs), map[], [], hs.Set())
  {
    NothingIndexed(hs, NoRings(hs));
  }

  method MakeHeads(n: nat) returns (heads: seq<Node<Query>>)
    ensures |heads| == n && NoDuplicates(heads)
    ensures forall h :: h in heads ==> fresh(h) && Ring(h, [])
  {
    heads := [];
    for i := 0 to n
      invariant |heads| == i && NoDuplicates(heads)
      invariant forall h :: h in heads ==> fresh(h) && Ring(h, [])
    {
      var h := new Node();
      InitListHead(h);
      heads := heads + [h];
    }
  }

  method MakeAllHeads(nservers: nat) returns (hs: Heads)
    requires nservers > 0
    ensures hs.Distinct() && |hs.toServer| == nservers
    ensures forall h :: h in hs.Set() ==> fresh(h) && Ring(h, [])
  {
    hide Ring;
    var all := MakeHeads(1);
    var byQid := MakeHeads(QID_TABLE_SIZE);
    var byTimeout := MakeHeads(TIMEOUT_TABLE_SIZE);
    var toServer := MakeHeads(nservers);
    assert all[0] in all;
    hs := Heads(all[0], byQid, byTimeout, toServer);
  }

  /** The request as it goes out over TCP: its length in two bytes, then the request. */
  method FrameForTcp(qbuf: seq<byte>) returns (tcpbuf: array<byte>)
    ensures fresh(tcpbuf) && tcpbuf[..] == [|qbuf| / 256 % 256, |qbuf| % 256] + qbuf
  {
    tcpbuf := new byte[|qbuf| + 2];
    tcpbuf[0], tcpbuf[1] := |qbuf| / 256 % 256, |qbuf| % 256;
    for i := 0 to |qbuf|
      invariant tcpbuf[..i + 2] == [|qbuf| / 256 % 256, |qbuf| % 256] + qbuf[..i]
    {
      tcpbuf[i + 2] := qbuf[i];
    }
    assert tcpbuf[..] == tcpbuf[..|qbuf| + 2];
  }

  /** The part of ares_send that allocates the query and fills it in. */
  method NewQuery(qbuf: seq<byte>, callback: nat, arg: nat, server: nat, useVC: bool) returns (q: Query)
    requires HFIXEDSZ <= |qbuf| < 0x1_0000
    ensures fresh(q) && fresh(q.Nodes()) && fresh(q.tcpbuf) && q.Threaded() && Loose(q.byTimeout) && Loose(q.toServer)
    ensures q.qid == Get16(qbuf, 0) && q.callback == callback && q.arg == arg
    ensures q.tcpbuf[..] == [|qbuf| / 256, |qbuf| % 256] + qbuf && q.Request() == qbuf
    ensures q.server == server && q.usingTcp == (useVC || |qbuf| > PACKETSZ)
    ensures q.tryCount == 0 && q.timeouts == 0 && q.errorStatus == ECONNREFUSED
  {
    var tcpbuf := FrameForTcp(qbuf);
    q := new Query(Get16(qbuf, 0), tcpbuf, callback, arg, server, useVC || |qbuf| > PACKETSZ);
  }

  class Channel {
    const heads: Heads
    const nservers: nat
    const useVC: bool
    const rotate: bool
    var lastServer: nat

    /** The callbacks made so far, in order. */
    var calls: seq<Call>

    /** The queries in progress, in the order in which they were sent. */
    ghost var active: seq<Query>
    ghost var rings: Rings<Query>
    ghost var home: Homes<Query>
    ghost var Repr: set<object>

    ghost predicate Valid()
      reads this, active, Repr, set q | q in active :: q.tcpbuf
    {
      && this !in Repr
      && Kept(heads, rings, home, active, Repr)
      && Requested(active, Repr)
      && nservers == |heads.toServer| && lastServer < nservers
    }

    /** The lists of a new channel are empty. */
    constructor (nservers: nat, useVC: bool, rotate: bool)
      requires nservers > 0
      ensures Valid() && fresh(Repr)
      ensures this.nservers == nservers && this.useVC == useVC && this.rotate == rotate
      ensures lastServer == 0 && active == [] && calls == []
    {
      hide Kept;
      var hs := MakeAllHeads(nservers);
      heads, this.nservers, this.useVC, this.rotate := hs, nservers, useVC, rotate;
      lastServer, calls, active := 0, [], [];
      rings, home, Repr := NoRings(hs), map[], hs.Set();
      new;
      EmptyKept(heads);
    }

    /** Calls a callback that starts no new query. */
    method Notify(callback: nat, arg: nat, status: Status, timeouts: nat)
      requires Valid()
      modifies this`calls
      ensures Valid() && calls == old(calls) + [Call(callback, arg, status, timeouts)]
    {
      hide Kept;
      calls := calls + [Call(callback, arg, status, timeouts)];
    }

    /** The server for the next query; with rotation, the one after it is next in turn. */
    method NextServer() returns (server: nat)
      requires Valid()
      modifies this`lastServer
      ensures Valid() && nservers > 0 && server == old(lastServer) < nservers
      ensures lastServer == if rotate then (old(lastServer) + 1) % nservers else old(lastServer)
    {
      hide Kept;
      KeptRepr(heads, rings, home, active, Repr);
      server := lastServer;
      if rotate {
        lastServer := (lastServer + 1) % nservers;
      }
    }

    /** Where a query in progress is to be found. */
    lemma Places(q: Query)
      requires Valid() && q in active
      ensures |heads.byQid| == 2048 && |heads.byTimeout| == 1024 && |heads.toServer| == nservers && q.server < nservers
      ensures q.all in home && home[q.all] == heads.all
      ensures q.byQid in home && home[q.byQid] == heads.byQid[q.qid % 2048]
      ensures q.byTimeout in home ==> home[q.byTimeout] == heads.byTimeout[q.timeout % 1024]
      ensures q.toServer in home ==> home[q.toServer] == heads.toServer[q.server]
      ensures |q.Request()| >= 12 && q.qid == q.Request()[0] as int * 256 + q.Request()[1] as int
      ensures forall x :: x in q.Nodes() ==> x.data == Some(q)
      ensures forall x :: x in q.Nodes() && x in home ==> home[x] in rings && x in rings[home[x]]
    {
      hide Kept, Placed, Query.Threaded, AtHome;
      KeptSited(heads, rings, home, active, Repr, q);
      KeptThreaded(heads, rings, home, active, Repr, q);
      KeptPlaces(heads, rings, home, active, Repr);
      InPlace(heads, rings, home, q);
    }

    /** Takes on lists and queries that keep the invariant. */
    ghost method Become(rings: Rings<Query>, home: Homes<Query>, active: seq<Query>, repr: set<object>)
      requires this !in repr && Kept(heads, rings, home, active, repr) && Requested(active, repr)
      requires nservers == |heads.toServer| && lastServer < nservers
      modifies this`rings, this`home, this`active, this`Repr
      ensures Valid() && this.rings == rings && this.home == home && this.active == active && Repr == repr
    {
      hide Kept, Requested;
      this.rings, this.home, this.active, this.Repr := rings, home, active, repr;
    }

    /** Chains a new query into the lists of the channel. */
    method Admit(q: Query)
      requires Valid() && q !in Repr && q.Nodes() !! Repr && q.server < nservers
      requires q.Threaded() && Loose(q.byTimeout) && Loose(q.toServer)
      requires q.tcpbuf !in Repr && |q.Request()| >= HFIXEDSZ && q.qid == Get16(q.Request(), 0)
      modifies this`active, this`rings, this`home, this`Repr, Repr, q.byQid, q.all
      ensures Valid() && active == old(active) + [q] && Repr == old(Repr) + {q} + q.Nodes()
      ensures rings == SentRings(heads, old(rings), q) && home == SentHome(heads, old(home), q)
      ensures unchanged(q) && forall p :: p in old(active) ==> unchanged(p)
      ensures calls == old(calls) && lastServer == old(lastServer)
    {
      hide Kept, SentRings, SentHome, Query.Threaded, Loose, Query.Nodes, Requested;
      KeptRepr(heads, rings, home, active, Repr);
      Enlist(heads, q, rings, home, active, Repr);
      RequestedAppend(active, q, Repr);
      Become(SentRings(heads, rings, q), SentHome(heads, home, q), active + [q], Repr + {q} + q.Nodes());
    }

    /** ares_send, up to the first transmission. */
    method Send(qbuf: seq<byte>, callback: nat, arg: nat) returns (query: Query?)
      requires Valid()
      modifies this, Repr
      ensures Valid() && fresh(Repr - old(Repr))
      ensures query == null <==> |qbuf| < 12 || |qbuf| >= 0x1_0000
      ensures query == null ==>
                calls == old(calls) + [Call(callback, arg, EBADQUERY, 0)]
                && active == old(active) && rings == old(rings) && lastServer == old(lastServer)
      ensures forall p :: p in old(active) ==> unchanged(p)
      ensures query != null ==>
                && fresh(query) && active == old(active) + [query] && calls == old(calls)
                && rings == SentRings(heads, old(rings), query) && home == SentHome(heads, old(home), query)
                && query.qid == qbuf[0] as int * 256 + qbuf[1] as int && query.callback == callback && query.arg == arg
                && query.tcpbuf[..] == [|qbuf| / 256, |qbuf| % 256] + qbuf && query.Request() == qbuf
                && query.server == old(lastServer) && query.usingTcp == (useVC || |qbuf| > 512)
                && query.tryCount == 0 && query.timeouts == 0 && query.errorStatus == ECONNREFUSED
                && Loose(query.byTimeout) && Loose(query.toServer)
                && nservers > 0 && lastServer == if rotate then (old(lastServer) + 1) % nservers else old(lastServer)
    {
      hide Valid, Query.Threaded, Loose;
      if |qbuf| < HFIXEDSZ || |qbuf| >= 0x1_0000 {
        Notify(callback, arg, EBADQUERY, 0);
        return null;
      }
      var server := NextServer();
      query := NewQuery(qbuf, callback, arg, server, useVC);
      Admit(query);
    }

    /** find_query_by_id: a search of one bucket, which finds the first of all queries in
        progress that has the id. */
    method FindQueryById(id: nat, littleEndian: bool) returns (found: Query?)
      requires Valid() && id < 0x1_0000
      ensures match FirstWithId(active, HostOrder(id, littleEndian))
              case Some(q) => found == q
              case None => found == null
    {
      hide FirstAmong, Bucket, QidNodes, Ring, Kept;
      var qid := HostOrder(id, littleEndian);
      KeptRepr(heads, rings, home, active, Repr);
      ghost var k, candidates := qid % QID_TABLE_SIZE, set q | q in active;
      var head := heads.byQid[qid % QID_TABLE_SIZE];
      ghost var bucket := Bucket(active, k);
      BucketSearch(active, qid, candidates);
      assert bucket[0..] == bucket;
      BucketLinks(heads, rings, home, active, Repr, k, 0);
      FirstAmongStep(bucket, |bucket|, qid, candidates);
      var node := head.next;
      ghost var i := 0;
      while node != head
        invariant i <= |bucket|
        invariant node == if i < |bucket| then bucket[i].byQid else head
        invariant FirstAmong(bucket[i..], qid, candidates) == FirstAmong(bucket, qid, candidates)
        decreases |bucket| - i
      {
        BucketLinks(heads, rings, home, active, Repr, k, i);
        FirstAmongStep(bucket, i, qid, candidates);
        BucketMember(active, k, bucket[i]);
        var q := node.data.value;
        if q.qid == qid {
          return q;
        }
        node := node.next;
        i := i + 1;
      }
      BucketLinks(heads, rings, home, active, Repr, k, i);
      return null;
    }

    /** The queries in progress whose questions a reply repeats. */
    ghost function Answered(abuf: seq<byte>): set<Query>
      reads this, set q | q in active :: q.tcpbuf
    {
      set q | q in active && RepeatsQuestions(q.Request(), abuf)
    }

    /** The search of process_answer: a reply goes to the first query in progress with its id
        whose questions it repeats, and to none if there is no such query. */
    method FindAnswered(abuf: seq<byte>) returns (found: Query?)
      requires Valid()
      ensures |abuf| < 12 ==> found == null
      ensures |abuf| >= 12 ==>
                match FirstAmong(active, abuf[0] as int * 256 + abuf[1] as int, Answered(abuf))
                case Some(q) => found == q
                case None => found == null
    {
      hide FirstAmong, Bucket, QidNodes, Ring, Kept, RepeatsQuestions;
      if |abuf| < HFIXEDSZ {
        return null;
      }
      var id := Get16(abuf, 0);
      KeptRepr(heads, rings, home, active, Repr);
      ghost var k, candidates := id % QID_TABLE_SIZE, Answered(abuf);
      var head := heads.byQid[id % QID_TABLE_SIZE];
      ghost var bucket := Bucket(active, k);
      BucketSearch(active, id, candidates);
      assert bucket[0..] == bucket;
      BucketLinks(heads, rings, home, active, Repr, k, 0);
      FirstAmongStep(bucket, |bucket|, id, candidates);
      var node := head.next;
      ghost var i := 0;
      while node != head
        invariant i <= |bucket|
        invariant node == if i < |bucket| then bucket[i].byQid else head
        invariant FirstAmong(bucket[i..], id, candidates) == FirstAmong(bucket, id, candidates)
        decreases |bucket| - i
      {
        BucketLinks(heads, rings, home, active, Repr, k, i);
        FirstAmongStep(bucket, i, id, candidates);
        BucketMember(active, k, bucket[i]);
        var q := node.data.value;
        if q.qid == id {
          var same := SameQuestions(q.Request(), abuf);
          if same {
            return q;
          }
        }
        node := node.next;
        i := i + 1;
      }
      BucketLinks(heads, rings, home, active, Repr, k, i);
      return null;
    }

    /** A reply that carries the id of a query in progress and its question section unchanged goes
        to a query with this id and the same question. */
    lemma EchoIsDelivered(q: Query, ls: seq<Label>, dnsclass: int, rrtype: int, id: nat, rd: bool,
                          head: seq<byte>, rest: seq<byte>)
      requires Valid() && q in active
      requires QueryLabels(ls) && id < 0x1_0000 && q.Request() == QueryBytes(ls, dnsclass, rrtype, id, rd)
      requires |head| == HFIXEDSZ && Get16(head, 0) == id && Get16(head, 4) == 1
      ensures var abuf := head + q.Request()[HFIXEDSZ..] + rest;
              match FirstAmong(active, Get16(abuf, 0), Answered(abuf))
              case None => false
              case Some(found) =>
                && found in active && found.qid == id
                && AsksFor(found.Request(), Question(Text(ls), rrtype % 0x1_0000, dnsclass % 0x1_0000))
    {
      hide Kept, RepeatsQuestions, QueryBytes, Text, QuestionFits, QuestionAt, FirstAmong, QueryLabels;
      var abuf := head + q.Request()[HFIXEDSZ..] + rest;
      EchoIsRecognized(ls, dnsclass, rrtype, id, rd, head, rest);
      QueryFields(ls, dnsclass, rrtype, id, rd);
      QueryQuestion(ls, dnsclass, rrtype, id, rd);
      assert Get16(abuf, 0) == id && Get16(abuf, 4) == 1;
      FirstAmongFinds(active, id, Answered(abuf), q);
      var found := FirstAmong(active, id, Answered(abuf)).value;
      RepeatedAskTheSame(q.Request(), found.Request(), abuf);
    }

    /** ares__free_query: q leaves all lists. */
    method FreeQuery(q: Query)
      requires Valid() && q in active
      modifies this`active, this`rings, this`home, this`Repr, Repr
      ensures Valid() && active == Without(old(active), q)
      ensures rings == ReleasedRings(old(rings), old(home), q) && home == ReleasedHome(old(home), q)
      ensures rings.Keys == old(rings).Keys
      ensures forall h :: h in old(rings) ==> rings[h] == WithoutNodes(old(rings)[h], q)
      ensures forall p :: p in old(active) && p != q ==> StaysPut(old(home), home, p)
      ensures forall p :: p in old(active) ==> unchanged(p)
      ensures calls == old(calls) && lastServer == old(lastServer) && Repr == old(Repr)
    {
      hide Kept, Without, Query.Nodes, ReleasedRings, ReleasedHome, Requested, WithoutNodes, Placed, NoDuplicates,
           StaysPut;
      OthersStayPut(heads, rings, home, active, Repr, q);
      KeptRepr(heads, rings, home, active, Repr);
      KeptPlaces(heads, rings, home, active, Repr);
      ReleasedLists(q, rings, home);
      Release(heads, q, rings, home, active, Repr);
      RequestedWithout(active, q, Repr);
      Become(ReleasedRings(rings, home, q), ReleasedHome(home, q), Without(active, q), Repr);
    }

    /** The list part of a transmission: the query moves to the end of the bucket of its new
        timeout and to the end of the list of its server. */
    method Transmit(q: Query, sec: nat)
      requires Valid() && q in active
      modifies this`active, this`rings, this`home, this`Repr, Repr
      ensures Valid() && q.timeout == sec && q.server < nservers && active == old(active)
      ensures calls == old(calls) && lastServer == old(lastServer) && Repr == old(Repr)
      ensures forall p :: p in active && p != q ==> unchanged(p)
      ensures unchanged(q`server, q`tryCount, q`usingTcp, q`errorStatus, q`timeouts)
      ensures rings == RescheduledRings(heads, old(rings), old(home), q, sec, q.server)
      ensures home == RescheduledHome(heads, old(home), q, sec, q.server)
      ensures rings.Keys == old(rings).Keys
      ensures forall h :: h in old(rings) ==>
                rings[h] == RescheduledList(heads, old(rings)[h], h, q, sec, q.server)
      ensures forall p :: p in active && p != q ==> StaysPut(old(home), home, p)
    {
      hide Kept, Query.Nodes, RescheduledRings, RescheduledHome, RescheduledList, StaysPut, Requested;
      AllRescheduled(heads, q, sec, rings, home, active, Repr);
      KeptRepr(heads, rings, home, active, Repr);
      Reschedule(heads, q, sec, rings, home, active, Repr);
      Become(RescheduledRings(heads, rings, home, q, sec, q.server), RescheduledHome(heads, home, q, sec, q.server),
             active, Repr);
    }

    /** end_query: the callback, then the query is freed. */
    method EndQuery(q: Query, status: Status)
      requires Valid() && q in active
      modifies this, Repr
      ensures Valid() && active == Without(old(active), q)
      ensures rings == ReleasedRings(old(rings), old(home), q) && home == ReleasedHome(old(home), q)
      ensures rings.Keys == old(rings).Keys
      ensures forall h :: h in old(rings) ==> rings[h] == WithoutNodes(old(rings)[h], q)
      ensures forall p :: p in old(active) && p != q ==> StaysPut(old(home), home, p)
      ensures forall p :: p in old(active) ==> unchanged(p)
      ensures calls == old(calls) + [Call(q.callback, q.arg, status, old(q.timeouts))]
      ensures lastServer == old(lastServer) && Repr == old(Repr)
    {
      hide Valid, Without, ReleasedRings, ReleasedHome, WithoutNodes, StaysPut;
      Notify(q.callback, q.arg, status, q.timeouts);
      FreeQuery(q);
    }

    /** The links that the drain loop follows. */
    lemma AllQueriesLinks()
      requires Valid()
      ensures heads.all.next == if active == [] then heads.all else active[0].all
      ensures active != [] ==>
                active[0].all != heads.all && active[0].all.data == Some(active[0])
                && active[0].all.next == if |active| > 1 then active[1].all else heads.all
      ensures active == [] ==> forall h :: h in heads.Set() ==> h.next == h && h.prev == h
    {
      hide Kept;
      AllLinks(heads, rings, home, active, Repr);
      if active == [] {
        EmptyLists(heads, rings, home, Repr);
      }
    }

    /** One round of ares_cancel. */
    method CancelFirst(query: Query)
      requires Valid() && active != [] && query == active[0]
      modifies this, Repr
      ensures Valid() && active == old(active)[1..] && Repr == old(Repr)
      ensures calls + Cancellations(active) == old(calls) + Cancellations(old(active))
    {
      hide Valid, Cancellations, Without, ReleasedRings, ReleasedHome, WithoutNodes, StaysPut;
      FirstCancelled(calls, active);
      Notify(query.callback, query.arg, ECANCELLED, 0);
      FreeQuery(query);
    }

    /** ares_cancel, with callbacks that start no new query: every query in progress gets one
        call of its callback, in the order in which the queries were sent, and afterwards
        every list is empty. */
    method Cancel()
      requires Valid()
      modifies this, Repr
      ensures Valid() && active == []
      ensures calls == old(calls) + Cancellations(old(active))
      ensures forall h :: h in heads.Set() ==> h.next == h && h.prev == h
    {
      hide Valid, Cancellations, Query.Nodes, Heads.Set;
      NoCancellations();
      AllQueriesLinks();
      var node := heads.all.next;
      while node != heads.all
        invariant Valid() && Repr == old(Repr)
        invariant node == if active != [] then active[0].all else heads.all
        invariant calls + Cancellations(active) == old(calls) + Cancellations(old(active))
        decreases |active|
      {
        AllQueriesLinks();
        var query := node.data.value;
        node := node.next;
        CancelFirst(query);
      }
      AllQueriesLinks();
    }
  }
}
