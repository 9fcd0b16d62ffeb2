/** Parsing a reply to a query for IPv4 addresses (ares_parse_a_reply.c). */
module ParseAReply {
  import opened Wire
  import opened ExpandName
  import opened Records

  const IN_ADDR_SIZE := 4

  datatype AddrTtl = AddrTtl(ipaddr: seq<byte>, ttl: int)

  // ----- the meaning of an answer section

  /** The state of reading answers: the name whose addresses count, the addresses and aliases
      found, and the smallest TTL of a CNAME. */
  datatype Chain = Chain(head: seq<byte>, addrs: seq<AddrTtl>, aliases: seq<seq<byte>>, cnameTtl: int)

  predicate IsAddress(r: Record, head: seq<byte>) {
    r.rrclass == C_IN && r.rrtype == T_A && r.rdlen == IN_ADDR_SIZE && SameName(r.owner, head)
  }

  function Min(a: int, b: int): int {
    if b < a then b else a
  }

  /** One answer: an address of the current name counts, a CNAME makes its owner an alias and its
      target the current name.  None when the target is malformed. */
  ghost function Follow(m: seq<byte>, c: Chain, r: Record): Option<Chain>
    requires r.rdata + r.rdlen <= |m|
  {
    if IsAddress(r, c.head) then
      Some(c.(addrs := c.addrs + [AddrTtl(m[r.rdata..r.rdata + IN_ADDR_SIZE], r.ttl)]))
    else if IsCname(r) then
      match Target(m, r)
      case None => None
      case Some(name) => Some(Chain(name, c.addrs, c.aliases + [r.owner], Min(c.cnameTtl, r.ttl)))
    else Some(c)
  }

  predicate InMessage(m: seq<byte>, rs: seq<Record>) {
    forall r :: r in rs ==> r.rdata + r.rdlen <= |m|
  }

  ghost function FollowAll(m: seq<byte>, c: Chain, rs: seq<Record>): Option<Chain>
    requires InMessage(m, rs)
    decreases |rs|
  {
    if rs == [] then Some(c)
    else
      match Follow(m, c, rs[0])
      case None => None
      case Some(c') => FollowAll(m, c', rs[1..])
  }

  lemma {:induction false} AnswersInMessage(m: seq<byte>, p: nat, n: nat)
    ensures RecordsFrom(m, p, n).Some? ==> InMessage(m, RecordsFrom(m, p, n).value)
    decreases n
  {
    hide HeadAt, HeadFits;
    if n > 0 && RecordFits(m, p) {
      var r := HeadAt(m, p);
      AnswersInMessage(m, r.rdata + r.rdlen, n - 1);
      RecordsFromSplit(m, p, n);
    }
  }

  /** The n answers at p, read with the chain c so far: None for a malformed reply. */
  ghost function Reading(m: seq<byte>, c: Chain, p: nat, n: nat): Option<Chain> {
    AnswersInMessage(m, p, n);
    match RecordsFrom(m, p, n)
    case None => None
    case Some(rs) => FollowAll(m, c, rs)
  }

  /** What a reply says: first all its records are decoded, then they are followed in order. */
  ghost function AReply(m: seq<byte>): Option<Chain> {
    if !HasQuestion(m) then None
    else
      AnswersInMessage(m, HFIXEDSZ + EncLen(m, HFIXEDSZ) + QFIXEDSZ, Get16(m, 6));
      match Answers(m)
      case None => None
      case Some(rs) => FollowAll(m, Chain(AskedName(m), [], [], INT_MAX), rs)
  }

  ghost function AStatus(m: seq<byte>): Status {
    match AReply(m)
    case None => EBADRESP
    case Some(c) => if c.addrs == [] && c.aliases == [] then ENODATA else SUCCESS
  }

  // ----- what following the answers amounts to

  function Owners(rs: seq<Record>): seq<seq<byte>> {
    if rs == [] then []
    else (if IsCname(rs[0]) then [rs[0].owner] else []) + Owners(rs[1..])
  }

  /** The addresses in rs, each record measured against the name that counts where it stands. */
  ghost function Addresses(m: seq<byte>, head: seq<byte>, rs: seq<Record>): seq<AddrTtl>
    requires InMessage(m, rs)
    decreases |rs|
  {
    if rs == [] then []
    else
      var n, r := |rs| - 1, rs[|rs| - 1];
      assert r in rs;
      Addresses(m, head, rs[..n]) +
      if IsAddress(r, Head(m, head, rs[..n])) then [AddrTtl(m[r.rdata..r.rdata + IN_ADDR_SIZE], r.ttl)] else []
  }

  /** t is the smallest of `limit` and the TTLs of the CNAMEs in rs, wherever these stand. */
  ghost predicate IsCnameTtl(t: int, limit: int, rs: seq<Record>) {
    && t <= limit && (forall r :: r in rs && IsCname(r) ==> t <= r.ttl)
    && (t == limit || exists r :: r in rs && IsCname(r) && t == r.ttl)
  }

  lemma {:induction false} CnameTtlOfAll(m: seq<byte>, c: Chain, rs: seq<Record>)
    requires InMessage(m, rs) && FollowAll(m, c, rs).Some?
    ensures IsCnameTtl(FollowAll(m, c, rs).value.cnameTtl, c.cnameTtl, rs)
    decreases |rs|
  {
    if rs != [] {
      var r, c' := rs[0], Follow(m, c, rs[0]).value;
      CnameTtlOfAll(m, c', rs[1..]);
      var t := FollowAll(m, c, rs).value.cnameTtl;
      assert rs == [r] + rs[1..];
      if t != c.cnameTtl && t != c'.cnameTtl {
        var s :| s in rs[1..] && IsCname(s) && t == s.ttl;
        assert s in rs;
      }
    }
  }

  /** What one answer adds. */
  lemma FollowOne(m: seq<byte>, c: Chain, r: Record)
    requires r.rdata + r.rdlen <= |m| && Follow(m, c, r).Some?
    ensures var c' := Follow(m, c, r).value;
            && c'.aliases == (if IsCname(r) then c.aliases + [r.owner] else c.aliases)
            && c'.addrs == (if IsAddress(r, c.head)
                            then c.addrs + [AddrTtl(m[r.rdata..r.rdata + IN_ADDR_SIZE], r.ttl)] else c.addrs)
            && c'.head == (if IsCname(r) && Target(m, r).Some? then Target(m, r).value else c.head)
            && |c'.addrs| + |c'.aliases| <= |c.addrs| + |c.aliases| + 1
  {
  }

  lemma ConcatAgain(a: seq<seq<byte>>, x: seq<byte>, b: seq<seq<byte>>)
    ensures a + [x] + b == a + ([x] + b)
  {
  }

  lemma OwnersStep(rs: seq<Record>)
    ensures rs == [] ==> Owners(rs) == []
    ensures rs != [] ==> Owners(rs) == if IsCname(rs[0]) then [rs[0].owner] + Owners(rs[1..]) else Owners(rs[1..])
  {
  }

  /** The aliases are the owners of the CNAMEs, and no record is both address and alias. */
  lemma {:induction false} AliasesAreOwners(m: seq<byte>, c: Chain, rs: seq<Record>)
    requires InMessage(m, rs) && FollowAll(m, c, rs).Some?
    ensures var c' := FollowAll(m, c, rs).value;
            && c'.aliases == c.aliases + Owners(rs)
            && |c'.addrs| + |c'.aliases| <= |c.addrs| + |c.aliases| + |rs|
    decreases |rs|
  {
    hide Follow, IsCname, Owners;
    OwnersStep(rs);
    if rs == [] {
      assert c.aliases + [] == c.aliases;
    } else {
      var c1 := Follow(m, c, rs[0]).value;
      FollowOne(m, c, rs[0]);
      AliasesAreOwners(m, c1, rs[1..]);
      ConcatAgain(c.aliases, rs[0].owner, Owners(rs[1..]));
    }
  }

  lemma {:induction false} FollowSnoc(m: seq<byte>, c: Chain, rs: seq<Record>, r: Record)
    requires InMessage(m, rs) && r.rdata + r.rdlen <= |m|
    ensures InMessage(m, rs + [r])
    ensures FollowAll(m, c, rs + [r]) ==
              match FollowAll(m, c, rs)
              case None => None
              case Some(c') => Follow(m, c', r)
    decreases |rs|
  {
    if rs == [] {
      assert [] + [r] == [r];
    } else {
      assert (rs + [r])[1..] == rs[1..] + [r];
      match Follow(m, c, rs[0])
      case None =>
      case Some(c') => FollowSnoc(m, c', rs[1..], r);
    }
  }

  /** The result of following the answers, without a running state: the addresses are those
      whose owner is, at their place, the target of the last CNAME before them. */
  lemma {:induction false} FollowedAddresses(m: seq<byte>, c: Chain, rs: seq<Record>)
    requires InMessage(m, rs) && FollowAll(m, c, rs).Some?
    ensures var c' := FollowAll(m, c, rs).value;
            c'.head == Head(m, c.head, rs) && c'.addrs == c.addrs + Addresses(m, c.head, rs)
    decreases |rs|
  {
    hide Follow, IsCname, IsAddress, Target;
    if rs != [] {
      var n, r := |rs| - 1, rs[|rs| - 1];
      assert r in rs;
      assert rs == rs[..n] + [r];
      FollowSnoc(m, c, rs[..n], r);
      FollowedAddresses(m, c, rs[..n]);
      FollowOne(m, FollowAll(m, c, rs[..n]).value, r);
    }
  }

  // ----- the parser

  /** One record further. */
  lemma ReadingStep(m: seq<byte>, c: Chain, p: nat, left: nat)
    requires left > 0
    ensures !RecordFits(m, p) ==> Reading(m, c, p, left) == None
    ensures RecordFits(m, p) ==>
              var r := HeadAt(m, p);
              match Follow(m, c, r)
              case None => Reading(m, c, p, left) == None
              case Some(c') => Reading(m, c, p, left) == Reading(m, c', r.rdata + r.rdlen, left - 1)
  {
    if RecordFits(m, p) {
      var r := HeadAt(m, p);
      var p' := r.rdata + r.rdlen;
      RecordsFromSplit(m, p, left);
      AnswersInMessage(m, p', left - 1);
      match RecordsFrom(m, p', left - 1)
      case None =>
      case Some(rest) =>
        assert ([r] + rest)[0] == r && ([r] + rest)[1..] == rest;
    }
  }

  /** The arrays hold what the chain has collected: the host's addresses and aliases if a host
      is wanted, and as many addresses with their TTLs as the caller has room for. */
  ghost predicate Stored(c: Chain, wantHost: bool, addrs: array<seq<byte>>, aliases: array<seq<byte>>,
                         addrttls: array?<AddrTtl>, max: int)
    reads addrs, aliases, addrttls
  {
    && (wantHost ==>
          && |c.addrs| <= addrs.Length && |c.aliases| <= aliases.Length
          && (forall i :: 0 <= i < |c.addrs| ==> addrs[i] == c.addrs[i].ipaddr)
          && (forall i :: 0 <= i < |c.aliases| ==> aliases[i] == c.aliases[i]))
    && (max > 0 ==>
          && addrttls != null && max <= addrttls.Length
          && (forall i :: 0 <= i < |c.addrs| && i < max ==> addrttls[i] == c.addrs[i]))
  }

  function Room(addrttls: array?<AddrTtl>, naddrttls: Option<int>): int {
    if addrttls != null && naddrttls.Some? then naddrttls.value else 0
  }

  /** Stores an address that counts. */
  method StoreAddress(ghost c: Chain, data: seq<byte>, ttl: int, naddrs: nat, wantHost: bool, addrs: array<seq<byte>>,
                      aliases: array<seq<byte>>, addrttls: array?<AddrTtl>, max: int)
    requires Stored(c, wantHost, addrs, aliases, addrttls, max) && addrs != aliases
    requires naddrs == |c.addrs| && (wantHost ==> naddrs < addrs.Length)
    modifies addrs, addrttls
    ensures Stored(c.(addrs := c.addrs + [AddrTtl(data, ttl)]), wantHost, addrs, aliases, addrttls, max)
  {
    if wantHost {
      addrs[naddrs] := data;
    }
    if naddrs < max {
      addrttls[naddrs] := AddrTtl(data, ttl);
    }
  }

  method StoreAlias(ghost c: Chain, alias: seq<byte>, naliases: nat, wantHost: bool, addrs: array<seq<byte>>,
                    aliases: array<seq<byte>>, addrttls: array?<AddrTtl>, max: int,
                    ghost name: seq<byte>, ghost ttl: int)
    requires Stored(c, wantHost, addrs, aliases, addrttls, max) && addrs != aliases
    requires naliases == |c.aliases| && (wantHost ==> naliases < aliases.Length)
    modifies aliases
    ensures Stored(Chain(name, c.addrs, c.aliases + [alias], ttl), wantHost, addrs, aliases, addrttls, max)
  {
    if wantHost {
      aliases[naliases] := alias;
    }
  }

  lemma ReplyIsReading(m: seq<byte>)
    requires HasQuestion(m)
    ensures AReply(m) ==
              Reading(m, Chain(AskedName(m), [], [], INT_MAX), HFIXEDSZ + EncLen(m, HFIXEDSZ) + QFIXEDSZ, Get16(m, 6))
  {
  }

  lemma ReadingDone(m: seq<byte>, c: Chain, p: nat)
    ensures Reading(m, c, p, 0) == Some(c)
  {
  }

  /** Ensures that each returned TTL is no larger than that of the CNAME chain. */
  method ClampTtls(addrttls: array<AddrTtl>, n: nat, cnameTtl: int)
    requires n <= addrttls.Length
    modifies addrttls
    ensures forall i :: 0 <= i < n ==>
              addrttls[i] == AddrTtl(old(addrttls[i].ipaddr), Min(old(addrttls[i].ttl), cnameTtl))
    ensures forall i :: n <= i < addrttls.Length ==> addrttls[i] == old(addrttls[i])
  {
    for i := 0 to n
      invariant forall j :: 0 <= j < i ==>
                  addrttls[j] == AddrTtl(old(addrttls[j].ipaddr), Min(old(addrttls[j].ttl), cnameTtl))
      invariant forall j :: i <= j < addrttls.Length ==> addrttls[j] == old(addrttls[j])
    {
      if addrttls[i].ttl > cnameTtl {
        addrttls[i] := addrttls[i].(ttl := cnameTtl);
      }
    }
  }

  lemma NothingStored(c: Chain, wantHost: bool, addrs: array<seq<byte>>, aliases: array<seq<byte>>,
                      addrttls: array?<AddrTtl>, max: int)
    requires c.addrs == [] && c.aliases == [] && (max > 0 ==> addrttls != null && max <= addrttls.Length)
    ensures Stored(c, wantHost, addrs, aliases, addrttls, max)
  {
  }

  /** The answer loop. */
  method ReadAnswers(abuf: seq<byte>, question: seq<byte>, start: nat, ancount: nat, wantHost: bool,
                     addrs: array<seq<byte>>, aliases: array<seq<byte>>, addrttls: array?<AddrTtl>, max: int)
      returns (status: Status, hostname: seq<byte>, naddrs: nat, naliases: nat, cnameTtl: int, ghost c: Chain)
    requires start <= |abuf| && addrs != aliases
    requires wantHost ==> addrs.Length == ancount && aliases.Length == ancount + 1
    requires max > 0 ==> addrttls != null && max <= addrttls.Length
    modifies addrs, aliases, addrttls
    ensures status == SUCCESS || status == EBADRESP
    ensures var reading := Reading(abuf, Chain(question, [], [], INT_MAX), start, ancount);
            reading == if status == SUCCESS then Some(c) else None
    ensures status == SUCCESS ==>
              && hostname == c.head && naddrs == |c.addrs| && naliases == |c.aliases| && cnameTtl == c.cnameTtl
              && naddrs + naliases <= ancount
              && Stored(c, wantHost, addrs, aliases, addrttls, max)
  {
    hide Reading, Stored, SameName, HeadFits, HeadAt, Text, Labels, Decodes;
    status, hostname, naddrs, naliases, cnameTtl := SUCCESS, question, 0, 0, INT_MAX;
    c := Chain(question, [], [], INT_MAX);
    NothingStored(c, wantHost, addrs, aliases, addrttls, max);
    ghost var reading := Reading(abuf, c, start, ancount);
    var aptr: nat := start;
    for i := 0 to ancount
      invariant aptr <= |abuf| && naddrs + naliases <= i && status == SUCCESS
      invariant hostname == c.head && naddrs == |c.addrs| && naliases == |c.aliases| && cnameTtl == c.cnameTtl
      invariant reading == Reading(abuf, c, aptr, ancount - i)
      invariant Stored(c, wantHost, addrs, aliases, addrttls, max)
    {
      ReadingStep(abuf, c, aptr, ancount - i);
      var r;
      status, r := ReadHead(abuf, aptr);
      if status != SUCCESS {
        return;
      }
      if r.rrclass == C_IN && r.rrtype == T_A && r.rdlen == IN_ADDR_SIZE && SameName(r.owner, hostname) {
        if (wantHost || naddrs < max) && r.rdata + IN_ADDR_SIZE > |abuf| {
          status := EBADRESP;
          return;
        }
        var data := if r.rdata + IN_ADDR_SIZE <= |abuf| then abuf[r.rdata..r.rdata + IN_ADDR_SIZE] else [];
        StoreAddress(c, data, r.ttl, naddrs, wantHost, addrs, aliases, addrttls, max);
        c := c.(addrs := c.addrs + [AddrTtl(data, r.ttl)]);
        naddrs := naddrs + 1;
      }
      if r.rrclass == C_IN && r.rrtype == T_CNAME {
        var target, len;
        status, target, len := AresExpandNameForResponse(abuf, r.rdata);
        ghost var ttl := Min(c.cnameTtl, r.ttl);
        StoreAlias(c, r.owner, naliases, wantHost, addrs, aliases, addrttls, max, target, ttl);
        c := Chain(target, c.addrs, c.aliases + [r.owner], ttl);
        naliases := naliases + 1;
        if status != SUCCESS {
          return;
        }
        hostname := target;
        if cnameTtl > r.ttl {
          cnameTtl := r.ttl;
        }
      }
      aptr := r.rdata + r.rdlen;
      if aptr > |abuf| {
        status := EBADRESP;
        return;
      }
    }
    ReadingDone(abuf, c, aptr);
  }

  /** What a caller gets of a chain: the host, and each returned address with its own TTL,
      lowered to the smallest TTL of a CNAME of the reply. */
  function HostOf(c: Chain): HostEnt {
    HostEnt(c.head, c.aliases, seq(|c.addrs|, i requires 0 <= i < |c.addrs| => c.addrs[i].ipaddr))
  }

  function Clamped(a: AddrTtl, cnameTtl: int): AddrTtl {
    AddrTtl(a.ipaddr, Min(a.ttl, cnameTtl))
  }

  lemma NoQuestion(m: seq<byte>)
    ensures !HasQuestion(m) ==> AReply(m) == None
  {
  }

  lemma StoredLists(c: Chain, wantHost: bool, addrs: array<seq<byte>>, aliases: array<seq<byte>>,
                    addrttls: array?<AddrTtl>, max: int)
    requires Stored(c, wantHost, addrs, aliases, addrttls, max)
    ensures wantHost ==> |c.addrs| <= addrs.Length && |c.aliases| <= aliases.Length
    ensures wantHost ==> addrs[..|c.addrs|] == HostOf(c).addrs && aliases[..|c.aliases|] == c.aliases
    ensures max > 0 ==> addrttls != null && max <= addrttls.Length
    ensures forall i :: 0 <= i < |c.addrs| && i < max ==> addrttls[i] == c.addrs[i]
  {
  }

  /** ares_parse_a_reply.  `naddrttls` is the capacity that the caller passes in, and `count` what
      it finds there afterwards. */
  method AresParseAReply(abuf: seq<byte>, wantHost: bool, addrttls: array?<AddrTtl>, naddrttls: Option<int>)
      returns (status: Status, host: Option<HostEnt>, count: Option<int>)
    requires addrttls != null && naddrttls.Some? ==> naddrttls.value <= addrttls.Length
    modifies addrttls
    ensures status == AStatus(abuf)
    ensures host == if wantHost && status == SUCCESS then Some(HostOf(AReply(abuf).value)) else None
    ensures count.Some? <==> naddrttls.Some?
    ensures count.Some? && status != SUCCESS ==> count.value == 0
    ensures count.Some? && status == SUCCESS ==>
              count.value == Min(|AReply(abuf).value.addrs|, Room(addrttls, naddrttls))
    ensures count.Some? && status == SUCCESS ==>
              forall i :: 0 <= i < count.value ==>
                addrttls != null && addrttls[i] == Clamped(AReply(abuf).value.addrs[i], AReply(abuf).value.cnameTtl)
  {
    hide AReply, Reading, Stored, HasQuestion;
    var max := Room(addrttls, naddrttls);
    host, count := None, if naddrttls.Some? then Some(0) else None;
    var question, start, ancount;
    status, question, start, ancount := ReadUpToAnswers(abuf);
    NoQuestion(abuf);
    if status != SUCCESS {
      return;
    }
    ReplyIsReading(abuf);
    var addrs := new seq<byte>[if wantHost then ancount else 0];
    var aliases := new seq<byte>[if wantHost then ancount + 1 else 0];
    var hostname, naddrs, naliases, cnameTtl;
    ghost var c;
    status, hostname, naddrs, naliases, cnameTtl, c :=
      ReadAnswers(abuf, question, start, ancount, wantHost, addrs, aliases, addrttls, max);
    if status == SUCCESS && naddrs == 0 && naliases == 0 {
      status := ENODATA;
    }
    if status == SUCCESS {
      StoredLists(c, wantHost, addrs, aliases, addrttls, max);
      if naddrttls.Some? {
        var n := if naddrs < max then naddrs else max;
        if n > 0 {
          ClampTtls(addrttls, n, cnameTtl);
        }
        count := Some(n);
      }
      if wantHost {
        host := Some(HostEnt(hostname, aliases[..naliases], addrs[..naddrs]));
      }
    }
  }

  /** The whole parser against the records of the answer section, without any running state: a
      reply is well-formed when all its records are and every CNAME has a well-formed target;
      then the addresses, the canonical name and the aliases are these, they are at most as many
      as there are answers, and the clamping TTL is the smallest of any CNAME anywhere. */
  lemma ReplyMeaning(m: seq<byte>)
    requires HasQuestion(m) && AReply(m).Some?
    ensures Answers(m).Some? && InMessage(m, Answers(m).value)
    ensures var rs, c := Answers(m).value, AReply(m).value;
            && |rs| == Get16(m, 6)
            && c.head == Head(m, AskedName(m), rs)
            && c.addrs == Addresses(m, AskedName(m), rs)
            && c.aliases == Owners(rs)
            && |c.addrs| + |c.aliases| <= |rs|
            && IsCnameTtl(c.cnameTtl, INT_MAX, rs)
  {
    AnswersInMessage(m, HFIXEDSZ + EncLen(m, HFIXEDSZ) + QFIXEDSZ, Get16(m, 6));
    var rs, c0 := Answers(m).value, Chain(AskedName(m), [], [], INT_MAX);
    FollowedAddresses(m, c0, rs);
    AliasesAreOwners(m, c0, rs);
    CnameTtlOfAll(m, c0, rs);
  }

  lemma {:induction false} FollowFails(m: seq<byte>, c: Chain, rs: seq<Record>)
    requires InMessage(m, rs)
    ensures FollowAll(m, c, rs).None? <==> exists r :: r in rs && IsCname(r) && Target(m, r).None?
    decreases |rs|
  {
    if rs != [] {
      assert rs == [rs[0]] + rs[1..];
      match Follow(m, c, rs[0])
      case None =>
      case Some(c') => FollowFails(m, c', rs[1..]);
    }
  }

  /** A reply is malformed exactly when it has no complete question, when a record does not fit,
      or when a CNAME's target is no name. */
  lemma MalformedReply(m: seq<byte>)
    ensures AReply(m).None? <==>
              !HasQuestion(m) || Answers(m).None?
              || exists r :: r in Answers(m).value && r.rrtype == 5 && r.rrclass == 1 && Target(m, r).None?
  {
    if HasQuestion(m) && Answers(m).Some? {
      AnswersInMessage(m, HFIXEDSZ + EncLen(m, HFIXEDSZ) + QFIXEDSZ, Get16(m, 6));
      FollowFails(m, Chain(AskedName(m), [], [], INT_MAX), Answers(m).value);
    }
  }
}
