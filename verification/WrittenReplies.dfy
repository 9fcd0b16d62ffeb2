/**
  What the two reply parsers return for a reply whose bytes are known: told from the records as
  they are written, with the numbers of RFC 1035 section 3.2, and for replies that are cut short.
 */
module WrittenReplies {
  import opened Wire
  import opened ExpandName
  import opened CompressedNames
  import opened Records
  import opened ReplyBytes
  import A = ParseAReply
  import P = ParsePtrReply

  // ----- the records as they are written

  predicate IsCnameRecord(r: Rr) {
    r.rrtype == 5 && r.rrclass == 1
  }

  /** The data of a CNAME is a name. */
  predicate CnamesAreNames(rs: seq<Rr>) {
    forall r :: r in rs && IsCnameRecord(r) ==> r.data.NameData?
  }

  /** The name that counts after the first k records: the target of the last CNAME among them, or
      the name in the question. */
  function NameAfter(asked: seq<Label>, rs: seq<Rr>, k: nat): seq<byte>
    requires k <= |rs| && CnamesAreNames(rs)
  {
    if k == 0 then Text(asked)
    else
      assert rs[k - 1] in rs;
      if IsCnameRecord(rs[k - 1]) then Text(rs[k - 1].data.name.Meaning(asked)) else NameAfter(asked, rs, k - 1)
  }

  /** Record k is an IPv4 address of the name that counts before it. */
  ghost predicate IsAddressRecord(asked: seq<Label>, rs: seq<Rr>, k: nat)
    requires k < |rs| && CnamesAreNames(rs) && AllValid(rs)
  {
    assert rs[k] in rs;
    && rs[k].rrtype == 1 && rs[k].rrclass == 1 && |rs[k].data.Bytes()| == 4
    && EqualNames(Text(rs[k].owner.Meaning(asked)), NameAfter(asked, rs, k))
  }

  /** Record k is a PTR of the name that counts before it. */
  ghost predicate IsPtrRecord(asked: seq<Label>, rs: seq<Rr>, k: nat)
    requires k < |rs| && CnamesAreNames(rs)
  {
    && rs[k].rrtype == 12 && rs[k].rrclass == 1
    && EqualNames(Text(rs[k].owner.Meaning(asked)), NameAfter(asked, rs, k))
  }

  /** The data of a PTR is a name. */
  predicate PtrsAreNames(rs: seq<Rr>) {
    forall r :: r in rs && r.rrtype == 12 && r.rrclass == 1 ==> r.data.NameData?
  }

  // ----- addresses

  ghost function AddressesOf(asked: seq<Label>, rs: seq<Rr>, k: nat): (addrs: seq<A.AddrTtl>)
    requires k <= |rs| && CnamesAreNames(rs) && AllValid(rs)
  {
    if k == 0 then []
    else
      assert rs[k - 1] in rs;
      AddressesOf(asked, rs, k - 1) +
      if IsAddressRecord(asked, rs, k - 1) then [A.AddrTtl(rs[k - 1].data.Bytes(), rs[k - 1].SignedTtl())] else []
  }

  /** The owners of the CNAMEs. */
  function AliasesOf(asked: seq<Label>, rs: seq<Rr>, k: nat): seq<seq<byte>>
    requires k <= |rs|
  {
    if k == 0 then []
    else
      AliasesOf(asked, rs, k - 1) +
      if IsCnameRecord(rs[k - 1]) then [Text(rs[k - 1].owner.Meaning(asked))] else []
  }

  /** The smallest TTL of a CNAME, or the largest number that an int can hold. */
  function LeastTtl(rs: seq<Rr>, k: nat): int
    requires k <= |rs|
  {
    if k == 0 then 0x7fff_ffff
    else
      var least := LeastTtl(rs, k - 1);
      if IsCnameRecord(rs[k - 1]) && rs[k - 1].SignedTtl() < least then rs[k - 1].SignedTtl() else least
  }

  ghost function ChainOf(asked: seq<Label>, rs: seq<Rr>, k: nat): A.Chain
    requires k <= |rs| && CnamesAreNames(rs) && AllValid(rs)
  {
    A.Chain(NameAfter(asked, rs, k), AddressesOf(asked, rs, k), AliasesOf(asked, rs, k), LeastTtl(rs, k))
  }

  lemma ChainStep(m: seq<byte>, asked: seq<Label>, rs: seq<Rr>, k: nat, rec: Record)
    requires k < |rs| && CnamesAreNames(rs) && AllValid(rs)
    requires rs[k].Valid() && rs[k].IsReadAs(m, asked, rec)
    ensures rec.rdata + rec.rdlen <= |m|
    ensures A.Follow(m, ChainOf(asked, rs, k), rec) == Some(ChainOf(asked, rs, k + 1))
  {
    hide SameName, EqualNames, Text, Name.Meaning, Target, Data.Bytes, Rr.SignedTtl;
    assert rs[k] in rs;
    SameNameIsEqualNames(rec.owner, NameAfter(asked, rs, k));
    var r, head := rs[k], NameAfter(asked, rs, k);
    assert HasBytes(m, rec.rdata, r.data.Bytes());
    assert AddressesOf(asked, rs, k) + [] == AddressesOf(asked, rs, k);
    assert AliasesOf(asked, rs, k) + [] == AliasesOf(asked, rs, k);
    assert rec.rdlen == 4 ==> m[rec.rdata..rec.rdata + 4] == r.data.Bytes();
    assert A.IsAddress(rec, head) <==> IsAddressRecord(asked, rs, k);
    assert IsCname(rec) <==> IsCnameRecord(r);
    assert NameAfter(asked, rs, k + 1) == if IsCnameRecord(r) then Text(r.data.name.Meaning(asked)) else head;
    assert AliasesOf(asked, rs, k + 1) == AliasesOf(asked, rs, k) + if IsCname(rec) then [rec.owner] else [];
    assert LeastTtl(rs, k + 1) == if IsCname(rec) then A.Min(LeastTtl(rs, k), rec.ttl) else LeastTtl(rs, k);
    assert AddressesOf(asked, rs, k + 1) ==
           AddressesOf(asked, rs, k) +
           if IsAddressRecord(asked, rs, k) then [A.AddrTtl(r.data.Bytes(), rec.ttl)] else [];
  }

  lemma ReadAt(m: seq<byte>, asked: seq<Label>, rs: seq<Rr>, recs: seq<Record>, k: nat)
    requires AllValid(rs) && AllRead(m, asked, rs, recs) && k < |rs|
    ensures |rs| == |recs| && rs[k].Valid() && rs[k].IsReadAs(m, asked, recs[k])
  {
    assert rs[k] in rs;
  }

  lemma SameLength(m: seq<byte>, asked: seq<Label>, rs: seq<Rr>, recs: seq<Record>)
    requires AllValid(rs) && AllRead(m, asked, rs, recs)
    ensures |rs| == |recs|
  {
  }

  lemma AllInMessage(m: seq<byte>, asked: seq<Label>, rs: seq<Rr>, recs: seq<Record>)
    requires AllValid(rs) && AllRead(m, asked, rs, recs)
    ensures A.InMessage(m, recs)
  {
    hide AllRead, AllValid, Rr.Valid;
    forall r | r in recs ensures r.rdata + r.rdlen <= |m| {
      var k :| 0 <= k < |recs| && recs[k] == r;
      ReadAt(m, asked, rs, recs, k) by {
        assert |rs| == |recs| by { SameLength(m, asked, rs, recs); }
      }
    }
  }

  lemma ChainStart(asked: seq<Label>, rs: seq<Rr>)
    requires CnamesAreNames(rs) && AllValid(rs)
    ensures ChainOf(asked, rs, 0) == A.Chain(Text(asked), [], [], INT_MAX)
  {
  }

  lemma {:induction false} ChainIs(m: seq<byte>, asked: seq<Label>, rs: seq<Rr>, recs: seq<Record>, k: nat)
    requires CnamesAreNames(rs) && AllValid(rs) && AllRead(m, asked, rs, recs) && k <= |rs|
    ensures |rs| == |recs| && A.InMessage(m, recs[..k])
    ensures A.FollowAll(m, A.Chain(Text(asked), [], [], INT_MAX), recs[..k]) == Some(ChainOf(asked, rs, k))
    decreases k
  {
    hide AllRead, AllValid, CnamesAreNames, Text, ChainOf, A.Follow;
    SameLength(m, asked, rs, recs);
    AllInMessage(m, asked, rs, recs);
    if k == 0 {
      ChainStart(asked, rs);
    } else {
      ChainIs(m, asked, rs, recs, k - 1);
      ReadAt(m, asked, rs, recs, k - 1);
      ChainStep(m, asked, rs, k - 1, recs[k - 1]);
      assert recs[..k] == recs[..k - 1] + [recs[k - 1]];
      A.FollowSnoc(m, A.Chain(Text(asked), [], [], INT_MAX), recs[..k - 1], recs[k - 1]);
    }
  }

  /** The reply that ares_parse_a_reply sees in the bytes of a written reply. */
  lemma WrittenAReply(head: seq<byte>, asked: seq<Label>, kind: seq<byte>, rs: seq<Rr>, rest: seq<byte>)
    requires IsHeader(head, rs) && WireLabels(asked) && |kind| == 4 && AllValid(rs) && CnamesAreNames(rs)
    ensures A.AReply(Reply(head, asked, kind, rs, rest)) == Some(ChainOf(asked, rs, |rs|))
  {
    hide Reply, AllValid, CnamesAreNames, ChainOf, Text, HasQuestion, AskedName, Answers, AllRead;
    var m := Reply(head, asked, kind, rs, rest);
    ReplyIsRead(head, asked, kind, rs, rest);
    var recs := Answers(m).value;
    SameLength(m, asked, rs, recs);
    ChainIs(m, asked, rs, recs, |rs|);
    assert recs[..|rs|] == recs;
  }

  /** ares_parse_a_reply on a written reply: the addresses with their TTLs, the canonical name and
      the aliases. */
  method ParseWrittenA(head: seq<byte>, asked: seq<Label>, kind: seq<byte>, rs: seq<Rr>, rest: seq<byte>,
                       addrttls: array<A.AddrTtl>, capacity: int)
      returns (status: Status, host: Option<HostEnt>, count: int)
    requires IsHeader(head, rs) && WireLabels(asked) && |kind| == 4 && AllValid(rs) && CnamesAreNames(rs)
    requires capacity <= addrttls.Length
    modifies addrttls
    ensures var addrs, aliases := AddressesOf(asked, rs, |rs|), AliasesOf(asked, rs, |rs|);
            if addrs == [] && aliases == [] then status == ENODATA && host == None && count == 0
            else
              && status == SUCCESS && host.Some?
              && host.value.name == NameAfter(asked, rs, |rs|) && host.value.aliases == aliases
              && |host.value.addrs| == |addrs|
              && (forall i :: 0 <= i < |addrs| ==> host.value.addrs[i] == addrs[i].ipaddr)
              && count == (if |addrs| < capacity then |addrs| else capacity)
              && forall i :: 0 <= i < count ==>
                   && addrttls[i].ipaddr == addrs[i].ipaddr
                   && addrttls[i].ttl == if addrs[i].ttl < LeastTtl(rs, |rs|) then addrs[i].ttl else LeastTtl(rs, |rs|)
  {
    hide Reply, AllValid, CnamesAreNames, AddressesOf, AliasesOf, NameAfter, LeastTtl, A.AReply;
    var m := Reply(head, asked, kind, rs, rest);
    WrittenAReply(head, asked, kind, rs, rest);
    var n;
    status, host, n := A.AresParseAReply(m, true, addrttls, Some(capacity));
    count := n.value;
  }

  // ----- targets of PTR records

  ghost function TargetsOf(asked: seq<Label>, rs: seq<Rr>, k: nat): seq<seq<byte>>
    requires k <= |rs| && CnamesAreNames(rs) && PtrsAreNames(rs)
  {
    if k == 0 then []
    else
      assert rs[k - 1] in rs;
      TargetsOf(asked, rs, k - 1) +
      if IsPtrRecord(asked, rs, k - 1) then [Text(rs[k - 1].data.name.Meaning(asked))] else []
  }

  ghost function NamesOf(asked: seq<Label>, rs: seq<Rr>, k: nat): P.Names
    requires k <= |rs| && CnamesAreNames(rs) && PtrsAreNames(rs)
  {
    P.Names(NameAfter(asked, rs, k), TargetsOf(asked, rs, k))
  }

  lemma NamesStep(m: seq<byte>, asked: seq<Label>, rs: seq<Rr>, k: nat, rec: Record)
    requires k < |rs| && CnamesAreNames(rs) && PtrsAreNames(rs)
    requires rs[k].Valid() && rs[k].IsReadAs(m, asked, rec)
    ensures P.Follow(m, NamesOf(asked, rs, k), rec) == Some(NamesOf(asked, rs, k + 1))
  {
    hide SameName, EqualNames, Text, Name.Meaning, Target, Data.Bytes, Rr.SignedTtl;
    assert rs[k] in rs;
    var r, head := rs[k], NameAfter(asked, rs, k);
    SameNameIsEqualNames(rec.owner, head);
    assert TargetsOf(asked, rs, k) + [] == TargetsOf(asked, rs, k);
    assert P.IsPtr(rec, head) <==> IsPtrRecord(asked, rs, k);
    assert IsCname(rec) <==> IsCnameRecord(r);
    assert NameAfter(asked, rs, k + 1) == if IsCnameRecord(r) then Text(r.data.name.Meaning(asked)) else head;
    assert TargetsOf(asked, rs, k + 1) ==
           TargetsOf(asked, rs, k) + if IsPtrRecord(asked, rs, k) then [Text(r.data.name.Meaning(asked))] else [];
  }

  lemma NamesStart(asked: seq<Label>, rs: seq<Rr>)
    requires CnamesAreNames(rs) && PtrsAreNames(rs)
    ensures NamesOf(asked, rs, 0) == P.Names(Text(asked), [])
  {
  }

  lemma {:induction false} NamesAre(m: seq<byte>, asked: seq<Label>, rs: seq<Rr>, recs: seq<Record>, k: nat)
    requires CnamesAreNames(rs) && PtrsAreNames(rs) && AllValid(rs) && AllRead(m, asked, rs, recs) && k <= |rs|
    ensures |rs| == |recs|
    ensures P.FollowAll(m, P.Names(Text(asked), []), recs[..k]) == Some(NamesOf(asked, rs, k))
    decreases k
  {
    hide AllRead, AllValid, CnamesAreNames, PtrsAreNames, Text, NamesOf, P.Follow;
    SameLength(m, asked, rs, recs);
    if k == 0 {
      NamesStart(asked, rs);
    } else {
      NamesAre(m, asked, rs, recs, k - 1);
      ReadAt(m, asked, rs, recs, k - 1);
      NamesStep(m, asked, rs, k - 1, recs[k - 1]);
      assert recs[..k] == recs[..k - 1] + [recs[k - 1]];
      P.FollowSnoc(m, P.Names(Text(asked), []), recs[..k - 1], recs[k - 1]);
    }
  }

  lemma WrittenPtrReply(head: seq<byte>, asked: seq<Label>, kind: seq<byte>, rs: seq<Rr>, rest: seq<byte>)
    requires IsHeader(head, rs) && WireLabels(asked) && |kind| == 4
    requires AllValid(rs) && CnamesAreNames(rs) && PtrsAreNames(rs)
    ensures P.PtrReply(Reply(head, asked, kind, rs, rest)) == Some(NamesOf(asked, rs, |rs|))
  {
    hide Reply, AllValid, CnamesAreNames, PtrsAreNames, NamesOf, Text, HasQuestion, AskedName, Answers, AllRead;
    var m := Reply(head, asked, kind, rs, rest);
    ReplyIsRead(head, asked, kind, rs, rest);
    var recs := Answers(m).value;
    SameLength(m, asked, rs, recs);
    NamesAre(m, asked, rs, recs, |rs|);
    assert recs[..|rs|] == recs;
  }

  /** ares_parse_ptr_reply on a written reply: the targets that count, in order, and the last of
      them as the name. */
  method ParseWrittenPtr(head: seq<byte>, asked: seq<Label>, kind: seq<byte>, rs: seq<Rr>, rest: seq<byte>,
                         addr: seq<byte>) returns (status: Status, host: Option<HostEnt>)
    requires IsHeader(head, rs) && WireLabels(asked) && |kind| == 4
    requires AllValid(rs) && CnamesAreNames(rs) && PtrsAreNames(rs)
    ensures var targets := TargetsOf(asked, rs, |rs|);
            if targets == [] then status == ENODATA && host == None
            else
              && status == SUCCESS && host.Some?
              && host.value.name == targets[|targets| - 1] && host.value.addrs == [addr]
              && |host.value.aliases| == |targets|
              && forall i :: 0 <= i < |targets| ==> Shows(targets[i], host.value.aliases[i])
  {
    hide Reply, AllValid, CnamesAreNames, PtrsAreNames, TargetsOf, NameAfter, P.PtrReply, CString, Shows;
    var m := Reply(head, asked, kind, rs, rest);
    WrittenPtrReply(head, asked, kind, rs, rest);
    status, host := P.AresParsePtrReply(m, addr);
    ghost var targets := TargetsOf(asked, rs, |rs|);
    forall i | 0 <= i < |targets| ensures Shows(targets[i], CString(targets[i])) {
      ShowsString(targets[i]);
    }
  }

  // ----- replies that are cut short

  /** In the first k bytes of a message a step is either the same or fails. */
  lemma SameStep(m: seq<byte>, k: nat, p: nat)
    requires p < k <= |m|
    ensures !Next(m[..k], p).Reject? ==> Next(m[..k], p) == Next(m, p)
    ensures Next(m[..k], p).Take? ==> m[..k][p + 1..Next(m, p).to] == m[p + 1..Next(m, p).to]
  {
  }

  lemma {:induction false} SameWalk(m: seq<byte>, k: nat, p: nat, n: nat)
    requires p < k <= |m| && At(m[..k], p, n).Some?
    ensures At(m, p, n) == At(m[..k], p, n) && Taken(m, p, n) == Taken(m[..k], p, n)
    decreases n
  {
    hide At, Taken, Next;
    SameStep(m, k, p);
    if n == 0 {
      AtStep(m, p, 0);
      AtStep(m[..k], p, 0);
    } else {
      AtStep(m, p, n - 1);
      AtStep(m[..k], p, n - 1);
      SameWalk(m, k, Next(m, p).to, n - 1);
    }
  }

  lemma {:induction false} SameEncLen(m: seq<byte>, k: nat, p: nat)
    requires p < k <= |m| && EncLen(m[..k], p) > 0
    ensures EncLen(m, p) == EncLen(m[..k], p)
    decreases k - p
  {
    hide Next;
    SameStep(m, k, p);
    if Next(m[..k], p).Take? {
      SameEncLen(m, k, Next(m, p).to);
    }
  }

  /** A name that decodes in the first bytes of a message is the same name in all of it. */
  lemma SameNameInPrefix(m: seq<byte>, k: nat, p: nat)
    requires k <= |m| && Decodes(m[..k], p)
    ensures ReadsAs(m, p, Labels(m[..k], p), EncLen(m[..k], p))
  {
    hide At, Taken, EncLen;
    var n := Steps(m[..k], p);
    SameWalk(m, k, p, n);
    SameStep(m, k, At(m, p, n).value);
    EndsOnce(m, p, n);
    EncLenPositive(m[..k], p);
    SameEncLen(m, k, p);
  }

  lemma SameRecord(m: seq<byte>, k: nat, p: nat)
    requires k <= |m| && RecordFits(m[..k], p)
    ensures RecordFits(m, p) && HeadAt(m, p) == HeadAt(m[..k], p)
  {
    hide EncLen, Labels, Text, Decodes;
    SameNameInPrefix(m, k, p);
  }

  lemma RecordInside(m: seq<byte>, p: nat)
    requires RecordFits(m, p)
    ensures HeadAt(m, p).rdata + HeadAt(m, p).rdlen <= |m|
  {
  }

  lemma {:induction false} SameRecords(m: seq<byte>, k: nat, p: nat, n: nat)
    requires p <= k <= |m| && RecordsFrom(m[..k], p, n).Some?
    ensures RecordsFrom(m, p, n) == RecordsFrom(m[..k], p, n)
    decreases n
  {
    hide HeadAt, HeadFits;
    if n > 0 {
      SameRecord(m, k, p);
      RecordInside(m[..k], p);
      var r := HeadAt(m, p);
      SameRecords(m, k, r.rdata + r.rdlen, n - 1);
    }
  }

  /** Where the n records from p on end. */
  ghost function EndOf(m: seq<byte>, p: nat, n: nat): nat
    decreases n
  {
    if n == 0 || !RecordFits(m, p) then p else EndOf(m, HeadAt(m, p).rdata + HeadAt(m, p).rdlen, n - 1)
  }

  lemma HeadEnd(m: seq<byte>, p: nat, n: nat)
    requires n > 0 && RecordsFrom(m, p, n).Some?
    ensures RecordFits(m, p) && RecordsFrom(m, HeadAt(m, p).rdata + HeadAt(m, p).rdlen, n - 1).Some?
    ensures EndOf(m, p, n) == EndOf(m, HeadAt(m, p).rdata + HeadAt(m, p).rdlen, n - 1)
  {
  }

  lemma {:induction false} SameEnd(m: seq<byte>, k: nat, p: nat, n: nat)
    requires p <= k <= |m| && RecordsFrom(m[..k], p, n).Some?
    ensures RecordsFrom(m, p, n).Some? && EndOf(m, p, n) <= k
    decreases n
  {
    hide HeadAt, HeadFits;
    SameRecords(m, k, p, n);
    if n > 0 {
      HeadEnd(m, p, n);
      HeadEnd(m[..k], p, n);
      SameRecord(m, k, p);
      RecordInside(m[..k], p);
      SameEnd(m, k, HeadAt(m, p).rdata + HeadAt(m, p).rdlen, n - 1);
    }
  }

  /** A reply that is cut short anywhere before the end of its last answer is rejected by both
      parsers. */
  lemma CutShort(m: seq<byte>, k: nat)
    requires HasQuestion(m) && Answers(m).Some? && k <= |m|
    requires k < EndOf(m, 12 + EncLen(m, 12) + 4, Get16(m, 6))
    ensures A.AStatus(m[..k]) == EBADRESP && P.PtrStatus(m[..k]) == EBADRESP
  {
    hide RecordsFrom, EncLen, Decodes, EndOf;
    if HasQuestion(m[..k]) {
      SameNameInPrefix(m, k, 12);
      assert Get16(m[..k], 6) == Get16(m, 6);
      var p := 12 + EncLen(m, 12) + 4;
      if RecordsFrom(m[..k], p, Get16(m, 6)).Some? {
        SameEnd(m, k, p, Get16(m, 6));
      }
    }
  }
}
