/** Parsing a reply to a query for the name of an address (ares_parse_ptr_reply.c). */
module ParsePtrReply {
  import opened Wire
  import opened ExpandName
  import opened Records

  /** The state of reading answers: the name whose PTR records count, and their targets. */
  datatype Names = Names(head: seq<byte>, targets: seq<seq<byte>>)

  predicate IsPtr(r: Record, head: seq<byte>) {
    r.rrclass == C_IN && r.rrtype == T_PTR && SameName(r.owner, head)
  }

  /** One answer: a PTR of the current name counts, a CNAME changes the current name.  None when
      the name in its data is malformed. */
  ghost function Follow(m: seq<byte>, c: Names, r: Record): Option<Names> {
    if IsPtr(r, c.head) then
      match Target(m, r)
      case None => None
      case Some(name) => Some(c.(targets := c.targets + [name]))
    else if IsCname(r) then
      match Target(m, r)
      case None => None
      case Some(name) => Some(c.(head := name))
    else Some(c)
  }

  ghost function FollowAll(m: seq<byte>, c: Names, rs: seq<Record>): Option<Names>
    decreases |rs|
  {
    if rs == [] then Some(c)
    else
      match Follow(m, c, rs[0])
      case None => None
      case Some(c') => FollowAll(m, c', rs[1..])
  }

  ghost function Reading(m: seq<byte>, c: Names, p: nat, n: nat): Option<Names> {
    match RecordsFrom(m, p, n)
    case None => None
    case Some(rs) => FollowAll(m, c, rs)
  }

  /** What a reply says: first all its records are decoded, then they are followed in order. */
  ghost function PtrReply(m: seq<byte>): Option<Names> {
    if !HasQuestion(m) || Answers(m).None? then None
    else FollowAll(m, Names(AskedName(m), []), Answers(m).value)
  }

  ghost function PtrStatus(m: seq<byte>): Status {
    match PtrReply(m)
    case None => EBADRESP
    case Some(c) => if c.targets == [] then ENODATA else SUCCESS
  }

  // ----- what following the answers amounts to

  /** The targets of the PTR records whose owner is the name that counts where they stand. */
  ghost function Targets(m: seq<byte>, head: seq<byte>, rs: seq<Record>): seq<seq<byte>>
    decreases |rs|
  {
    if rs == [] then []
    else
      var n, r := |rs| - 1, rs[|rs| - 1];
      Targets(m, head, rs[..n]) +
      if IsPtr(r, Head(m, head, rs[..n])) && Target(m, r).Some? then [Target(m, r).value] else []
  }

  lemma {:induction false} FollowSnoc(m: seq<byte>, c: Names, rs: seq<Record>, r: Record)
    ensures FollowAll(m, c, rs + [r]) ==
              match FollowAll(m, c, rs)
              case None => None
              case Some(c') => Follow(m, c', r)
    decreases |rs|
  {
    if rs == [] {
      assert [] + [r] == [r];
    } else {
      assert (rs + [r])[1..] == rs[1..] + [r];
      match Follow(m, c, rs[0])
      case None =>
      case Some(c') => FollowSnoc(m, c', rs[1..], r);
    }
  }

  lemma {:induction false} FollowedTargets(m: seq<byte>, c: Names, rs: seq<Record>)
    requires FollowAll(m, c, rs).Some?
    ensures var c' := FollowAll(m, c, rs).value;
            c'.head == Head(m, c.head, rs) && c'.targets == c.targets + Targets(m, c.head, rs)
    decreases |rs|
  {
    if rs != [] {
      var n, r := |rs| - 1, rs[|rs| - 1];
      assert rs == rs[..n] + [r];
      FollowSnoc(m, c, rs[..n], r);
      FollowedTargets(m, c, rs[..n]);
    }
  }

  /** The parser's result against the records of the answer section, without a running state. */
  lemma ReplyMeaning(m: seq<byte>)
    requires PtrReply(m).Some?
    ensures var rs, c := Answers(m).value, PtrReply(m).value;
            && |rs| == Get16(m, 6)
            && c.head == Head(m, AskedName(m), rs) && c.targets == Targets(m, AskedName(m), rs)
  {
    FollowedTargets(m, Names(AskedName(m), []), Answers(m).value);
  }

  /** The k-th record counts where it stands, or is a CNAME, and the name in its data is malformed. */
  ghost predicate Spoils(m: seq<byte>, head: seq<byte>, rs: seq<Record>, k: nat)
    requires k < |rs|
  {
    (IsCname(rs[k]) || IsPtr(rs[k], Head(m, head, rs[..k]))) && Target(m, rs[k]).None?
  }

  lemma {:induction false} FollowFails(m: seq<byte>, c: Names, rs: seq<Record>)
    ensures FollowAll(m, c, rs).None? <==> exists k: nat :: k < |rs| && Spoils(m, c.head, rs, k)
    decreases |rs|
  {
    hide IsCname, IsPtr, Target, Head;
    if rs != [] {
      var n, r := |rs| - 1, rs[|rs| - 1];
      assert rs == rs[..n] + [r];
      FollowSnoc(m, c, rs[..n], r);
      FollowFails(m, c, rs[..n]);
      forall k: nat | k < n ensures Spoils(m, c.head, rs, k) <==> Spoils(m, c.head, rs[..n], k) {
        assert rs[..n][..k] == rs[..k];
      }
      if FollowAll(m, c, rs[..n]).Some? {
        FollowedTargets(m, c, rs[..n]);
        assert FollowAll(m, c, rs).None? <==> Spoils(m, c.head, rs, n);
      }
    }
  }

  /** A reply is malformed exactly when it has no complete question, when a record does not fit,
      or when the target of a CNAME, or of a PTR that counts where it stands, is no name. */
  lemma MalformedReply(m: seq<byte>)
    ensures PtrReply(m).None? <==>
              !HasQuestion(m) || Answers(m).None?
              || exists k: nat :: k < |Answers(m).value| && Spoils(m, AskedName(m), Answers(m).value, k)
  {
    if HasQuestion(m) && Answers(m).Some? {
      FollowFails(m, Names(AskedName(m), []), Answers(m).value);
    }
  }

  // ----- the parser

  lemma ReadingStep(m: seq<byte>, c: Names, p: nat, left: nat)
    requires left > 0
    ensures !RecordFits(m, p) ==> Reading(m, c, p, left) == None
    ensures RecordFits(m, p) ==>
              var r := HeadAt(m, p);
              match Follow(m, c, r)
              case None => Reading(m, c, p, left) == None
              case Some(c') => Reading(m, c, p, left) == Reading(m, c', r.rdata + r.rdlen, left - 1)
  {
    if RecordFits(m, p) {
      var r := HeadAt(m, p);
      RecordsFromSplit(m, p, left);
      match RecordsFrom(m, r.rdata + r.rdlen, left - 1)
      case None =>
      case Some(rest) =>
        assert ([r] + rest)[0] == r && ([r] + rest)[1..] == rest;
    }
  }

  lemma ReadingEnds(m: seq<byte>, c: Names, p: nat)
    ensures Reading(m, c, p, 0) == Some(c)
    ensures HasQuestion(m) ==>
              PtrReply(m) == Reading(m, Names(AskedName(m), []), HFIXEDSZ + EncLen(m, HFIXEDSZ) + QFIXEDSZ, Get16(m, 6))
    ensures !HasQuestion(m) ==> PtrReply(m) == None
  {
  }

  /** What strncpy leaves of a name: the bytes before the first NUL. */
  function Copies(names: seq<seq<byte>>): seq<seq<byte>> {
    seq(|names|, i requires 0 <= i < |names| => CString(names[i]))
  }

  /** Stores a copy of a name at the end of the aliases, and doubles the array when it is full,
      so that there always is a free place. */
  method StoreAlias(aliases: array<seq<byte>>, aliascnt: nat, name: seq<byte>) returns (r: array<seq<byte>>)
    requires aliascnt < aliases.Length
    modifies aliases
    ensures aliascnt + 1 < r.Length && (r == aliases || fresh(r))
    ensures r[..aliascnt + 1] == old(aliases[..aliascnt]) + [CString(name)]
  {
    aliases[aliascnt] := CString(name);
    r := aliases;
    if aliascnt + 1 >= aliases.Length {
      r := new seq<byte>[2 * aliases.Length];
      for i := 0 to aliases.Length
        invariant r[..i] == aliases[..i]
        invariant aliases[..aliascnt + 1] == old(aliases[..aliascnt]) + [CString(name)]
      {
        r[i] := aliases[i];
      }
      assert r[..aliascnt + 1] == r[..aliases.Length][..aliascnt + 1];
    }
  }

  lemma NoCopies(names: seq<seq<byte>>)
    requires names == []
    ensures Copies(names) == []
  {
  }

  lemma MoreCopies(names: seq<seq<byte>>, name: seq<byte>)
    ensures Copies(names + [name]) == Copies(names) + [CString(name)]
  {
  }

  /** The answer loop. */
  method ReadAnswers(abuf: seq<byte>, question: seq<byte>, start: nat, ancount: nat)
      returns (status: Status, hostname: Option<seq<byte>>, aliases: array<seq<byte>>, aliascnt: nat, ghost c: Names)
    requires start <= |abuf|
    ensures status == SUCCESS || status == EBADRESP
    ensures Reading(abuf, Names(question, []), start, ancount) == if status == SUCCESS then Some(c) else None
    ensures status == SUCCESS ==>
              && hostname == (if c.targets == [] then None else Some(c.targets[|c.targets| - 1]))
              && aliascnt < aliases.Length && aliases[..aliascnt] == Copies(c.targets)
  {
    hide Reading, SameName, HeadFits, HeadAt, Text, Labels, Decodes, CString, Copies;
    status, hostname, aliascnt := SUCCESS, None, 0;
    aliases := new seq<byte>[8];
    var ptrname := question;
    c := Names(question, []);
    NoCopies(c.targets);
    ghost var reading := Reading(abuf, c, start, ancount);
    var aptr: nat := start;
    for i := 0 to ancount
      invariant aptr <= |abuf| && status == SUCCESS && fresh(aliases)
      invariant ptrname == c.head
      invariant hostname == if c.targets == [] then None else Some(c.targets[|c.targets| - 1])
      invariant aliascnt < aliases.Length && aliases[..aliascnt] == Copies(c.targets)
      invariant reading == Reading(abuf, c, aptr, ancount - i)
    {
      ReadingStep(abuf, c, aptr, ancount - i);
      var r, target, len;
      status, r := ReadHead(abuf, aptr);
      if status != SUCCESS {
        return;
      }
      if r.rrclass == C_IN && r.rrtype == T_PTR && SameName(r.owner, ptrname) {
        status, target, len := AresExpandNameForResponse(abuf, r.rdata);
        if status != SUCCESS {
          return;
        }
        hostname := Some(target);
        MoreCopies(c.targets, target);
        aliases := StoreAlias(aliases, aliascnt, target);
        aliascnt := aliascnt + 1;
        c := c.(targets := c.targets + [target]);
      }
      if r.rrclass == C_IN && r.rrtype == T_CNAME {
        status, target, len := AresExpandNameForResponse(abuf, r.rdata);
        if status != SUCCESS {
          return;
        }
        ptrname := target;
        c := c.(head := target);
      }
      aptr := r.rdata + r.rdlen;
      if aptr > |abuf| {
        status := EBADRESP;
        return;
      }
    }
    ReadingEnds(abuf, c, aptr);
  }

  /** ares_parse_ptr_reply: the host is named after the last PTR record that counts, and all of
      them are its aliases; its address is the one that was asked for. */
  method AresParsePtrReply(abuf: seq<byte>, addr: seq<byte>) returns (status: Status, host: Option<HostEnt>)
    ensures status == PtrStatus(abuf)
    ensures host == if status != SUCCESS then None
                    else
                      var targets := PtrReply(abuf).value.targets;
                      Some(HostEnt(targets[|targets| - 1], Copies(targets), [addr]))
  {
    host := None;
    var ptrname, start, ancount;
    status, ptrname, start, ancount := ReadUpToAnswers(abuf);
    if status != SUCCESS {
      return;
    }
    var hostname: Option<seq<byte>>, aliases, aliascnt;
    ghost var c;
    status, hostname, aliases, aliascnt, c := ReadAnswers(abuf, ptrname, start, ancount);
    ReadingEnds(abuf, Names(ptrname, []), start);
    if status == SUCCESS && hostname == None {
      status := ENODATA;
    }
    if status == SUCCESS {
      host := Some(HostEnt(hostname.value, aliases[..aliascnt], [addr]));
    }
  }
}
