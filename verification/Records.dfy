/** The question and the resource records of a reply, as the reply parsers read them. */
module Records {
  import opened Wire
  import opened ExpandName

  /** A resource record; rdata is the offset of its data in the message. */
  datatype Record = Record(owner: seq<byte>, rrtype: nat, rrclass: nat, ttl: int, rdlen: nat, rdata: nat)

  /** struct hostent, without the address family and length. */
  datatype HostEnt = HostEnt(name: seq<byte>, aliases: seq<seq<byte>>, addrs: seq<seq<byte>>)

  ghost function NameText(m: seq<byte>, p: nat): seq<byte>
    requires Decodes(m, p)
  {
    Text(Labels(m, p))
  }

  /** The name and the fixed part of a record at p fit in the message. */
  ghost predicate HeadFits(m: seq<byte>, p: nat) {
    Decodes(m, p) && p + EncLen(m, p) + RRFIXEDSZ <= |m|
  }

  ghost function HeadAt(m: seq<byte>, p: nat): (r: Record)
    requires HeadFits(m, p)
    ensures r.rdata <= |m|
  {
    var q := p + EncLen(m, p);
    Record(NameText(m, p), Get16(m, q), Get16(m, q + 2), Get32(m, q + 4), Get16(m, q + 8), q + RRFIXEDSZ)
  }

  /** A whole record is at p. */
  ghost predicate RecordFits(m: seq<byte>, p: nat) {
    HeadFits(m, p) && HeadAt(m, p).rdata + HeadAt(m, p).rdlen <= |m|
  }

  /** The n records from p on, if they all are inside the message. */
  ghost function RecordsFrom(m: seq<byte>, p: nat, n: nat): (rs: Option<seq<Record>>)
    ensures rs.Some? ==> |rs.value| == n
    decreases n
  {
    if n == 0 then Some([])
    else if !RecordFits(m, p) then None
    else
      var r := HeadAt(m, p);
      match RecordsFrom(m, r.rdata + r.rdlen, n - 1)
      case None => None
      case Some(rest) => Some([r] + rest)
  }

  /** The name in the data of a record, if there is a well-formed one. */
  ghost function Target(m: seq<byte>, r: Record): Option<seq<byte>> {
    if Decodes(m, r.rdata) then Some(NameText(m, r.rdata)) else None
  }

  predicate IsCname(r: Record) {
    r.rrclass == C_IN && r.rrtype == T_CNAME
  }

  /** The name that counts after the records rs: the target of the last CNAME among them. */
  ghost function Head(m: seq<byte>, head: seq<byte>, rs: seq<Record>): seq<byte>
    decreases |rs|
  {
    if rs == [] then head
    else if IsCname(rs[|rs| - 1]) && Target(m, rs[|rs| - 1]).Some? then Target(m, rs[|rs| - 1]).value
    else Head(m, head, rs[..|rs| - 1])
  }

  /** A reply has a header, exactly one question, and the whole of it. */
  ghost predicate HasQuestion(m: seq<byte>) {
    && HFIXEDSZ <= |m| && Get16(m, 4) == 1
    && Decodes(m, HFIXEDSZ) && HFIXEDSZ + EncLen(m, HFIXEDSZ) + QFIXEDSZ <= |m|
  }

  ghost function AskedName(m: seq<byte>): seq<byte>
    requires HasQuestion(m)
  {
    NameText(m, HFIXEDSZ)
  }

  /** The records of the answer section. */
  ghost function Answers(m: seq<byte>): Option<seq<Record>>
    requires HasQuestion(m)
  {
    RecordsFrom(m, HFIXEDSZ + EncLen(m, HFIXEDSZ) + QFIXEDSZ, Get16(m, 6))
  }

  lemma {:induction false} RecordsFromSplit(m: seq<byte>, p: nat, n: nat)
    requires n > 0 && RecordFits(m, p)
    ensures var r := HeadAt(m, p);
            RecordsFrom(m, p, n) ==
              match RecordsFrom(m, r.rdata + r.rdlen, n - 1)
              case None => None
              case Some(rest) => Some([r] + rest)
  {
  }

  /** Reads the header and the question; aptr is where the answers begin. */
  method ReadUpToAnswers(abuf: seq<byte>) returns (status: Status, hostname: seq<byte>, aptr: nat, ancount: nat)
    ensures status == if HasQuestion(abuf) then SUCCESS else EBADRESP
    ensures status == SUCCESS ==>
              && hostname == AskedName(abuf) && ancount == Get16(abuf, 6)
              && aptr == HFIXEDSZ + EncLen(abuf, HFIXEDSZ) + QFIXEDSZ <= |abuf|
  {
    hostname, aptr, ancount := [], 0, 0;
    if |abuf| < HFIXEDSZ {
      return EBADRESP, hostname, aptr, ancount;
    }
    var qdcount := Get16(abuf, 4);
    ancount := Get16(abuf, 6);
    if qdcount != 1 {
      return EBADRESP, hostname, aptr, ancount;
    }
    aptr := HFIXEDSZ;
    var len;
    status, hostname, len := AresExpandNameForResponse(abuf, aptr);
    if status != SUCCESS {
      return;
    }
    if aptr + len + QFIXEDSZ > |abuf| {
      return EBADRESP, hostname, aptr, ancount;
    }
    aptr := aptr + len + QFIXEDSZ;
  }

  /** Reads a record up to its data. */
  method ReadHead(abuf: seq<byte>, aptr: nat) returns (status: Status, r: Record)
    requires aptr <= |abuf|
    ensures status == if HeadFits(abuf, aptr) then SUCCESS else EBADRESP
    ensures status == SUCCESS ==> r == HeadAt(abuf, aptr)
  {
    r := Record([], 0, 0, 0, 0, 0);
    var name, len;
    status, name, len := AresExpandNameForResponse(abuf, aptr);
    if status != SUCCESS {
      return;
    }
    var p := aptr + len;
    if p + RRFIXEDSZ > |abuf| {
      return EBADRESP, r;
    }
    r := Record(name, Get16(abuf, p), Get16(abuf, p + 2), Get32(abuf, p + 4), Get16(abuf, p + 8), p + RRFIXEDSZ);
  }
}
