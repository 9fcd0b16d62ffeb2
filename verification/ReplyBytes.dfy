/**
  Replies byte by byte: a reply is put together from a header, a question and records, and the
  record section has to be decoded to exactly these records (RFC 1035 sections 4.1.2 to 4.1.4).
 */
module ReplyBytes {
  import opened Wire
  import opened ExpandName
  import opened CompressedNames
  import opened Records

  /** A name as it is written: labels, and then either the end of the name or a pointer to the name
      in the question, which begins at offset 12 of every reply. */
  datatype Name = Name(labels: seq<Label>, toQuestion: bool)
  {
    predicate Valid() {
      WireLabels(labels)
    }

    function Bytes(): seq<byte>
      requires Valid()
    {
      WireBody(labels) + if toQuestion then [0xC0, 12] else [0]
    }

    function Meaning(asked: seq<Label>): seq<Label> {
      labels + if toQuestion then asked else []
    }
  }

  datatype Data = PlainData(bytes: seq<byte>) | NameData(name: Name)
  {
    predicate Valid() {
      NameData? ==> name.Valid()
    }

    function Bytes(): seq<byte>
      requires Valid()
    {
      match this
      case PlainData(bytes) => bytes
      case NameData(name) => name.Bytes()
    }
  }

  datatype Rr = Rr(owner: Name, rrtype: nat, rrclass: nat, ttl: nat, data: Data)
  {
    predicate Valid() {
      && owner.Valid() && rrtype < 0x1_0000 && rrclass < 0x1_0000 && ttl < 0x1_0000_0000
      && data.Valid() && |data.Bytes()| < 0x1_0000
    }

    /** The ten bytes between the owner and the data. */
    function Fixed(): (b: seq<byte>)
      requires Valid()
      ensures |b| == 10
    {
      var length := |data.Bytes()|;
      [rrtype / 256, rrtype % 256, rrclass / 256, rrclass % 256,
       ttl / 0x1_0000 / 256, ttl / 0x1_0000 % 256, ttl % 0x1_0000 / 256, ttl % 0x1_0000 % 256,
       length / 256, length % 256]
    }

    function Bytes(): seq<byte>
      requires Valid()
    {
      owner.Bytes() + (Fixed() + data.Bytes())
    }

    /** The TTL in a signed 32-bit number. */
    function SignedTtl(): int {
      if ttl < 0x8000_0000 then ttl else ttl - 0x1_0000_0000
    }

    /** What the reply parsers have to read. */
    ghost predicate IsReadAs(m: seq<byte>, asked: seq<Label>, r: Record)
      requires Valid()
    {
      && r.owner == Text(owner.Meaning(asked)) && r.rrtype == rrtype && r.rrclass == rrclass
      && r.ttl == SignedTtl() && r.rdlen == |data.Bytes()| && HasBytes(m, r.rdata, data.Bytes())
      && (data.NameData? ==> Target(m, r) == Some(Text(data.name.Meaning(asked))))
    }
  }

  predicate AllValid(rs: seq<Rr>) {
    forall r :: r in rs ==> r.Valid()
  }

  function AnswerSection(rs: seq<Rr>): seq<byte>
    requires AllValid(rs)
  {
    if rs == [] then [] else assert rs[0] in rs; rs[0].Bytes() + AnswerSection(rs[1..])
  }

  /** A header with one question and as many answers as there are records. */
  predicate IsHeader(head: seq<byte>, rs: seq<Rr>) {
    |head| == 12 && head[4] == 0 && head[5] == 1 && head[6] as int * 256 + head[7] as int == |rs|
  }

  /** The whole reply: header, question, answers, and the other sections. */
  function Reply(head: seq<byte>, asked: seq<Label>, kind: seq<byte>, rs: seq<Rr>, rest: seq<byte>): seq<byte>
    requires IsHeader(head, rs) && WireLabels(asked) && |kind| == 4 && AllValid(rs)
  {
    head + Encoding(asked) + (kind + (AnswerSection(rs) + rest))
  }

  // ----- what is there to be read

  /** Which messages have a question, and where a whole record stands in a message. */
  lemma WhatFits(m: seq<byte>, p: nat)
    ensures HasQuestion(m) <==>
              12 <= |m| && m[4] == 0 && m[5] == 1 && Decodes(m, 12) && 12 + EncLen(m, 12) + 4 <= |m|
    ensures RecordFits(m, p) <==>
              && Decodes(m, p)
              && var q := p + EncLen(m, p);
                 q + 10 <= |m| && q + 10 + m[q + 8] as int * 256 + m[q + 9] as int <= |m|
  {
    hide Decodes, EncLen;
  }

  // ----- reading what was written

  /** The name in the question can be pointed to. */
  ghost predicate Asks(m: seq<byte>, asked: seq<Label>) {
    Decodes(m, 12) && Labels(m, 12) == asked
  }

  lemma NameHere(m: seq<byte>, p: nat, n: Name, asked: seq<Label>)
    requires n.Valid() && HasBytes(m, p, n.Bytes())
    requires n.toQuestion ==> Asks(m, asked)
    ensures ReadsAs(m, p, n.Meaning(asked), |n.Bytes()|)
  {
    hide WireBody, Next;
    if n.toQuestion {
      PointerAfterLabels(m, p, n.labels, 12);
    } else {
      var e := Encoding(n.labels);
      assert n.Bytes() == e && n.Meaning(asked) == n.labels;
      assert m == m[..p] + e + m[p + |e|..];
      DecodeEncoding(m[..p], n.labels, m[p + |e|..]);
      EndsOnce(m, p, |n.labels|);
    }
  }

  lemma TwoBytes(v: nat)
    ensures v / 256 * 256 + v % 256 == v
  {
  }

  lemma FourBytes(v: nat)
    ensures (v / 0x1_0000 / 256 * 256 + v / 0x1_0000 % 256) * 0x1_0000
            + (v % 0x1_0000 / 256 * 256 + v % 0x1_0000 % 256) == v
  {
    TwoBytes(v / 0x1_0000);
    TwoBytes(v % 0x1_0000);
  }

  lemma FixedBytes(r: Rr)
    requires r.Valid()
    ensures var b := r.Fixed();
            && b[0] as int * 256 + b[1] as int == r.rrtype && b[2] as int * 256 + b[3] as int == r.rrclass
            && (b[4] as int * 256 + b[5] as int) * 0x1_0000 + (b[6] as int * 256 + b[7] as int) == r.ttl
            && b[8] as int * 256 + b[9] as int == |r.data.Bytes()|
  {
    hide Data.Bytes;
    FourBytes(r.ttl);
  }

  lemma FixedHere(m: seq<byte>, q: nat, r: Rr)
    requires r.Valid() && HasBytes(m, q, r.Fixed())
    ensures Get16(m, q) == r.rrtype && Get16(m, q + 2) == r.rrclass
    ensures Get32(m, q + 4) == r.SignedTtl() && Get16(m, q + 8) == |r.data.Bytes()|
  {
    hide Rr.Fixed, Data.Bytes, Rr.Valid;
    var b := m[q..q + 10];
    assert forall i {:trigger b[i]} :: 0 <= i < 10 ==> m[q + i] == b[i];
    FixedBytes(r);
    assert m[q + 4] == b[4] && m[q + 5] == b[5] && m[q + 6] == b[6] && m[q + 7] == b[7];
    assert m[q] == b[0] && m[q + 1] == b[1] && m[q + 2] == b[2] && m[q + 3] == b[3];
    assert m[q + 8] == b[8] && m[q + 9] == b[9];
  }

  lemma RrParts(r: Rr)
    requires r.Valid()
    ensures r.owner.Valid() && r.data.Valid() && r.Bytes() == r.owner.Bytes() + (r.Fixed() + r.data.Bytes())
  {
  }

  lemma BytesInside(m: seq<byte>, p: nat, b: seq<byte>)
    requires HasBytes(m, p, b)
    ensures p + |b| <= |m|
  {
  }

  lemma RrHere(m: seq<byte>, p: nat, r: Rr, asked: seq<Label>)
    requires r.Valid() && HasBytes(m, p, r.Bytes()) && Asks(m, asked)
    ensures RecordFits(m, p) && r.IsReadAs(m, asked, HeadAt(m, p))
    ensures HeadAt(m, p).rdata + HeadAt(m, p).rdlen == p + |r.Bytes()|
  {
    hide Rr.Fixed, Name.Bytes, Name.Meaning, Rr.Valid, Decodes, Labels, Text, EncLen, Get16, Get32, HasBytes, Asks;
    RrParts(r);
    HasBytesParts(m, p, r.owner.Bytes(), r.Fixed() + r.data.Bytes());
    var q := p + |r.owner.Bytes()|;
    HasBytesParts(m, q, r.Fixed(), r.data.Bytes());
    NameHere(m, p, r.owner, asked);
    FixedHere(m, q, r);
    BytesInside(m, q, r.Fixed());
    BytesInside(m, q + 10, r.data.Bytes());
    if r.data.NameData? {
      NameHere(m, q + 10, r.data.name, asked);
    }
  }

  /** The records rs are read as the records recs. */
  ghost predicate AllRead(m: seq<byte>, asked: seq<Label>, rs: seq<Rr>, recs: seq<Record>)
    requires AllValid(rs)
  {
    |rs| == |recs| && forall i :: 0 <= i < |rs| ==> assert rs[i] in rs; rs[i].IsReadAs(m, asked, recs[i])
  }

  lemma {:induction false} AnswersHere(m: seq<byte>, p: nat, rs: seq<Rr>, asked: seq<Label>)
    requires AllValid(rs) && HasBytes(m, p, AnswerSection(rs)) && Asks(m, asked)
    ensures var recs := RecordsFrom(m, p, |rs|); recs.Some? && AllRead(m, asked, rs, recs.value)
    decreases |rs|
  {
    hide Rr.Valid, Rr.Bytes, Rr.IsReadAs, Asks, HasBytes, RecordFits, HeadAt;
    if rs != [] {
      var r, rest := rs[0], rs[1..];
      assert r in rs && rs == [r] + rest;
      HasBytesParts(m, p, r.Bytes(), AnswerSection(rest));
      RrHere(m, p, r, asked);
      AnswersHere(m, p + |r.Bytes()|, rest, asked);
      RecordsFromSplit(m, p, |rs|);
    }
  }

  /** Reading a reply gives back the question and every record, whatever follows them. */
  lemma ReplyIsRead(head: seq<byte>, asked: seq<Label>, kind: seq<byte>, rs: seq<Rr>, rest: seq<byte>)
    requires IsHeader(head, rs) && WireLabels(asked) && |kind| == 4 && AllValid(rs)
    ensures var m := Reply(head, asked, kind, rs, rest);
            && HasQuestion(m) && AskedName(m) == Text(asked)
            && Answers(m).Some? && AllRead(m, asked, rs, Answers(m).value)
  {
    hide Encoding, AnswerSection, Text, AllRead, RecordsFrom, AllValid;
    var m := Reply(head, asked, kind, rs, rest);
    var tail := kind + (AnswerSection(rs) + rest);
    DecodeEncoding(head, asked, tail);
    EndsOnce(m, 12, |asked|);
    var p := 12 + |Encoding(asked)| + 4;
    assert m[p..p + |AnswerSection(rs)|] == AnswerSection(rs);
    assert m[6] == head[6] && m[7] == head[7] && m[4] == 0 && m[5] == 1;
    AnswersHere(m, p, rs, asked);
  }
}
