/**
  Composing a query (ares_mkquery.c): a header, the domain name parsed from its textual form,
  and the question's type and class.
 */
module MkQuery {
  import opened Wire
  import opened ExpandName

  // ----- the textual form of a name

  /** One unit of the textual form: a separating period, or one byte of a label. */
  datatype Token = Dot | Byte(b: byte)

  /** A backslash makes the next byte literal; a backslash that ends the name stands for itself. */
  function Tokens(name: seq<byte>, i: nat): seq<Token>
    requires i <= |name|
    decreases |name| - i
  {
    if i == |name| then []
    else if name[i] == BACKSLASH && i + 1 < |name| then [Byte(name[i + 1])] + Tokens(name, i + 2)
    else [if name[i] == DOT then Dot else Byte(name[i])] + Tokens(name, i + 1)
  }

  /** The fields that the periods separate: always one more than there are periods. */
  function Fields(ts: seq<Token>): (fs: seq<Label>)
    ensures |fs| >= 1
  {
    if ts == [] then [[]]
    else
      var rest := Fields(ts[1..]);
      if ts[0].Dot? then [[]] + rest else [[ts[0].b] + rest[0]] + rest[1..]
  }

  lemma FieldsCons(t: Token, ts: seq<Token>)
    ensures Fields([t] + ts) ==
              if t.Dot? then [[]] + Fields(ts) else [[t.b] + Fields(ts)[0]] + Fields(ts)[1..]
  {
    assert ([t] + ts)[1..] == ts;
  }

  lemma TokensStep(name: seq<byte>, i: nat)
    requires i <= |name|
    ensures i == |name| ==> Tokens(name, i) == [] && Fields(Tokens(name, i)) == [[]]
    ensures i < |name| && name[i] == BACKSLASH && i + 1 < |name| ==>
              Tokens(name, i) == [Byte(name[i + 1])] + Tokens(name, i + 2)
    ensures i < |name| && name[i] == DOT ==> Tokens(name, i) == [Dot] + Tokens(name, i + 1)
    ensures i < |name| && name[i] != DOT && !(name[i] == BACKSLASH && i + 1 < |name|) ==>
              Tokens(name, i) == [Byte(name[i])] + Tokens(name, i + 1)
  {
  }

  /** A period may end the name: an empty last field is no label. */
  function DropLast(fs: seq<Label>): seq<Label>
    requires |fs| >= 1
  {
    if fs[|fs| - 1] == [] then fs[..|fs| - 1] else fs
  }

  /** The labels that a name denotes.  "." denotes the root, which has none. */
  function NameLabels(name: seq<byte>): seq<Label> {
    if name == [DOT] then [] else DropLast(Fields(Tokens(name, 0)))
  }

  predicate QueryLabel(l: Label) {
    1 <= |l| <= MAXLABEL
  }

  predicate QueryLabels(ls: seq<Label>) {
    forall l :: l in ls ==> QueryLabel(l)
  }

  lemma QueryLabelsAreWireLabels(ls: seq<Label>)
    requires QueryLabels(ls)
    ensures WireLabels(ls)
  {
    forall l | l in ls ensures WireLabel(l) {
      assert QueryLabel(l);
    }
  }

  // ----- sizes

  /** The bytes that labels take on the wire, a length byte each included. */
  function WireSize(ls: seq<Label>): nat {
    if ls == [] then 0 else 1 + |ls[0]| + WireSize(ls[1..])
  }

  lemma {:induction false} WireBodySize(ls: seq<Label>)
    requires WireLabels(ls)
    ensures |WireBody(ls)| == WireSize(ls)
  {
    if ls != [] {
      WireBodySize(ls[1..]);
    }
  }

  lemma {:induction false} WireSizeConcat(a: seq<Label>, b: seq<Label>)
    ensures WireSize(a + b) == WireSize(a) + WireSize(b)
  {
    if a == [] {
      assert [] + b == b;
    } else {
      WireSizeConcat(a[1..], b);
      assert (a + b)[1..] == a[1..] + b;
    }
  }

  lemma {:induction false} WireBodyConcat(a: seq<Label>, b: seq<Label>)
    requires WireLabels(a) && WireLabels(b)
    ensures WireLabels(a + b) && WireBody(a + b) == WireBody(a) + WireBody(b)
  {
    if a == [] {
      assert [] + b == b;
    } else {
      WireBodyConcat(a[1..], b);
      assert (a + b)[1..] == a[1..] + b;
    }
  }

  /** The name's last byte is a period that a backslash escapes. */
  predicate EndsInEscapedPeriod(name: seq<byte>) {
    var ts := Tokens(name, 0);
    ts != [] && ts[|ts| - 1] == Byte(DOT)
  }

  /** The length that the first pass computes for the encoded name. */
  function PrepassLength(name: seq<byte>): nat {
    1 + |Tokens(name, 0)| + if name != [] && name[|name| - 1] != DOT then 1 else 0
  }

  lemma {:induction false} FieldsSize(ts: seq<Token>)
    ensures WireSize(Fields(ts)) == |ts| + 1
    ensures Fields(ts)[|Fields(ts)| - 1] == [] <==> ts == [] || ts[|ts| - 1].Dot?
  {
    if ts != [] {
      FieldsSize(ts[1..]);
      var rest := Fields(ts[1..]);
      if ts[0].Dot? {
        assert Fields(ts)[1..] == rest;
      } else {
        assert Fields(ts)[1..] == rest[1..];
      }
      assert ts[1..] != [] ==> ts[1..][|ts| - 2] == ts[|ts| - 1];
    }
  }

  /** A raw period ends the name exactly when the last token is a period, or an escaped one. */
  lemma {:induction false} LastToken(name: seq<byte>, i: nat)
    requires i < |name|
    ensures var ts := Tokens(name, i);
            ts != [] && (name[|name| - 1] == DOT <==> ts[|ts| - 1] == Dot || ts[|ts| - 1] == Byte(DOT))
    decreases |name| - i
  {
    hide Tokens, Fields;
    TokensStep(name, i);
    var step := if name[i] == BACKSLASH && i + 1 < |name| then 2 else 1;
    if i + step < |name| {
      LastToken(name, i + step);
    } else {
      TokensStep(name, |name|);
    }
  }

  lemma EmptyLabelSize()
    ensures WireSize([]) == 0 && WireSize([[]]) == 1
  {
    assert WireSize([[]][1..]) == 0;
  }

  /** The first pass computes the size of the encoding, except that it counts one byte too few
      for a name that ends in an escaped period, and one too many for ".". */
  lemma PrepassExact(name: seq<byte>)
    ensures WireSize(NameLabels(name)) + 1 == PrepassLength(name)
              + (if EndsInEscapedPeriod(name) then 1 else 0) - (if name == [DOT] then 1 else 0)
  {
    hide Tokens, Fields, WireSize;
    var ts := Tokens(name, 0);
    var fs := Fields(ts);
    FieldsSize(ts);
    TokensStep(name, 0);
    EmptyLabelSize();
    if name != [] {
      LastToken(name, 0);
    }
    if name == [DOT] {
      TokensStep(name, 1);
    } else if fs[|fs| - 1] == [] {
      WireSizeConcat(fs[..|fs| - 1], [[]]);
      assert fs == fs[..|fs| - 1] + [[]];
    }
  }

  /** The encoding of an accepted name ends exactly at the end of its buffer if and only if the
      name is neither "." nor ends in an escaped period, and inside it if and only if the name
      does not end in an escaped period.  Only then is the limit of 255 bytes enforced exactly. */
  lemma EncodingFits(name: seq<byte>)
    ensures var encoded, measured := WireSize(NameLabels(name)) + 1, PrepassLength(name);
            && (encoded == measured <==> name != [DOT] && !EndsInEscapedPeriod(name))
            && (encoded <= measured <==> !EndsInEscapedPeriod(name))
            && (measured <= MAXCDNAME ==> encoded <= MAXCDNAME + if EndsInEscapedPeriod(name) then 1 else 0)
  {
    PrepassExact(name);
    if name == [DOT] {
      assert Tokens(name, 1) == [];
      assert Tokens(name, 0) == [Dot];
    }
  }

  // ----- one label of the name

  /** Where the label that starts at i ends: at an unescaped period or at the end of the name. */
  function LabelEnd(name: seq<byte>, i: nat): (e: nat)
    requires i <= |name|
    ensures i <= e <= |name|
    decreases |name| - i
  {
    if i == |name| || name[i] == DOT then i
    else if name[i] == BACKSLASH && i + 1 < |name| then LabelEnd(name, i + 2)
    else LabelEnd(name, i + 1)
  }

  function LabelAt(name: seq<byte>, i: nat): Label
    requires i <= |name|
    decreases |name| - i
  {
    if i == |name| || name[i] == DOT then []
    else if name[i] == BACKSLASH && i + 1 < |name| then [name[i + 1]] + LabelAt(name, i + 2)
    else [name[i]] + LabelAt(name, i + 1)
  }

  lemma LabelStep(name: seq<byte>, i: nat)
    requires i <= |name|
    ensures i == |name| || name[i] == DOT ==> LabelAt(name, i) == [] && LabelEnd(name, i) == i
    ensures i + 1 < |name| && name[i] == BACKSLASH ==>
              LabelAt(name, i) == [name[i + 1]] + LabelAt(name, i + 2) && LabelEnd(name, i) == LabelEnd(name, i + 2)
    ensures i < |name| && name[i] != DOT && !(name[i] == BACKSLASH && i + 1 < |name|) ==>
              LabelAt(name, i) == [name[i]] + LabelAt(name, i + 1) && LabelEnd(name, i) == LabelEnd(name, i + 1)
  {
  }

  lemma {:induction false} FieldsAt(name: seq<byte>, i: nat)
    requires i <= |name|
    ensures var e := LabelEnd(name, i);
            Fields(Tokens(name, i)) ==
              if e == |name| then [LabelAt(name, i)]
              else [LabelAt(name, i)] + Fields(Tokens(name, e + 1))
    decreases |name| - i
  {
    hide Fields, Tokens;
    TokensStep(name, i);
    if i < |name| {
      if name[i] == DOT {
        FieldsCons(Dot, Tokens(name, i + 1));
      } else if name[i] == BACKSLASH && i + 1 < |name| {
        FieldsCons(Byte(name[i + 1]), Tokens(name, i + 2));
        FieldsAt(name, i + 2);
      } else {
        FieldsCons(Byte(name[i]), Tokens(name, i + 1));
        FieldsAt(name, i + 1);
      }
    }
  }

  /** The labels still to be written when the encoding loop has come to position i. */
  function Remaining(name: seq<byte>, i: nat): seq<Label>
    requires i <= |name|
  {
    DropLast(Fields(Tokens(name, i)))
  }

  lemma RemainingStep(name: seq<byte>, i: nat)
    requires i <= |name|
    ensures i == |name| ==> Remaining(name, i) == []
    ensures i < |name| && name[i] == DOT ==> [] in Remaining(name, i)
    ensures i < |name| && name[i] != DOT ==>
              var l, e := LabelAt(name, i), LabelEnd(name, i);
              l != [] && Remaining(name, i) == [l] + if e == |name| then [] else Remaining(name, e + 1)
  {
    hide Fields, Tokens;
    FieldsAt(name, i);
    TokensStep(name, i);
    if i < |name| {
      var l, e := LabelAt(name, i), LabelEnd(name, i);
      if e < |name| {
        var rest := Fields(Tokens(name, e + 1));
        assert ([l] + rest)[|rest|] == rest[|rest| - 1];
        assert DropLast([l] + rest) == [l] + DropLast(rest);
        assert name[i] == DOT ==> ([l] + DropLast(rest))[0] == [];
      }
    }
  }

  // ----- the bytes of a query

  function Header(id: nat, rd: bool): seq<byte> {
    Put16(id) + [if rd then 1 else 0, 0] + Put16(1) + [0, 0, 0, 0, 0, 0]
  }

  /** Header, name and question, as RFC 1035 sections 4.1.1 and 4.1.2 lay them out. */
  function QueryBytes(ls: seq<Label>, dnsclass: int, rrtype: int, id: nat, rd: bool): seq<byte>
    requires QueryLabels(ls)
  {
    QueryLabelsAreWireLabels(ls);
    Header(id, rd) + Encoding(ls) + (Put16(rrtype) + Put16(dnsclass))
  }

  // ----- the passes of ares_mkquery

  /** The first pass: how long the encoding is going to be. */
  method MeasureName(name: seq<byte>) returns (len: nat)
    ensures len == PrepassLength(name)
  {
    len := 1;
    var p := 0;
    while p < |name|
      invariant p <= |name|
      invariant len + |Tokens(name, p)| == 1 + |Tokens(name, 0)|
    {
      if name[p] == BACKSLASH && p + 1 < |name| {
        p := p + 1;
      }
      p, len := p + 1, len + 1;
    }
    if name != [] && name[p - 1] != DOT {
      len := len + 1;
    }
  }

  method CountLabel(name: seq<byte>, start: nat) returns (len: nat)
    requires start <= |name|
    ensures len == |LabelAt(name, start)|
  {
    len := 0;
    var p := start;
    while p < |name| && name[p] != DOT
      invariant start <= p <= |name|
      invariant len + |LabelAt(name, p)| == |LabelAt(name, start)|
    {
      if name[p] == BACKSLASH && p + 1 < |name| {
        p := p + 1;
      }
      p, len := p + 1, len + 1;
    }
  }

  /** Copies the label at `start` to the buffer without its backslashes. */
  method CopyLabel(name: seq<byte>, start: nat, buf: array<byte>, q0: nat) returns (q: nat, p: nat)
    requires start <= |name| && q0 + |LabelAt(name, start)| <= buf.Length
    modifies buf
    ensures p == LabelEnd(name, start)
    ensures q == q0 + |LabelAt(name, start)|
    ensures buf[..q] == old(buf[..q0]) + LabelAt(name, start)
  {
    hide LabelAt, LabelEnd;
    q, p := q0, start;
    while p < |name| && name[p] != DOT
      invariant start <= p <= |name| && LabelEnd(name, p) == LabelEnd(name, start)
      invariant q0 <= q && q + |LabelAt(name, p)| == q0 + |LabelAt(name, start)|
      invariant buf[..q] + LabelAt(name, p) == old(buf[..q0]) + LabelAt(name, start)
    {
      LabelStep(name, p);
      ghost var rest := LabelAt(name, p);
      if name[p] == BACKSLASH && p + 1 < |name| {
        p := p + 1;
      }
      buf[q] := name[p];
      assert rest == [name[p]] + LabelAt(name, p + 1);
      p, q := p + 1, q + 1;
    }
    LabelStep(name, p);
  }

  /** Clears the header and sets the id, the recursion flag and the question count. */
  method WriteHeader(buf: array<byte>, id: nat, rd: bool)
    requires buf.Length >= HFIXEDSZ
    modifies buf
    ensures buf[..HFIXEDSZ] == Header(id, rd)
  {
    for k := 0 to HFIXEDSZ
      invariant forall j :: 0 <= j < k ==> buf[j] == 0
    {
      buf[k] := 0;
    }
    buf[0], buf[1] := id / 256 % 256, id % 256;
    if rd {
      buf[2] := 1;
    }
    buf[4], buf[5] := 0, 1;
  }

  /** The bytes written by the encoding loop so far: what stood before, and the labels done. */
  ghost predicate Written(head: seq<byte>, done: seq<Label>, bytes: seq<byte>) {
    QueryLabels(done) && WireLabels(done) && bytes == head + WireBody(done)
  }

  /** At position i of the name the labels done are the first of all its labels. */
  ghost predicate LabelsDone(name: seq<byte>, i: nat, done: seq<Label>) {
    i <= |name| && Remaining(name, 0) == done + Remaining(name, i)
  }

  lemma NothingWritten(name: seq<byte>, head: seq<byte>)
    ensures Written(head, [], head) && LabelsDone(name, 0, [])
  {
  }

  lemma WrittenStep(head: seq<byte>, done: seq<Label>, l: Label, bytes: seq<byte>)
    requires Written(head, done, bytes) && QueryLabel(l)
    ensures |l| < 256 && Written(head, done + [l], bytes + [|l|] + l)
    ensures |bytes| == |head| + WireSize(done)
  {
    WireBodySize(done);
    QueryLabelsAreWireLabels([l]);
    assert WireBody([l]) == [|l|] + l by {
      assert [l][1..] == [] && WireBody([]) == [];
    }
    WireBodyConcat(done, [l]);
    assert bytes + [|l|] + l == head + (WireBody(done) + ([|l|] + l));
  }

  lemma WrittenSize(head: seq<byte>, done: seq<Label>, bytes: seq<byte>)
    requires Written(head, done, bytes)
    ensures QueryLabels(done) && |bytes| == |head| + WireSize(done)
  {
    WireBodySize(done);
  }

  lemma LabelsDoneStep(name: seq<byte>, i: nat, done: seq<Label>)
    requires LabelsDone(name, i, done)
    ensures WireSize(done) <= WireSize(Remaining(name, 0))
    ensures i == |name| ==> done == Remaining(name, 0)
    ensures i < |name| && name[i] == DOT ==> !QueryLabels(Remaining(name, 0))
    ensures i < |name| && name[i] != DOT ==>
              var l, e := LabelAt(name, i), LabelEnd(name, i);
              && (QueryLabel(l) <==> |l| <= MAXLABEL)
              && (QueryLabels(Remaining(name, 0)) ==> QueryLabel(l))
              && WireSize(done) + 1 + |l| <= WireSize(Remaining(name, 0))
              && LabelsDone(name, if e == |name| then e else e + 1, done + [l])
  {
    hide Remaining, LabelAt, LabelEnd;
    var all, rest := Remaining(name, 0), Remaining(name, i);
    RemainingStep(name, i);
    WireSizeConcat(done, rest);
    if i == |name| {
      assert all == done;
    } else if name[i] == DOT {
      assert [] in all && !QueryLabel([]);
    } else {
      var l, e := LabelAt(name, i), LabelEnd(name, i);
      var i' := if e == |name| then e else e + 1;
      RemainingStep(name, i');
      assert rest == [l] + Remaining(name, i');
      assert rest[1..] == Remaining(name, i');
      assert done + rest == done + [l] + Remaining(name, i');
      assert l in all;
    }
  }

  /** Writes one label: its length, then its bytes. */
  method EncodeLabel(name: seq<byte>, start: nat, len: byte, buf: array<byte>, q0: nat, ghost head: seq<byte>,
                     ghost done: seq<Label>) returns (q: nat, p: nat)
    requires start <= |name| && len == |LabelAt(name, start)| && QueryLabel(LabelAt(name, start))
    requires q0 + 1 + |LabelAt(name, start)| <= buf.Length && Written(head, done, buf[..q0])
    modifies buf
    ensures p == LabelEnd(name, start) && q == q0 + 1 + |LabelAt(name, start)|
    ensures Written(head, done + [LabelAt(name, start)], buf[..q])
  {
    hide *;
    WrittenStep(head, done, LabelAt(name, start), buf[..q0]);
    ghost var before := buf[..q0];
    buf[q0] := len;
    assert buf[..q0 + 1] == before + [len];
    q, p := CopyLabel(name, start, buf, q0 + 1);
  }

  /** The encoding loop.  It stops with EBADNAME at the first label that is empty or too long;
      what it has written by then is inside the buffer. */
  method WriteLabels(name: seq<byte>, buf: array<byte>) returns (status: Status, q: nat)
    requires HFIXEDSZ + WireSize(Remaining(name, 0)) <= buf.Length
    modifies buf
    ensures status == if QueryLabels(Remaining(name, 0)) then SUCCESS else EBADNAME
    ensures q <= HFIXEDSZ + WireSize(Remaining(name, 0))
    ensures status == SUCCESS ==> Written(old(buf[..HFIXEDSZ]), Remaining(name, 0), buf[..q])
  {
    hide Remaining, Written, LabelsDone, LabelAt, LabelEnd, WireSize, QueryLabels, QueryLabel;
    q := HFIXEDSZ;
    var i := 0;
    ghost var done: seq<Label> := [];
    ghost var head := buf[..HFIXEDSZ];
    NothingWritten(name, head);
    while i < |name|
      invariant i <= |name| && LabelsDone(name, i, done)
      invariant HFIXEDSZ <= q <= buf.Length && Written(head, done, buf[..q])
    {
      LabelsDoneStep(name, i, done);
      WrittenSize(head, done, buf[..q]);
      if name[i] == DOT {
        return EBADNAME, q;
      }
      var len := CountLabel(name, i);
      if len > MAXLABEL {
        return EBADNAME, q;
      }
      ghost var l := LabelAt(name, i);
      var p;
      q, p := EncodeLabel(name, i, len, buf, q, head, done);
      done := done + [l];
      if p == |name| {
        i := p;
        break;
      }
      i := p + 1;
    }
    LabelsDoneStep(name, i, done);
    WrittenSize(head, done, buf[..q]);
    return SUCCESS, q;
  }

  /** The zero-length label, the type and the class. */
  method WriteQuestion(buf: array<byte>, q: nat, rrtype: int, dnsclass: int) returns (end: nat)
    requires q + 1 + QFIXEDSZ <= buf.Length
    modifies buf
    ensures end == q + 1 + QFIXEDSZ
    ensures buf[..end] == old(buf[..q]) + [0] + Put16(rrtype) + Put16(dnsclass)
  {
    buf[q] := 0;
    buf[q + 1], buf[q + 2] := rrtype / 256 % 256, rrtype % 256;
    buf[q + 3], buf[q + 4] := dnsclass / 256 % 256, dnsclass % 256;
    return q + 1 + QFIXEDSZ;
  }

  lemma QuestionDone(ls: seq<Label>, dnsclass: int, rrtype: int, id: nat, rd: bool, bytes: seq<byte>)
    requires Written(Header(id, rd), ls, bytes)
    ensures QueryLabels(ls)
    ensures bytes + [0] + Put16(rrtype) + Put16(dnsclass) == QueryBytes(ls, dnsclass, rrtype, id, rd)
    ensures |bytes| == HFIXEDSZ + WireSize(ls)
  {
    WireBodySize(ls);
  }

  /** ares_mkquery.  The buffer that the source allocates has `buflen` bytes; the array here has
      one byte more, so that the contract can tell where the writes end: `end` is the number of
      bytes written.  (Both are zero when nothing was allocated.) */
  method AresMkquery(name: seq<byte>, dnsclass: int, rrtype: int, id: nat, rd: bool)
      returns (status: Status, buf: array?<byte>, buflen: nat, end: nat)
    requires 0 !in name && id < 0x1_0000
    ensures status == if PrepassLength(name) <= MAXCDNAME && QueryLabels(NameLabels(name)) then SUCCESS else EBADNAME
    ensures PrepassLength(name) > MAXCDNAME ==> buf == null && buflen == 0 && end == 0
    ensures PrepassLength(name) <= MAXCDNAME ==>
              buf != null && buflen == PrepassLength(name) + HFIXEDSZ + QFIXEDSZ && buf.Length == buflen + 1
    ensures status == SUCCESS ==>
              end <= buf.Length && buf[..end] == QueryBytes(NameLabels(name), dnsclass, rrtype, id, rd)
    ensures status == SUCCESS ==>
              end == buflen + (if EndsInEscapedPeriod(name) then 1 else 0) - (if name == [DOT] then 1 else 0)
    ensures status != SUCCESS ==> end <= buflen
  {
    var len := MeasureName(name);
    if len > MAXCDNAME {
      return EBADNAME, null, 0, 0;
    }
    buflen := len + HFIXEDSZ + QFIXEDSZ;
    var buffer := new byte[buflen + 1];
    WriteHeader(buffer, id, rd);
    var text := if name == [DOT] then [] else name;
    ghost var labels := NameLabels(name);
    PrepassExact(name);
    assert Remaining(text, 0) == labels;
    hide *;
    var q;
    status, q := WriteLabels(text, buffer);
    if status != SUCCESS {
      return status, buffer, buflen, q;
    }
    QuestionDone(labels, dnsclass, rrtype, id, rd, buffer[..q]);
    end := WriteQuestion(buffer, q, rrtype, dnsclass);
    return SUCCESS, buffer, buflen, end;
  }
}
