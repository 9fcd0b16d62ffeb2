/** Whether a reply repeats the questions of a request (same_questions in ares_process.c). */
module Questions {
  import opened Wire
  import opened ExpandName
  import opened CompressedNames
  import opened MkQuery
  import opened NameRoundTrip

  datatype Question = Question(name: seq<byte>, rrtype: nat, dnsclass: nat)
  {
    predicate Same(other: Question) {
      SameName(name, other.name) && rrtype == other.rrtype && dnsclass == other.dnsclass
    }
  }

  ghost predicate QuestionFits(m: seq<byte>, p: nat) {
    Decodes(m, p) && p + EncLen(m, p) + QFIXEDSZ <= |m|
  }

  ghost function QuestionAt(m: seq<byte>, p: nat): Question
    requires QuestionFits(m, p)
  {
    var q := p + EncLen(m, p);
    Question(Text(Labels(m, p)), Get16(m, q), Get16(m, q + 2))
  }

  ghost function AfterQuestion(m: seq<byte>, p: nat): (r: nat)
    requires QuestionFits(m, p)
    ensures r <= |m|
  {
    p + EncLen(m, p) + QFIXEDSZ
  }

  /** x is among the n questions of m from p on, and all questions before it are well-formed. */
  ghost predicate Occurs(x: Question, m: seq<byte>, p: nat, n: nat)
    decreases n
  {
    n > 0 && QuestionFits(m, p) && (x.Same(QuestionAt(m, p)) || Occurs(x, m, AfterQuestion(m, p), n - 1))
  }

  /** The n questions of q from p on are well-formed, and all of them occur in a. */
  ghost predicate AllOccur(q: seq<byte>, p: nat, n: nat, a: seq<byte>)
    requires HFIXEDSZ <= |a|
    decreases n
  {
    n == 0 ||
    (&& QuestionFits(q, p) && Occurs(QuestionAt(q, p), a, HFIXEDSZ, Get16(a, 4))
     && AllOccur(q, AfterQuestion(q, p), n - 1, a))
  }

  ghost predicate RepeatsQuestions(q: seq<byte>, a: seq<byte>) {
    HFIXEDSZ <= |q| && HFIXEDSZ <= |a| && Get16(q, 4) == Get16(a, 4) && AllOccur(q, HFIXEDSZ, Get16(q, 4), a)
  }

  /** Decodes one question. */
  method ReadQuestion(m: seq<byte>, p: nat) returns (ok: bool, x: Question, next: nat)
    requires p <= |m|
    ensures ok <==> QuestionFits(m, p)
    ensures ok ==> x == QuestionAt(m, p) && next == AfterQuestion(m, p)
  {
    var status, buffer, len := AresExpandName(m, p);
    x, next := Question([], 0, 0), 0;
    if status != SUCCESS {
      return false, x, next;
    }
    var name := buffer[..buffer.Length - 1];
    var q := p + len;
    if q + QFIXEDSZ > |m| {
      return false, x, next;
    }
    return true, Question(name, Get16(m, q), Get16(m, q + 2)), q + QFIXEDSZ;
  }

  /** The inner loop: searches the reply for one question. */
  method FindQuestion(x: Question, abuf: seq<byte>) returns (found: bool)
    requires HFIXEDSZ <= |abuf|
    ensures found <==> Occurs(x, abuf, HFIXEDSZ, Get16(abuf, 4))
  {
    hide Decodes, Labels, Text, SameName;
    var p: nat := HFIXEDSZ;
    var qdcount := Get16(abuf, 4);
    for j := 0 to qdcount
      invariant p <= |abuf|
      invariant Occurs(x, abuf, HFIXEDSZ, qdcount) <==> Occurs(x, abuf, p, qdcount - j)
    {
      var ok, y, next := ReadQuestion(abuf, p);
      if !ok {
        return false;
      }
      if SameName(x.name, y.name) && x.rrtype == y.rrtype && x.dnsclass == y.dnsclass {
        return true;
      }
      p := next;
    }
    return false;
  }

  /** same_questions: every question of the request is well-formed and occurs in the reply. */
  method SameQuestions(qbuf: seq<byte>, abuf: seq<byte>) returns (same: bool)
    ensures same <==> RepeatsQuestions(qbuf, abuf)
  {
    hide Decodes, Labels, Text, SameName, Occurs;
    if |qbuf| < HFIXEDSZ || |abuf| < HFIXEDSZ {
      return false;
    }
    var qdcount := Get16(qbuf, 4);
    if qdcount != Get16(abuf, 4) {
      return false;
    }
    var p: nat := HFIXEDSZ;
    for i := 0 to qdcount
      invariant p <= |qbuf|
      invariant AllOccur(qbuf, HFIXEDSZ, qdcount, abuf) <==> AllOccur(qbuf, p, qdcount - i, abuf)
    {
      var ok, x, next := ReadQuestion(qbuf, p);
      if !ok {
        return false;
      }
      var found := FindQuestion(x, abuf);
      if !found {
        return false;
      }
      p := next;
    }
    return true;
  }

  // ----- requests made by ares_mkquery

  lemma QueryQuestion(ls: seq<Label>, dnsclass: int, rrtype: int, id: nat, rd: bool)
    requires QueryLabels(ls) && id < 0x1_0000
    ensures var m := QueryBytes(ls, dnsclass, rrtype, id, rd);
            && |m| >= HFIXEDSZ && Get16(m, 4) == 1 && QuestionFits(m, HFIXEDSZ)
            && QuestionAt(m, HFIXEDSZ) == Question(Text(ls), rrtype % 0x1_0000, dnsclass % 0x1_0000)
  {
    hide Labels, Text, EncLen, QueryBytes, Put16;
    ReadQuery(ls, dnsclass, rrtype, id, rd);
    QueryFields(ls, dnsclass, rrtype, id, rd);
  }

  /** A reply is taken to answer a request made by ares_mkquery exactly when it has one question,
      for the same name up to the case of letters, the same type and the same class. */
  lemma RepliesTo(ls: seq<Label>, dnsclass: int, rrtype: int, id: nat, rd: bool, a: seq<byte>)
    requires QueryLabels(ls) && id < 0x1_0000
    ensures RepeatsQuestions(QueryBytes(ls, dnsclass, rrtype, id, rd), a) <==>
              && 12 <= |a| && a[4] == 0 && a[5] == 1 && Decodes(a, 12)
              && var q := 12 + EncLen(a, 12);
                 && q + 4 <= |a| && EqualNames(Text(ls), Text(Labels(a, 12)))
                 && a[q] as int * 256 + a[q + 1] as int == rrtype % 0x1_0000
                 && a[q + 2] as int * 256 + a[q + 3] as int == dnsclass % 0x1_0000
  {
    hide Decodes, Labels, Text, SameName, EncLen, QueryBytes, EqualNames;
    var q := QueryBytes(ls, dnsclass, rrtype, id, rd);
    QueryQuestion(ls, dnsclass, rrtype, id, rd);
    if 12 <= |a| && Get16(a, 4) == 1 {
      var x := QuestionAt(q, HFIXEDSZ);
      assert AllOccur(q, HFIXEDSZ, 1, a) <==> Occurs(x, a, HFIXEDSZ, 1);
      assert Occurs(x, a, HFIXEDSZ, 1) <==> QuestionFits(a, HFIXEDSZ) && x.Same(QuestionAt(a, HFIXEDSZ));
      if QuestionFits(a, 12) {
        SameNameIsEqualNames(Text(ls), Text(Labels(a, 12)));
      }
    }
  }

  /** A reply that carries the question section of the request unchanged, after any header with
      one question and before any records, is taken to answer it. */
  lemma EchoIsRecognized(ls: seq<Label>, dnsclass: int, rrtype: int, id: nat, rd: bool, head: seq<byte>,
                         rest: seq<byte>)
    requires QueryLabels(ls) && id < 0x1_0000 && |head| == HFIXEDSZ && Get16(head, 4) == 1
    ensures var q := QueryBytes(ls, dnsclass, rrtype, id, rd);
            RepeatsQuestions(q, head + q[HFIXEDSZ..] + rest)
  {
    QueryLabelsAreWireLabels(ls);
    var q := QueryBytes(ls, dnsclass, rrtype, id, rd);
    var section := Put16(rrtype) + Put16(dnsclass);
    var a := head + q[HFIXEDSZ..] + rest;
    var body := head + Encoding(ls);
    assert q[HFIXEDSZ..] == Encoding(ls) + section;
    assert a == body + (section + rest);
    DecodeEncoding(head, ls, section + rest);
    EndsOnce(a, HFIXEDSZ, |ls|);
    assert Get16(a, 4) == Get16(head, 4);
    assert a == body + Put16(rrtype) + (Put16(dnsclass) + rest);
    Get16Put16(body, rrtype, Put16(dnsclass) + rest);
    assert a == (body + Put16(rrtype)) + Put16(dnsclass) + rest;
    Get16Put16(body + Put16(rrtype), dnsclass, rest);
    SameNameEquivalence(Text(ls), Text(ls), Text(ls));
    SameNameIsEqualNames(Text(ls), Text(ls));
    assert Get16(a, 4) == 1;
    RepliesTo(ls, dnsclass, rrtype, id, rd, a);
  }

  /** A request with exactly one question, which is well-formed and is x up to case. */
  ghost predicate AsksFor(q: seq<byte>, x: Question) {
    && HFIXEDSZ <= |q| && Get16(q, 4) == 1
    && QuestionFits(q, HFIXEDSZ) && QuestionAt(q, HFIXEDSZ).Same(x)
  }

  /** Two requests that one and the same reply with one question repeats ask the same. */
  lemma RepeatedAskTheSame(q: seq<byte>, q': seq<byte>, a: seq<byte>)
    requires RepeatsQuestions(q, a) && RepeatsQuestions(q', a) && Get16(a, 4) == 1
    ensures QuestionFits(q, HFIXEDSZ) && AsksFor(q', QuestionAt(q, HFIXEDSZ))
  {
    hide Decodes, Labels, Text, SameName, EncLen;
    forall r | r in [q, q'] ensures QuestionFits(r, HFIXEDSZ) && QuestionFits(a, HFIXEDSZ) {
      assert AllOccur(r, HFIXEDSZ, 1, a);
    }
    var x, x', y := QuestionAt(q, HFIXEDSZ), QuestionAt(q', HFIXEDSZ), QuestionAt(a, HFIXEDSZ);
    assert AllOccur(q, HFIXEDSZ, 1, a) && Occurs(x, a, HFIXEDSZ, 1) && x.Same(y);
    assert AllOccur(q', HFIXEDSZ, 1, a) && Occurs(x', a, HFIXEDSZ, 1) && x'.Same(y);
    SameNameEquivalence(x.name, y.name, x.name);
    SameNameEquivalence(x'.name, y.name, x.name);
  }

  // ----- question sections byte by byte

  datatype Asked = Asked(labels: seq<Label>, rrtype: nat, dnsclass: nat)
  {
    predicate Valid() {
      WireLabels(labels) && rrtype < 0x1_0000 && dnsclass < 0x1_0000
    }

    function Bytes(): seq<byte>
      requires Valid()
    {
      Encoding(labels) + [rrtype / 256, rrtype % 256, dnsclass / 256, dnsclass % 256]
    }

    ghost predicate Matches(other: Asked) {
      EqualNames(Text(labels), Text(other.labels)) && rrtype == other.rrtype && dnsclass == other.dnsclass
    }

    ghost predicate IsAmong(xs: seq<Asked>) {
      exists x :: x in xs && Matches(x)
    }
  }

  predicate AllAskable(xs: seq<Asked>) {
    forall x :: x in xs ==> x.Valid()
  }

  /** The questions, one after the other (RFC 1035 section 4.1.2). */
  function QuestionSection(xs: seq<Asked>): seq<byte>
    requires AllAskable(xs)
  {
    if xs == [] then [] else assert xs[0] in xs; xs[0].Bytes() + QuestionSection(xs[1..])
  }

  /** A header that announces the questions, the questions, and anything else. */
  function Asking(head: seq<byte>, xs: seq<Asked>, rest: seq<byte>): seq<byte>
    requires |head| == 12 && head[4] as int * 256 + head[5] as int == |xs| && AllAskable(xs)
  {
    head + QuestionSection(xs) + rest
  }

  lemma QuestionHere(m: seq<byte>, p: nat, x: Asked)
    requires x.Valid() && HasBytes(m, p, x.Bytes())
    ensures QuestionFits(m, p) && QuestionAt(m, p) == Question(Text(x.labels), x.rrtype, x.dnsclass)
    ensures AfterQuestion(m, p) == p + |x.Bytes()|
  {
    hide Encoding, Text;
    var e, b := Encoding(x.labels), x.Bytes();
    var q := p + |e|;
    assert b[..|e|] == e;
    var tail := m[q..];
    assert m == m[..p] + m[p..p + |b|] + m[p + |b|..];
    assert m == m[..p] + e + tail;
    DecodeEncoding(m[..p], x.labels, tail);
    EndsOnce(m, p, |x.labels|);
    assert m[q..q + 4] == b[|e|..];
  }

  lemma {:induction false} OccursMeaning(x: Question, x': Asked, a: seq<byte>, p: nat, ys: seq<Asked>)
    requires AllAskable(ys) && HasBytes(a, p, QuestionSection(ys))
    requires x == Question(Text(x'.labels), x'.rrtype, x'.dnsclass)
    ensures Occurs(x, a, p, |ys|) <==> x'.IsAmong(ys)
    decreases |ys|
  {
    hide SameName, Text, EqualNames, Asked.Bytes, QuestionFits, QuestionAt;
    if ys != [] {
      var y := ys[0];
      assert y in ys && ys == [y] + ys[1..];
      HasBytesParts(a, p, y.Bytes(), QuestionSection(ys[1..]));
      QuestionHere(a, p, y);
      SameNameIsEqualNames(x.name, Text(y.labels));
      OccursMeaning(x, x', a, p + |y.Bytes()|, ys[1..]);
    }
  }

  lemma AllOccurStep(q: seq<byte>, p: nat, n: nat, a: seq<byte>)
    requires 12 <= |a|
    ensures AllOccur(q, p, 0, a)
    ensures n > 0 && QuestionFits(q, p) ==>
              (AllOccur(q, p, n, a) <==>
               Occurs(QuestionAt(q, p), a, 12, Get16(a, 4)) && AllOccur(q, AfterQuestion(q, p), n - 1, a))
  {
  }

  lemma {:induction false} AllOccurMeaning(q: seq<byte>, p: nat, xs: seq<Asked>, a: seq<byte>, ys: seq<Asked>)
    requires AllAskable(xs) && AllAskable(ys) && HasBytes(q, p, QuestionSection(xs))
    requires 12 <= |a| && HasBytes(a, 12, QuestionSection(ys)) && Get16(a, 4) == |ys|
    ensures AllOccur(q, p, |xs|, a) <==> forall x :: x in xs ==> x.IsAmong(ys)
    decreases |xs|
  {
    hide Text, Asked.Bytes, Asked.IsAmong, QuestionFits, QuestionAt, Occurs, AfterQuestion, AllOccur;
    AllOccurStep(q, p, |xs|, a);
    if xs != [] {
      var x := xs[0];
      assert x in xs && xs == [x] + xs[1..];
      HasBytesParts(q, p, x.Bytes(), QuestionSection(xs[1..]));
      QuestionHere(q, p, x);
      OccursMeaning(QuestionAt(q, p), x, a, 12, ys);
      AllOccurMeaning(q, p + |x.Bytes()|, xs[1..], a, ys);
    }
  }

  /** A reply repeats a request exactly if it has as many questions, and each question of the
      request is among them, up to the case of letters in the name. */
  lemma RepeatsMeaning(head: seq<byte>, xs: seq<Asked>, rest: seq<byte>, head': seq<byte>, ys: seq<Asked>,
                       rest': seq<byte>)
    requires |head| == 12 && head[4] as int * 256 + head[5] as int == |xs| && AllAskable(xs)
    requires |head'| == 12 && head'[4] as int * 256 + head'[5] as int == |ys| && AllAskable(ys)
    ensures RepeatsQuestions(Asking(head, xs, rest), Asking(head', ys, rest')) <==>
              |xs| == |ys| && forall x :: x in xs ==> x.IsAmong(ys)
  {
    hide QuestionSection, Asked.IsAmong, AllOccur;
    var q, a := Asking(head, xs, rest), Asking(head', ys, rest');
    assert HasBytes(q, 12, QuestionSection(xs)) && HasBytes(a, 12, QuestionSection(ys));
    assert Get16(q, 4) == |xs| && Get16(a, 4) == |ys|;
    AllOccurMeaning(q, 12, xs, a, ys);
  }

  /** The decision of the program on such messages. */
  method CompareQuestions(head: seq<byte>, xs: seq<Asked>, rest: seq<byte>, head': seq<byte>, ys: seq<Asked>,
                          rest': seq<byte>) returns (same: bool)
    requires |head| == 12 && head[4] as int * 256 + head[5] as int == |xs| && AllAskable(xs)
    requires |head'| == 12 && head'[4] as int * 256 + head'[5] as int == |ys| && AllAskable(ys)
    ensures same <==> |xs| == |ys| && forall x :: x in xs ==> x.IsAmong(ys)
  {
    hide Asking, RepeatsQuestions, Asked.IsAmong;
    RepeatsMeaning(head, xs, rest, head', ys, rest');
    same := SameQuestions(Asking(head, xs, rest), Asking(head', ys, rest'));
  }
}
