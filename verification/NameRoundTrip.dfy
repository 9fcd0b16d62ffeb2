/**
  The two halves of the name codec together: what ares_mkquery writes, ares_expand_name reads
  back, and the textual form determines the labels.
 */
module NameRoundTrip {
  import opened Wire
  import opened ExpandName
  import opened MkQuery

  predicate NulFree(ls: seq<Label>) {
    forall l :: l in ls ==> 0 !in l
  }

  /** The last label ends in a period, which is printed after a backslash. */
  predicate LastEndsInPeriod(ls: seq<Label>) {
    ls != [] && ls[|ls| - 1] != [] && ls[|ls| - 1][|ls[|ls| - 1]| - 1] == DOT
  }

  lemma {:induction false} PrintedLabel(pre: seq<byte>, l: Label, post: seq<byte>)
    requires post == [] || post[0] == DOT
    ensures var name := pre + Escape(l) + post;
            LabelAt(name, |pre|) == l && LabelEnd(name, |pre|) == |pre| + |Escape(l)|
    decreases |l|
  {
    hide LabelAt, LabelEnd, Escape;
    var name, i := pre + Escape(l) + post, |pre|;
    LabelStep(name, i);
    EscapeStep(l);
    if l == [] {
      assert i < |name| ==> name[i] == DOT;
    } else {
      var first := if l[0] == DOT || l[0] == BACKSLASH then [BACKSLASH, l[0]] else [l[0]];
      PrintedLabel(pre + first, l[1..], post);
      Reassociate(pre, first, Escape(l[1..]), []);
      assert name[i] == first[0];
      if |first| == 2 {
        assert name[i + 1] == l[0];
      }
    }
  }

  /** The text from one label on: what follows the label, if anything, is a period. */
  lemma TextParts(ls: seq<Label>)
    requires ls != []
    ensures var post := if |ls| == 1 then [] else [DOT] + Text(ls[1..]);
            Text(ls) == Escape(ls[0]) + post
  {
  }

  lemma {:induction false} PrintedFields(pre: seq<byte>, ls: seq<Label>)
    requires ls != []
    ensures Fields(Tokens(pre + Text(ls), |pre|)) == ls
    decreases |ls|
  {
    hide Tokens, Fields, LabelAt, LabelEnd, Escape, Text;
    var name, l, rest := pre + Text(ls), ls[0], ls[1..];
    var post := if |ls| == 1 then [] else [DOT] + Text(rest);
    TextParts(ls);
    PrintedLabel(pre, l, post);
    Reassociate(pre, Escape(l), post, []);
    assert name == pre + Escape(l) + post;
    FieldsAt(name, |pre|);
    assert ls == [l] + rest;
    if |ls| > 1 {
      var pre' := pre + Escape(l) + [DOT];
      PrintedFields(pre', rest);
      Reassociate(pre + Escape(l), [DOT], Text(rest), []);
      assert name == pre' + Text(rest);
    }
  }

  lemma RootFields()
    ensures Fields(Tokens([DOT], 0)) == [[], []]
  {
    assert Tokens([DOT], 1) == [];
    assert Tokens([DOT], 0) == [Dot];
    assert [Dot][1..] == [];
  }

  lemma NonemptyLabels(ls: seq<Label>)
    requires QueryLabels(ls)
    ensures [] !in ls
  {
    assert !QueryLabel([]);
  }

  /** Parsing the printed form of a list of nonempty labels gives the list back. */
  lemma ParsePrinted(ls: seq<Label>)
    requires [] !in ls
    ensures NameLabels(Text(ls)) == ls
  {
    var name := Text(ls);
    if ls == [] {
      assert Tokens(name, 0) == [];
    } else {
      PrintedFields([], ls);
      assert [] + name == name;
      assert ls[|ls| - 1] != [];
      RootFields();
    }
  }

  /** Different lists of nonempty labels have different texts. */
  lemma TextIsInjective(a: seq<Label>, b: seq<Label>)
    requires [] !in a && [] !in b && Text(a) == Text(b)
    ensures a == b
  {
    ParsePrinted(a);
    ParsePrinted(b);
  }

  lemma NoFields()
    ensures Fields([]) == [[]]
  {
  }

  lemma {:induction false} LastField(ts: seq<Token>)
    requires Fields(ts)[|Fields(ts)| - 1] != []
    ensures var f := Fields(ts)[|Fields(ts)| - 1]; ts != [] && ts[|ts| - 1] == Byte(f[|f| - 1])
  {
    hide Fields;
    FieldsSize(ts);
    var t, rest := ts[0], ts[1..];
    assert ts == [t] + rest;
    FieldsCons(t, rest);
    FieldsSize(rest);
    if rest == [] {
      NoFields();
    } else {
      LastField(rest);
    }
  }

  lemma {:induction false} EscapeNulFree(l: Label)
    requires 0 !in l
    ensures 0 !in Escape(l)
  {
    if l != [] {
      EscapeNulFree(l[1..]);
    }
  }

  lemma {:induction false} TextNulFree(ls: seq<Label>)
    requires NulFree(ls)
    ensures 0 !in Text(ls)
  {
    if ls != [] {
      EscapeNulFree(ls[0]);
      TextNulFree(ls[1..]);
    }
  }

  lemma {:induction false} TokensNulFree(name: seq<byte>, i: nat)
    requires 0 !in name && i <= |name|
    ensures Byte(0) !in Tokens(name, i)
    decreases |name| - i
  {
    if i < |name| {
      if name[i] == BACKSLASH && i + 1 < |name| {
        TokensNulFree(name, i + 2);
      } else {
        TokensNulFree(name, i + 1);
      }
    }
  }

  lemma {:induction false} FieldsNulFree(ts: seq<Token>)
    requires Byte(0) !in ts
    ensures NulFree(Fields(ts))
  {
    if ts != [] {
      FieldsNulFree(ts[1..]);
      var rest := Fields(ts[1..]);
      assert rest[0] in rest;
      assert ts[0].Byte? ==> ts[0].b != 0;
    }
  }

  lemma NotRoot(ls: seq<Label>)
    requires [] !in ls
    ensures Text(ls) != [DOT]
  {
    if ls != [] {
      PrintedFields([], ls);
      assert [] + Text(ls) == Text(ls);
      RootFields();
      var root: seq<Label> := [[], []];
      assert root[0] in root;
    }
  }

  lemma NoTokens()
    ensures Tokens([], 0) == [] && Fields([]) == [[]]
  {
  }

  lemma PrintedLast(ls: seq<Label>)
    requires [] !in ls
    ensures EndsInEscapedPeriod(Text(ls)) <==> LastEndsInPeriod(ls)
  {
    hide Tokens, Fields, Escape;
    var ts := Tokens(Text(ls), 0);
    if ls == [] {
      NoTokens();
    } else {
      PrintedFields([], ls);
      assert [] + Text(ls) == Text(ls);
      assert ls[|ls| - 1] in ls;
      FieldsSize(ts);
      LastField(ts);
    }
  }

  /** The first pass measures a printed name exactly, unless the last label ends in a period. */
  lemma PrintedLength(ls: seq<Label>)
    requires [] !in ls
    ensures EndsInEscapedPeriod(Text(ls)) <==> LastEndsInPeriod(ls)
    ensures PrepassLength(Text(ls)) == WireSize(ls) + if LastEndsInPeriod(ls) then 0 else 1
  {
    hide Tokens, Fields, Escape, Text, NameLabels, WireSize, PrepassLength;
    var name := Text(ls);
    ParsePrinted(ls);
    PrepassExact(name);
    PrintedLast(ls);
    NotRoot(ls);
  }

  /** Inside a query, the name decodes to its labels and its length is that of its encoding. */
  lemma ReadQuery(ls: seq<Label>, dnsclass: int, rrtype: int, id: nat, rd: bool)
    requires QueryLabels(ls)
    ensures var m := QueryBytes(ls, dnsclass, rrtype, id, rd);
            && Decodes(m, HFIXEDSZ) && Labels(m, HFIXEDSZ) == ls
            && EncLen(m, HFIXEDSZ) == WireSize(ls) + 1
            && |m| == HFIXEDSZ + WireSize(ls) + 1 + QFIXEDSZ
  {
    QueryLabelsAreWireLabels(ls);
    var m := QueryBytes(ls, dnsclass, rrtype, id, rd);
    var tail := Put16(rrtype) + Put16(dnsclass);
    assert m == Header(id, rd) + Encoding(ls) + tail;
    DecodeEncoding(Header(id, rd), ls, tail);
    EndsOnce(m, HFIXEDSZ, |ls|);
    WireBodySize(ls);
  }

  /** Round trip, from the text: for NUL-free labels of 1..63 bytes that fit in 255 bytes on the
      wire, parsing the printed name gives the labels, and expanding the name in the resulting
      query gives the text. */
  lemma EncodeThenExpand(ls: seq<Label>, dnsclass: int, rrtype: int, id: nat, rd: bool)
    requires QueryLabels(ls) && NulFree(ls) && WireSize(ls) + 1 <= MAXCDNAME
    ensures var name := Text(ls);
            && 0 !in name && PrepassLength(name) <= MAXCDNAME && NameLabels(name) == ls
            && var m := QueryBytes(NameLabels(name), dnsclass, rrtype, id, rd);
               Decodes(m, HFIXEDSZ) && Text(Labels(m, HFIXEDSZ)) == name
  {
    NonemptyLabels(ls);
    TextNulFree(ls);
    ParsePrinted(ls);
    PrintedLength(ls);
    ReadQuery(ls, dnsclass, rrtype, id, rd);
  }

  /** Round trip, from any accepted name: what the query expands to denotes the same labels, so
      encoding the expansion once more changes nothing. */
  lemma ExpandIsCanonical(name: seq<byte>, dnsclass: int, rrtype: int, id: nat, rd: bool)
    requires 0 !in name && QueryLabels(NameLabels(name))
    ensures var m := QueryBytes(NameLabels(name), dnsclass, rrtype, id, rd);
            && Decodes(m, HFIXEDSZ)
            && var text := Text(Labels(m, HFIXEDSZ));
               0 !in text && NameLabels(text) == NameLabels(name)
  {
    var ls := NameLabels(name);
    ReadQuery(ls, dnsclass, rrtype, id, rd);
    NonemptyLabels(ls);
    ParsePrinted(ls);
    TokensNulFree(name, 0);
    FieldsNulFree(Tokens(name, 0));
    TextNulFree(ls);
  }

  /** The fixed fields of a query, read as the receiver of the message reads them. */
  lemma QueryFields(ls: seq<Label>, dnsclass: int, rrtype: int, id: nat, rd: bool)
    requires QueryLabels(ls) && id < 0x1_0000
    ensures var m := QueryBytes(ls, dnsclass, rrtype, id, rd);
            var q := HFIXEDSZ + WireSize(ls) + 1;
            && |m| == q + QFIXEDSZ
            && Get16(m, 0) == id && m[2] % 2 == (if rd then 1 else 0)
            && Get16(m, 4) == 1 && Get16(m, 6) == 0 && Get16(m, 8) == 0 && Get16(m, 10) == 0
            && Get16(m, q) == rrtype % 0x1_0000 && Get16(m, q + 2) == dnsclass % 0x1_0000
  {
    var m := QueryBytes(ls, dnsclass, rrtype, id, rd);
    QueryLabelsAreWireLabels(ls);
    WireBodySize(ls);
    var head := Header(id, rd) + Encoding(ls);
    Get16Put16([], id, m[2..]);
    assert m == [] + Put16(id) + m[2..];
    Get16Put16(head, rrtype, Put16(dnsclass));
    assert m == head + Put16(rrtype) + Put16(dnsclass);
    Get16Put16(head + Put16(rrtype), dnsclass, []);
    assert m == head + Put16(rrtype) + Put16(dnsclass) + [];
  }

  /** A name that ends in an escaped period is encoded one byte past the end of its buffer:
      the name "a\." has the single label "a.", which takes 20 bytes of the 19 allocated. */
  lemma EscapedPeriodOverrun()
    ensures var name: seq<byte> := [97, BACKSLASH, DOT];
            && NameLabels(name) == [[97, DOT]] && EndsInEscapedPeriod(name)
            && PrepassLength(name) + HFIXEDSZ + QFIXEDSZ == 19
            && HFIXEDSZ + WireSize(NameLabels(name)) + 1 + QFIXEDSZ == 20
  {
    var name: seq<byte> := [97, BACKSLASH, DOT];
    var l: Label := [97, DOT];
    assert Escape(l[1..][1..]) == [];
    assert Escape(l[1..]) == [BACKSLASH, DOT];
    assert Escape(l) == name;
    assert Text([l]) == name;
    ParsePrinted([l]);
    PrintedLength([l]);
  }

  /** The two functions one after the other. */
  method MakeAndExpand(ls: seq<Label>, dnsclass: int, rrtype: int, id: nat, rd: bool)
      returns (name: seq<byte>, expanded: array<byte>, enclen: nat)
    requires QueryLabels(ls) && NulFree(ls) && WireSize(ls) + 1 <= MAXCDNAME && id < 0x1_0000
    ensures name == Text(ls)
    ensures expanded[..] == name + [0] && enclen == WireSize(ls) + 1
  {
    EncodeThenExpand(ls, dnsclass, rrtype, id, rd);
    ReadQuery(ls, dnsclass, rrtype, id, rd);
    name := Text(ls);
    var made, buf, buflen, end := AresMkquery(name, dnsclass, rrtype, id, rd);
    var status, s;
    status, s, enclen := AresExpandName(buf[..end], HFIXEDSZ);
    expanded := s;
  }
}
