/**
  The textual form of names read by people: every byte of a label may be written as it is or after
  a backslash.  What ares_mkquery makes of each such name is stated byte by byte.
 */
module SpelledNames {
  import opened Wire
  import opened ExpandName
  import opened MkQuery
  import opened NameRoundTrip

  /** One byte of a label, as it is written. */
  datatype Spelt = Spelt(b: byte, escaped: bool)

  function SpellLabel(us: seq<Spelt>): seq<byte> {
    if us == [] then [] else (if us[0].escaped then [92, us[0].b] else [us[0].b]) + SpellLabel(us[1..])
  }

  /** The bytes that are meant. */
  function Meant(us: seq<Spelt>): Label {
    if us == [] then [] else [us[0].b] + Meant(us[1..])
  }

  /** Periods (46) and backslashes (92) have to be escaped, except for a backslash at the very end
      of the name. */
  predicate Legible(us: seq<Spelt>, last: bool) {
    forall i :: 0 <= i < |us| ==>
      us[i].escaped || (us[i].b != 46 && (us[i].b == 92 ==> last && i == |us| - 1))
  }

  predicate LegibleName(w: seq<seq<Spelt>>) {
    w != [] && forall i :: 0 <= i < |w| ==> Legible(w[i], i == |w| - 1)
  }

  /** Labels separated by periods; an empty last label is a period that ends the name. */
  function SpellName(w: seq<seq<Spelt>>): seq<byte>
    requires w != []
  {
    if |w| == 1 then SpellLabel(w[0]) else SpellLabel(w[0]) + [46] + SpellName(w[1..])
  }

  function AllMeant(w: seq<seq<Spelt>>): (ls: seq<Label>)
    ensures |ls| == |w|
  {
    if w == [] then [] else [Meant(w[0])] + AllMeant(w[1..])
  }

  /** The labels that are meant: none by a lone period, and no empty one by a period at the end. */
  function MeantLabels(w: seq<seq<Spelt>>): seq<Label>
    requires w != []
  {
    if w == [[], []] then []
    else if w[|w| - 1] == [] then AllMeant(w[..|w| - 1])
    else AllMeant(w)
  }

  predicate LastByteIsPeriod(w: seq<seq<Spelt>>)
    requires w != []
  {
    var us := w[|w| - 1];
    us != [] && us[|us| - 1].b == 46
  }

  lemma MeantLength(us: seq<Spelt>)
    ensures |Meant(us)| == |us|
    ensures forall i :: 0 <= i < |us| ==> Meant(us)[i] == us[i].b
  {
  }

  lemma {:induction false} AllMeantAt(w: seq<seq<Spelt>>, i: nat)
    requires i < |w|
    ensures AllMeant(w)[i] == Meant(w[i])
  {
    if i > 0 {
      AllMeantAt(w[1..], i - 1);
    }
  }

  lemma SpellStep(us: seq<Spelt>)
    ensures us == [] ==> SpellLabel(us) == [] && Meant(us) == []
    ensures us != [] ==>
              SpellLabel(us) == (if us[0].escaped then [92, us[0].b] else [us[0].b]) + SpellLabel(us[1..])
    ensures us != [] ==> Meant(us) == [us[0].b] + Meant(us[1..])
  {
  }

  lemma LegibleRest(us: seq<Spelt>, last: bool)
    requires us != [] && Legible(us, last)
    ensures Legible(us[1..], last)
    ensures !us[0].escaped ==> us[0].b != 46 && (us[0].b == 92 ==> last && us[1..] == [])
  {
    assert forall k :: 0 <= k < |us| - 1 ==> us[1..][k] == us[k + 1];
  }

  lemma {:induction false} SpelledLabel(pre: seq<byte>, us: seq<Spelt>, post: seq<byte>)
    requires (post == [] || post[0] == 46) && Legible(us, post == [])
    ensures var name := pre + SpellLabel(us) + post;
            LabelAt(name, |pre|) == Meant(us) && LabelEnd(name, |pre|) == |pre| + |SpellLabel(us)|
    decreases |us|
  {
    hide LabelAt, LabelEnd, SpellLabel, Meant, Legible;
    var name, i := pre + SpellLabel(us) + post, |pre|;
    LabelStep(name, i);
    SpellStep(us);
    if us == [] {
      assert i < |name| ==> name[i] == 46;
    } else {
      var first := if us[0].escaped then [92, us[0].b] else [us[0].b];
      LegibleRest(us, post == []);
      SpelledLabel(pre + first, us[1..], post);
      Reassociate(pre, first, SpellLabel(us[1..]), []);
      assert name[i] == first[0];
      if us[0].escaped {
        assert name[i + 1] == us[0].b;
      } else if us[0].b == 92 {
        SpellStep([]);
        assert |name| == i + 1;
      }
    }
  }

  lemma {:induction false} SpelledFields(pre: seq<byte>, w: seq<seq<Spelt>>)
    requires LegibleName(w)
    ensures Fields(Tokens(pre + SpellName(w), |pre|)) == AllMeant(w)
    decreases |w|
  {
    hide Tokens, Fields, LabelAt, LabelEnd, SpellLabel, Meant;
    var name, us, rest := pre + SpellName(w), w[0], w[1..];
    var post := if |w| == 1 then [] else [46] + SpellName(rest);
    assert name == pre + SpellLabel(us) + post;
    SpelledLabel(pre, us, post);
    FieldsAt(name, |pre|);
    if |w| > 1 {
      var pre' := pre + SpellLabel(us) + [46];
      assert name == pre' + SpellName(rest);
      assert LegibleName(rest) by {
        assert forall i :: 0 <= i < |rest| ==> rest[i] == w[i + 1];
      }
      SpelledFields(pre', rest);
    } else {
      assert AllMeant(w[1..]) == [];
    }
  }

  lemma {:induction false} AllMeantPrefix(w: seq<seq<Spelt>>, n: nat)
    requires n <= |w|
    ensures AllMeant(w[..n]) == AllMeant(w)[..n]
  {
    if n > 0 {
      AllMeantPrefix(w[1..], n - 1);
      assert w[..n][1..] == w[1..][..n - 1];
    }
  }

  /** Only the lone period is spelled as two empty labels. */
  lemma LonePeriod(w: seq<seq<Spelt>>)
    requires LegibleName(w)
    ensures SpellName(w) == [46] <==> w == [[], []]
  {
    if w == [[], []] {
      assert w[1..] == [[]];
      assert SpellLabel([]) == [];
    }
    if SpellName(w) == [46] {
      SpelledFields([], w);
      RootFields();
      assert [] + SpellName(w) == [46];
      AllMeantAt(w, 0);
      AllMeantAt(w, 1);
      MeantLength(w[0]);
      MeantLength(w[1]);
      assert w == [w[0], w[1]];
    }
  }

  /** The labels of a name, and whether it ends in an escaped period. */
  lemma SpelledName(w: seq<seq<Spelt>>)
    requires LegibleName(w)
    ensures NameLabels(SpellName(w)) == MeantLabels(w)
    ensures EndsInEscapedPeriod(SpellName(w)) <==> LastByteIsPeriod(w)
    ensures SpellName(w) == [46] <==> w == [[], []]
  {
    hide Tokens, Fields, AllMeant, Meant, SpellName;
    var name := SpellName(w);
    var ts := Tokens(name, 0);
    LonePeriod(w);
    SpelledFields([], w);
    assert [] + name == name;
    AllMeantAt(w, |w| - 1);
    MeantLength(w[|w| - 1]);
    AllMeantPrefix(w, |w| - 1);
    FieldsSize(ts);
    if Fields(ts)[|Fields(ts)| - 1] != [] {
      LastField(ts);
    }
  }

  lemma NothingLeft(w: seq<seq<Spelt>>)
    requires LegibleName(w) && SpellName(w) == []
    ensures w == [[]]
  {
  }

  lemma NewLabel(w: seq<seq<Spelt>>)
    requires LegibleName(w)
    ensures LegibleName([[]] + w) && SpellName([[]] + w) == [46] + SpellName(w)
  {
    assert ([[]] + w)[1..] == w;
    assert forall k :: 0 < k < |w| + 1 ==> ([[]] + w)[k] == w[k - 1];
  }

  /** One more byte in front of the first label. */
  lemma MoreOfLabel(u: Spelt, w: seq<seq<Spelt>>) returns (r: seq<seq<Spelt>>)
    requires LegibleName(w)
    requires u.escaped || (u.b != 46 && (u.b == 92 ==> SpellName(w) == []))
    ensures LegibleName(r) && SpellName(r) == (if u.escaped then [92, u.b] else [u.b]) + SpellName(w)
  {
    if !u.escaped && u.b == 92 {
      NothingLeft(w);
    }
    var us := [u] + w[0];
    r := [us] + w[1..];
    assert r[1..] == w[1..] && us[1..] == w[0];
    assert Legible(us, |w| == 1) by {
      assert forall k :: 0 < k < |us| ==> us[k] == w[0][k - 1];
    }
    assert forall k :: 0 < k < |r| ==> r[k] == w[k];
  }

  /** Every name can be spelled in this way, so that the statements about spelled names are about
      all names. */
  lemma {:induction false} EveryNameFrom(name: seq<byte>, i: nat) returns (w: seq<seq<Spelt>>)
    requires i <= |name|
    ensures LegibleName(w) && SpellName(w) == name[i..]
    decreases |name| - i
  {
    if i == |name| {
      return [[]];
    }
    hide LegibleName, SpellName;
    if name[i] == 46 {
      var rest := EveryNameFrom(name, i + 1);
      NewLabel(rest);
      w := [[]] + rest;
      assert name[i..] == [46] + name[i + 1..];
    } else if name[i] == 92 && i + 1 < |name| {
      var rest := EveryNameFrom(name, i + 2);
      w := MoreOfLabel(Spelt(name[i + 1], true), rest);
      assert name[i..] == [92, name[i + 1]] + name[i + 2..];
    } else {
      var rest := EveryNameFrom(name, i + 1);
      w := MoreOfLabel(Spelt(name[i], false), rest);
      assert name[i..] == [name[i]] + name[i + 1..];
    }
  }

  lemma EveryName(name: seq<byte>) returns (w: seq<seq<Spelt>>)
    ensures LegibleName(w) && SpellName(w) == name
  {
    w := EveryNameFrom(name, 0);
  }

  /** The bytes of a query (RFC 1035 sections 4.1.1 and 4.1.2). */
  lemma QueryLayout(ls: seq<Label>, dnsclass: int, rrtype: int, id: nat, rd: bool)
    requires QueryLabels(ls) && id < 0x1_0000
    ensures WireLabels(ls)
    ensures QueryBytes(ls, dnsclass, rrtype, id, rd) ==
              [id / 256, id % 256, if rd then 1 else 0, 0, 0, 1, 0, 0, 0, 0, 0, 0] + Encoding(ls)
              + [rrtype / 256 % 256, rrtype % 256, dnsclass / 256 % 256, dnsclass % 256]
  {
    QueryLabelsAreWireLabels(ls);
  }

  /** ares_mkquery for a spelled name: when it succeeds, and the whole query then. */
  method MakeSpelled(w: seq<seq<Spelt>>, dnsclass: int, rrtype: int, id: nat, rd: bool)
      returns (status: Status, buf: array?<byte>, buflen: nat, end: nat)
    requires LegibleName(w) && 0 !in SpellName(w) && id < 0x1_0000
    ensures status == SUCCESS || status == EBADNAME
    ensures status == SUCCESS <==>
              && (forall l :: l in MeantLabels(w) ==> 1 <= |l| <= 63)
              && WireSize(MeantLabels(w)) + 1
                 - (if LastByteIsPeriod(w) then 1 else 0) + (if w == [[], []] then 1 else 0) <= 255
    ensures status == SUCCESS ==>
              && buf != null && end <= buf.Length && WireLabels(MeantLabels(w))
              && buf[..end] ==
                 [id / 256, id % 256, if rd then 1 else 0, 0, 0, 1, 0, 0, 0, 0, 0, 0] + Encoding(MeantLabels(w))
                 + [rrtype / 256 % 256, rrtype % 256, dnsclass / 256 % 256, dnsclass % 256]
    ensures status == SUCCESS ==>
              end == buflen + (if LastByteIsPeriod(w) then 1 else 0) - (if w == [[], []] then 1 else 0)
  {
    hide SpellName, MeantLabels, NameLabels, PrepassLength, EndsInEscapedPeriod, WireSize, QueryBytes,
         LastByteIsPeriod;
    SpelledName(w);
    PrepassExact(SpellName(w));
    status, buf, buflen, end := AresMkquery(SpellName(w), dnsclass, rrtype, id, rd);
    if status == SUCCESS {
      QueryLayout(MeantLabels(w), dnsclass, rrtype, id, rd);
    }
  }
}
