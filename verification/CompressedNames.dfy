/**
  Compressed names byte by byte (RFC 1035 section 4.1.4): what labels followed by the two bytes
  of a pointer expand to.
 */
module CompressedNames {
  import opened Wire
  import opened ExpandName

  /** The two bytes of a pointer to offset t (RFC 1035 section 4.1.4). */
  function PointerTo(t: nat): (b: seq<byte>)
    requires t < 0x4000
    ensures |b| == 2
  {
    [0xC0 + t / 256, t % 256]
  }

  /** m has the bytes b at p. */
  predicate HasBytes(m: seq<byte>, p: nat, b: seq<byte>) {
    p + |b| <= |m| && m[p..p + |b|] == b
  }

  lemma HasBytesParts(m: seq<byte>, p: nat, a: seq<byte>, b: seq<byte>)
    ensures HasBytes(m, p, a + b) <==> HasBytes(m, p, a) && HasBytes(m, p + |a|, b)
  {
    if HasBytes(m, p, a + b) {
      var c := m[p..p + |a + b|];
      assert m[p..p + |a|] == c[..|a|] && m[p + |a|..p + |a| + |b|] == c[|a|..];
    }
    if HasBytes(m, p, a) && HasBytes(m, p + |a|, b) {
      assert m[p..p + |a + b|] == m[p..p + |a|] + m[p + |a|..p + |a| + |b|];
    }
  }

  lemma PointerAt(m: seq<byte>, p: nat, t: nat)
    requires t < 0x4000 && t < |m| && HasBytes(m, p, PointerTo(t))
    ensures Next(m, p) == Jump(t) && EncLen(m, p) == 2
  {
    var b := m[p..p + 2];
    assert m[p] == b[0] && m[p + 1] == b[1];
    assert t / 256 < 64 && t == t / 256 * 256 + t % 256;
  }

  lemma {:induction false} TakenSplit(m: seq<byte>, p: nat, i: nat, j: nat)
    requires p < |m| && At(m, p, i).Some? && At(m, At(m, p, i).value, j).Some?
    ensures At(m, p, i + j) == At(m, At(m, p, i).value, j)
    ensures Taken(m, p, i + j) == Taken(m, p, i) + Taken(m, At(m, p, i).value, j)
    decreases i
  {
    hide At, Taken, Next;
    if i == 0 {
      AtStep(m, p, 0);
    } else {
      AtStep(m, p, i - 1);
      AtStep(m, p, i + j - 1);
      TakenSplit(m, Next(m, p).to, i - 1, j);
    }
  }

  lemma LabelHere(m: seq<byte>, p: nat, l: Label)
    requires WireLabel(l) && p + 1 + |l| < |m|
    requires var length: byte := |l|; m[p..p + 1 + |l|] == [length] + l
    ensures Next(m, p) == Take(p + 1 + |l|) && m[p + 1..p + 1 + |l|] == l
    ensures EncLen(m, p + 1 + |l|) > 0 ==> EncLen(m, p) == 1 + |l| + EncLen(m, p + 1 + |l|)
  {
    var b := m[p..p + 1 + |l|];
    assert m[p] == b[0] && m[p + 1..p + 1 + |l|] == b[1..];
  }

  /** A walk over labels arrives behind them. */
  lemma {:induction false} WalkLabels(m: seq<byte>, p: nat, ks: seq<Label>)
    requires WireLabels(ks) && HasBytes(m, p, WireBody(ks)) && p + |WireBody(ks)| < |m|
    ensures var e := p + |WireBody(ks)|;
            && At(m, p, |ks|) == Some(e) && Taken(m, p, |ks|) == ks
            && (EncLen(m, e) > 0 ==> EncLen(m, p) == |WireBody(ks)| + EncLen(m, e))
    decreases |ks|
  {
    hide At, Taken, Next;
    if ks == [] {
      AtStep(m, p, 0);
    } else {
      var l, rest := ks[0], ks[1..];
      assert WireLabel(l);
      var length: byte := |l|;
      assert WireBody(ks) == [length] + l + WireBody(rest);
      HasBytesParts(m, p, [length] + l, WireBody(rest));
      LabelHere(m, p, l);
      WalkLabels(m, p + 1 + |l|, rest);
      AtStep(m, p, |ks| - 1);
    }
  }

  lemma ContinuesAs(m: seq<byte>, p: nat, i: nat, q: nat)
    requires p < |m| && At(m, p, i) == Some(q) && Decodes(m, q)
    ensures Decodes(m, p) && Labels(m, p) == Taken(m, p, i) + Labels(m, q)
  {
    TakenSplit(m, p, i, Steps(m, q));
    EndsOnce(m, p, i + Steps(m, q));
  }

  lemma ContinuesBack(m: seq<byte>, p: nat, i: nat, q: nat)
    requires Decodes(m, p) && At(m, p, i) == Some(q)
    ensures Decodes(m, q)
  {
    var n := Steps(m, p);
    if n < i {
      HaltedWalk(m, p, n, i);
    }
    AtSplit(m, p, i, n - i);
    assert Ends(m, q, n - i);
  }

  /** Labels and a pointer stand for the labels followed by the name at the offset; if there is
      no name, neither is there one here. */
  lemma PointerAfterLabels(m: seq<byte>, p: nat, ks: seq<Label>, t: nat)
    requires WireLabels(ks) && t < 0x4000 && t < |m| && HasBytes(m, p, WireBody(ks) + PointerTo(t))
    ensures Decodes(m, p) <==> Decodes(m, t)
    ensures Decodes(m, t) ==> ReadsAs(m, p, ks + Labels(m, t), |WireBody(ks)| + 2)
  {
    hide At, Taken, Next, WireBody, PointerTo, EncLen;
    var w := WireBody(ks);
    var q := p + |w|;
    var b := m[p..q + 2];
    assert b[..|w|] == w && b[|w|..] == PointerTo(t);
    assert m[p..q] == b[..|w|] && m[q..q + 2] == b[|w|..];
    WalkLabels(m, p, ks);
    PointerAt(m, q, t);
    PointerStandsForTarget(m, q);
    if Decodes(m, t) {
      ContinuesAs(m, p, |ks|, q);
    } else if Decodes(m, p) {
      ContinuesBack(m, p, |ks|, q);
    }
  }

  /** A message in which a name ends in a pointer to another one before it. */
  function Compressed(pre: seq<byte>, ls: seq<Label>, mid: seq<byte>, ks: seq<Label>, post: seq<byte>): seq<byte>
    requires WireLabels(ls) && WireLabels(ks) && |pre| < 0x4000
  {
    pre + Encoding(ls) + mid + WireBody(ks) + PointerTo(|pre|) + post
  }

  /** What the second name of such a message expands to. */
  lemma CompressedName(pre: seq<byte>, ls: seq<Label>, mid: seq<byte>, ks: seq<Label>, post: seq<byte>)
    requires WireLabels(ls) && WireLabels(ks) && |pre| < 0x4000
    ensures var m, p := Compressed(pre, ls, mid, ks, post), |pre + Encoding(ls) + mid|;
            ReadsAs(m, p, ks + ls, |WireBody(ks)| + 2)
  {
    hide Encoding, WireBody, PointerTo;
    var m, p := Compressed(pre, ls, mid, ks, post), |pre + Encoding(ls) + mid|;
    var rest := mid + WireBody(ks) + PointerTo(|pre|) + post;
    assert m == pre + Encoding(ls) + rest;
    DecodeEncoding(pre, ls, rest);
    EndsOnce(m, |pre|, |ls|);
    assert m == pre + Encoding(ls) + mid + (WireBody(ks) + PointerTo(|pre|)) + post;
    assert HasBytes(m, p, WireBody(ks) + PointerTo(|pre|));
    PointerAfterLabels(m, p, ks, |pre|);
  }

  /** The same of the program: it returns the text of both parts and its terminator. */
  method ExpandCompressed(pre: seq<byte>, ls: seq<Label>, mid: seq<byte>, ks: seq<Label>, post: seq<byte>)
      returns (status: Status, s: array?<byte>, enclen: nat)
    requires WireLabels(ls) && WireLabels(ks) && |pre| < 0x4000
    ensures status == SUCCESS && enclen == |WireBody(ks)| + 2
    ensures s != null && s[..] == Text(ks + ls) + [0]
  {
    hide Encoding, WireBody, PointerTo, Compressed, Text;
    var m, p := Compressed(pre, ls, mid, ks, post), |pre + Encoding(ls) + mid|;
    CompressedName(pre, ls, mid, ks, post);
    status, s, enclen := AresExpandName(m, p);
  }
}
