/**
  Expanding a compressed domain name (ares_expand_name.c).

  The bytes of a message define a walk: from a position the decoder either stops at a zero
  byte, takes a label, jumps through an indirection pointer, or finds that the bounds checks
  fail.  Everything below is stated about that walk.
 */
module ExpandName {
  import opened Wire

  datatype Step = Stop | Take(to: nat) | Jump(to: nat) | Reject

  /** (b & INDIR_MASK) == INDIR_MASK: both high bits are set. */
  predicate IsPointer(b: byte) {
    b / 64 == 3
  }

  /** The 14 bits of a pointer, most significant first. */
  function PointerOffset(m: seq<byte>, p: nat): nat
    requires p + 1 < |m|
  {
    m[p] as int % 64 * 256 + m[p + 1] as int
  }

  /** One step of the walk.  Every nonzero byte that does not start a pointer, 64..191
      included, is the length of a label. */
  function Next(m: seq<byte>, p: nat): (s: Step)
    requires p < |m|
    ensures s.Take? || s.Jump? ==> s.to < |m|
    ensures s.Take? ==> p < s.to
  {
    if m[p] == 0 then
      Stop
    else if IsPointer(m[p]) then
      if p + 1 >= |m| || PointerOffset(m, p) >= |m| then Reject else Jump(PointerOffset(m, p))
    else if p + m[p] + 1 >= |m| then Reject
    else Take(p + m[p] + 1)
  }

  predicate Moves(m: seq<byte>, p: nat)
    requires p < |m|
  {
    Next(m, p).Take? || Next(m, p).Jump?
  }

  /** The position after n steps from p, if the walk gets that far. */
  function At(m: seq<byte>, p: nat, n: nat): (r: Option<nat>)
    requires p < |m|
    ensures r.Some? ==> r.value < |m|
    decreases n
  {
    if n == 0 then Some(p)
    else if Moves(m, p) then At(m, Next(m, p).to, n - 1)
    else None
  }

  /** The labels taken in the first n steps. */
  function Taken(m: seq<byte>, p: nat, n: nat): seq<Label>
    requires p < |m| && At(m, p, n).Some?
    decreases n
  {
    if n == 0 then []
    else
      var s := Next(m, p);
      (if s.Take? then [m[p + 1..s.to]] else []) + Taken(m, s.to, n - 1)
  }

  /** The walk reaches a zero byte after n steps. */
  predicate Ends(m: seq<byte>, p: nat, n: nat)
    requires p < |m|
  {
    At(m, p, n).Some? && Next(m, At(m, p, n).value).Stop?
  }

  /** The walk runs into a failing bounds check after n steps. */
  predicate Breaks(m: seq<byte>, p: nat, n: nat)
    requires p < |m|
  {
    At(m, p, n).Some? && Next(m, At(m, p, n).value).Reject?
  }

  /** The walk comes back to a position where it has been. */
  ghost predicate Cyclic(m: seq<byte>, p: nat)
    requires p < |m|
  {
    exists i: nat, j: nat :: i < j && At(m, p, i).Some? && At(m, p, i) == At(m, p, j)
  }

  /** A name can be decoded at p: p is inside the message and the walk reaches a zero byte. */
  ghost predicate Decodes(m: seq<byte>, p: nat) {
    p < |m| && exists n: nat :: Ends(m, p, n)
  }

  ghost function Steps(m: seq<byte>, p: nat): (n: nat)
    requires Decodes(m, p)
    ensures Ends(m, p, n)
  {
    var n: nat :| Ends(m, p, n);
    n
  }

  /** The name at p, as its list of labels. */
  ghost function Labels(m: seq<byte>, p: nat): seq<Label>
    requires Decodes(m, p)
  {
    Taken(m, p, Steps(m, p))
  }

  // ----- the textual form

  /** PeriodLabel and backslashes inside a label are printed after a backslash. */
  function Escape(l: Label): seq<byte> {
    if l == [] then []
    else (if l[0] == DOT || l[0] == BACKSLASH then [BACKSLASH, l[0]] else [l[0]]) + Escape(l[1..])
  }

  lemma EscapeStep(l: Label)
    ensures l == [] ==> Escape(l) == []
    ensures l != [] ==>
              Escape(l) == (if l[0] == DOT || l[0] == BACKSLASH then [BACKSLASH, l[0]] else [l[0]]) + Escape(l[1..])
  {
  }

  /** Labels separated by periods. */
  function Text(ls: seq<Label>): seq<byte> {
    if ls == [] then []
    else if |ls| == 1 then Escape(ls[0])
    else Escape(ls[0]) + [DOT] + Text(ls[1..])
  }

  /** Every label followed by a period, which is what both passes produce first. */
  function Dotted(ls: seq<Label>): seq<byte> {
    if ls == [] then [] else Escape(ls[0]) + [DOT] + Dotted(ls[1..])
  }

  lemma {:induction false} DottedText(ls: seq<Label>)
    requires ls != []
    ensures Dotted(ls) == Text(ls) + [DOT]
  {
    if |ls| > 1 {
      DottedText(ls[1..]);
    } else {
      assert Dotted(ls[1..]) == [];
    }
  }

  lemma Reassociate(a: seq<byte>, b: seq<byte>, c: seq<byte>, d: seq<byte>)
    ensures a + (b + c + d) == a + b + c + d && a + (b + c) == a + b + c
  {
  }

  lemma {:induction false} DottedSnoc(ls: seq<Label>, l: Label)
    ensures Dotted(ls + [l]) == Dotted(ls) + Escape(l) + [DOT]
  {
    hide Escape;
    if ls == [] {
      assert ([] + [l])[1..] == [];
    } else {
      DottedSnoc(ls[1..], l);
      assert (ls + [l])[1..] == ls[1..] + [l];
      Reassociate(Escape(ls[0]) + [DOT], Dotted(ls[1..]), Escape(l), [DOT]);
    }
  }

  lemma {:induction false} EscapeSnoc(l: Label, b: byte)
    ensures Escape(l + [b]) == Escape(l) + (if b == DOT || b == BACKSLASH then [BACKSLASH, b] else [b])
  {
    if l == [] {
      assert ([] + [b])[1..] == [];
    } else {
      EscapeSnoc(l[1..], b);
      assert (l + [b])[1..] == l[1..] + [b];
      var first := if l[0] == DOT || l[0] == BACKSLASH then [BACKSLASH, l[0]] else [l[0]];
      Reassociate(first, Escape(l[1..]), if b == DOT || b == BACKSLASH then [BACKSLASH, b] else [b], []);
    }
  }

  lemma {:induction false} EscapeLength(l: Label)
    ensures |l| <= |Escape(l)| <= 2 * |l|
  {
    if l != [] {
      EscapeLength(l[1..]);
    }
  }

  lemma {:induction false} EscapeConcat(a: Label, b: Label)
    ensures Escape(a + b) == Escape(a) + Escape(b)
  {
    hide Escape;
    EscapeStep(a);
    if a == [] {
      assert [] + b == b;
    } else {
      EscapeConcat(a[1..], b);
      EscapeStep(a + b);
      assert (a + b)[1..] == a[1..] + b;
    }
  }

  lemma {:induction false} TextConcat(a: seq<Label>, b: seq<Label>)
    requires a != [] && b != []
    ensures Text(a + b) == Text(a) + [46] + Text(b)
  {
    hide Escape;
    assert (a + b)[0] == a[0] && (a + b)[1..] == a[1..] + b;
    if |a| == 1 {
      assert a[1..] + b == b;
    } else {
      TextConcat(a[1..], b);
    }
  }

  /** The printed form (RFC 1035 section 5.1), byte by byte: periods (46) and backslashes (92) of a
      label follow a backslash, all other bytes stand for themselves, and a period stands between
      labels. */
  lemma PrintedForm(a: Label, b: Label, c: byte, ls: seq<Label>, rest: seq<Label>)
    ensures Escape([]) == [] && Escape(a + b) == Escape(a) + Escape(b)
    ensures Escape([c]) == if c == 46 || c == 92 then [92, c] else [c]
    ensures Text([]) == [] && Text([a]) == Escape(a)
    ensures ls != [] && rest != [] ==> Text(ls + rest) == Text(ls) + [46] + Text(rest)
  {
    EscapeConcat(a, b);
    EscapeStep([c]);
    assert Escape([c][1..]) == [];
    if ls != [] && rest != [] {
      TextConcat(ls, rest);
    }
  }

  // ----- composing walks

  lemma {:induction false} AtSplit(m: seq<byte>, p: nat, i: nat, j: nat)
    requires p < |m|
    ensures At(m, p, i).None? ==> At(m, p, i + j).None?
    ensures At(m, p, i).Some? ==> At(m, p, i + j) == At(m, At(m, p, i).value, j)
    decreases i
  {
    if i > 0 && Moves(m, p) {
      AtSplit(m, Next(m, p).to, i - 1, j);
    }
  }

  lemma AtStep(m: seq<byte>, p: nat, n: nat)
    requires p < |m|
    ensures At(m, p, 0) == Some(p) && Taken(m, p, 0) == []
    ensures At(m, p, n + 1) == if Moves(m, p) then At(m, Next(m, p).to, n) else None
    ensures At(m, p, n + 1).Some? ==>
              Taken(m, p, n + 1) ==
                (if Next(m, p).Take? then [m[p + 1..Next(m, p).to]] else []) + Taken(m, Next(m, p).to, n)
  {
  }

  lemma {:induction false} TakenSnoc(m: seq<byte>, p: nat, n: nat)
    requires p < |m| && At(m, p, n).Some? && Moves(m, At(m, p, n).value)
    ensures At(m, p, n + 1) == Some(Next(m, At(m, p, n).value).to)
    ensures var q := At(m, p, n).value; var s := Next(m, q);
            Taken(m, p, n + 1) == if s.Take? then Taken(m, p, n) + [m[q + 1..s.to]] else Taken(m, p, n)
    decreases n
  {
    hide At, Taken, Next;
    AtStep(m, p, n);
    if n == 0 {
      AtStep(m, Next(m, p).to, 0);
    } else {
      AtStep(m, p, n - 1);
      TakenSnoc(m, Next(m, p).to, n - 1);
    }
  }

  lemma {:induction false} LabelLengths(m: seq<byte>, p: nat, n: nat)
    requires p < |m| && At(m, p, n).Some?
    ensures |Taken(m, p, n)| <= n
    ensures forall l :: l in Taken(m, p, n) ==> 1 <= |l| <= 191
    decreases n
  {
    if n > 0 {
      LabelLengths(m, Next(m, p).to, n - 1);
    }
  }

  /** A walk that halts after k steps goes no further. */
  lemma {:induction false} HaltedWalk(m: seq<byte>, p: nat, k: nat, n: nat)
    requires p < |m| && k < n && At(m, p, k).Some? && !Moves(m, At(m, p, k).value)
    ensures At(m, p, n).None?
  {
    AtSplit(m, p, k, n - k);
  }

  /** The number of steps to the zero byte is determined by the starting point. */
  lemma EndsOnce(m: seq<byte>, p: nat, n: nat)
    requires p < |m| && Ends(m, p, n)
    ensures Decodes(m, p) && Steps(m, p) == n && Labels(m, p) == Taken(m, p, n)
  {
    var k := Steps(m, p);
    if k < n {
      HaltedWalk(m, p, k, n);
    } else if n < k {
      HaltedWalk(m, p, n, k);
    }
  }

  /** The printed output so far, after n steps. */
  function Output(m: seq<byte>, p: nat, n: nat): seq<byte>
    requires p < |m| && At(m, p, n).Some?
  {
    Dotted(Taken(m, p, n))
  }

  lemma OutputStart(m: seq<byte>, start: nat)
    requires start < |m|
    ensures At(m, start, 0) == Some(start) && Output(m, start, 0) == []
  {
  }

  /** What the byte at the current position means for the walk from start, and what the step
      adds to the output. */
  lemma Inspect(m: seq<byte>, start: nat, n: nat, p: nat)
    requires start < |m| && At(m, start, n) == Some(p)
    ensures m[p] == 0 ==> Ends(m, start, n)
    ensures m[p] != 0 && IsPointer(m[p]) ==>
              if p + 1 >= |m| || PointerOffset(m, p) >= |m| then Breaks(m, start, n)
              else At(m, start, n + 1) == Some(PointerOffset(m, p)) && Output(m, start, n + 1) == Output(m, start, n)
    ensures m[p] != 0 && !IsPointer(m[p]) ==>
              var to := p + 1 + m[p] as int;
              if to >= |m| then Breaks(m, start, n)
              else At(m, start, n + 1) == Some(to) &&
                   Output(m, start, n + 1) == Output(m, start, n) + Escape(m[p + 1..to]) + [DOT]
  {
    if Moves(m, p) {
      TakenSnoc(m, start, n);
      if Next(m, p).Take? {
        DottedSnoc(Taken(m, start, n), m[p + 1..Next(m, p).to]);
      }
    }
  }

  // ----- loops

  /** From a repeated position the walk goes on for ever. */
  lemma {:induction false} CyclicGoesOn(m: seq<byte>, p: nat, i: nat, j: nat, n: nat)
    requires p < |m| && i < j && At(m, p, i).Some? && At(m, p, i) == At(m, p, j)
    ensures At(m, p, n).Some?
    decreases n
  {
    if n <= j {
      AtSplit(m, p, n, j - n);
    } else {
      CyclicGoesOn(m, p, i, j, i + n - j);
      AtSplit(m, p, i, n - j);
      AtSplit(m, p, j, n - j);
    }
  }

  /** A cyclic walk reaches neither a zero byte nor a failing bounds check. */
  lemma CyclicNeverHalts(m: seq<byte>, p: nat, n: nat)
    requires p < |m| && Cyclic(m, p)
    ensures At(m, p, n).Some? && !Ends(m, p, n) && !Breaks(m, p, n)
  {
    var i: nat, j: nat :| i < j && At(m, p, i).Some? && At(m, p, i) == At(m, p, j);
    CyclicGoesOn(m, p, i, j, n);
    CyclicGoesOn(m, p, i, j, n + 1);
    if !Moves(m, At(m, p, n).value) {
      HaltedWalk(m, p, n, n + 1);
    }
  }

  lemma {:induction false} Pigeonhole(s: seq<nat>, n: nat)
    requires NoDuplicates(s) && forall i :: 0 <= i < |s| ==> s[i] < n
    ensures |s| <= n
    decreases n
  {
    assert s != [] ==> s[0] < n;
    if n == 0 {
    } else if k :| 0 <= k < |s| && s[k] == n - 1 {
      Pigeonhole(s[..k] + s[k + 1..], n - 1);
    } else {
      Pigeonhole(s, n - 1);
    }
  }

  /** A walk of as many steps as the message has bytes has been somewhere twice. */
  lemma LongWalkIsCyclic(m: seq<byte>, p: nat, n: nat)
    requires p < |m| <= n && At(m, p, n).Some?
    ensures Cyclic(m, p)
  {
    forall i: nat | i <= n ensures At(m, p, i).Some? {
      AtSplit(m, p, i, n - i);
    }
    var trail := seq(n + 1, i requires 0 <= i <= n => At(m, p, i).value);
    if NoDuplicates(trail) {
      Pigeonhole(trail, |m|);
    } else {
      var i, j :| 0 <= i < j < |trail| && trail[i] == trail[j];
      assert At(m, p, i).Some? && At(m, p, i) == At(m, p, j);
    }
  }

  /** A decodable name visits no position twice, so it is reached in fewer steps than the message
      has bytes. */
  lemma DecodesWithin(m: seq<byte>, p: nat)
    requires Decodes(m, p)
    ensures !Cyclic(m, p) && Steps(m, p) < |m|
  {
    var n := Steps(m, p);
    if n >= |m| {
      LongWalkIsCyclic(m, p, n);
    }
    if Cyclic(m, p) {
      CyclicNeverHalts(m, p, n);
    }
  }

  lemma {:induction false} HaltsSomewhere(m: seq<byte>, p: nat, n: nat)
    requires p < |m| && At(m, p, n).None?
    ensures exists k: nat :: Ends(m, p, k) || Breaks(m, p, k)
    decreases n
  {
    if Moves(m, p) {
      HaltsSomewhere(m, Next(m, p).to, n - 1);
      var k: nat :| Ends(m, Next(m, p).to, k) || Breaks(m, Next(m, p).to, k);
      assert At(m, p, k + 1) == At(m, Next(m, p).to, k);
      assert Ends(m, p, k + 1) || Breaks(m, p, k + 1);
    } else {
      assert At(m, p, 0) == Some(p);
      assert Ends(m, p, 0) || Breaks(m, p, 0);
    }
  }

  /** Every walk does exactly one of three things: it decodes, it fails a bounds check, or it
      is a loop. */
  lemma Trichotomy(m: seq<byte>, p: nat)
    requires p < |m|
    ensures Decodes(m, p) || (exists n: nat :: Breaks(m, p, n)) || Cyclic(m, p)
    ensures Cyclic(m, p) ==> !Decodes(m, p) && forall n: nat :: !Breaks(m, p, n)
    ensures Decodes(m, p) ==> forall n: nat :: !Breaks(m, p, n)
  {
    if Cyclic(m, p) {
      forall n: nat ensures !Ends(m, p, n) && !Breaks(m, p, n) {
        CyclicNeverHalts(m, p, n);
      }
    } else if At(m, p, |m|).Some? {
      LongWalkIsCyclic(m, p, |m|);
    } else {
      HaltsSomewhere(m, p, |m|);
    }
    if Decodes(m, p) {
      var k := Steps(m, p);
      forall n: nat ensures !Breaks(m, p, n) {
        if Breaks(m, p, n) {
          if n < k { HaltedWalk(m, p, n, k); } else if k < n { HaltedWalk(m, p, k, n); }
        }
      }
    }
  }

  // ----- size of the expansion

  lemma {:induction false} StepExpansion(m: seq<byte>, p: nat, n: nat)
    requires p < |m| && At(m, p, n).Some?
    ensures |Dotted(Taken(m, p, n))| <= 383 * n
    decreases n
  {
    if n > 0 {
      var s := Next(m, p);
      StepExpansion(m, s.to, n - 1);
      if s.Take? {
        EscapeLength(m[p + 1..s.to]);
        assert Taken(m, p, n)[1..] == Taken(m, s.to, n - 1);
      } else {
        assert Taken(m, p, n) == Taken(m, s.to, n - 1);
      }
    }
  }

  /** A decodable name expands to less than 383 characters for every byte of the message, so
      that its length in a message of up to 65535 bytes is far inside a 32-bit int. */
  lemma ExpansionBound(m: seq<byte>, p: nat)
    requires Decodes(m, p)
    ensures |Dotted(Labels(m, p))| <= 383 * (|m| - 1)
    ensures |m| <= 0xffff ==> |Dotted(Labels(m, p))| <= INT_MAX
  {
    DecodesWithin(m, p);
    StepExpansion(m, p, Steps(m, p));
  }

  // ----- what the caller skips

  /** The encoded length of the name at p: up to and including the zero byte or the two bytes
      of the first pointer.  (Zero when the walk fails a bounds check before either.) */
  function EncLen(m: seq<byte>, p: nat): (n: nat)
    requires p < |m|
    ensures p + n <= |m|
    ensures Next(m, p).Take? && n > 0 ==> Next(m, p).to + 1 <= p + n
    decreases |m| - p
  {
    match Next(m, p)
    case Stop => 1
    case Jump(_) => 2
    case Reject => 0
    case Take(to) => if EncLen(m, to) == 0 then 0 else to - p + EncLen(m, to)
  }

  lemma {:induction false} EncLenPositive(m: seq<byte>, p: nat)
    requires Decodes(m, p)
    ensures EncLen(m, p) >= 1
    ensures Next(m, p).Take? ==> Decodes(m, Next(m, p).to)
    decreases |m| - p
  {
    var n := Steps(m, p);
    if Moves(m, p) {
      assert n > 0;
      assert Ends(m, Next(m, p).to, n - 1);
      if Next(m, p).Take? {
        EncLenPositive(m, Next(m, p).to);
      }
    }
  }

  /** What the writing pass knows of the encoded length at position p. */
  predicate Skipping(m: seq<byte>, encoded: nat, p: nat, indir: bool, enclen: nat)
    requires encoded < |m| && p < |m|
  {
    if indir then enclen == EncLen(m, encoded)
    else encoded <= p && EncLen(m, p) > 0 && EncLen(m, encoded) == p - encoded + EncLen(m, p)
  }

  lemma Inside(m: seq<byte>, p: nat)
    requires Decodes(m, p)
    ensures p < |m|
  {
  }

  lemma SkippingStart(m: seq<byte>, encoded: nat)
    requires Decodes(m, encoded)
    ensures Skipping(m, encoded, encoded, false, 0)
  {
    EncLenPositive(m, encoded);
  }

  lemma SkippingStep(m: seq<byte>, encoded: nat, p: nat, indir: bool, enclen: nat)
    requires encoded < |m| && p < |m| && Skipping(m, encoded, p, indir, enclen)
    ensures m[p] == 0 ==> EncLen(m, encoded) == if indir then enclen else p + 1 - encoded
    ensures m[p] != 0 && IsPointer(m[p]) && p + 1 < |m| && PointerOffset(m, p) < |m| ==>
              Skipping(m, encoded, PointerOffset(m, p), true, if indir then enclen else p + 2 - encoded)
    ensures m[p] != 0 && !IsPointer(m[p]) && p + 1 + m[p] as int < |m| ==>
              Skipping(m, encoded, p + 1 + m[p] as int, indir, enclen)
  {
  }

  lemma SameTail(m: seq<byte>, m': seq<byte>, p: nat, to: nat, e: nat)
    requires p <= to < e <= |m| && e <= |m'| && m[p..e] == m'[p..e]
    ensures m[to..e] == m'[to..e] && m[to] == m'[to]
  {
    assert m[to..e] == m[p..e][to - p..] && m'[to..e] == m'[p..e][to - p..];
    assert m[to] == m[p..e][to - p] && m'[to] == m'[p..e][to - p];
  }

  /** The encoded length depends only on the bytes it covers: any other message with the same
      bytes there, in which a name can be decoded too, gives the same length. */
  lemma {:induction false} EncLenIsLocal(m: seq<byte>, m': seq<byte>, p: nat)
    requires Decodes(m, p) && Decodes(m', p)
    requires p + EncLen(m, p) <= |m'|
    requires m[p..p + EncLen(m, p)] == m'[p..p + EncLen(m, p)]
    ensures EncLen(m', p) == EncLen(m, p)
    decreases |m| - p
  {
    hide Decodes;
    EncLenPositive(m, p);
    EncLenPositive(m', p);
    var e := p + EncLen(m, p);
    SameTail(m, m', p, p, e);
    if Next(m, p).Take? {
      var to := Next(m, p).to;
      SameTail(m, m', p, to, e);
      EncLenIsLocal(m, m', to);
    }
  }

  // ----- names without pointers

  predicate WireLabel(l: Label) {
    1 <= |l| <= 191
  }

  predicate WireLabels(ls: seq<Label>) {
    forall l :: l in ls ==> WireLabel(l)
  }

  /** The labels of RFC 1035 section 3.1, each after its length byte, without the final zero. */
  function WireBody(ls: seq<Label>): seq<byte>
    requires WireLabels(ls)
  {
    if ls == [] then []
    else
      assert WireLabel(ls[0]);
      var length: byte := |ls[0]|;
      [length] + ls[0] + WireBody(ls[1..])
  }

  /** The pointer-free encoding of RFC 1035 section 3.1. */
  function Encoding(ls: seq<Label>): seq<byte>
    requires WireLabels(ls)
  {
    WireBody(ls) + [0]
  }

  lemma RootAt(pre: seq<byte>, post: seq<byte>)
    ensures Next(pre + [0] + post, |pre|) == Stop
  {
  }

  lemma LabelAtFront(pre: seq<byte>, l: Label, post: seq<byte>)
    requires WireLabel(l) && post != []
    ensures var length: byte := |l|;
            var m := pre + [length] + l + post;
            Next(m, |pre|) == Take(|pre| + 1 + |l|) && m[|pre| + 1..|pre| + 1 + |l|] == l
  {
    var length: byte := |l|;
    var m := pre + [length] + l + post;
    assert m[|pre|] == length;
  }

  /** Wherever it stands in a message, the pointer-free encoding of a list of labels decodes to
      that list, and the encoded length is the length of the encoding. */
  lemma {:induction false} DecodeEncoding(pre: seq<byte>, ls: seq<Label>, post: seq<byte>)
    requires WireLabels(ls)
    ensures var m := pre + Encoding(ls) + post;
            && Ends(m, |pre|, |ls|) && Taken(m, |pre|, |ls|) == ls
            && EncLen(m, |pre|) == |Encoding(ls)|
    decreases |ls|
  {
    hide Escape, Dotted, Text, Next;
    var m, p := pre + Encoding(ls) + post, |pre|;
    if ls == [] {
      assert m == pre + [0] + post;
      RootAt(pre, post);
    } else {
      var l, rest := ls[0], ls[1..];
      assert WireLabel(l);
      var length: byte := |l|;
      var pre' := pre + [length] + l;
      assert m == pre' + Encoding(rest) + post;
      DecodeEncoding(pre', rest, post);
      LabelAtFront(pre, l, Encoding(rest) + post);
      assert m == pre + [length] + l + (Encoding(rest) + post);
      assert At(m, p, |ls|) == At(m, |pre'|, |ls| - 1);
      assert Taken(m, p, |ls|) == [l] + Taken(m, |pre'|, |ls| - 1);
    }
  }

  /** The name at p consists of the labels ls and takes `length` bytes there. */
  ghost predicate ReadsAs(m: seq<byte>, p: nat, ls: seq<Label>, length: nat) {
    Decodes(m, p) && Labels(m, p) == ls && EncLen(m, p) == length
  }

  /** Every label that can be decoded can be encoded. */
  lemma LabelsCanBeEncoded(m: seq<byte>, p: nat)
    requires Decodes(m, p)
    ensures WireLabels(Labels(m, p))
  {
    LabelLengths(m, p, Steps(m, p));
  }

  /** Compression is transparent (RFC 1035 section 4.1.4): the pointer-free encoding of a name
      reads, anywhere in any message, as the labels that the name itself reads as. */
  lemma CompressionTransparent(m: seq<byte>, p: nat, ls: seq<Label>, pre: seq<byte>, post: seq<byte>)
    requires Decodes(m, p) && ls == Labels(m, p)
    ensures WireLabels(ls) && ReadsAs(pre + Encoding(ls) + post, |pre|, ls, |Encoding(ls)|)
  {
    LabelsCanBeEncoded(m, p);
    DecodeEncoding(pre, ls, post);
    EndsOnce(pre + Encoding(ls) + post, |pre|, |ls|);
  }

  lemma JumpStep(m: seq<byte>, p: nat, n: nat)
    requires p < |m| && Next(m, p).Jump?
    ensures Ends(m, p, n + 1) <==> Ends(m, Next(m, p).to, n)
    ensures Ends(m, p, n + 1) ==> Taken(m, p, n + 1) == Taken(m, Next(m, p).to, n)
    ensures !Ends(m, p, 0)
  {
    assert At(m, p, n + 1) == At(m, Next(m, p).to, n);
  }

  /** A pointer stands for the name at its offset, and is itself two bytes long. */
  lemma PointerStandsForTarget(m: seq<byte>, p: nat)
    requires p < |m| && Next(m, p).Jump?
    ensures Decodes(m, p) <==> Decodes(m, Next(m, p).to)
    ensures Decodes(m, p) ==> Labels(m, p) == Labels(m, Next(m, p).to)
    ensures EncLen(m, p) == 2
  {
    var to := Next(m, p).to;
    if Decodes(m, p) {
      var n := Steps(m, p);
      JumpStep(m, p, 0);
      JumpStep(m, p, n - 1);
      EndsOnce(m, to, n - 1);
    } else if Decodes(m, to) {
      JumpStep(m, p, Steps(m, to));
    }
  }

  // ----- the two passes

  datatype Verdict = Accepted | OutOfBounds | Loop

  function Times(k: nat, n: nat): nat {
    if k == 0 then 0 else n + Times(k - 1, n)
  }

  lemma {:induction false} TimesIsProduct(k: nat, n: nat)
    ensures Times(k, n) == k * n
  {
    if k > 0 {
      TimesIsProduct(k - 1, n);
    }
  }

  /** What name_length adds to its counter from position p on, after indir pointers. */
  function CounterFrom(m: seq<byte>, p: nat, indir: nat): nat
    requires p < |m| && indir <= |m|
    decreases |m| - indir, |m| - p
  {
    match Next(m, p)
    case Stop => 0
    case Reject => 0
    case Take(to) => |Escape(m[p + 1..to])| + 1 + CounterFrom(m, to, indir)
    case Jump(to) => if indir == |m| then 0 else CounterFrom(m, to, indir + 1)
  }

  lemma CounterStep(m: seq<byte>, p: nat, indir: nat)
    requires p < |m| && indir <= |m|
    ensures m[p] == 0 ==> CounterFrom(m, p, indir) == 0
    ensures m[p] != 0 && IsPointer(m[p]) ==>
              CounterFrom(m, p, indir) ==
                if p + 1 >= |m| || PointerOffset(m, p) >= |m| || indir == |m| then 0
                else CounterFrom(m, PointerOffset(m, p), indir + 1)
    ensures m[p] != 0 && !IsPointer(m[p]) ==>
              var to := p + 1 + m[p] as int;
              CounterFrom(m, p, indir) ==
                if to >= |m| then 0 else |Escape(m[p + 1..to])| + 1 + CounterFrom(m, to, indir)
  {
  }

  /** The counter grows by at most 383 for every 192 bytes walked.  After each of at most |m|
      pointers the walk goes on up to the next pointer, which needs two bytes, and the last
      stretch may take one byte more. */
  lemma {:induction false} CounterBound(m: seq<byte>, p: nat, indir: nat, room: nat)
    requires p < |m| <= room + 2 && indir <= |m|
    ensures 192 * CounterFrom(m, p, indir) <= 383 * (Times(|m| - indir, room) + |m| - 1 - p)
    decreases |m| - indir, |m| - p
  {
    match Next(m, p)
    case Take(to) =>
      EscapeLength(m[p + 1..to]);
      CounterBound(m, to, indir, room);
    case Jump(to) =>
      if indir < |m| {
        CounterBound(m, to, indir + 1, room);
      }
    case _ =>
  }

  /** Every call on a message of this length keeps the counter of name_length within an int. */
  ghost predicate CounterFits(length: nat) {
    forall m: seq<byte>, start: nat :: |m| == length && start < |m| ==> CounterFrom(m, start, 0) <= INT_MAX
  }

  const LARGEST_SAFE_LENGTH := 32811

  lemma CounterFitsUpTo(m: seq<byte>, start: nat)
    requires start < |m| <= LARGEST_SAFE_LENGTH
    ensures CounterFrom(m, start, 0) <= INT_MAX
  {
    var room := LARGEST_SAFE_LENGTH - 2;
    CounterBound(m, start, 0, room);
    TimesIsProduct(|m|, room);
  }

  /** Labels, a pointer back to the first of them, and bytes that are never read. */
  function LoopMessage(ls: seq<Label>, length: nat): (m: seq<byte>)
    requires WireLabels(ls) && |WireBody(ls)| + 2 <= length
    ensures |m| == length
  {
    WireBody(ls) + [0xC0, 0] + seq(length - |WireBody(ls)| - 2, _ => 0)
  }

  /** Over labels the counter grows by the length of their printed form. */
  lemma {:induction false} CounterOverLabels(pre: seq<byte>, ls: seq<Label>, post: seq<byte>, indir: nat)
    requires WireLabels(ls) && post != [] && indir <= |pre + WireBody(ls) + post|
    ensures var m := pre + WireBody(ls) + post;
            CounterFrom(m, |pre|, indir) == |Dotted(ls)| + CounterFrom(m, |pre + WireBody(ls)|, indir)
    decreases |ls|
  {
    hide Next, Escape;
    var m := pre + WireBody(ls) + post;
    if ls == [] {
      assert pre + WireBody(ls) == pre;
    } else {
      var l, rest := ls[0], ls[1..];
      assert WireLabel(l);
      var length: byte := |l|;
      var pre' := pre + [length] + l;
      assert m == pre' + WireBody(rest) + post == pre + [length] + l + (WireBody(rest) + post);
      assert pre + WireBody(ls) == pre' + WireBody(rest);
      LabelAtFront(pre, l, WireBody(rest) + post);
      CounterOverLabels(pre', rest, post, indir);
    }
  }

  /** On a message that loops the counter grows by the printed form of the labels on each of
      |m| + 1 rounds. */
  lemma {:induction false} CounterOfLoop(ls: seq<Label>, length: nat, indir: nat)
    requires WireLabels(ls) && |WireBody(ls)| + 2 <= length && indir <= length
    ensures CounterFrom(LoopMessage(ls, length), 0, indir) == Times(length - indir + 1, |Dotted(ls)|)
    decreases length - indir
  {
    hide Escape, Dotted, WireBody, WireLabels, CounterFrom, Next;
    var m, p := LoopMessage(ls, length), |WireBody(ls)|;
    assert m == [] + WireBody(ls) + m[p..];
    assert [] + WireBody(ls) == WireBody(ls);
    CounterOverLabels([], ls, m[p..], indir);
    assert m[p] == 0xC0 && m[p + 1] == 0;
    CounterStep(m, p, indir);
    if indir < length {
      CounterOfLoop(ls, length, indir + 1);
    }
  }

  function PeriodLabel(k: nat): Label {
    if k == 0 then [] else [DOT] + PeriodLabel(k - 1)
  }

  lemma {:induction false} PeriodsLength(k: nat)
    ensures |PeriodLabel(k)| == k && |Escape(PeriodLabel(k))| == 2 * k
  {
    if k > 0 {
      PeriodsLength(k - 1);
      assert PeriodLabel(k)[1..] == PeriodLabel(k - 1);
    }
  }

  /** n labels of 191 periods and one of 169. */
  function PeriodLabels(n: nat): seq<Label> {
    if n == 0 then [PeriodLabel(169)] else [PeriodLabel(191)] + PeriodLabels(n - 1)
  }

  lemma {:induction false} PeriodLabelsLength(n: nat)
    ensures WireLabels(PeriodLabels(n))
    ensures |WireBody(PeriodLabels(n))| == 192 * n + 170 && |Dotted(PeriodLabels(n))| == 383 * n + 339
  {
    hide PeriodLabel, Escape;
    var ls := PeriodLabels(n);
    if n == 0 {
      PeriodsLength(169);
      assert ls[1..] == [];
      assert WireBody(ls[1..]) == [] && Dotted(ls[1..]) == [];
    } else {
      PeriodsLength(191);
      PeriodLabelsLength(n - 1);
      assert ls[1..] == PeriodLabels(n - 1);
    }
  }

  /** A message of any greater length for which the counter leaves the int. */
  lemma CounterOverflow(length: nat)
    requires length > LARGEST_SAFE_LENGTH
    ensures WireLabels(PeriodLabels(170)) && |WireBody(PeriodLabels(170))| + 2 <= length
    ensures CounterFrom(LoopMessage(PeriodLabels(170), length), 0, 0) == 65449 * (length + 1) > INT_MAX
  {
    hide PeriodLabels, LoopMessage, CounterFrom, WireBody, WireLabels, Dotted;
    PeriodLabelsLength(170);
    CounterOfLoop(PeriodLabels(170), length, 0);
    TimesIsProduct(length + 1, 65449);
  }

  /** The counter stays within an int in every call exactly for messages of up to 32811 bytes. */
  lemma CounterFitsExactly(length: nat)
    ensures CounterFits(length) <==> length <= LARGEST_SAFE_LENGTH
  {
    hide CounterFrom, LoopMessage, PeriodLabels, WireBody;
    if length <= LARGEST_SAFE_LENGTH {
      forall m: seq<byte>, start: nat | |m| == length && start < |m| ensures CounterFrom(m, start, 0) <= INT_MAX {
        CounterFitsUpTo(m, start);
      }
    } else {
      CounterOverflow(length);
      var m := LoopMessage(PeriodLabels(170), length);
      assert |m| == length && CounterFrom(m, 0, 0) > INT_MAX;
    }
  }

  /** The walk leads out of the message. */
  ghost predicate LeadsOut(m: seq<byte>, p: nat) {
    p >= |m| || exists n: nat :: Breaks(m, p, n)
  }

  lemma VerdictAccepted(m: seq<byte>, p: nat, n: nat)
    requires p < |m| && Ends(m, p, n)
    ensures Decodes(m, p) && !LeadsOut(m, p) && !Cyclic(m, p)
    ensures Labels(m, p) == Taken(m, p, n)
  {
    EndsOnce(m, p, n);
    Trichotomy(m, p);
  }

  lemma VerdictOutOfBounds(m: seq<byte>, p: nat, n: nat)
    requires p < |m| && Breaks(m, p, n)
    ensures !Decodes(m, p) && LeadsOut(m, p) && !Cyclic(m, p)
    ensures |Output(m, p, n)| <= 383 * (|m| - 1)
  {
    Trichotomy(m, p);
    if n >= |m| {
      LongWalkIsCyclic(m, p, n);
    }
    StepExpansion(m, p, n);
  }

  lemma VerdictAtEnd(m: seq<byte>)
    ensures !Decodes(m, |m|) && LeadsOut(m, |m|)
  {
  }

  lemma VerdictLoop(m: seq<byte>, p: nat, n: nat)
    requires p < |m| <= n && At(m, p, n).Some?
    ensures !Decodes(m, p) && !LeadsOut(m, p) && Cyclic(m, p)
  {
    LongWalkIsCyclic(m, p, n);
    Trichotomy(m, p);
  }

  lemma TextLength(ls: seq<Label>)
    requires WireLabels(ls)
    ensures |Text(ls)| == if ls == [] then 0 else |Dotted(ls)| - 1
    ensures |Dotted(ls)| != 1
  {
    if ls != [] {
      DottedText(ls);
      EscapeLength(ls[0]);
      assert WireLabel(ls[0]);
    }
  }

  lemma Measured(m: seq<byte>, start: nat, s: nat)
    requires start < |m| && Ends(m, start, s)
    ensures Decodes(m, start) && !LeadsOut(m, start) && !Cyclic(m, start)
    ensures var n := |Output(m, start, s)|;
            |Text(Labels(m, start))| == (if n == 0 then 0 else n - 1) && n <= 383 * (|m| - 1)
  {
    VerdictAccepted(m, start, s);
    LabelLengths(m, start, s);
    TextLength(Labels(m, start));
    ExpansionBound(m, start);
  }

  /** The loop over one label of name_length: n grows by the length of the printed label. */
  method MeasureLabel(m: seq<byte>, encoded: nat, offset: nat, n0: nat) returns (n: nat, p: nat)
    requires encoded + offset <= |m|
    ensures p == encoded + offset
    ensures n == n0 + |Escape(m[encoded..encoded + offset])|
  {
    n, p := n0, encoded;
    var left := offset;
    while left > 0
      invariant encoded <= p && p + left == encoded + offset
      invariant n == n0 + |Escape(m[encoded..p])|
    {
      EscapeSnoc(m[encoded..p], m[p]);
      assert m[encoded..p + 1] == m[encoded..p] + [m[p]];
      n := n + if m[p] == DOT || m[p] == BACKSLASH then 2 else 1;
      p, left := p + 1, left - 1;
    }
  }

  /** name_length: the checked pass that measures the expansion.  `why` tells its ways of
      failing apart: the test on the number of pointers fires exactly when the walk is a loop.
      `count` is the value its counter had when it returned, the largest it ever had. */
  method NameLength(m: seq<byte>, start: nat) returns (r: int, ghost why: Verdict, ghost count: nat)
    requires start <= |m|
    ensures r >= 0 <==> Decodes(m, start)
    ensures r >= 0 ==> r == |Text(Labels(m, start))| && why == Accepted
    ensures r < 0 ==> r == -1
    ensures why == Loop <==> start < |m| && Cyclic(m, start)
    ensures why == OutOfBounds <==> LeadsOut(m, start)
    ensures count == if start < |m| then CounterFrom(m, start, 0) else 0
    ensures start < |m| && why != Loop ==> count <= 383 * (|m| - 1)
    ensures |m| <= LARGEST_SAFE_LENGTH ==> count <= INT_MAX
  {
    hide At, Taken, Output, Dotted, Text, Escape, LeadsOut, Cyclic, Decodes, Labels, CounterFrom, IsPointer,
         PointerOffset,
         Ends, Breaks, Next, Moves;
    if start == |m| {
      VerdictAtEnd(m);
      return -1, OutOfBounds, 0;
    }
    OutputStart(m, start);
    if |m| <= LARGEST_SAFE_LENGTH {
      CounterFitsUpTo(m, start);
    }
    var n: nat, indir: nat, p: nat := 0, 0, start;
    ghost var s: nat := 0;
    while m[p] != 0
      invariant p < |m| && At(m, start, s) == Some(p)
      invariant n == |Output(m, start, s)|
      invariant indir <= s && indir <= |m|
      invariant n + CounterFrom(m, p, indir) == CounterFrom(m, start, 0)
      decreases |m| - indir, |m| - p
    {
      CounterStep(m, p, indir);
      Inspect(m, start, s, p);
      if IsPointer(m[p]) {
        if p + 1 >= |m| {
          VerdictOutOfBounds(m, start, s);
          return -1, OutOfBounds, n;
        }
        var offset := PointerOffset(m, p);
        if offset >= |m| {
          VerdictOutOfBounds(m, start, s);
          return -1, OutOfBounds, n;
        }
        p, indir, s := offset, indir + 1, s + 1;
        if indir > |m| {
          VerdictLoop(m, start, s);
          return -1, Loop, n;
        }
      } else {
        var offset: nat := m[p];
        if p + offset + 1 >= |m| {
          VerdictOutOfBounds(m, start, s);
          return -1, OutOfBounds, n;
        }
        n, p := MeasureLabel(m, p + 1, offset, n);
        n, s := n + 1, s + 1;
      }
    }
    CounterStep(m, p, indir);
    Inspect(m, start, s, p);
    Measured(m, start, s);
    return if n != 0 then n - 1 else n, Accepted, n;
  }

  lemma TakenPrefix(m: seq<byte>, p: nat, i: nat, n: nat)
    requires p < |m| && i <= n && At(m, p, n).Some?
    ensures At(m, p, i).Some?
    ensures Taken(m, p, i) <= Taken(m, p, n)
    decreases i
  {
    if i > 0 {
      TakenPrefix(m, Next(m, p).to, i - 1, n - 1);
    }
  }

  lemma DottedPrefix(a: seq<Label>, b: seq<Label>)
    requires a <= b
    ensures Dotted(a) <= Dotted(b)
  {
    if a != [] {
      DottedPrefix(a[1..], b[1..]);
    }
  }

  /** The writing pass, at step s of a walk that will decode, still has steps to go exactly when
      it does not look at a zero byte; what it has written so far begins the whole output. */
  lemma StillInside(m: seq<byte>, start: nat, s: nat)
    requires Decodes(m, start) && At(m, start, s).Some?
    ensures m[At(m, start, s).value] == 0 <==> s == Steps(m, start)
    ensures !Breaks(m, start, s)
    ensures s <= Steps(m, start) && |Output(m, start, s)| <= |Dotted(Labels(m, start))|
    ensures s == Steps(m, start) ==> Output(m, start, s) == Dotted(Labels(m, start))
  {
    var k, p := Steps(m, start), At(m, start, s).value;
    if k < s {
      HaltedWalk(m, start, k, s);
    }
    if s < k && !Moves(m, p) {
      HaltedWalk(m, start, s, k);
    }
    TakenPrefix(m, start, s, k);
    DottedPrefix(Taken(m, start, s), Labels(m, start));
  }

  lemma EscapePrefix(a: Label, b: Label)
    requires a <= b
    ensures |Escape(a)| <= |Escape(b)|
  {
    if a != [] {
      EscapePrefix(a[1..], b[1..]);
    }
  }

  /** The part of the writing pass for one label and the period after it. */
  method WriteLabel(m: seq<byte>, first: nat, len: nat, s: array<byte>, q0: nat) returns (q: nat, p: nat)
    requires first + len <= |m|
    requires q0 + |Escape(m[first..first + len])| < s.Length
    modifies s
    ensures p == first + len && q == q0 + |Escape(m[first..first + len])| + 1
    ensures s[..q] == old(s[..q0]) + Escape(m[first..first + len]) + [DOT]
  {
    hide Escape;
    q, p := q0, first;
    var left := len;
    EscapeStep(m[first..p]);
    while left > 0
      invariant first <= p && p + left == first + len
      invariant q == q0 + |Escape(m[first..p])| < s.Length
      invariant s[..q] == old(s[..q0]) + Escape(m[first..p])
    {
      ghost var before, escaped := s[..q], m[p] == DOT || m[p] == BACKSLASH;
      ghost var unit := if escaped then [BACKSLASH, m[p]] else [m[p]];
      EscapeSnoc(m[first..p], m[p]);
      assert m[first..p + 1] == m[first..p] + [m[p]];
      EscapePrefix(m[first..p + 1], m[first..first + len]);
      if m[p] == DOT || m[p] == BACKSLASH {
        s[q] := BACKSLASH;
        q := q + 1;
      }
      s[q] := m[p];
      q := q + 1;
      assert s[..q] == before + unit;
      Reassociate(old(s[..q0]), Escape(m[first..p]), unit, []);
      p, left := p + 1, left - 1;
    }
    s[q] := DOT;
    q := q + 1;
  }

  /** The unchecked pass: it fills the buffer exactly, and reads only inside the message. */
  method WriteName(m: seq<byte>, encoded: nat, s: array<byte>) returns (enclen: nat)
    requires Decodes(m, encoded) && s.Length == |Dotted(Labels(m, encoded))|
    modifies s
    ensures s[..] == Dotted(Labels(m, encoded))
    ensures enclen == EncLen(m, encoded)
  {
    hide At, Taken, Output, Dotted, Escape, Decodes, Labels, IsPointer, PointerOffset, Ends, Breaks, Next, Moves,
         EncLen, Skipping;
    Inside(m, encoded);
    OutputStart(m, encoded);
    SkippingStart(m, encoded);
    var p: nat, q: nat, indir := encoded, 0, false;
    enclen := 0;
    ghost var k: nat := 0;
    StillInside(m, encoded, 0);
    while m[p] != 0
      invariant p < |m| && At(m, encoded, k) == Some(p)
      invariant k <= Steps(m, encoded) && (m[p] == 0 <==> k == Steps(m, encoded))
      invariant q == |Output(m, encoded, k)| <= s.Length
      invariant s[..q] == Output(m, encoded, k)
      invariant Skipping(m, encoded, p, indir, enclen)
      decreases Steps(m, encoded) - k
    {
      StillInside(m, encoded, k);
      Inspect(m, encoded, k, p);
      StillInside(m, encoded, k + 1);
      SkippingStep(m, encoded, p, indir, enclen);
      if IsPointer(m[p]) {
        if !indir {
          enclen, indir := p + 2 - encoded, true;
        }
        p := PointerOffset(m, p);
      } else {
        var len: nat := m[p];
        q, p := WriteLabel(m, p + 1, len, s, q);
      }
      k := k + 1;
    }
    StillInside(m, encoded, k);
    SkippingStep(m, encoded, p, indir, enclen);
    if !indir {
      enclen := p + 1 - encoded;
    }
  }

  /** A name without labels is a zero byte or a chain of pointers to one. */
  lemma NoLabels(m: seq<byte>, p: nat)
    requires Decodes(m, p)
    ensures Next(m, p).Take? ==> Labels(m, p) != []
  {
    var n := Steps(m, p);
    if Next(m, p).Take? {
      assert n > 0;
      assert |Taken(m, p, n)| > 0;
    }
  }

  /** ares_expand_name: measures the name, allocates one byte more, and writes the text in a
      second pass without any check. */
  method AresExpandName(m: seq<byte>, encoded: nat) returns (status: Status, s: array?<byte>, enclen: nat)
    requires encoded <= |m|
    ensures status == if Decodes(m, encoded) then SUCCESS else EBADNAME
    ensures status == SUCCESS ==> s != null && s[..] == Text(Labels(m, encoded)) + [0]
    ensures status == SUCCESS ==> enclen == EncLen(m, encoded)
  {
    var nlen, why, count := NameLength(m, encoded);
    if nlen < 0 {
      return EBADNAME, null, 0;
    }
    ghost var labels := Labels(m, encoded);
    LabelLengths(m, encoded, Steps(m, encoded));
    TextLength(labels);
    EncLenPositive(m, encoded);
    var buffer := new byte[nlen + 1];
    if nlen == 0 {
      buffer[0] := 0;
      NoLabels(m, encoded);
      return SUCCESS, buffer, if IsPointer(m[encoded]) then 2 else 1;
    }
    DottedText(labels);
    enclen := WriteName(m, encoded, buffer);
    var q := buffer.Length;
    buffer[q - 1] := 0;
    assert buffer[..] == Dotted(labels)[..q - 1] + [0];
    return SUCCESS, buffer, enclen;
  }

  /** The expansion for use inside a response: malformed names are malformed responses.  The
      text is handed over without its terminator. */
  method AresExpandNameForResponse(m: seq<byte>, encoded: nat)
      returns (status: Status, s: seq<byte>, enclen: nat)
    requires encoded <= |m|
    ensures status == if Decodes(m, encoded) then SUCCESS else EBADRESP
    ensures status == SUCCESS ==>
              s == Text(Labels(m, encoded)) && enclen == EncLen(m, encoded) && encoded + enclen <= |m|
  {
    var buffer;
    status, buffer, enclen := AresExpandName(m, encoded);
    if status == EBADNAME {
      return EBADRESP, [], 0;
    }
    s := buffer[..buffer.Length - 1];
  }
}
