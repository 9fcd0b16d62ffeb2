/**
  Ordering the addresses of a host by the channel's sortlist (the end of ares_gethostbyname.c,
  and bitncmp.c).
 */
module SortAddresses {
  import opened StableOrder

  /** An address or address prefix, in network order. */
  type Address = seq<bv8>

  datatype AddressFamily = INET | INET6

  /** An entry of the sortlist: an address with a mask, or with a number of leading bits. */
  datatype Pattern = Pattern(family: AddressFamily, addr: Address, mask: Address, bits: nat, isMask: bool)

  // ----- comparing leading bits

  function Doubled(b: bv32): bv32 {
    b << 1
  }

  /** Bit j of a byte, the most significant one first. */
  predicate BitOf(b: bv32, j: nat)
    decreases j
  {
    if j == 0 then b & 0x80 != 0 else BitOf(Doubled(b), j - 1)
  }

  predicate BitAt(a: Address, i: nat)
    requires i < 8 * |a|
  {
    BitOf(a[i / 8] as bv32, i % 8)
  }

  /** l and r agree on their first n bits. */
  predicate SameBits(l: Address, r: Address, n: nat)
    requires n <= 8 * |l| && n <= 8 * |r|
  {
    forall i :: 0 <= i < n ==> BitAt(l, i) == BitAt(r, i)
  }

  function ShiftedLeft(b: bv32, k: nat): bv32 {
    if k == 0 then b else Doubled(ShiftedLeft(b, k - 1))
  }

  lemma ShiftStep(b: bv32, k: nat)
    ensures ShiftedLeft(b, 0) == b && ShiftedLeft(b, k + 1) == Doubled(ShiftedLeft(b, k))
  {
  }

  lemma DoubledMasks(b: bv32)
    ensures var b2 := Doubled(Doubled(b)); var b4 := Doubled(Doubled(b2)); var b6 := Doubled(Doubled(b4));
            && (Doubled(b) & 0x80 != 0) == (b & 0x40 != 0) && (b2 & 0x80 != 0) == (b & 0x20 != 0)
            && (Doubled(b2) & 0x80 != 0) == (b & 0x10 != 0) && (b4 & 0x80 != 0) == (b & 0x08 != 0)
            && (Doubled(b4) & 0x80 != 0) == (b & 0x04 != 0) && (b6 & 0x80 != 0) == (b & 0x02 != 0)
            && (Doubled(b6) & 0x80 != 0) == (b & 0x01 != 0)
  {
  }

  lemma ShiftMasks(b: bv32)
    ensures (ShiftedLeft(b, 0) & 0x80 != 0) == (b & 0x80 != 0) && (ShiftedLeft(b, 1) & 0x80 != 0) == (b & 0x40 != 0)
    ensures (ShiftedLeft(b, 2) & 0x80 != 0) == (b & 0x20 != 0) && (ShiftedLeft(b, 3) & 0x80 != 0) == (b & 0x10 != 0)
    ensures (ShiftedLeft(b, 4) & 0x80 != 0) == (b & 0x08 != 0) && (ShiftedLeft(b, 5) & 0x80 != 0) == (b & 0x04 != 0)
    ensures (ShiftedLeft(b, 6) & 0x80 != 0) == (b & 0x02 != 0) && (ShiftedLeft(b, 7) & 0x80 != 0) == (b & 0x01 != 0)
  {
    hide ShiftedLeft, Doubled;
    DoubledMasks(b);
    ShiftStep(b, 0);
    ShiftStep(b, 1);
    ShiftStep(b, 2);
    ShiftStep(b, 3);
    ShiftStep(b, 4);
    ShiftStep(b, 5);
    ShiftStep(b, 6);
  }

  lemma NextBit(b: bv32, j: nat)
    ensures BitOf(b, j + 1) == BitOf(Doubled(b), j)
  {
  }

  /** Shifting a byte left by k brings bit k to the front. */
  lemma {:induction false} ShiftedBit(b: bv32, k: nat, j: nat)
    ensures BitOf(ShiftedLeft(b, k), j) == BitOf(b, k + j)
    decreases k
  {
    hide BitOf, ShiftedLeft, Doubled;
    if k == 0 {
      ShiftStep(b, 0);
    } else {
      ShiftedBit(b, k - 1, j + 1);
      ShiftStep(b, k - 1);
      NextBit(ShiftedLeft(b, k - 1), j);
    }
  }

  lemma FirstBit(b: bv32)
    ensures BitOf(b, 0) == (b & 0x80 != 0)
  {
  }

  lemma FrontBit(b: bv32, k: nat)
    ensures (ShiftedLeft(b, k) & 0x80 != 0) == BitOf(b, k)
    ensures ShiftedLeft(b, 0) == b && ShiftedLeft(b, k + 1) == Doubled(ShiftedLeft(b, k))
  {
    hide BitOf, ShiftedLeft;
    ShiftedBit(b, k, 0);
    ShiftStep(b, k);
    FirstBit(ShiftedLeft(b, k));
  }

  lemma BitMasks(b: bv32)
    ensures BitOf(b, 0) == (b & 0x80 != 0) && BitOf(b, 1) == (b & 0x40 != 0)
    ensures BitOf(b, 2) == (b & 0x20 != 0) && BitOf(b, 3) == (b & 0x10 != 0)
    ensures BitOf(b, 4) == (b & 0x08 != 0) && BitOf(b, 5) == (b & 0x04 != 0)
    ensures BitOf(b, 6) == (b & 0x02 != 0) && BitOf(b, 7) == (b & 0x01 != 0)
  {
    hide BitOf, ShiftedLeft, Doubled;
    ShiftMasks(b);
    FrontBit(b, 0);
    FrontBit(b, 1);
    FrontBit(b, 2);
    FrontBit(b, 3);
    FrontBit(b, 4);
    FrontBit(b, 5);
    FrontBit(b, 6);
    FrontBit(b, 7);
  }

  /** Bytes that differ differ in a bit, and the first such bit decides which one is larger. */
  lemma FirstDifferentBit(u: bv32, v: bv32) returns (j: nat)
    requires u < 0x100 && v < 0x100 && u != v
    ensures j < 8 && BitOf(u, j) != BitOf(v, j) && (u > v <==> BitOf(u, j))
    ensures forall i {:trigger BitOf(u, i)} :: 0 <= i < j ==> BitOf(u, i) == BitOf(v, i)
  {
    hide BitOf;
    BitMasks(u);
    BitMasks(v);
    j := if u & 0x80 != v & 0x80 then 0 else if u & 0x40 != v & 0x40 then 1
    else if u & 0x20 != v & 0x20 then 2 else if u & 0x10 != v & 0x10 then 3
    else if u & 0x08 != v & 0x08 then 4 else if u & 0x04 != v & 0x04 then 5
    else if u & 0x02 != v & 0x02 then 6 else 7;
  }

  /** The first of the n leading bits in which l and r differ is number i. */
  ghost predicate FirstDifference(l: Address, r: Address, n: nat, i: nat) {
    n <= 8 * |l| && n <= 8 * |r| && i < n && BitAt(l, i) != BitAt(r, i) && SameBits(l, r, i)
  }

  /** The n leading bits of l and r differ, and the sign of x tells which has the one where they
      first do. */
  ghost predicate Decides(l: Address, r: Address, n: nat, x: int) {
    exists i :: FirstDifference(l, r, n, i) && (x > 0 <==> BitAt(l, i))
  }

  lemma DifferentBits(l: Address, r: Address, n: nat, x: int)
    requires Decides(l, r, n, x)
    ensures n <= 8 * |l| && n <= 8 * |r| && !SameBits(l, r, n)
    ensures forall n' :: n <= n' <= 8 * |l| && n' <= 8 * |r| ==> Decides(l, r, n', x)
  {
    var i :| FirstDifference(l, r, n, i) && (x > 0 <==> BitAt(l, i));
    forall n' | n <= n' <= 8 * |l| && n' <= 8 * |r| ensures Decides(l, r, n', x) {
      assert FirstDifference(l, r, n', i);
    }
  }

  lemma SameBytesSameBits(l: Address, r: Address, b: nat)
    requires b <= |l| && b <= |r| && l[..b] == r[..b]
    ensures SameBits(l, r, 8 * b)
  {
    forall i | 0 <= i < 8 * b ensures BitAt(l, i) == BitAt(r, i) {
      assert l[i / 8] == l[..b][i / 8] == r[..b][i / 8] == r[i / 8];
    }
  }

  lemma BitInByte(a: Address, b: nat, j: nat)
    requires b < |a| && j < 8
    ensures BitAt(a, 8 * b + j) == BitOf(a[b] as bv32, j)
  {
    assert (8 * b + j) / 8 == b && (8 * b + j) % 8 == j;
  }

  lemma DifferentByte(l: Address, r: Address, k: nat, n: nat)
    requires k < |l| && k < |r| && l[..k] == r[..k] && l[k] != r[k]
    requires 8 * k + 8 <= n <= 8 * |l| && n <= 8 * |r|
    ensures Decides(l, r, n, if l[k] > r[k] then 1 else -1)
  {
    hide BitOf, BitAt;
    SameBytesSameBits(l, r, k);
    var j := FirstDifferentBit(l[k] as bv32, r[k] as bv32);
    forall i | 8 * k <= i < 8 * k + j ensures BitAt(l, i) == BitAt(r, i) {
      BitInByte(l, k, i - 8 * k);
      BitInByte(r, k, i - 8 * k);
    }
    BitInByte(l, k, j);
    BitInByte(r, k, j);
    assert FirstDifference(l, r, n, 8 * k + j);
  }

  /** memcmp on the first b bytes. */
  method Memcmp(l: Address, r: Address, b: nat) returns (x: int)
    requires b <= |l| && b <= |r|
    ensures x == 0 <==> l[..b] == r[..b]
    ensures x != 0 ==> Decides(l, r, 8 * b, x)
  {
    hide Decides;
    for k := 0 to b
      invariant l[..k] == r[..k]
    {
      if l[k] != r[k] {
        DifferentByte(l, r, k, 8 * b);
        assert l[..b][k] != r[..b][k];
        return if l[k] > r[k] then 1 else -1;
      }
    }
    return 0;
  }

  lemma OneBit(x: bv32, y: bv32)
    ensures x & 0x80 != y & 0x80 <==> (x & 0x80 != 0) != (y & 0x80 != 0)
  {
  }

  /** The loop of ares_bitncmp over the first n bits of one byte; -1 stands for no difference. */
  method CompareBits(l: bv32, r: bv32, n: nat) returns (x: int, ghost at: nat)
    ensures x == 0 ==> forall i {:trigger BitOf(l, i)} :: 0 <= i < n ==> BitOf(l, i) == BitOf(r, i)
    ensures x != 0 ==> at < n && BitOf(l, at) != BitOf(r, at) && (x > 0 <==> BitOf(l, at))
    ensures x != 0 ==> forall i {:trigger BitOf(l, i)} :: 0 <= i < at ==> BitOf(l, i) == BitOf(r, i)
  {
    hide BitOf, ShiftedLeft;
    at := 0;
    var lb, rb := l, r;
    var b := n;
    FrontBit(l, 0);
    FrontBit(r, 0);
    while b > 0
      invariant 0 <= b <= n && at == n - b
      invariant lb == ShiftedLeft(l, at) && rb == ShiftedLeft(r, at)
      invariant forall i {:trigger BitOf(l, i)} :: 0 <= i < at ==> BitOf(l, i) == BitOf(r, i)
    {
      FrontBit(l, at);
      FrontBit(r, at);
      OneBit(lb, rb);
      if lb & 0x80 != rb & 0x80 {
        return if lb & 0x80 != 0 then 1 else -1, at;
      }
      lb, rb, b, at := lb << 1, rb << 1, b - 1, at + 1;
    }
    return 0, at;
  }

  /** What the comparison of the first n bits of byte b says of all bits up to there. */
  lemma LastByte(l: Address, r: Address, b: nat, n: nat, x: int, at: nat)
    requires b < |l| && b < |r| && n < 8 && SameBits(l, r, 8 * b)
    requires forall i {:trigger BitOf(l[b] as bv32, i)} ::
               0 <= i < (if x == 0 then n else at) ==> BitOf(l[b] as bv32, i) == BitOf(r[b] as bv32, i)
    requires x != 0 ==>
               at < n && BitOf(l[b] as bv32, at) != BitOf(r[b] as bv32, at) && (x > 0 <==> BitOf(l[b] as bv32, at))
    ensures x == 0 ==> SameBits(l, r, 8 * b + n)
    ensures x != 0 ==> Decides(l, r, 8 * b + n, x)
  {
    hide BitOf, BitAt;
    var same := if x == 0 then n else at;
    BitInByte(l, b, same);
    BitInByte(r, b, same);
    forall i | 8 * b <= i < 8 * b + same ensures BitAt(l, i) == BitAt(r, i) {
      BitInByte(l, b, i - 8 * b);
      BitInByte(r, b, i - 8 * b);
    }
    assert x != 0 ==> FirstDifference(l, r, 8 * b + n, 8 * b + at);
  }

  /** ares_bitncmp: compares the first n bits, and tells by its sign which side has the one
      where they first differ. */
  method Bitncmp(l: Address, r: Address, n: nat) returns (x: int)
    requires n <= 8 * |l| && n <= 8 * |r|
    ensures x == 0 <==> SameBits(l, r, n)
    ensures x != 0 ==> Decides(l, r, n, x)
  {
    hide BitOf, SameBits, Decides;
    var b := n / 8;
    x := Memcmp(l, r, b);
    if x != 0 {
      DifferentBits(l, r, 8 * b, x);
      DifferentBits(l, r, n, x);
      return;
    }
    SameBytesSameBits(l, r, b);
    if n % 8 == 0 {
      return;
    }
    ghost var at;
    x, at := CompareBits(l[b] as bv32, r[b] as bv32, n % 8);
    LastByte(l, r, b, n % 8, x, at);
    if x != 0 {
      DifferentBits(l, r, n, x);
    }
  }

  // ----- where an address comes in the sortlist

  predicate MaskedByte(b: bv8, mask: bv8, pattern: bv8) {
    b & mask == pattern
  }

  /** addr & mask == pattern, byte by byte. */
  predicate MaskMatches(addr: Address, p: Pattern) {
    |addr| == |p.mask| == |p.addr| && forall i :: 0 <= i < |addr| ==> MaskedByte(addr[i], p.mask[i], p.addr[i])
  }

  predicate PrefixMatches(addr: Address, p: Pattern) {
    p.bits <= 8 * |addr| && p.bits <= 8 * |p.addr| && SameBits(addr, p.addr, p.bits)
  }

  /** Whether an entry of the sortlist matches an address of the given family.  Masks are only
      used for the older family. */
  predicate Matches(family: AddressFamily, addr: Address, p: Pattern) {
    p.family == family && if family == INET && p.isMask then MaskMatches(addr, p) else PrefixMatches(addr, p)
  }

  function Width(family: AddressFamily): nat {
    if family == INET then 4 else 16
  }

  /** An entry as the configuration makes them: its parts have the width of its family. */
  predicate WellFormed(p: Pattern) {
    && |p.addr| == Width(p.family)
    && (p.family == INET && p.isMask ==> |p.mask| == Width(p.family))
    && p.bits <= 8 * Width(p.family)
  }

  /** The least index of a matching entry, or the length of the sortlist. */
  function FirstMatch(family: AddressFamily, addr: Address, sortlist: seq<Pattern>): nat {
    if sortlist == [] || Matches(family, addr, sortlist[0]) then 0
    else 1 + FirstMatch(family, addr, sortlist[1..])
  }

  lemma {:induction false} FirstMatchIs(family: AddressFamily, addr: Address, sortlist: seq<Pattern>, i: nat)
    requires i <= |sortlist| && forall j :: 0 <= j < i ==> !Matches(family, addr, sortlist[j])
    requires i < |sortlist| ==> Matches(family, addr, sortlist[i])
    ensures FirstMatch(family, addr, sortlist) == i
  {
    if i > 0 {
      forall j | 0 <= j < i - 1 ensures !Matches(family, addr, sortlist[1..][j]) {
        assert sortlist[1..][j] == sortlist[j + 1];
      }
      FirstMatchIs(family, addr, sortlist[1..], i - 1);
    }
  }

  // ----- the same by bits

  /** What a masked comparison asks of one place. */
  predicate MaskedBit(bit: bool, mask: bool, pattern: bool) {
    if mask then bit == pattern else !pattern
  }

  /** The same as BitOf, for a byte. */
  predicate BitIn(b: bv8, j: nat) {
    if j == 0 then b & 0x80 != 0
    else if j == 1 then b & 0x40 != 0
    else if j == 2 then b & 0x20 != 0
    else if j == 3 then b & 0x10 != 0
    else if j == 4 then b & 0x08 != 0
    else if j == 5 then b & 0x04 != 0
    else if j == 6 then b & 0x02 != 0
    else j == 7 && b & 0x01 != 0
  }

  lemma BitOfByte(b: bv8, j: nat)
    requires j < 8
    ensures BitOf(b as bv32, j) == BitIn(b, j)
  {
    hide BitOf;
    BitMasks(b as bv32);
  }

  predicate MaskedAt(b: bv8, mask: bv8, pattern: bv8, j: nat) {
    MaskedBit(BitIn(b, j), BitIn(mask, j), BitIn(pattern, j))
  }

  lemma HighPlaces(b: bv8, mask: bv8, pattern: bv8)
    ensures b & mask & 0xF0 == pattern & 0xF0 <==>
              && MaskedAt(b, mask, pattern, 0) && MaskedAt(b, mask, pattern, 1)
              && MaskedAt(b, mask, pattern, 2) && MaskedAt(b, mask, pattern, 3)
  {
  }

  lemma LowPlaces(b: bv8, mask: bv8, pattern: bv8)
    ensures b & mask & 0x0F == pattern & 0x0F <==>
              && MaskedAt(b, mask, pattern, 4) && MaskedAt(b, mask, pattern, 5)
              && MaskedAt(b, mask, pattern, 6) && MaskedAt(b, mask, pattern, 7)
  {
  }

  lemma Halves(b: bv8, c: bv8)
    ensures b == c <==> b & 0xF0 == c & 0xF0 && b & 0x0F == c & 0x0F
  {
  }

  lemma EightPlaces(b: bv8, mask: bv8, pattern: bv8)
    ensures MaskedByte(b, mask, pattern) <==>
              && MaskedAt(b, mask, pattern, 0) && MaskedAt(b, mask, pattern, 1)
              && MaskedAt(b, mask, pattern, 2) && MaskedAt(b, mask, pattern, 3)
              && MaskedAt(b, mask, pattern, 4) && MaskedAt(b, mask, pattern, 5)
              && MaskedAt(b, mask, pattern, 6) && MaskedAt(b, mask, pattern, 7)
  {
    hide MaskedAt;
    HighPlaces(b, mask, pattern);
    LowPlaces(b, mask, pattern);
    Halves(b & mask, pattern);
  }

  lemma MaskedPlaces(b: bv8, mask: bv8, pattern: bv8)
    ensures MaskedByte(b, mask, pattern) <==> forall j :: 0 <= j < 8 ==> MaskedAt(b, mask, pattern, j)
  {
    hide MaskedByte, MaskedAt;
    EightPlaces(b, mask, pattern);
  }

  predicate MaskedPlace(addr: Address, p: Pattern, i: nat)
    requires |addr| == |p.mask| == |p.addr| && i < 8 * |addr|
  {
    MaskedBit(BitAt(addr, i), BitAt(p.mask, i), BitAt(p.addr, i))
  }

  lemma PlaceInByte(addr: Address, p: Pattern, k: nat, j: nat)
    requires |addr| == |p.mask| == |p.addr| && k < |addr| && j < 8
    ensures MaskedPlace(addr, p, 8 * k + j) == MaskedAt(addr[k], p.mask[k], p.addr[k], j)
  {
    hide BitAt, BitOf, BitIn, MaskedBit;
    BitInByte(addr, k, j);
    BitInByte(p.mask, k, j);
    BitInByte(p.addr, k, j);
    BitOfByte(addr[k], j);
    BitOfByte(p.mask[k], j);
    BitOfByte(p.addr[k], j);
  }

  /** An entry with a mask matches if the address has the bits of the entry where the mask has
      ones, and the entry has no bits elsewhere. */
  lemma MaskByBits(addr: Address, p: Pattern)
    requires |addr| == |p.mask| == |p.addr|
    ensures MaskMatches(addr, p) <==> forall i :: 0 <= i < 8 * |addr| ==> MaskedPlace(addr, p, i)
  {
    hide MaskedByte, MaskedAt, MaskedPlace;
    if MaskMatches(addr, p) {
      forall i | 0 <= i < 8 * |addr| ensures MaskedPlace(addr, p, i) {
        var k, j := i / 8, i % 8;
        assert MaskedByte(addr[k], p.mask[k], p.addr[k]);
        MaskedPlaces(addr[k], p.mask[k], p.addr[k]);
        PlaceInByte(addr, p, k, j);
      }
    }
    if forall i :: 0 <= i < 8 * |addr| ==> MaskedPlace(addr, p, i) {
      forall k | 0 <= k < |addr| ensures MaskedByte(addr[k], p.mask[k], p.addr[k]) {
        forall j | 0 <= j < 8 ensures MaskedAt(addr[k], p.mask[k], p.addr[k], j) {
          PlaceInByte(addr, p, k, j);
        }
        MaskedPlaces(addr[k], p.mask[k], p.addr[k]);
      }
    }
  }

  /** When an entry matches an address, bit by bit. */
  predicate MatchesByBits(family: AddressFamily, addr: Address, p: Pattern)
    requires |addr| == (if family == INET then 4 else 16) && WellFormed(p)
  {
    p.family == family &&
    if family == INET && p.isMask then
      forall i {:trigger BitAt(addr, i)} :: 0 <= i < 32 ==>
        if BitAt(p.mask, i) then BitAt(addr, i) == BitAt(p.addr, i) else !BitAt(p.addr, i)
    else
      forall i {:trigger BitAt(addr, i)} :: 0 <= i < p.bits ==> BitAt(addr, i) == BitAt(p.addr, i)
  }

  lemma MatchMeaning(family: AddressFamily, addr: Address, p: Pattern)
    requires |addr| == (if family == INET then 4 else 16) && WellFormed(p)
    ensures Matches(family, addr, p) <==> MatchesByBits(family, addr, p)
  {
    hide BitAt, MaskMatches;
    if p.family == family && family == INET && p.isMask {
      MaskByBits(addr, p);
      forall i | 0 <= i < 32
        ensures MaskedPlace(addr, p, i) <==>
                  if BitAt(p.mask, i) then BitAt(addr, i) == BitAt(p.addr, i) else !BitAt(p.addr, i)
      {
      }
      if MatchesByBits(family, addr, p) {
        forall i | 0 <= i < 32 ensures MaskedPlace(addr, p, i) {
          assert BitAt(addr, i) || !BitAt(addr, i);
        }
      }
      if MaskMatches(addr, p) {
        forall i {:trigger BitAt(addr, i)} | 0 <= i < 32
          ensures if BitAt(p.mask, i) then BitAt(addr, i) == BitAt(p.addr, i) else !BitAt(p.addr, i)
        {
          assert MaskedPlace(addr, p, i);
        }
        assert MatchesByBits(family, addr, p);
      }
    }
  }

  /** A mask of k ones followed by zeros, for an entry without bits outside it. */
  predicate IsPrefixMask(p: Pattern, k: nat)
    requires WellFormed(p)
  {
    && p.family == INET && p.isMask && k <= 32
    && (forall i {:trigger BitAt(p.mask, i)} :: 0 <= i < 32 ==> (BitAt(p.mask, i) <==> i < k))
    && (forall i {:trigger BitAt(p.addr, i)} :: k <= i < 32 ==> !BitAt(p.addr, i))
  }

  /** Such an entry matches the same addresses as the entry with k leading bits. */
  lemma PrefixMask(addr: Address, p: Pattern, k: nat)
    requires |addr| == 4 && WellFormed(p) && IsPrefixMask(p, k)
    ensures Matches(INET, addr, p) <==> Matches(INET, addr, Pattern(INET, p.addr, [], k, false))
  {
    hide BitAt, MaskMatches;
    MatchMeaning(INET, addr, p);
    MatchMeaning(INET, addr, Pattern(INET, p.addr, [], k, false));
    assert forall i {:trigger BitAt(addr, i)} :: 0 <= i < 32 ==> (BitAt(p.mask, i) <==> i < k);
  }

  /** Whether the entries of a sortlist are written with masks or with numbers of bits makes no
      difference. */
  lemma {:induction false} PrefixMasks(addr: Address, s: seq<Pattern>, t: seq<Pattern>, ks: seq<nat>)
    requires |addr| == 4 && |s| == |t| == |ks| && forall p :: p in s ==> WellFormed(p)
    requires forall i :: 0 <= i < |s| ==>
               t[i] == s[i] || (IsPrefixMask(s[i], ks[i]) && t[i] == Pattern(INET, s[i].addr, [], ks[i], false))
    ensures FirstMatch(INET, addr, s) == FirstMatch(INET, addr, t)
    decreases |s|
  {
    hide Matches, IsPrefixMask, WellFormed;
    if s != [] {
      assert s[0] in s && (t[0] == s[0] || IsPrefixMask(s[0], ks[0]));
      if t[0] != s[0] {
        PrefixMask(addr, s[0], ks[0]);
      }
      forall i | 0 <= i < |s| - 1
        ensures s[1..][i] in s
        ensures t[1..][i] == s[1..][i]
                || (IsPrefixMask(s[1..][i], ks[1..][i])
                    && t[1..][i] == Pattern(INET, s[1..][i].addr, [], ks[1..][i], false))
      {
        assert s[1..][i] == s[i + 1] && t[1..][i] == t[i + 1] && ks[1..][i] == ks[i + 1];
      }
      PrefixMasks(addr, s[1..], t[1..], ks[1..]);
    }
  }

  /** The index that decides the order is the least of a matching entry, or the number of entries. */
  lemma {:induction false} FirstMatchMeaning(family: AddressFamily, addr: Address, sortlist: seq<Pattern>, i: nat)
    requires |addr| == (if family == INET then 4 else 16) && forall p :: p in sortlist ==> WellFormed(p)
    ensures FirstMatch(family, addr, sortlist) == i <==>
              && i <= |sortlist| && (forall j :: 0 <= j < i ==> !MatchesByBits(family, addr, sortlist[j]))
              && (i < |sortlist| ==> MatchesByBits(family, addr, sortlist[i]))
  {
    hide MatchesByBits, Matches, WellFormed;
    if sortlist != [] {
      assert sortlist[0] in sortlist;
      MatchMeaning(family, addr, sortlist[0]);
      if i > 0 {
        var rest := sortlist[1..];
        FirstMatchMeaning(family, addr, rest, i - 1);
        assert forall j :: 0 <= j < |rest| ==> rest[j] == sortlist[j + 1];
        assert forall j :: 0 < j < |sortlist| ==> sortlist[j] == rest[j - 1];
      }
    }
  }

  // ----- the index

  method MaskedEqual(addr: Address, p: Pattern) returns (equal: bool)
    requires |addr| == |p.mask| == |p.addr|
    ensures equal <==> MaskMatches(addr, p)
  {
    hide MaskedByte;
    for i := 0 to |addr|
      invariant forall j :: 0 <= j < i ==> MaskedByte(addr[j], p.mask[j], p.addr[j])
    {
      if !MaskedByte(addr[i], p.mask[i], p.addr[i]) {
        return false;
      }
    }
    return true;
  }

  /** get_address_index and, for the newer family, get6_address_index. */
  method GetAddressIndex(family: AddressFamily, addr: Address, sortlist: seq<Pattern>) returns (i: nat)
    requires |addr| == Width(family) && forall p :: p in sortlist ==> WellFormed(p)
    ensures i == FirstMatch(family, addr, sortlist)
    ensures i <= |sortlist| && forall j :: 0 <= j < i ==> !MatchesByBits(family, addr, sortlist[j])
    ensures i < |sortlist| ==> MatchesByBits(family, addr, sortlist[i])
  {
    i := 0;
    while i < |sortlist|
      invariant i <= |sortlist| && forall j :: 0 <= j < i ==> !Matches(family, addr, sortlist[j])
    {
      var p := sortlist[i];
      assert WellFormed(p);
      if p.family == family {
        if family == INET && p.isMask {
          var equal := MaskedEqual(addr, p);
          if equal {
            break;
          }
        } else {
          var differs := Bitncmp(addr, p.addr, p.bits);
          if differs == 0 {
            break;
          }
        }
      }
      i := i + 1;
    }
    FirstMatchIs(family, addr, sortlist, i);
    forall j | 0 <= j <= i && j < |sortlist|
      ensures WellFormed(sortlist[j])
      ensures Matches(family, addr, sortlist[j]) <==> MatchesByBits(family, addr, sortlist[j])
    {
      MatchMeaning(family, addr, sortlist[j]);
    }
  }

  // ----- the sort

  ghost function SortKey(family: AddressFamily, sortlist: seq<Pattern>): Address -> nat {
    addr => FirstMatch(family, addr, sortlist)
  }

  lemma SortedInsert(a: seq<Address>, x: Address, over: seq<Address>, key: Address -> nat)
    requires SortedBy(a + over, key)
    requires a != [] ==> key(a[|a| - 1]) <= key(x)
    requires forall y :: y in over ==> key(y) > key(x)
    ensures SortedBy(a + [x] + over, key)
  {
    var s, r := a + over, a + [x] + over;
    assert forall i :: 0 <= i < |a| ==> r[i] == s[i] == a[i];
    assert forall i :: |a| < i < |r| ==> r[i] == s[i - 1] && r[i] in over;
    assert r[|a|] == x;
    assert forall i :: 0 <= i < |a| ==> key(s[i]) <= key(s[|a| - 1]);
  }

  /** s with its element at i1 moved back to p. */
  function MovedBack(s: seq<Address>, p: nat, i1: nat): seq<Address>
    requires p <= i1 < |s|
  {
    s[..p] + [s[i1]] + s[p..i1] + s[i1 + 1..]
  }

  lemma MovedBackAt(s: seq<Address>, p: nat, i1: nat)
    requires p <= i1 < |s|
    ensures var t := MovedBack(s, p, i1);
            && |t| == |s| && t[p] == s[i1]
            && (forall k :: 0 <= k < p || i1 < k < |s| ==> t[k] == s[k])
            && (forall k :: p < k <= i1 ==> t[k] == s[k - 1])
  {
  }

  lemma MovedBackIs(s: seq<Address>, t: seq<Address>, p: nat, i1: nat)
    requires p <= i1 < |s| == |t| && t[p] == s[i1]
    requires forall k :: 0 <= k < p || i1 < k < |s| ==> t[k] == s[k]
    requires forall k :: p < k <= i1 ==> t[k] == s[k - 1]
    ensures t == MovedBack(s, p, i1)
  {
    MovedBackAt(s, p, i1);
  }

  /** One round of the insertion sort. */
  lemma Inserted(s: seq<Address>, t: seq<Address>, p: nat, i1: nat, key: Address -> nat)
    requires p <= i1 < |s| && t == MovedBack(s, p, i1)
    requires SortedBy(s[..i1], key)
    requires p > 0 ==> key(s[p - 1]) <= key(s[i1])
    requires forall k :: p <= k < i1 ==> key(s[k]) > key(s[i1])
    ensures SortedBy(t[..i1 + 1], key) && SameByKey(s, t, key)
  {
    hide SameByKey, SortedBy;
    var x, over := s[i1], s[p..i1];
    assert s == s[..p] + over + [x] + s[i1 + 1..];
    MoveBack(s[..p], over, x, s[i1 + 1..], key);
    assert s[..i1] == s[..p] + over;
    SortedInsert(s[..p], x, over, key);
    assert t[..i1 + 1] == s[..p] + [x] + over;
  }

  /** The inner loop: moves the element at i1 back past those that come after it. */
  method MoveIntoPlace(list: array<Address>, i1: nat, family: AddressFamily,
                       sortlist: seq<Pattern>) returns (ghost p: nat)
    requires forall i :: 0 <= i < list.Length ==> |list[i]| == Width(family)
    requires forall p :: p in sortlist ==> WellFormed(p)
    requires i1 < list.Length
    modifies list
    ensures p <= i1
    ensures list[..] == MovedBack(old(list[..]), p, i1)
    ensures var s, key := old(list[..]), SortKey(family, sortlist);
            && (p > 0 ==> key(s[p - 1]) <= key(s[i1]))
            && forall k :: p <= k < i1 ==> key(s[k]) > key(s[i1])
  {
    hide FirstMatch, Matches, WellFormed, MovedBack, Width;
    ghost var s := list[..];
    var a1 := list[i1];
    var ind1 := GetAddressIndex(family, a1, sortlist);
    var i2 := i1 - 1;
    while i2 >= 0
      invariant -1 <= i2 < i1
      invariant forall k :: 0 <= k <= i2 || i1 < k < list.Length ==> list[k] == s[k]
      invariant forall k :: i2 + 2 <= k <= i1 ==> list[k] == s[k - 1]
      invariant forall k :: i2 < k < i1 ==> FirstMatch(family, s[k], sortlist) > ind1
    {
      var a2 := list[i2];
      var ind2 := GetAddressIndex(family, a2, sortlist);
      if ind2 <= ind1 {
        break;
      }
      list[i2 + 1] := a2;
      i2 := i2 - 1;
    }
    p := i2 + 1;
    assert p > 0 ==> FirstMatch(family, s[p - 1], sortlist) <= ind1;
    list[i2 + 1] := a1;
    MovedBackIs(s, list[..], p, i1);
  }

  lemma NothingSorted(s: seq<Address>, key: Address -> nat)
    requires s == []
    ensures SortedBy(s, key)
  {
  }

  lemma StableRefl(s: seq<Address>, key: Address -> nat)
    ensures SameByKey(s, s, key)
  {
  }

  lemma StableTrans(s: seq<Address>, t: seq<Address>, u: seq<Address>, key: Address -> nat)
    requires SameByKey(s, t, key) && SameByKey(t, u, key)
    ensures SameByKey(s, u, key)
  {
    forall k: nat ensures WithKey(s, key, k) == WithKey(u, key, k) {
      assert WithKey(s, key, k) == WithKey(t, key, k);
    }
  }

  /** sort_addresses and sort6_addresses: the addresses are ordered by where they come in the
      sortlist, and addresses of the same place keep their order. */
  method SortAddresses(list: array<Address>, family: AddressFamily, sortlist: seq<Pattern>)
    requires forall i :: 0 <= i < list.Length ==> |list[i]| == Width(family)
    requires forall p :: p in sortlist ==> WellFormed(p)
    modifies list
    ensures StablySorted(old(list[..]), list[..], SortKey(family, sortlist))
    ensures multiset(list[..]) == multiset(old(list[..]))
  {
    hide FirstMatch, WellFormed, SameByKey, SortedBy, MovedBack, Matches, Width;
    ghost var key := SortKey(family, sortlist);
    var i1 := 0;
    NothingSorted(list[..0], key);
    StableRefl(list[..], key);
    while i1 < list.Length
      invariant 0 <= i1 <= list.Length
      invariant forall i :: 0 <= i < list.Length ==> |list[i]| == Width(family)
      invariant SortedBy(list[..i1], key) && SameByKey(old(list[..]), list[..], key)
    {
      ghost var s := list[..];
      ghost var p := MoveIntoPlace(list, i1, family, sortlist);
      ghost var t := list[..];
      MovedBackAt(s, p, i1);
      Inserted(s, t, p, i1, key);
      StableTrans(old(list[..]), s, t, key);
      assert list[..i1 + 1] == t[..i1 + 1];
      i1 := i1 + 1;
    }
    assert list[..i1] == list[..];
    StableIsPermutation(old(list[..]), list[..], key);
  }
}
