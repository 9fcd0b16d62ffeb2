/**
  The generator of query ids (ares__rc4 in ares_query.c, init_id_key and ares__generate_new_id
  in ares_init.c).
 */
module Rc4 {
  import opened Wire

  /** rc4_key, as a value. */
  datatype Key = Key(state: seq<byte>, x: byte, y: byte)
  {
    predicate Valid() {
      |state| == 256
    }
  }

  function Swapped(s: seq<byte>, i: byte, j: byte): (t: seq<byte>)
    requires |s| == 256
    ensures |t| == 256
  {
    s[i := s[j]][j := s[i]]
  }

  function Sum(a: byte, b: byte): byte {
    (a as int + b as int) % 256
  }

  lemma SumZero(a: byte)
    ensures Sum(0, a) == a
  {
  }

  /** One round: moves the indices and swaps two bytes of the state. */
  function Round(k: Key): (r: Key)
    requires k.Valid()
    ensures r.Valid()
  {
    var x := Sum(k.x, 1);
    var y := Sum(k.state[x], k.y);
    Key(Swapped(k.state, x, y), x, y)
  }

  /** The byte that a round contributes to the key stream. */
  function Pad(k: Key): byte
    requires k.Valid()
  {
    k.state[Sum(k.state[k.x], k.state[k.y])]
  }

  /** The key after n rounds. */
  function After(k: Key, n: nat): (r: Key)
    requires k.Valid()
    ensures r.Valid()
  {
    if n == 0 then k else Round(After(k, n - 1))
  }

  /** The first n bytes of the key stream. */
  function Stream(k: Key, n: nat): (s: seq<byte>)
    requires k.Valid()
    ensures |s| == n
  {
    if n == 0 then [] else Stream(k, n - 1) + [Pad(After(k, n))]
  }

  function Limit(n: nat): nat {
    if n == 0 then 1 else 2 * Limit(n - 1)
  }

  /** The exclusive or of two numbers of n bits, the last bit first. */
  function XorBits(a: nat, b: nat, n: nat): (r: nat)
    ensures r < Limit(n)
  {
    if n == 0 then 0 else 2 * XorBits(a / 2, b / 2, n - 1) + if a % 2 == b % 2 then 0 else 1
  }

  lemma HalfAndRest(q: nat, bit: nat)
    requires bit < 2
    ensures (2 * q + bit) / 2 == q && (2 * q + bit) % 2 == bit
  {
  }

  lemma {:induction false} XorBitsTwice(a: nat, b: nat, n: nat)
    requires a < Limit(n)
    ensures XorBits(XorBits(a, b, n), b, n) == a
  {
    if n > 0 {
      var q, bit := XorBits(a / 2, b / 2, n - 1), if a % 2 == b % 2 then 0 else 1;
      HalfAndRest(q, bit);
      assert XorBits(a, b, n) == 2 * q + bit;
      XorBitsTwice(a / 2, b / 2, n - 1);
      assert XorBits(2 * q + bit, b, n) == 2 * XorBits(q, b / 2, n - 1) + if bit == b % 2 then 0 else 1;
    }
  }

  lemma {:induction false} XorBitsZero(b: nat, n: nat)
    requires b < Limit(n)
    ensures XorBits(0, b, n) == b
  {
    if n > 0 {
      XorBitsZero(b / 2, n - 1);
      assert XorBits(0, b, n) == 2 * XorBits(0, b / 2, n - 1) + if 0 == b % 2 then 0 else 1;
    }
  }

  lemma EightBits()
    ensures Limit(8) == 256
  {
    assert Limit(2) == 4;
    assert Limit(4) == 16;
    assert Limit(6) == 64;
  }

  function XorByte(a: byte, b: byte): byte {
    EightBits();
    XorBits(a, b, 8)
  }

  lemma XorByteTwice(a: byte, b: byte)
    ensures XorByte(XorByte(a, b), b) == a && XorByte(0, b) == b
  {
    EightBits();
    XorBitsTwice(a, b, 8);
    XorBitsZero(b, 8);
  }

  function Xor(a: seq<byte>, b: seq<byte>): (r: seq<byte>)
    requires |a| == |b|
    ensures |r| == |a|
  {
    seq(|a|, i requires 0 <= i < |a| => XorByte(a[i], b[i]))
  }

  lemma SwapKeepsBytes(s: seq<byte>, i: byte, j: byte)
    requires |s| == 256
    ensures multiset(Swapped(s, i, j)) == multiset(s)
  {
  }

  /** The generator only permutes its state. */
  lemma {:induction false} StateIsPermuted(k: Key, n: nat)
    requires k.Valid()
    ensures multiset(After(k, n).state) == multiset(k.state)
  {
    hide Swapped;
    if n > 0 {
      StateIsPermuted(k, n - 1);
      var p := After(k, n - 1);
      SwapKeepsBytes(p.state, Sum(p.x, 1), Sum(p.state[Sum(p.x, 1)], p.y));
    }
  }

  lemma {:induction false} AfterContinues(k: Key, n: nat, m: nat)
    requires k.Valid()
    ensures After(k, n + m) == After(After(k, n), m)
  {
    hide Round;
    if m > 0 {
      AfterContinues(k, n, m - 1);
    }
  }

  /** Byte i of the stream is the pad of round i + 1, however long the stream. */
  lemma {:induction false} StreamAt(k: Key, n: nat, i: nat)
    requires k.Valid() && i < n
    ensures Stream(k, n)[i] == Pad(After(k, i + 1))
  {
    hide Pad, After;
    if i < n - 1 {
      StreamAt(k, n - 1, i);
    }
  }

  lemma RoundMeaning(p: Key)
    requires p.Valid()
    ensures var r := Round(p);
            && r.x as int == (p.x as int + 1) % 256 && r.y as int == (p.y as int + p.state[r.x] as int) % 256
            && r.state[r.x] == p.state[r.y] && r.state[r.y] == p.state[r.x]
            && forall i :: 0 <= i < 256 && i != r.x && i != r.y ==> r.state[i] == p.state[i]
  {
  }

  lemma LastPad(k: Key)
    requires k.Valid()
    ensures Pad(k) == k.state[(k.state[k.x] as int + k.state[k.y] as int) % 256]
  {
  }

  lemma NextIndex(i: nat)
    ensures (i % 256 + 1) % 256 == (i + 1) % 256
  {
  }

  lemma {:induction false} FirstIndex(k: Key, n: nat)
    requires k.Valid()
    ensures After(k, n).x as int == (k.x as int + n) % 256
  {
    hide Round;
    if n > 0 {
      FirstIndex(k, n - 1);
      RoundMeaning(After(k, n - 1));
      NextIndex(k.x as int + n - 1);
    }
  }

  /** The rounds in the words of the usual description of RC4: the first index counts the rounds,
      the second adds up the bytes found under the first, the two bytes change places, and the
      byte under their sum goes into the key stream. */
  lemma RoundsMeaning(k: Key, n: nat)
    requires k.Valid()
    ensures After(k, 0) == k && After(k, n).x as int == (k.x as int + n) % 256
    ensures var p, r := After(k, n), After(k, n + 1);
            && r.y as int == (p.y as int + p.state[r.x] as int) % 256
            && r.state[r.x] == p.state[r.y] && r.state[r.y] == p.state[r.x]
            && (forall i :: 0 <= i < 256 && i != r.x && i != r.y ==> r.state[i] == p.state[i])
            && Stream(k, n + 1)[n] == r.state[(r.state[r.x] as int + r.state[r.y] as int) % 256]
  {
    hide Pad, Stream, Round;
    FirstIndex(k, n);
    RoundMeaning(After(k, n));
    StreamAt(k, n + 1, n);
    LastPad(After(k, n + 1));
  }

  /** A binary digit of a number. */
  function Digit(a: nat, i: nat): nat {
    if i == 0 then a % 2 else Digit(a / 2, i - 1)
  }

  /** The exclusive or has a one where the digits differ. */
  lemma {:induction false} XorMeaning(a: nat, b: nat, n: nat, i: nat)
    requires i < n
    ensures Digit(XorBits(a, b, n), i) == if Digit(a, i) == Digit(b, i) then 0 else 1
    decreases n
  {
    var q, bit := XorBits(a / 2, b / 2, n - 1), if a % 2 == b % 2 then 0 else 1;
    HalfAndRest(q, bit);
    assert XorBits(a, b, n) == 2 * q + bit;
    if i > 0 {
      XorMeaning(a / 2, b / 2, n - 1, i - 1);
    }
  }

  /** The buffer after the generator has run over it. */
  function Crypt(k: Key, a: seq<byte>): seq<byte>
    requires k.Valid()
  {
    Xor(a, Stream(k, |a|))
  }

  lemma CryptAt(k: Key, a: seq<byte>, i: nat)
    requires k.Valid() && i < |a|
    ensures |Crypt(k, a)| == |a| && Crypt(k, a)[i] == XorByte(a[i], Pad(After(k, i + 1)))
  {
    hide Pad, After, XorByte;
    StreamAt(k, |a|, i);
  }

  /** The buffer after the generator has run over it, byte by byte and digit by digit. */
  lemma CryptMeaning(k: Key, a: seq<byte>, i: nat, j: nat)
    requires k.Valid() && i < |a| && j < 8
    ensures |Crypt(k, a)| == |a|
    ensures Digit(Crypt(k, a)[i], j) == if Digit(a[i], j) == Digit(Stream(k, i + 1)[i], j) then 0 else 1
  {
    hide Pad, After, Digit, XorBits;
    CryptAt(k, a, i);
    StreamAt(k, i + 1, i);
    XorMeaning(a[i], Pad(After(k, i + 1)), 8, j);
  }

  /** Running the generator twice from equal keys gives the buffer back. */
  lemma CryptTwice(k: Key, a: seq<byte>)
    requires k.Valid()
    ensures Crypt(k, Crypt(k, a)) == a
  {
    hide XorByte, Stream;
    var s := Stream(k, |a|);
    forall i | 0 <= i < |a| ensures Xor(Xor(a, s), s)[i] == a[i] {
      XorByteTwice(a[i], s[i]);
    }
  }

  lemma CryptPieceAt(k: Key, a: seq<byte>, n: nat, i: nat)
    requires k.Valid() && n <= |a| && i < |a|
    ensures |Crypt(k, a)| == |a| && |Crypt(k, a[..n])| == n && |Crypt(After(k, n), a[n..])| == |a| - n
    ensures Crypt(k, a)[i] == if i < n then Crypt(k, a[..n])[i] else Crypt(After(k, n), a[n..])[i - n]
  {
    hide Pad, XorByte, Stream, Round;
    CryptAt(k, a, i);
    if i < n {
      CryptAt(k, a[..n], i);
    } else {
      CryptAt(After(k, n), a[n..], i - n);
      AfterContinues(k, n, i - n + 1);
    }
  }

  /** Running the generator over a buffer in two pieces, one after the other, is running it over
      the whole. */
  lemma CryptInPieces(k: Key, a: seq<byte>, n: nat)
    requires k.Valid() && n <= |a|
    ensures Crypt(k, a) == Crypt(k, a[..n]) + Crypt(After(k, n), a[n..])
  {
    hide Xor, Stream, Round;
    var l, r := Crypt(k, a[..n]), Crypt(After(k, n), a[n..]);
    forall i | 0 <= i < |a| ensures Crypt(k, a)[i] == (l + r)[i] {
      CryptPieceAt(k, a, n, i);
    }
  }

  /** The state before mixing: the random bytes, and every place after them its own number. */
  function Seeded(random: seq<byte>): (s: seq<byte>)
    requires |random| <= 256
    ensures |s| == 256
  {
    random + seq(256 - |random|, i requires 0 <= i < 256 - |random| => |random| + i)
  }

  /** The mixing of a seeded state: step n exchanges byte n with the one that the running sum of
      the bytes points to. */
  function Mixed(s: seq<byte>, n: nat): (r: (seq<byte>, byte))
    requires |s| == 256 && n <= 256
    ensures |r.0| == 256
  {
    if n == 0 then (s, 0)
    else
      var (t, sum) := Mixed(s, n - 1);
      var j := Sum(t[n - 1], sum);
      (Swapped(t, n - 1, j), j)
  }

  lemma {:induction false} MixingPermutes(s: seq<byte>, n: nat)
    requires |s| == 256 && n <= 256
    ensures multiset(Mixed(s, n).0) == multiset(s)
  {
    hide Swapped;
    if n > 0 {
      MixingPermutes(s, n - 1);
      var (t, sum) := Mixed(s, n - 1);
      SwapKeepsBytes(t, n - 1, Sum(t[n - 1], sum));
    }
  }

  /** The state that is mixed, and a step of the mixing. */
  lemma MixingMeaning(random: seq<byte>, s: seq<byte>, n: nat)
    requires |random| <= 256 && |s| == 256 && n < 256
    ensures Seeded(random)[n] as int == if n < |random| then random[n] as int else n
    ensures Mixed(s, 0) == (s, 0)
    ensures var (t, sum), (u, j) := Mixed(s, n), Mixed(s, n + 1);
            && j as int == (sum as int + t[n] as int) % 256 && u[n] == t[j] && u[j] == t[n]
            && forall i :: 0 <= i < 256 && i != n && i != j ==> u[i] == t[i]
  {
  }

  /** rc4_key, as the library keeps it. */
  class Rc4Key {
    const state: array<byte>
    var x: byte
    var y: byte

    ghost predicate Valid() {
      state.Length == 256
    }

    ghost function Value(): (k: Key)
      requires Valid()
      reads this, state
      ensures k.Valid()
    {
      Key(state[..], x, y)
    }

    /** Storage for a key. */
    constructor ()
      ensures Valid() && fresh(state)
    {
      state := new byte[256];
      x, y := 0, 0;
    }

    method Swap(i: byte, j: byte)
      requires Valid()
      modifies state
      ensures state[..] == Swapped(old(state[..]), i, j)
    {
      var swapByte := state[i];
      state[i] := state[j];
      state[j] := swapByte;
    }

    /** ares__rc4: xors the buffer with the key stream.  The loop counter is a short. */
    method Rc4(buffer: array<byte>)
      requires Valid() && buffer != state && buffer.Length <= 0x7fff
      modifies this, state, buffer
      ensures buffer[..] == Crypt(old(Value()), old(buffer[..]))
      ensures Value() == After(old(Value()), buffer.Length)
    {
      hide Swapped, XorByte, Sum;
      var px, py := x, y;
      ghost var k := Value();
      var counter := 0;
      while counter < buffer.Length
        invariant 0 <= counter <= buffer.Length
        invariant Key(state[..], px, py) == After(k, counter)
        invariant forall i :: 0 <= i < counter ==> buffer[i] == XorByte(old(buffer[i]), Stream(k, counter)[i])
        invariant forall i :: counter <= i < buffer.Length ==> buffer[i] == old(buffer[i])
      {
        px := Sum(px, 1);
        py := Sum(state[px], py);
        Swap(px, py);
        assert Key(state[..], px, py) == After(k, counter + 1);
        var xorIndex := Sum(state[px], state[py]);
        buffer[counter] := XorByte(buffer[counter], state[xorIndex]);
        counter := counter + 1;
      }
      x, y := px, py;
    }

    /** ares__generate_new_id: two bytes of key stream. */
    method GenerateNewId() returns (first: byte, second: byte)
      requires Valid()
      modifies this, state
      ensures [first, second] == Stream(old(Value()), 2) && Value() == After(old(Value()), 2)
    {
      hide XorByte;
      var r := new byte[2];
      r[0], r[1] := 0, 0;
      ghost var stream := Stream(Value(), 2);
      Rc4(r);
      XorByteTwice(0, stream[0]);
      XorByteTwice(0, stream[1]);
      first, second := r[0], r[1];
    }

    /** init_id_key, with the random bytes as an argument: they overwrite the beginning of the
        state, and the mixing loop only permutes what is there then.  (The key data that the
        loop adds in are zeros.) */
    method InitIdKey(random: seq<byte>)
      requires Valid() && 0 < |random| <= 256
      modifies this, state
      ensures state[..] == Mixed(Seeded(random), 256).0
      ensures multiset(state[..]) == multiset(Seeded(random))
      ensures x == 0 && y == 0
    {
      hide Swapped, Sum;
      for counter := 0 to 256
        invariant forall i :: 0 <= i < counter ==> state[i] == i
      {
        state[counter] := counter;
      }
      for counter := 0 to |random|
        invariant forall i :: 0 <= i < counter ==> state[i] == random[i]
        invariant forall i :: |random| <= i < 256 ==> state[i] == i
      {
        state[counter] := random[counter];
      }
      assert state[..] == Seeded(random);
      x, y := 0, 0;
      var keyData := new byte[|random|](_ => 0);
      var index1, index2: byte := 0, 0;
      for counter := 0 to 256
        invariant 0 <= index1 < |random|
        invariant forall i :: 0 <= i < |random| ==> keyData[i] == 0
        invariant (state[..], index2) == Mixed(Seeded(random), counter)
        invariant x == 0 && y == 0
      {
        SumZero(state[counter]);
        index2 := Sum(Sum(keyData[index1], state[counter]), index2);
        Swap(counter, index2);
        index1 := (index1 + 1) % |random|;
      }
      MixingPermutes(Seeded(random), 256);
    }
  }
}
