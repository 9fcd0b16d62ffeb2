/** Bytes, the numbers of the DNS message format, and the library's status codes. */
module Wire {

  type byte = b: int | 0 <= b < 256

  /** A label is the contents of one component of a domain name. */
  type Label = seq<byte>

  const HFIXEDSZ := 12
  const QFIXEDSZ := 4
  const RRFIXEDSZ := 10
  const MAXLABEL := 63
  const MAXCDNAME := 255
  const PACKETSZ := 512

  const C_IN := 1
  const T_A := 1
  const T_CNAME := 5
  const T_PTR := 12

  const INT_MAX := 0x7fff_ffff

  const DOT: byte := 46
  const BACKSLASH: byte := 92

  datatype Status =
    | SUCCESS | ENODATA | EFORMERR | ESERVFAIL | ENOTFOUND | ENOTIMP | EREFUSED
    | EBADQUERY | EBADNAME | EBADFAMILY | EBADRESP | ECONNREFUSED | ETIMEOUT | EOF
    | EFILE | ENOMEM | EDESTRUCTION | EBADSTR | EBADFLAGS | ENONAME | EBADHINTS
    | ENOTINITIALIZED | ELOADIPHLPAPI | EADDRGETNETWORKPARAMS | ECANCELLED

  datatype Option<+T> = None | Some(value: T)

  ghost predicate NoDuplicates<X>(s: seq<X>) {
    forall i, j :: 0 <= i < j < |s| ==> s[i] != s[j]
  }

  /** The 16-bit network-order number at offset p. */
  function Get16(m: seq<byte>, p: nat): (r: nat)
    requires p + 2 <= |m|
    ensures r < 0x1_0000
  {
    m[p] as int * 256 + m[p + 1] as int
  }

  /** The 32-bit network-order number at offset p, read into a signed 32-bit int. */
  function Get32(m: seq<byte>, p: nat): (r: int)
    requires p + 4 <= |m|
    ensures -INT_MAX - 1 <= r <= INT_MAX
  {
    var u := Get16(m, p) * 0x1_0000 + Get16(m, p + 2);
    if u > INT_MAX then u - 0x1_0000_0000 else u
  }

  /** The two network-order bytes that the header macros store for v: its low 16 bits. */
  function Put16(v: int): seq<byte> {
    [v / 256 % 256, v % 256]
  }

  lemma LowSixteen(v: int)
    ensures v / 256 % 256 * 256 + v % 256 == v % 0x1_0000
  {
    var q, r := v / 256 / 256, v / 256 % 256;
    assert v == q * 0x1_0000 + (r * 256 + v % 256) && 0 <= r * 256 + v % 256 < 0x1_0000;
  }

  lemma Get16Put16(pre: seq<byte>, v: int, post: seq<byte>)
    ensures Get16(pre + Put16(v) + post, |pre|) == v % 0x1_0000
  {
    LowSixteen(v);
  }

  /** What a C string function sees of a buffer: the bytes before the first NUL. */
  function CString(s: seq<byte>): seq<byte> {
    if s == [] || s[0] == 0 then [] else [s[0]] + CString(s[1..])
  }

  function ToLower(b: byte): byte {
    if 65 <= b <= 90 then b + 32 else b
  }

  /** strcasecmp(a, b) == 0, in the C locale. */
  predicate SameName(a: seq<byte>, b: seq<byte>) {
    var x, y := CString(a), CString(b);
    |x| == |y| && forall i :: 0 <= i < |x| ==> ToLower(x[i]) == ToLower(y[i])
  }

  /** Sameness of names is an equivalence. */
  lemma SameNameEquivalence(a: seq<byte>, b: seq<byte>, c: seq<byte>)
    ensures SameName(a, a)
    ensures SameName(a, b) ==> SameName(b, a)
    ensures SameName(a, b) && SameName(b, c) ==> SameName(a, c)
  {
    hide CString;
  }

  /** The bytes before the first NUL of a buffer are a. */
  predicate Shows(s: seq<byte>, a: seq<byte>) {
    0 !in a && (s == a || a + [0] <= s)
  }

  /** Equal but for the case of ASCII letters. */
  predicate EqualButCase(a: seq<byte>, b: seq<byte>) {
    |a| == |b| &&
    forall i :: 0 <= i < |a| ==>
      a[i] == b[i] || (65 <= a[i] <= 90 && b[i] == a[i] + 32) || (97 <= a[i] <= 122 && b[i] == a[i] - 32)
  }

  lemma {:induction false} ShownString(s: seq<byte>, a: seq<byte>)
    requires Shows(s, a)
    ensures CString(s) == a
  {
    if a != [] {
      assert a[0] in a;
      forall b | b in a[1..] ensures b != 0 {
        assert b in a;
      }
      assert s == a || s[1..][..|a|] == a[1..] + [0];
      ShownString(s[1..], a[1..]);
    }
  }

  lemma {:induction false} ShowsString(s: seq<byte>)
    ensures Shows(s, CString(s))
  {
    if s != [] && s[0] != 0 {
      ShowsString(s[1..]);
      assert s == [s[0]] + s[1..];
    }
  }

  /** Two buffers hold the same name exactly if what stands before the first NUL is equal but for
      the case of letters. */
  lemma SameNameMeaning(s: seq<byte>, t: seq<byte>, a: seq<byte>, b: seq<byte>)
    requires Shows(s, a) && Shows(t, b)
    ensures SameName(s, t) <==> EqualButCase(a, b)
  {
    ShownString(s, a);
    ShownString(t, b);
  }

  /** What stands before the first NUL is equal but for the case of letters. */
  ghost predicate EqualNames(s: seq<byte>, t: seq<byte>) {
    exists a, b :: Shows(s, a) && Shows(t, b) && EqualButCase(a, b)
  }

  lemma SameNameIsEqualNames(s: seq<byte>, t: seq<byte>)
    ensures SameName(s, t) <==> EqualNames(s, t)
  {
    hide SameName, EqualButCase, Shows;
    ShowsString(s);
    ShowsString(t);
    SameNameMeaning(s, t, CString(s), CString(t));
    if EqualNames(s, t) {
      var a, b :| Shows(s, a) && Shows(t, b) && EqualButCase(a, b);
      SameNameMeaning(s, t, a, b);
    }
  }

  /** Names with and without a terminator. */
  lemma SameNameOfStrings(a: seq<byte>, b: seq<byte>, s: seq<byte>, t: seq<byte>)
    requires 0 !in a && 0 !in b
    ensures SameName(a + [0] + s, b + [0] + t) <==> EqualButCase(a, b)
    ensures SameName(a, b) <==> EqualButCase(a, b)
  {
    SameNameMeaning(a + [0] + s, b + [0] + t, a, b);
    SameNameMeaning(a, b, a, b);
  }
}
