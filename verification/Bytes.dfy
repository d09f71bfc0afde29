/** Bytes in memory order: the little-endian images of integers, and C strings. */
module Bytes {
  type Byte = b: int | 0 <= b < 256

  function Pow256(n: nat): (p: nat)
    ensures p > 0
  {
    if n == 0 then 1 else 256 * Pow256(n - 1)
  }

  /** The n low-order bytes of v in two's complement, least significant first. */
  function Image(v: int, n: nat): (s: seq<Byte>)
    ensures |s| == n
    decreases n, v
  {
    if n == 0 then [] else [v % 256] + Image(v / 256, n - 1)
  }

  function Unsigned(s: seq<Byte>): (v: nat) {
    if s == [] then 0 else s[0] + 256 * Unsigned(s[1..])
  }

  function Signed(s: seq<Byte>): (v: int) {
    var u := Unsigned(s);
    if 2 * u < Pow256(|s|) then u else u - Pow256(|s|)
  }

  predicate FitsUnsigned(v: int, n: nat) { 0 <= v < Pow256(n) }

  predicate FitsSigned(v: int, n: nat) { 0 <= 2 * v + Pow256(n) < 2 * Pow256(n) }

  lemma {:induction false} ImageValue(v: int, n: nat)
    requires 0 <= v + Pow256(n) < 2 * Pow256(n)
    ensures Unsigned(Image(v, n)) == if v < 0 then v + Pow256(n) else v
    decreases n
  {
    if n > 0 {
      ImageValue(v / 256, n - 1);
      assert Image(v, n)[1..] == Image(v / 256, n - 1);
    }
  }

  lemma UnsignedImage(v: int, n: nat)
    requires FitsUnsigned(v, n)
    ensures Unsigned(Image(v, n)) == v
  {
    ImageValue(v, n);
  }

  lemma SignedImage(v: int, n: nat)
    requires FitsSigned(v, n)
    ensures Signed(Image(v, n)) == v
  {
    ImageValue(v, n);
  }

  lemma {:induction false} ImageShift(v: int, n: nat)
    ensures Image(v - Pow256(n), n) == Image(v, n)
    decreases n
  {
    if n > 0 {
      DivShift(v, Pow256(n - 1));
      ImageShift(v / 256, n - 1);
    }
  }

  lemma DivShift(v: int, q: int)
    ensures (v - 256 * q) % 256 == v % 256 && (v - 256 * q) / 256 == v / 256 - q
  {
  }

  lemma {:induction false} ImageOf(s: seq<Byte>)
    ensures Unsigned(s) < Pow256(|s|) && Image(Unsigned(s), |s|) == s
  {
    if s != [] {
      var u := Unsigned(s[1..]);
      ImageOf(s[1..]);
      assert (s[0] + 256 * u) % 256 == s[0] && (s[0] + 256 * u) / 256 == u;
      assert s == [s[0]] + s[1..];
    }
  }

  /** Every string of bytes is the image of its value, taken either way. */
  lemma {:induction false} ValueImage(s: seq<Byte>)
    ensures Image(Unsigned(s), |s|) == s && Image(Signed(s), |s|) == s
    ensures FitsUnsigned(Unsigned(s), |s|) && FitsSigned(Signed(s), |s|)
  {
    ImageOf(s);
    SignedRange(s);
    var u, n := Unsigned(s), |s|;
    if Signed(s) != u { ImageShift(u, n); }
  }

  lemma {:induction false} SignedRange(s: seq<Byte>)
    requires Unsigned(s) < Pow256(|s|)
    ensures FitsUnsigned(Unsigned(s), |s|) && FitsSigned(Signed(s), |s|)
    ensures Signed(s) == Unsigned(s) || Signed(s) == Unsigned(s) - Pow256(|s|)
  {
  }

  /** The bytes of a C string, without its terminator. */
  ghost predicate NulFree(s: seq<int>) { forall i :: 0 <= i < |s| ==> s[i] != 0 }

  /** Where the first NUL of s is; |s| when there is none. */
  function StrLen(s: seq<Byte>): (n: nat)
    ensures n <= |s|
    ensures n < |s| ==> s[n] == 0
    ensures NulFree(s[..n])
  {
    if s == [] || s[0] == 0 then 0 else
      var n := 1 + StrLen(s[1..]);
      assert s[..n] == [s[0]] + s[1..][..n - 1];
      n
  }

  lemma {:induction false} StrLenUnique(s: seq<Byte>, n: nat)
    requires n < |s| && s[n] == 0 && NulFree(s[..n])
    ensures StrLen(s) == n
  {
    if n > 0 {
      assert s[0] == s[..n][0];
      assert s[1..][..n - 1] == s[..n][1..];
      StrLenUnique(s[1..], n - 1);
    }
  }
}
