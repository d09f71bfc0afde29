/** Decimal conversion with an overflow check that re-reads the digits from the end. */
module NumConvert {
  const IntMin := -0x8000_0000
  const IntMax := 0x7fff_ffff
  const LongMax := 0x7fff_ffff_ffff_ffff

  predicate IsDigit(c: char) { '0' <= c <= '9' }

  function Digit(c: char): (d: int) { c as int - '0' as int }

  predicate Decimal(s: string) { forall i :: 0 <= i < |s| ==> IsDigit(s[i]) }

  /** The number a decimal string denotes. */
  function Value(s: string): (v: int) {
    if s == [] then 0 else 10 * Value(s[..|s| - 1]) + Digit(s[|s| - 1])
  }

  function Pow10(n: nat): (p: int)
    ensures p >= 1
  {
    if n == 0 then 1 else 10 * Pow10(n - 1)
  }

  /** Division and remainder that truncate toward zero. */
  function Quot(a: int, b: int): (q: int)
    requires b > 0
  {
    if a >= 0 then a / b else -(-a / b)
  }

  function Rem(a: int, b: int): (r: int)
    requires b > 0
  {
    a - b * Quot(a, b)
  }

  /** strtol on decimal digits saturates; see section 7.22.1.4 of ISO/IEC 9899:2011. */
  function Strtol(s: string): (v: int) { if Value(s) <= LongMax then Value(s) else LongMax }

  /** The conversion of a long to an int keeps the low 32 bits. */
  function ToInt(v: int): (r: int)
    ensures IntMin <= r <= IntMax
  {
    var low := v % 0x1_0000_0000;
    if low <= IntMax then low else low - 0x1_0000_0000
  }

  function Abs(v: int): (a: int) { if v < 0 then -v else v }

  lemma {:induction false} ValueBound(s: string)
    requires Decimal(s)
    ensures 0 <= Value(s) < Pow10(|s|)
  {
    if s != [] { ValueBound(s[..|s| - 1]); }
  }

  lemma {:induction false} Pow10Grows(m: nat, n: nat)
    requires m <= n
    ensures Pow10(m) <= Pow10(n)
    decreases n
  {
    if m < n { Pow10Grows(m, n - 1); }
  }

  /** Dropping a digit that matched keeps the difference, scaled. */
  lemma Dropped(check: int, prefix: int, d: int, k: nat)
    requires Rem(check, 10) == d
    ensures (check - (10 * prefix + d)) * Pow10(k) == (Quot(check, 10) - prefix) * Pow10(k + 1)
  {
    var p := Pow10(k);
    assert check - (10 * prefix + d) == 10 * (Quot(check, 10) - prefix);
    assert Pow10(k + 1) == 10 * p;
    Scale(Quot(check, 10) - prefix, p);
  }

  lemma Scale(x: int, p: int)
    ensures (10 * x) * p == x * (10 * p)
  {
  }

  lemma Shrinks(check: int, k: nat, bound: int)
    requires Abs(check) * Pow10(k) <= bound
    ensures Abs(Quot(check, 10)) * Pow10(k + 1) <= bound
  {
    var q, p := Abs(Quot(check, 10)), Pow10(k);
    assert 10 * q <= Abs(check);
    Monotone(10 * q, Abs(check), p);
    Scale(q, p);
  }

  lemma Monotone(x: int, y: int, p: int)
    requires x <= y && p >= 0
    ensures x * p <= y * p
  {
  }

  /** A number that survives n divisions by ten is zero once 10^n exceeds it. */
  lemma Exhausted(check: int, n: nat, bound: int)
    requires Abs(check) * Pow10(n) <= bound < Pow10(n)
    ensures check == 0
  {
    if check != 0 { Monotone(1, Abs(check), Pow10(n)); }
  }

  /** No int passes the check against digits whose value is not an int. */
  lemma Caught(s: string, res: int, check: int)
    requires Decimal(s) && Value(s) > IntMax && IntMin <= res <= IntMax
    requires Abs(check) * Pow10(|s|) <= Abs(res)
    ensures res - Value(s) != check * Pow10(|s|)
  {
    ValueBound(s);
    assert Pow10(9) == 1_000_000_000 && Pow10(10) == 10_000_000_000;
    if |s| <= 9 {
      Pow10Grows(|s|, 9);
      assert false;
    }
    Pow10Grows(10, |s|);
    Exhausted(check, |s|, Abs(res));
  }

  lemma DivTen(x: int, d: int)
    requires 0 <= x && 0 <= d < 10
    ensures Quot(10 * x + d, 10) == x && Rem(10 * x + d, 10) == d
  {
  }

  lemma {:induction false} SameQuotient(s: string)
    requires Decimal(s) && s != []
    ensures Rem(Value(s), 10) == Digit(s[|s| - 1]) && Quot(Value(s), 10) == Value(s[..|s| - 1])
  {
    ValueBound(s[..|s| - 1]);
    DivTen(Value(s[..|s| - 1]), Digit(s[|s| - 1]));
  }

  /** str_to_int: the exact value when it is an int, and INT_MIN in every other case. */
  method StrToInt(s: string, length: int) returns (r: int)
    ensures r == if |s| == length && Decimal(s) && Value(s) <= IntMax then Value(s) else IntMin
  {
    if |s| != length { return IntMin; }
    for i := 0 to length
      invariant forall j :: 0 <= j < i ==> IsDigit(s[j])
    {
      if !IsDigit(s[i]) { return IntMin; }
    }
    ValueBound(s);
    var res := ToInt(Strtol(s));
    r := Recheck(s, res);
  }

  /** The backward loop. */
  method Recheck(s: string, res: int) returns (r: int)
    requires Decimal(s) && IntMin <= res <= IntMax && (Value(s) <= IntMax ==> res == Value(s))
    ensures r == if Value(s) <= IntMax then Value(s) else IntMin
  {
    var check := res;
    var i := |s| - 1;
    assert s[..|s|] == s;
    while i >= 0
      invariant -1 <= i < |s|
      invariant res - Value(s) == (check - Value(s[..i + 1])) * Pow10(|s| - 1 - i)
      invariant Abs(check) * Pow10(|s| - 1 - i) <= Abs(res)
      invariant res == Value(s) ==> check == Value(s[..i + 1])
    {
      ghost var k := |s| - 1 - i;
      assert s[..i + 1][..i] == s[..i];
      var remainder := Rem(check, 10);
      if res == Value(s) { SameQuotient(s[..i + 1]); }
      if '0' as int + remainder != s[i] as int { return IntMin; }
      Dropped(check, Value(s[..i]), remainder, k);
      Shrinks(check, k, Abs(res));
      check := Quot(check, 10);
      i := i - 1;
    }
    if Value(s) > IntMax {
      Caught(s, res, check);
      assert false;
    }
    r := res;
  }
}
