/** Numbers written in a base: what the conversions of kernel/utils.c and kernel/vsprintf.c mean. */
module Numerals {
  import opened Arith

  const WORD32: int := 0x1_0000_0000

  predicate IsUpper(c: char) { 'A' <= c <= 'Z' }
  predicate IsAlpha(c: char) { 'a' <= c <= 'z' || IsUpper(c) }
  predicate IsDigit(c: char) { '0' <= c <= '9' }
  predicate IsAlnum(c: char) { IsAlpha(c) || IsDigit(c) }

  /** utils.h:6-10 and the digit values of utils.c:46-53, 112-116. */
  function DigitValue(c: char): int {
    if 'a' <= c <= 'z' then c as int - 'a' as int + 10
    else if IsUpper(c) then c as int - 'A' as int + 10
    else c as int - '0' as int
  }

  /** digits_lower[d] and digits_upper[d] */
  function DigitChar(d: int, large: bool): (c: char)
    requires 0 <= d < 36
    ensures DigitValue(c) == d && IsAlnum(c) && (IsAlpha(c) <==> d >= 10) && (c == '0' <==> d == 0)
    ensures IsAlpha(c) ==> IsUpper(c) == large
  {
    if d < 10 then ('0' as int + d) as char
    else if large then ('A' as int + (d - 10)) as char
    else ('a' as int + (d - 10)) as char
  }

  /** The value of a numeral, most significant digit first. */
  function Value(s: seq<char>, base: int): int {
    if s == [] then 0 else Value(s[..|s| - 1], base) * base + DigitValue(s[|s| - 1])
  }

  lemma DivBelow(n: int, base: int)
    requires n >= 0 && base >= 2
    ensures 0 <= n / base <= n && (n > 0 ==> n / base < n) && n == n / base * base + n % base
    ensures n / base == 0 <==> n < base
  {
    var q := n / base;
    if q > 0 {
      assert q * base >= 2 * q by { MulAtLeast(base - 1, q); Distribute(base - 1, 1, q); }
      MulAtLeast(q, base);
    }
    if n < base { DivModUnique(n, base, 0, n); }
  }

  /** n written in the base, without leading zeros. */
  function Numeral(n: int, base: int, large: bool): (s: seq<char>)
    requires n >= 0 && 2 <= base <= 36
    ensures s != []
    decreases n
  {
    DivBelow(n, base);
    (if n < base then [] else Numeral(n / base, base, large)) + [DigitChar(n % base, large)]
  }

  /** One round of the loops that split off the last digit (utils.c:77-78, vsprintf.c:67-69). */
  method LastDigit(n: int, base: int, large: bool) returns (q: int, c: char)
    requires n >= 0 && 2 <= base <= 36
    ensures 0 <= q <= n && (n > 0 ==> q < n)
    ensures Numeral(n, base, large) == (if q == 0 then [] else Numeral(q, base, large)) + [c]
  {
    DivBelow(n, base);
    c := DigitChar(n % base, large);
    q := n / base;
  }

  /** b starts with the last i characters of n, in reverse. */
  ghost predicate Backwards(b: seq<char>, i: int, n: seq<char>) {
    0 <= i <= |b| && i <= |n| && forall k {:trigger b[k]} :: 0 <= k < i ==> b[k] == n[|n| - 1 - k]
  }

  /** Splitting off the last digit of v writes the next character of n from the back. */
  lemma AheadStep(n: seq<char>, i: int, v: int, base: int, large: bool, q: int, c: char)
    requires 2 <= base <= 36 && v >= 0 && 0 <= i < |n| && n[..|n| - i] == Numeral(v, base, large) && q >= 0
    requires Numeral(v, base, large) == (if q == 0 then [] else Numeral(q, base, large)) + [c]
    ensures n[|n| - i - 1] == c
    ensures if q == 0 then i + 1 == |n| else i + 1 < |n| && n[..|n| - (i + 1)] == Numeral(q, base, large)
  {
    var m := n[..|n| - i];
    assert n[|n| - i - 1] == m[|m| - 1] == c;
    assert n[..|n| - i - 1] == m[..|m| - 1];
    assert q != 0 ==> m[..|m| - 1] == Numeral(q, base, large);
  }

  lemma NumeralZero(base: int, large: bool)
    requires 2 <= base <= 36
    ensures Numeral(0, base, large) == ['0']
  {
  }

  predicate Proper(c: char, base: int) { IsAlnum(c) && 0 <= DigitValue(c) < base }

  lemma {:induction false} NumeralDigits(n: int, base: int, large: bool)
    requires n >= 0 && 2 <= base <= 36
    ensures var s := Numeral(n, base, large);
            && (s[0] == '0' <==> n == 0)
            && forall i {:trigger s[i]} :: 0 <= i < |s| ==>
                 Proper(s[i], base) && (IsAlpha(s[i]) ==> IsUpper(s[i]) == large)
    decreases n
  {
    DivBelow(n, base);
    if n < base {
      DivModUnique(n, base, 0, n);
    } else {
      NumeralDigits(n / base, base, large);
    }
  }

  lemma ValueSnoc(t: seq<char>, c: char, base: int)
    ensures Value(t + [c], base) == Value(t, base) * base + DigitValue(c)
  {
    assert (t + [c])[..|t|] == t;
  }

  /** A numeral has the value it was made from. */
  lemma {:induction false} NumeralValue(n: int, base: int, large: bool)
    requires n >= 0 && 2 <= base <= 36
    ensures Value(Numeral(n, base, large), base) == n
    decreases n
  {
    DivBelow(n, base);
    var q, c := n / base, DigitChar(n % base, large);
    if n < base {
      DivModUnique(n, base, 0, n);
      ValueSnoc([], c, base);
    } else {
      NumeralValue(q, base, large);
      ValueSnoc(Numeral(q, base, large), c, base);
    }
  }

  /** A numeral below base^k has at most k digits; with 32 bits, at most 32. */
  function Power(base: int, k: int): int
    requires k >= 0
  {
    if k == 0 then 1 else base * Power(base, k - 1)
  }

  ghost predicate DigitCount(n: int, base: int, d: int) {
    d >= 1 && n < Power(base, d) && (d > 1 ==> Power(base, d - 1) <= n)
  }

  /** A numeral has exactly as many digits as its number needs. */
  lemma {:induction false} NumeralCount(n: int, base: int, large: bool)
    requires n >= 0 && 2 <= base <= 36
    ensures DigitCount(n, base, |Numeral(n, base, large)|)
    decreases n
  {
    DivBelow(n, base);
    if n < base {
      assert Power(base, 1) == base * Power(base, 0);
    } else {
      var q, d := n / base, |Numeral(n, base, large)|;
      NumeralCount(q, base, large);
      PowerStep(n, q, base, d);
    }
  }

  lemma PowerStep(n: int, q: int, base: int, d: int)
    requires base >= 2 && d >= 2 && q == n / base && n >= base && DigitCount(q, base, d - 1)
    ensures DigitCount(n, base, d)
  {
    var r := n % base;
    assert n == q * base + r;
    var hi := Power(base, d - 1);
    assert (q + 1) * base <= hi * base by { MulMono(q + 1, hi, base); }
    Distribute(q, 1, base);
    assert Power(base, d) == base * hi == hi * base;
    if d > 2 {
      var lo := Power(base, d - 2);
      MulMono(lo, q, base);
      assert hi == base * lo == lo * base;
    } else {
      assert Power(base, 1) == base * Power(base, 0);
    }
  }

  lemma MulMono(a: int, b: int, n: int)
    requires a <= b && n >= 0
    ensures a * n <= b * n
  {
  }

  lemma {:induction false} NumeralShort(n: int, base: int, large: bool, k: int)
    requires k >= 1 && 0 <= n < Power(2, k) && 2 <= base <= 36
    ensures |Numeral(n, base, large)| <= k
    decreases k
  {
    DivBelow(n, base);
    if n >= base {
      assert Power(2, 1) == 2 * Power(2, 0);
      var q, r := n / base, n % base;
      assert 2 * q <= n by { MulAtLeastTwice(q, base); }
      NumeralShort(q, base, large, k - 1);
    }
  }

  lemma MulAtLeastTwice(q: int, base: int)
    requires q >= 0 && base >= 2
    ensures q * base >= 2 * q
  {
  }

  lemma Words32()
    ensures Power(2, 32) == WORD32
  {
    assert Power(2, 8) == 256 by { assert Power(2, 4) == 16; }
    assert Power(2, 16) == 65536 by { assert Power(2, 12) == 4096; }
    assert Power(2, 24) == 0x100_0000 by { assert Power(2, 20) == 0x10_0000; }
    assert Power(2, 28) == 0x1000_0000;
  }

  lemma NumeralFits(n: int, base: int, large: bool)
    requires 0 <= n < WORD32 && 2 <= base <= 36
    ensures |Numeral(n, base, large)| <= 32
  {
    Words32();
    NumeralShort(n, base, large, 32);
  }

  // ---------------------------------------------------------------- signed 32-bit arithmetic

  function Int32(z: int): (r: int)
    ensures -WORD32 / 2 <= r < WORD32 / 2
  {
    var u := z % WORD32;
    if u < WORD32 / 2 then u else u - WORD32
  }

  lemma Int32Fits(n: int)
    requires 0 <= n < WORD32
    ensures Int32(Int32(n)) == Int32(n) && (Int32(n) == n <==> n < WORD32 / 2)
  {
  }

  lemma Int32Minus(n: int)
    requires 0 <= n < WORD32
    ensures Int32(-1 * Int32(n)) == Int32(-n) && (Int32(-n) == -n <==> n <= WORD32 / 2)
  {
  }

  lemma Int32Same(a: int, b: int)
    requires a % WORD32 == b % WORD32
    ensures Int32(a) == Int32(b)
  {
  }

  /** Accumulating with wrap-around computes the wrapped value. */
  lemma Int32Step(a: int, base: int, k: int)
    ensures Int32(Int32(a) * base + k) == Int32(a * base + k)
  {
    var q := if a % WORD32 < WORD32 / 2 then a / WORD32 else a / WORD32 + 1;
    assert a == Int32(a) + q * WORD32;
    var m := q * base;
    assert a * base + k == Int32(a) * base + k + m * WORD32 by {
      Distribute(Int32(a), q * WORD32, base);
      assert q * WORD32 * base == m * WORD32;
    }
    ModShift(Int32(a) * base + k, m, WORD32);
    Int32Same(Int32(a) * base + k, a * base + k);
  }
}
