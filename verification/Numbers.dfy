/** kernel/utils.c: itoa, strtol and atoi.  A C string is memory with a NUL in it; long and int have 32 bits. */
module Numbers {
  import opened Numerals
  import opened Arith

  const NUL := '\0'

  ghost predicate CString(s: seq<char>) { NUL in s }

  /** The place of the first NUL. */
  ghost function Len(s: seq<char>): (n: int)
    requires CString(s)
    ensures 0 <= n < |s| && s[n] == NUL && forall k :: 0 <= k < n ==> s[k] != NUL
  {
    if s[0] == NUL then 0 else 1 + Len(s[1..])
  }

  // ---------------------------------------------------------------- itoa

  ghost predicate Spells(a: seq<char>, n: seq<char>) { |n| < |a| && a[..|n|] == n && a[|n|] == NUL }

  /** utils.c:74-79: the digits, least significant first. */
  method WriteDigits(value: int, str: array<char>, base: int, ghost n: seq<char>) returns (ptr: int)
    requires 0 <= value && 2 <= base <= 36 && n == Numeral(value, base, false) && |n| < str.Length
    modifies str
    ensures ptr == |n| && Backwards(str[..], ptr, n)
    ensures forall k :: ptr <= k < str.Length ==> str[k] == old(str[k])
  {
    var v, more := value, true;
    ptr := 0;
    assert n[..|n|] == n;
    while more
      invariant v >= 0 && Backwards(str[..], ptr, n)
      invariant if more then ptr < |n| && n[..|n| - ptr] == Numeral(v, base, false) else ptr == |n|
      invariant forall k :: ptr <= k < str.Length ==> str[k] == old(str[k])
      decreases more, v
    {
      var q, c := LastDigit(v, base, false);
      AheadStep(n, ptr, v, base, false, q, c);
      v := q;
      str[ptr] := c;
      ptr := ptr + 1;
      more := v != 0;
    }
  }

  /** utils.c:82-87 */
  method Reverse(str: array<char>, n: int, ghost t: seq<char>)
    requires 0 <= n < str.Length && |t| == n && Backwards(str[..], n, t)
    modifies str
    ensures str[..n] == t && forall k :: n <= k < str.Length ==> str[k] == old(str[k])
  {
    var low, ptr := 0, n - 1;
    forall k | 0 <= k < n ensures str[k] == t[n - 1 - k] { assert str[..][k] == t[n - 1 - k]; }
    while low < ptr
      invariant low + ptr == n - 1 && 0 <= low <= n
      invariant forall k :: 0 <= k < low ==> str[k] == t[k]
      invariant forall k :: ptr < k < n ==> str[k] == t[k]
      invariant forall k :: low <= k <= ptr ==> str[k] == t[n - 1 - k]
      invariant forall k :: n <= k < str.Length ==> str[k] == old(str[k])
    {
      str[low], str[ptr] := str[ptr], str[low];
      low := low + 1;
      ptr := ptr - 1;
    }
    assert forall k :: 0 <= k < n ==> str[k] == t[k];
  }

  /** utils.c:65-89 */
  method Itoa(value: int, str: array<char>, base: int)
    requires 0 <= value < WORD32 && str.Length >= 1 && (2 <= base <= 36 ==> |Numeral(value, base, false)| < str.Length)
    modifies str
    ensures 2 <= base <= 36 ==>
              var n := Numeral(value, base, false);
              Spells(str[..], n) && forall k :: |n| < k < str.Length ==> str[k] == old(str[k])
    ensures !(2 <= base <= 36) ==> str[0] == NUL && forall k :: 1 <= k < str.Length ==> str[k] == old(str[k])
  {
    if base < 2 || base > 36 {
      str[0] := NUL;
      return;
    }
    ghost var n := Numeral(value, base, false);
    var ptr := WriteDigits(value, str, base, n);
    str[ptr] := NUL;
    Reverse(str, ptr, n);
  }

  // ---------------------------------------------------------------- strtol

  predicate IsBlank(c: char) { c == ' ' || c == '\t' }

  /** The first place from i on that is not blank. */
  ghost function Blanks(s: seq<char>, i: int): (j: int)
    requires CString(s) && 0 <= i <= Len(s)
    ensures i <= j <= Len(s) && !IsBlank(s[j])
    decreases Len(s) - i
  {
    if IsBlank(s[i]) then Blanks(s, i + 1) else i
  }

  ghost function Sign(s: seq<char>): int
    requires CString(s)
  {
    if s[Blanks(s, 0)] == '-' then -1 else 1
  }

  ghost function Start(s: seq<char>): (i: int)
    requires CString(s)
    ensures 0 <= i <= Len(s)
  {
    var j := Blanks(s, 0);
    if s[j] == '-' || s[j] == '+' then j + 1 else j
  }

  /** utils.c:45-53: a letter may be as large as the base, and a decimal digit is always taken. */
  predicate Accepted(c: char, base: int) { IsAlnum(c) && (IsAlpha(c) ==> DigitValue(c) <= base) }

  /** The longest run of accepted characters behind blanks and sign, read in the base with wrap-around. */
  ghost predicate Parsed(s: seq<char>, base: int, value: int, end: int)
    requires CString(s)
  {
    && Start(s) <= end <= Len(s) && !Accepted(s[end], base)
    && (forall k :: Start(s) <= k < end ==> Accepted(s[k], base))
    && value == Int32(Sign(s) * Int32(Value(s[Start(s)..end], base)))
  }

  /** What is taken beyond the digits of the base: the letter of the base's own value, and too large decimal digits. */
  lemma AcceptedBeyond(c: char, base: int)
    requires 2 <= base <= 36
    ensures Proper(c, base) ==> Accepted(c, base)
    ensures Accepted(c, base) && !Proper(c, base) <==>
              (IsAlpha(c) && DigitValue(c) == base) || (IsDigit(c) && DigitValue(c) >= base)
  {
  }

  lemma OneChar(c: char, base: int)
    requires 2 <= base <= 36 && Accepted(c, base)
    ensures Parsed([c, NUL], base, DigitValue(c), 1)
  {
    var s := [c, NUL];
    assert s[1..] == [NUL] && Len(s) == 1;
    assert s[0..1] == [] + [c];
    ValueSnoc([], c, base);
    assert Blanks(s, 0) == 0;
    Int32Fits(DigitValue(c));
  }

  /** "g" is read as 16 in base 16, and "9" as 9 in base 2. */
  lemma BeyondExamples()
    ensures Parsed(['g', NUL], 16, 16, 1) && Parsed(['9', NUL], 2, 9, 1)
  {
    OneChar('g', 16);
    OneChar('9', 2);
  }

  /** utils.c:4-63; end is -1 when the end pointer is not set. */
  method Strtol(s: seq<char>, base: int) returns (value: int, end: int)
    requires CString(s)
    ensures !(2 <= base <= 36) ==> value == 0 && end == -1
    ensures 2 <= base <= 36 ==> Parsed(s, base, value, end)
  {
    if base < 2 || base > 36 {
      return 0, -1;
    }
    var buf, sign := 0, 1;
    while s[buf] == ' ' || s[buf] == '\t'
      invariant 0 <= buf <= Len(s) && Blanks(s, buf) == Blanks(s, 0)
      decreases Len(s) - buf
    {
      buf := buf + 1;
    }
    if s[buf] == '-' {
      sign := -1;
      buf := buf + 1;
    } else if s[buf] == '+' {
      sign := 1;
      buf := buf + 1;
    }
    value, end := ReadDigits(s, buf, base);
    value := Int32(sign * value);
  }

  lemma Accumulate(s: seq<char>, start: int, i: int, base: int)
    requires 0 <= start <= i < |s|
    ensures Int32(Int32(Value(s[start..i], base)) * base + DigitValue(s[i])) == Int32(Value(s[start..i + 1], base))
  {
    assert s[start..i + 1] == s[start..i] + [s[i]];
    ValueSnoc(s[start..i], s[i], base);
    Int32Step(Value(s[start..i], base), base, DigitValue(s[i]));
  }

  /** utils.c:44-56 */
  method ReadDigits(s: seq<char>, start: int, base: int) returns (value: int, end: int)
    requires CString(s) && 0 <= start <= Len(s)
    ensures start <= end <= Len(s) && !Accepted(s[end], base) && (forall k :: start <= k < end ==> Accepted(s[k], base))
    ensures value == Int32(Value(s[start..end], base))
  {
    value, end := 0, start;
    assert s[start..start] == [];
    while IsAlnum(s[end])
      invariant start <= end <= Len(s) && (forall k :: start <= k < end ==> Accepted(s[k], base))
      invariant value == Int32(Value(s[start..end], base))
      decreases Len(s) - end
    {
      var k := DigitValue(s[end]);
      if IsAlpha(s[end]) && k > base {
        break;
      }
      Accumulate(s, start, end, base);
      value := Int32(value * base + k);
      end := end + 1;
    }
  }

  /** Blanks, then an optional sign, then t, then the terminator. */
  ghost predicate Signs(s: seq<char>, blanks: seq<char>, sign: seq<char>, t: seq<char>) {
    && (forall k :: 0 <= k < |blanks| ==> blanks[k] == ' ' || blanks[k] == '\t')
    && (sign == "" || sign == "-" || sign == "+")
    && Spells(s, blanks + sign + t)
  }

  lemma {:induction false} BlanksSkipped(s: seq<char>, i: int, j: int)
    requires CString(s) && 0 <= i <= j <= Len(s) && !IsBlank(s[j]) && forall k :: i <= k < j ==> IsBlank(s[k])
    ensures Blanks(s, i) == j
    decreases j - i
  {
    if i < j { BlanksSkipped(s, i + 1, j); }
  }

  lemma StartFound(s: seq<char>, blanks: seq<char>, sign: seq<char>, t: seq<char>)
    requires CString(s) && Signs(s, blanks, sign, t) && t != [] && IsAlnum(t[0])
    requires forall k :: 0 <= k < |t| ==> t[k] != NUL
    ensures Start(s) == |blanks + sign| && Sign(s) == (if sign == "-" then -1 else 1)
    ensures s[Start(s)..|blanks + sign + t|] == t && s[|blanks + sign + t|] == NUL && |blanks + sign + t| <= Len(s)
  {
    var all := blanks + sign + t;
    forall k | 0 <= k < |all| ensures s[k] == all[k] != NUL {
      assert s[k] == s[..|all|][k];
    }
    var j := |blanks|;
    assert s[j] == if sign == "" then t[0] else sign[0];
    BlanksSkipped(s, 0, j);
  }

  lemma ReadWhole(t: seq<char>, base: int, s: seq<char>, blanks: seq<char>, sign: seq<char>, value: int, end: int)
    requires 2 <= base <= 36 && CString(s) && Signs(s, blanks, sign, t) && t != [] && Parsed(s, base, value, end)
    requires forall i {:trigger t[i]} :: 0 <= i < |t| ==> Proper(t[i], base)
    ensures end == |blanks + sign + t| && value == Int32((if sign == "-" then -1 else 1) * Int32(Value(t, base)))
  {
    StartFound(s, blanks, sign, t);
    var i, e := Start(s), |blanks + sign + t|;
    forall k | i <= k < e ensures Accepted(s[k], base) {
      assert s[k] == s[i..e][k - i] == t[k - i] && Proper(t[k - i], base);
    }
    assert !Accepted(s[e], base);
    assert end == e;
  }

  /** A numeral is read back as written, from its first to its last digit, behind any blanks and with any sign. */
  lemma NumeralRead(n: int, base: int, s: seq<char>, blanks: seq<char>, sign: seq<char>, value: int, end: int)
    requires 2 <= base <= 36 && 0 <= n < WORD32 && CString(s) && Signs(s, blanks, sign, Numeral(n, base, false))
    requires Parsed(s, base, value, end)
    ensures end == |blanks + sign + Numeral(n, base, false)|
    ensures value == Int32(if sign == "-" then -n else n)
  {
    NumeralDigits(n, base, false);
    NumeralValue(n, base, false);
    ReadWhole(Numeral(n, base, false), base, s, blanks, sign, value, end);
    SignedInt(n, sign == "-", value);
  }

  lemma SignedInt(n: int, minus: bool, value: int)
    requires 0 <= n < WORD32 && value == Int32((if minus then -1 else 1) * Int32(n))
    ensures value == Int32(if minus then -n else n)
  {
    Int32Fits(n);
    Int32Minus(n);
  }

  /** A minus sign in front of what itoa wrote: the value comes back negated exactly when a long can hold that. */
  method RoundTripMinus(value: int, base: int, blanks: seq<char>) returns (r: int, end: int)
    requires 0 <= value < WORD32 && 2 <= base <= 36
    requires forall k :: 0 <= k < |blanks| ==> blanks[k] == ' ' || blanks[k] == '\t'
    ensures end == |blanks| + 1 + |Numeral(value, base, false)|
    ensures r == -value <==> value <= WORD32 / 2
  {
    var buffer := new char[33](i => NUL);
    NumeralFits(value, base, false);
    Itoa(value, buffer, base);
    var s := blanks + "-" + buffer[..];
    ghost var n := Numeral(value, base, false);
    Prefixed(buffer[..], blanks + "-", n, s);
    r, end := Strtol(s, base);
    NumeralRead(value, base, s, blanks, "-", r, end);
    Int32Minus(value);
  }

  lemma Prefixed(b: seq<char>, before: seq<char>, n: seq<char>, s: seq<char>)
    requires Spells(b, n) && s == before + b
    ensures Spells(s, before + n) && CString(s)
  {
    assert s[..|before + n|] == before + b[..|n|];
    assert s[|before + n|] == b[|n|];
  }

  /**
   The prefix 0x is not skipped in base 16 (utils.c:41 advances the wrong pointer): the value is 0, and the
   parse stops at the x.
   */
  lemma HexPrefixStops(s: seq<char>, value: int, end: int)
    requires CString(s) && |s| >= 2 && s[0] == '0' && s[1] == 'x' && Parsed(s, 16, value, end)
    ensures value == 0 && end == 1
  {
    assert Len(s) >= 1;
    assert Blanks(s, 0) == 0;
    assert s[0..1] == [] + ['0'];
    ValueSnoc([], '0', 16);
  }

  /** strtol undoes itoa, and stops at the terminator; the value comes back exactly when it fits a long. */
  method RoundTrip(value: int, base: int, fill: array<char>) returns (r: int, end: int)
    requires 0 <= value < WORD32 && 2 <= base <= 36 && fill.Length >= 33
    modifies fill
    ensures end == |Numeral(value, base, false)| < fill.Length && fill[end] == NUL
    ensures r == value <==> value < WORD32 / 2
  {
    NumeralFits(value, base, false);
    Itoa(value, fill, base);
    r, end := Strtol(fill[..], base);
    assert [] + "" + Numeral(value, base, false) == Numeral(value, base, false);
    NumeralRead(value, base, fill[..], [], "", r, end);
    Int32Fits(value);
  }

  // ---------------------------------------------------------------- atoi

  ghost function Spaces(s: seq<char>, i: int): (j: int)
    requires CString(s) && 0 <= i <= Len(s)
    ensures i <= j <= Len(s) && s[j] != ' '
    decreases Len(s) - i
  {
    if s[i] == ' ' then Spaces(s, i + 1) else i
  }

  /** utils.c:96-106: where the digits start, and in which base. */
  ghost function Digits(s: seq<char>): (r: (int, int))
    requires CString(s)
    ensures 0 <= r.0 <= Len(s)
  {
    var j := Spaces(s, 0);
    if s[j] == '0' then (if s[j + 1] == 'x' then (j + 2, 16) else (j + 1, 8)) else (j, 10)
  }

  predicate Ends(c: char) { c == NUL || c == ' ' }

  /** The first place from i on where the digits end. */
  ghost function Stop(s: seq<char>, i: int): (j: int)
    requires CString(s) && 0 <= i <= Len(s)
    ensures i <= j <= Len(s) && Ends(s[j]) && forall k :: i <= k < j ==> !Ends(s[k])
    decreases Len(s) - i
  {
    if Ends(s[i]) then i else Stop(s, i + 1)
  }

  /** utils.c:91-122 */
  method Atoi(s: seq<char>) returns (n: int)
    requires CString(s)
    ensures var (start, base) := Digits(s); n == Int32(Value(s[start..Stop(s, start)], base))
  {
    var p, base := 0, 10;
    n := 0;
    while s[p] == ' '
      invariant 0 <= p <= Len(s) && Spaces(s, p) == Spaces(s, 0)
      decreases Len(s) - p
    {
      p := p + 1;
    }
    if s[p] == '0' {
      base := 8;
      p := p + 1;
      if s[p] == 'x' {
        base := 16;
        p := p + 1;
      }
    }
    n := ReadAll(s, p, base);
  }

  /** utils.c:108-119 */
  method ReadAll(s: seq<char>, start: int, base: int) returns (n: int)
    requires CString(s) && 0 <= start <= Len(s)
    ensures n == Int32(Value(s[start..Stop(s, start)], base))
  {
    var p := start;
    n := 0;
    assert s[start..start] == [];
    while s[p] != NUL
      invariant start <= p <= Len(s) && Stop(s, p) == Stop(s, start)
      invariant n == Int32(Value(s[start..p], base))
      decreases Len(s) - p
    {
      if s[p] == ' ' {
        break;
      }
      var k := DigitValue(s[p]);
      Accumulate(s, start, p, base);
      n := Int32(n * base + k);
      p := p + 1;
    }
    assert p == Stop(s, start);
  }

  /** atoi undoes itoa in base 10: only 0 starts with a zero, and 0 is also 0 in base 8. */
  method RoundTripTen(value: int, fill: array<char>) returns (r: int)
    requires 0 <= value < WORD32 && fill.Length >= 33
    modifies fill
    ensures r == value <==> value < WORD32 / 2
  {
    NumeralFits(value, 10, false);
    Int32Fits(value);
    Itoa(value, fill, 10);
    r := Atoi(fill[..]);
    assert [] + "" + Numeral(value, 10, false) == Numeral(value, 10, false);
    PrefixedRead(value, fill[..], [], "");
  }

  /** t is followed by the terminator, or by a space and anything else. */
  ghost predicate Leads(s: seq<char>, t: seq<char>) { |t| < |s| && s[..|t|] == t && (s[|t|] == NUL || s[|t|] == ' ') }

  /** Spaces, then a prefix that chooses the base, then t. */
  ghost predicate Chosen(s: seq<char>, spaces: seq<char>, prefix: seq<char>, t: seq<char>) {
    && (forall k :: 0 <= k < |spaces| ==> spaces[k] == ' ') && (prefix == "" || prefix == "0" || prefix == "0x")
    && Leads(s, spaces + prefix + t) && (forall k :: 0 <= k < |t| ==> IsAlnum(t[k]))
    && (prefix == "" ==> t != [] && t[0] != '0') && (prefix == "0" && t != [] ==> t[0] != 'x')
  }

  function BaseOf(prefix: seq<char>): int { if prefix == "" then 10 else if prefix == "0" then 8 else 16 }

  lemma {:induction false} SpacesSkipped(s: seq<char>, i: int, j: int)
    requires CString(s) && 0 <= i <= j <= Len(s) && s[j] != ' ' && forall k :: i <= k < j ==> s[k] == ' '
    ensures Spaces(s, i) == j
    decreases j - i
  {
    if i < j { SpacesSkipped(s, i + 1, j); }
  }

  lemma {:induction false} StopFound(s: seq<char>, i: int, j: int)
    requires CString(s) && 0 <= i <= j <= Len(s) && Ends(s[j]) && forall k :: i <= k < j ==> !Ends(s[k])
    ensures Stop(s, i) == j
    decreases j - i
  {
    if i < j { StopFound(s, i + 1, j); }
  }

  lemma ChosenAt(s: seq<char>, spaces: seq<char>, prefix: seq<char>, t: seq<char>)
    requires CString(s) && Chosen(s, spaces, prefix, t)
    ensures var all := spaces + prefix + t;
            && |all| <= Len(s) && Ends(s[|all|]) && forall k :: 0 <= k < |all| ==> s[k] == all[k] && s[k] != NUL
  {
    var all := spaces + prefix + t;
    forall k | 0 <= k < |all| ensures s[k] == all[k] && s[k] != NUL { assert s[k] == s[..|all|][k]; }
  }

  /** Where atoi starts, in which base, and where it stops. */
  lemma DigitsFound(s: seq<char>, spaces: seq<char>, prefix: seq<char>, t: seq<char>)
    requires CString(s) && Chosen(s, spaces, prefix, t)
    ensures var i := |spaces + prefix|; Digits(s) == (i, BaseOf(prefix)) && s[i..Stop(s, i)] == t
  {
    ChosenAt(s, spaces, prefix, t);
    var j, i, e := |spaces|, |spaces + prefix|, |spaces + prefix + t|;
    assert s[j] == if prefix == "" then t[0] else '0';
    SpacesSkipped(s, 0, j);
    assert prefix == "0" && t != [] ==> s[j + 1] == t[0];
    assert prefix == "0" && t == [] ==> s[j + 1] != 'x';
    assert forall k :: i <= k < e ==> s[k] == t[k - i];
    StopFound(s, i, e);
  }

  /** What itoa wrote, behind the prefix of its base, is read back by atoi: base 10, octal 0 and hexadecimal 0x. */
  lemma PrefixedRead(n: int, s: seq<char>, spaces: seq<char>, prefix: seq<char>)
    requires 0 <= n && CString(s) && (forall k :: 0 <= k < |spaces| ==> spaces[k] == ' ')
    requires prefix == "" || prefix == "0" || prefix == "0x"
    requires Leads(s, spaces + prefix + Numeral(n, BaseOf(prefix), false))
    ensures var (start, base) := Digits(s); Value(s[start..Stop(s, start)], base) == n
  {
    var base := BaseOf(prefix);
    var t := Numeral(n, base, false);
    NumeralDigits(n, base, false);
    NumeralValue(n, base, false);
    forall k | 0 <= k < |t| ensures IsAlnum(t[k]) && (base == 8 ==> t[k] != 'x') { assert Proper(t[k], base); }
    if prefix == "" && n == 0 {
      NumeralZero(10, false);
      assert spaces + "" + t == spaces + "0" + [];
      DigitsFound(s, spaces, "0", []);
    } else {
      DigitsFound(s, spaces, prefix, t);
    }
  }

  /** atoi undoes itoa behind "0x" in base 16, behind "0" in base 8, and alone in base 10. */
  method RoundTripPrefixed(value: int, prefix: seq<char>, spaces: seq<char>) returns (r: int)
    requires 0 <= value < WORD32 && (prefix == "" || prefix == "0" || prefix == "0x")
    requires forall k :: 0 <= k < |spaces| ==> spaces[k] == ' '
    ensures r == value <==> value < WORD32 / 2
  {
    var base := BaseOf(prefix);
    var buffer := new char[33](i => NUL);
    NumeralFits(value, base, false);
    Itoa(value, buffer, base);
    var s := spaces + prefix + buffer[..];
    Prefixed(buffer[..], spaces + prefix, Numeral(value, base, false), s);
    r := Atoi(s);
    PrefixedRead(value, s, spaces, prefix);
    Int32Fits(value);
  }
}
