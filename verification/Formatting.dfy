/** kernel/vsprintf.c: the conversion of one number with sign, prefix, precision and padding. */
module Formatting {
  import opened Numerals

  datatype Flags = Flags(left: bool, plus: bool, signed: bool, space: bool, prefix: bool, zeros: bool, large: bool)

  const BUFFER: int := 64

  // ---------------------------------------------------------------- what is printed

  /** A signed number whose top bit is set. */
  predicate Minus(num: int, flags: Flags) { flags.signed && num >= WORD32 / 2 }

  /** The number without its sign, on 32 bits. */
  function Magnitude(num: int, flags: Flags): int { if Minus(num, flags) then WORD32 - num else num }

  function SignText(num: int, flags: Flags): seq<char> {
    if Minus(num, flags) then "-"
    else if flags.signed && flags.plus then "+"
    else if flags.signed && flags.space then " "
    else ""
  }

  function PrefixText(base: int, flags: Flags): seq<char> {
    if flags.prefix && base == 8 then "0"
    else if flags.prefix && base == 16 then (if flags.large then "0X" else "0x")
    else ""
  }

  function Repeat(c: char, n: int): seq<char> {
    if n <= 0 then [] else Repeat(c, n - 1) + [c]
  }

  /** The digits, brought up to the precision with zeros. */
  function Body(num: int, base: int, precision: int, flags: Flags): seq<char>
    requires 0 <= num < WORD32 && 2 <= base <= 36
  {
    var digits := Numeral(Magnitude(num, flags), base, flags.large);
    Repeat('0', precision - |digits|) + digits
  }

  function Layout(num: int, base: int, width: int, precision: int, flags: Flags): seq<char>
    requires 0 <= num < WORD32 && 2 <= base <= 36
  {
    var head, body := SignText(num, flags) + PrefixText(base, flags), Body(num, base, precision, flags);
    Arranged(head, body, width - |head| - |body|, flags)
  }

  /** Padding goes behind the number, between its sign and its digits, or in front. */
  function Arranged(head: seq<char>, body: seq<char>, gap: int, flags: Flags): seq<char> {
    if flags.left then head + body + Repeat(' ', gap)
    else if flags.zeros then head + Repeat('0', gap) + body
    else Repeat(' ', gap) + head + body
  }

  function Max(a: int, b: int): int { if a < b then b else a }

  lemma {:induction false} RepeatLength(c: char, n: int)
    ensures |Repeat(c, n)| == Max(n, 0)
  {
    if n > 0 { RepeatLength(c, n - 1); }
  }

  lemma {:induction false} RepeatFront(c: char, n: int)
    requires n > 0
    ensures Repeat(c, n) == [c] + Repeat(c, n - 1)
  {
    if n > 1 { RepeatFront(c, n - 1); }
  }

  /** The field is as wide as asked, or as wide as its content needs. */
  lemma LayoutLength(num: int, base: int, width: int, precision: int, flags: Flags)
    requires 0 <= num < WORD32 && 2 <= base <= 36
    ensures var digits := Numeral(Magnitude(num, flags), base, flags.large);
            |Layout(num, base, width, precision, flags)|
            == Max(width, |SignText(num, flags)| + |PrefixText(base, flags)| + Max(precision, |digits|))
  {
    var digits := Numeral(Magnitude(num, flags), base, flags.large);
    RepeatLength('0', precision - |digits|);
    var gap := width - |SignText(num, flags) + PrefixText(base, flags)| - |Body(num, base, precision, flags)|;
    RepeatLength('0', gap);
    RepeatLength(' ', gap);
  }

  lemma {:induction false} ZerosValue(n: int, digits: seq<char>, base: int)
    ensures Value(Repeat('0', n) + digits, base) == Value(digits, base)
    decreases |digits|, n
  {
    if digits == [] {
      assert Repeat('0', n) + digits == Repeat('0', n);
      if n > 0 {
        ZerosValue(n - 1, [], base);
        assert Repeat('0', n - 1) + [] == Repeat('0', n - 1);
        ValueSnoc(Repeat('0', n - 1), '0', base);
      }
    } else {
      var t, c := digits[..|digits| - 1], digits[|digits| - 1];
      ZerosValue(n, t, base);
      assert digits == t + [c] && Repeat('0', n) + digits == (Repeat('0', n) + t) + [c];
      ValueSnoc(t, c, base);
      ValueSnoc(Repeat('0', n) + t, c, base);
    }
  }

  /** Whatever the precision, the digits evaluate to the magnitude of the number. */
  lemma BodyValue(num: int, base: int, precision: int, flags: Flags)
    requires 0 <= num < WORD32 && 2 <= base <= 36
    ensures Value(Body(num, base, precision, flags), base) == Magnitude(num, flags)
  {
    var digits := Numeral(Magnitude(num, flags), base, flags.large);
    ZerosValue(precision - |digits|, digits, base);
    NumeralValue(Magnitude(num, flags), base, flags.large);
  }

  // ---------------------------------------------------------------- how it reads

  /** Where the sign starts, where the digits with their leading zeros are, and how many digits the number needs. */
  datatype Field = Field(at: int, from: int, to: int, digits: int)

  /** How many characters the sign and the prefix take. */
  function SignWidth(num: int, flags: Flags): int {
    if Minus(num, flags) || (flags.signed && (flags.plus || flags.space)) then 1 else 0
  }

  function PrefixWidth(base: int, flags: Flags): int {
    if flags.prefix && base == 16 then 2 else if flags.prefix && base == 8 then 1 else 0
  }

  /** Blanks, sign, prefix, digits and blanks follow each other in this order, and fill the width. */
  ghost predicate Framed(out: seq<char>, f: Field, num: int, base: int, width: int, precision: int, flags: Flags) {
    var s, p := SignWidth(num, flags), PrefixWidth(base, flags);
    && 0 <= f.at && f.from == f.at + s + p && f.from < f.to <= |out|
    && |out| == Max(width, s + p + Max(precision, f.digits))
    && f.to - f.from == (if flags.zeros && !flags.left then |out| - s - p else Max(precision, f.digits))
    && (forall k :: 0 <= k < f.at ==> out[k] == ' ') && (f.at > 0 ==> !flags.left && !flags.zeros)
    && (forall k :: f.to <= k < |out| ==> out[k] == ' ') && (f.to < |out| ==> flags.left)
  }

  ghost predicate Headed(out: seq<char>, f: Field, num: int, base: int, flags: Flags)
    requires 0 <= f.at && f.at + SignWidth(num, flags) + PrefixWidth(base, flags) <= |out|
  {
    var s, p := SignWidth(num, flags), PrefixWidth(base, flags);
    && (s == 1 ==> out[f.at] == if Minus(num, flags) then '-' else if flags.plus then '+' else ' ')
    && (p >= 1 ==> out[f.at + s] == '0') && (p == 2 ==> out[f.at + s + 1] == if flags.large then 'X' else 'x')
  }

  /** The digits are digits of the base, and evaluate, with the sign, to the number as an int or as an unsigned. */
  ghost predicate Valued(out: seq<char>, f: Field, num: int, base: int, flags: Flags)
    requires 0 <= f.from <= f.to <= |out|
  {
    && DigitCount(if Minus(num, flags) then WORD32 - num else num, base, f.digits)
    && (forall k :: f.from <= k < f.to ==> Digital(out[k], base, flags.large))
    && Value(out[f.from..f.to], base) * (if Minus(num, flags) then -1 else 1)
       == (if flags.signed then Int32(num) else num)
  }

  /** What a reader sees in the field. */
  ghost predicate Printed(out: seq<char>, f: Field, num: int, base: int, width: int, precision: int, flags: Flags) {
    && Framed(out, f, num, base, width, precision, flags)
    && Headed(out, f, num, base, flags) && Valued(out, f, num, base, flags)
  }

  predicate Digital(c: char, base: int, large: bool) { Proper(c, base) && (IsAlpha(c) ==> IsUpper(c) == large) }

  /** A minus sign is printed exactly for negative numbers, once, and in front of all digits. */
  lemma MinusOnce(out: seq<char>, f: Field, num: int, base: int, width: int, precision: int, flags: Flags)
    requires Printed(out, f, num, base, width, precision, flags)
    ensures forall k :: 0 <= k < |out| ==> (out[k] == '-' <==> Minus(num, flags) && k == f.at)
  {
    forall k | 0 <= k < |out| ensures out[k] == '-' <==> Minus(num, flags) && k == f.at {
      if f.from <= k < f.to { assert Digital(out[k], base, flags.large); }
    }
  }

  /** Only a left-justified field ends in a blank; only blanks and a blank sign start one. */
  lemma PaddedSide(out: seq<char>, f: Field, num: int, base: int, width: int, precision: int, flags: Flags)
    requires Printed(out, f, num, base, width, precision, flags)
    ensures out[|out| - 1] == ' ' ==> flags.left
    ensures out[0] == ' ' ==>
              (!flags.left && !flags.zeros) || (flags.signed && num < WORD32 / 2 && !flags.plus && flags.space)
  {
    assert Digital(out[f.from], base, flags.large) && Digital(out[f.to - 1], base, flags.large);
  }

  lemma {:induction false} RepeatAll(c: char, n: int)
    ensures forall k :: 0 <= k < |Repeat(c, n)| ==> Repeat(c, n)[k] == c
  {
    if n > 0 { RepeatAll(c, n - 1); }
  }

  lemma {:induction false} RepeatAdd(c: char, m: int, n: int)
    requires m >= 0
    ensures Repeat(c, m) + Repeat(c, n) == Repeat(c, m + Max(n, 0))
  {
    if n > 0 {
      RepeatAdd(c, m, n - 1);
      assert Repeat(c, m) + (Repeat(c, n - 1) + [c]) == Repeat(c, m) + Repeat(c, n - 1) + [c];
    } else {
      assert Repeat(c, m) + [] == Repeat(c, m);
    }
  }

  lemma SignedValue(num: int)
    requires 0 <= num < WORD32
    ensures Int32(num) == if num >= WORD32 / 2 then num - WORD32 else num
  {
  }

  /** A field put together from its parts; z counts all leading zeros. */
  ghost predicate Parts(out: seq<char>, l: int, z: int, r: int, num: int, base: int, width: int, precision: int,
                        flags: Flags)
    requires 0 <= num < WORD32 && 2 <= base <= 36
  {
    var digits := Numeral(Magnitude(num, flags), base, flags.large);
    var head := SignText(num, flags) + PrefixText(base, flags);
    && out == Repeat(' ', l) + head + (Repeat('0', z) + digits) + Repeat(' ', r)
    && (l > 0 ==> !flags.left && !flags.zeros) && (r > 0 ==> flags.left)
    && |out| == Max(width, |head| + Max(precision, |digits|))
    && Max(z, 0) + |digits| == (if flags.zeros && !flags.left then |out| - |head| else Max(precision, |digits|))
  }

  lemma PartsPrinted(out: seq<char>, l: int, z: int, r: int, num: int, base: int, width: int, precision: int,
                     flags: Flags)
    returns (f: Field)
    requires 0 <= num < WORD32 && 2 <= base <= 36 && Parts(out, l, z, r, num, base, width, precision, flags)
    ensures Printed(out, f, num, base, width, precision, flags)
  {
    var digits := Numeral(Magnitude(num, flags), base, flags.large);
    var head := SignText(num, flags) + PrefixText(base, flags);
    var at, body := |Repeat(' ', l)|, Repeat('0', z) + digits;
    f := Field(at, at + |head|, at + |head| + |body|, |digits|);
    HeadRead(out, Repeat(' ', l), body + Repeat(' ', r), f, num, base, flags) by {
      assert out == Repeat(' ', l) + head + (body + Repeat(' ', r));
    }
    BodyAt(out, Repeat(' ', l), head, body, Repeat(' ', r));
    FrameRead(out, l, z, r, f, num, base, width, precision, flags);
    BodyRead(out, z, f, num, base, flags);
  }

  lemma HeadRead(out: seq<char>, a: seq<char>, b: seq<char>, f: Field, num: int, base: int, flags: Flags)
    requires out == a + (SignText(num, flags) + PrefixText(base, flags)) + b && f.at == |a|
    ensures |SignText(num, flags)| == SignWidth(num, flags) && |PrefixText(base, flags)| == PrefixWidth(base, flags)
    ensures f.at + SignWidth(num, flags) + PrefixWidth(base, flags) <= |out| && Headed(out, f, num, base, flags)
  {
    var sign, prefix := SignText(num, flags), PrefixText(base, flags);
    assert forall k :: 0 <= k < |sign| ==> out[|a| + k] == sign[k];
    assert forall k :: 0 <= k < |prefix| ==> out[|a| + |sign| + k] == prefix[k];
  }

  lemma FrameRead(out: seq<char>, l: int, z: int, r: int, f: Field, num: int, base: int, width: int, precision: int,
                  flags: Flags)
    requires 0 <= num < WORD32 && 2 <= base <= 36 && Parts(out, l, z, r, num, base, width, precision, flags)
    requires var digits := Numeral(Magnitude(num, flags), base, flags.large);
             var at, from := |Repeat(' ', l)|, |Repeat(' ', l)| + SignWidth(num, flags) + PrefixWidth(base, flags);
             && f == Field(at, from, from + |Repeat('0', z) + digits|, |digits|) && |out| == f.to + |Repeat(' ', r)|
             && out[..at] == Repeat(' ', l) && out[f.to..] == Repeat(' ', r)
    requires |SignText(num, flags)| == SignWidth(num, flags) && |PrefixText(base, flags)| == PrefixWidth(base, flags)
    ensures Framed(out, f, num, base, width, precision, flags)
  {
    RepeatLength(' ', l);
    RepeatLength('0', z);
    RepeatLength(' ', r);
    RepeatAll(' ', l);
    RepeatAll(' ', r);
    forall k | 0 <= k < f.at ensures out[k] == ' ' { assert out[k] == out[..f.at][k]; }
    forall k | f.to <= k < |out| ensures out[k] == ' ' { assert out[k] == out[f.to..][k - f.to]; }
  }

  lemma BodyRead(out: seq<char>, z: int, f: Field, num: int, base: int, flags: Flags)
    requires 0 <= num < WORD32 && 2 <= base <= 36 && 0 <= f.from <= f.to <= |out|
    requires var digits := Numeral(Magnitude(num, flags), base, flags.large);
             out[f.from..f.to] == Repeat('0', z) + digits && f.digits == |digits|
    ensures Valued(out, f, num, base, flags)
  {
    var n := Magnitude(num, flags);
    var digits := Numeral(n, base, flags.large);
    NumeralDigits(n, base, flags.large);
    NumeralCount(n, base, flags.large);
    BodyDigital(z, digits, base, flags.large);
    forall k | f.from <= k < f.to ensures Digital(out[k], base, flags.large) {
      assert out[k] == out[f.from..f.to][k - f.from];
    }
    BodyWorth(z, num, base, flags);
  }

  lemma BodyWorth(z: int, num: int, base: int, flags: Flags)
    requires 0 <= num < WORD32 && 2 <= base <= 36
    ensures var digits := Numeral(Magnitude(num, flags), base, flags.large);
            Value(Repeat('0', z) + digits, base) * (if Minus(num, flags) then -1 else 1)
            == (if flags.signed then Int32(num) else num)
  {
    var n := Magnitude(num, flags);
    ZerosValue(z, Numeral(n, base, flags.large), base);
    NumeralValue(n, base, flags.large);
    SignedValue(num);
  }

  lemma BodyAt(out: seq<char>, a: seq<char>, head: seq<char>, body: seq<char>, b: seq<char>)
    requires out == a + head + body + b
    ensures |out| == |a| + |head| + |body| + |b|
    ensures out[..|a|] == a && out[|a| + |head| + |body|..] == b
    ensures out[|a| + |head|..|a| + |head| + |body|] == body
  {
  }

  lemma BodyDigital(z: int, digits: seq<char>, base: int, large: bool)
    requires base >= 2
    requires forall i {:trigger digits[i]} :: 0 <= i < |digits| ==>
              Proper(digits[i], base) && (IsAlpha(digits[i]) ==> IsUpper(digits[i]) == large)
    ensures var body := Repeat('0', z) + digits; forall k :: 0 <= k < |body| ==> Digital(body[k], base, large)
  {
    RepeatAll('0', z);
  }

  /** The layout reads as it should. */
  lemma LayoutPrinted(num: int, base: int, width: int, precision: int, flags: Flags) returns (f: Field)
    requires 0 <= num < WORD32 && 2 <= base <= 36
    ensures Printed(Layout(num, base, width, precision, flags), f, num, base, width, precision, flags)
  {
    var out := Layout(num, base, width, precision, flags);
    var digits := Numeral(Magnitude(num, flags), base, flags.large);
    var head, body := SignText(num, flags) + PrefixText(base, flags), Body(num, base, precision, flags);
    var z, gap := precision - |digits|, width - |head| - |body|;
    LayoutLength(num, base, width, precision, flags);
    RepeatLength('0', z);
    RepeatLength('0', gap);
    if flags.left {
      assert Repeat(' ', 0) + head == head;
      f := PartsPrinted(out, 0, z, gap, num, base, width, precision, flags);
    } else if flags.zeros {
      var all := Max(gap, 0) + Max(z, 0);
      ZerosJoined(gap, z, digits);
      ZerosParts(head, Repeat('0', gap), body, Repeat('0', all) + digits);
      f := PartsPrinted(out, 0, all, 0, num, base, width, precision, flags);
    } else {
      assert out + Repeat(' ', 0) == out;
      f := PartsPrinted(out, gap, z, 0, num, base, width, precision, flags);
    }
  }

  lemma ZerosParts(head: seq<char>, m: seq<char>, body: seq<char>, all: seq<char>)
    requires m + body == all
    ensures head + m + body == Repeat(' ', 0) + head + all + Repeat(' ', 0)
  {
    assert head + m + body == head + (m + body);
  }

  lemma ZerosJoined(gap: int, z: int, digits: seq<char>)
    ensures Repeat('0', gap) + (Repeat('0', z) + digits) == Repeat('0', Max(gap, 0) + Max(z, 0)) + digits
  {
    RepeatAdd('0', Max(gap, 0), z);
    assert Repeat('0', Max(gap, 0)) == Repeat('0', gap);
    assert Repeat('0', gap) + (Repeat('0', z) + digits) == Repeat('0', gap) + Repeat('0', z) + digits;
  }

  // ---------------------------------------------------------------- how it is printed

  /** A loop `while (width-- > 0)` that appends c. */
  method Pad(out: seq<char>, c: char, width: int) returns (out': seq<char>, width': int)
    ensures out' == out + Repeat(c, width) && width' < 0 && (width <= 0 ==> width' == width - 1)
  {
    out', width' := out, width;
    while width' > 0
      invariant width' <= width && (width > 0 ==> 0 <= width') && (width <= 0 ==> width' == width)
      invariant out' + Repeat(c, width') == out + Repeat(c, width)
    {
      RepeatFront(c, width');
      assert out' + ([c] + Repeat(c, width' - 1)) == out' + [c] + Repeat(c, width' - 1);
      out' := out' + [c];
      width' := width' - 1;
    }
    assert out' + [] == out';
    width' := width' - 1;
  }

  /** Lines 66-70 */
  method FillDigits(num: int, base: int, large: bool, buffer: array<char>, ghost n: seq<char>) returns (i: int)
    requires 0 < num && 2 <= base <= 36 && n == Numeral(num, base, large) && |n| <= buffer.Length
    modifies buffer
    ensures i == |n| && Backwards(buffer[..], i, n)
  {
    i := 0;
    var v := num;
    assert n[..|n|] == n;
    while v != 0
      invariant v >= 0 && Backwards(buffer[..], i, n)
      invariant if v == 0 then i == |n| else i < |n| && n[..|n| - i] == Numeral(v, base, large)
      decreases v
    {
      var q, c := LastDigit(v, base, large);
      AheadStep(n, i, v, base, large, q, c);
      v := q;
      buffer[i] := c;
      i := i + 1;
    }
  }

  /** Lines 61-71: the digits in reverse order; 64 characters are always enough. */
  method FillBuffer(num: int, base: int, large: bool, buffer: array<char>) returns (i: int)
    requires 0 <= num < WORD32 && 2 <= base <= 36 && buffer.Length == BUFFER
    modifies buffer
    ensures i == |Numeral(num, base, large)| <= 32 && Backwards(buffer[..], i, Numeral(num, base, large))
  {
    NumeralFits(num, base, large);
    i := 0;
    if num == 0 {
      NumeralZero(base, large);
      buffer[i] := '0';
      i := i + 1;
    } else {
      i := FillDigits(num, base, large, buffer, Numeral(num, base, large));
    }
  }

  /** Lines 120-124 */
  method Unwind(out: seq<char>, buffer: array<char>, digits: int, ghost n: seq<char>) returns (out': seq<char>)
    requires digits == |n| && Backwards(buffer[..], digits, n)
    ensures out' == out + n
  {
    var i := digits;
    out' := out;
    while i > 0
      invariant 0 <= i <= digits && out' == out + n[..digits - i]
    {
      i := i - 1;
      assert buffer[..][i] == n[digits - 1 - i];
      out' := out' + [buffer[i]];
      assert n[..digits - i] == n[..digits - i - 1] + [n[digits - i - 1]];
    }
    assert n[..digits] == n;
  }

  /** Lines 19-133; what is written through str is returned as out, and f says where its parts are. */
  method Number(num: int, base: int, width: int, precision: int, flags: Flags)
    returns (out: seq<char>, ret: int, ghost f: Field)
    requires 0 <= num < WORD32
    ensures !(2 <= base <= 36) ==> out == [] && ret == 0
    ensures 2 <= base <= 36 ==> ret == |out| - 1 && Printed(out, f, num, base, width, precision, flags)
  {
    f := Field(0, 0, 0, 0);
    out, ret := Convert(num, base, width, precision, flags);
    if 2 <= base <= 36 {
      f := LayoutPrinted(num, base, width, precision, flags);
    }
  }

  method Convert(num: int, base: int, width: int, precision: int, flags: Flags)
    returns (out: seq<char>, ret: int)
    requires 0 <= num < WORD32
    ensures !(2 <= base <= 36) ==> out == [] && ret == 0
    ensures 2 <= base <= 36 ==> out == Layout(num, base, width, precision, flags) && ret == |out| - 1
  {
    out, ret := [], 0;
    var buffer := new char[BUFFER](i => '\0');
    var zeros := flags.zeros && !flags.left;
    if base < 2 || base > 36 {
      return;
    }
    var pad := if zeros then '0' else ' ';
    var n, w, sign := TakeSign(num, base, width, flags);
    var i := FillBuffer(n, base, flags.large, buffer);
    out := Emit(buffer, i, w, precision, sign, base, zeros, pad, flags, Numeral(n, base, flags.large));
    RepeatLength('0', precision - i);
    ret := |out| - 1;
  }

  /** Lines 36-59: the sign, and the width that sign and prefix leave for the digits. */
  method TakeSign(num: int, base: int, width: int, flags: Flags) returns (n: int, w: int, sign: seq<char>)
    ensures n == Magnitude(num, flags) && sign == SignText(num, flags)
    ensures w == width - |SignText(num, flags) + PrefixText(base, flags)|
  {
    n, w, sign := num, width, "";
    if flags.signed {
      if num >= WORD32 / 2 {
        n, sign, w := WORD32 - num, "-", w - 1;
      } else if flags.plus {
        sign, w := "+", w - 1;
      } else if flags.space {
        sign, w := " ", w - 1;
      }
    }
    if flags.prefix {
      if base == 16 {
        w := w - 2;
      } else if base == 8 {
        w := w - 1;
      }
    }
  }

  /** Lines 82-114: everything in front of the digits; w is the width that is left for the end of the field. */
  method EmitHead(gap: int, sign: seq<char>, base: int, zeros: bool, pad: char, flags: Flags)
    returns (out: seq<char>, w: int)
    requires zeros == (flags.zeros && !flags.left) && pad == if zeros then '0' else ' '
    ensures var head := sign + PrefixText(base, flags);
            out == if flags.left then head else if flags.zeros then head + Repeat('0', gap) else Repeat(' ', gap) + head
    ensures if flags.left then w == gap else w < 0
  {
    out, w := [], gap;
    if !zeros && !flags.left {
      out, w := Pad(out, ' ', w);
    }
    ghost var front := out;
    out := out + sign;
    if flags.prefix {
      if base == 8 {
        out := out + ['0'];
      } else if base == 16 {
        out := out + ['0'] + [if flags.large then 'X' else 'x'];
      }
    }
    assert out == front + (sign + PrefixText(base, flags));
    if !flags.left {
      out, w := Pad(out, pad, w);
    }
  }

  lemma Glue(a: seq<char>, b: seq<char>, c: seq<char>)
    ensures a + b + c == a + (b + c)
  {
  }

  /** Lines 73-130 */
  method Emit(buffer: array<char>, i: int, width: int, precision: int, sign: seq<char>, base: int, zeros: bool,
              pad: char, flags: Flags,
              ghost n: seq<char>) returns (out: seq<char>)
    requires i == |n| && Backwards(buffer[..], i, n)
    requires zeros == (flags.zeros && !flags.left) && pad == if zeros then '0' else ' '
    ensures var head, body := sign + PrefixText(base, flags), Repeat('0', precision - i) + n;
            out == Arranged(head, body, width - Max(precision, i), flags)
  {
    var p := if i > precision then i else precision;
    var w, fill;
    out, w := EmitHead(width - p, sign, base, zeros, pad, flags);
    ghost var front := out;
    out, fill := Pad(out, '0', p - i);
    out := Unwind(out, buffer, i, n);
    out, w := Pad(out, ' ', w);
    Glue(front, Repeat('0', p - i), n);
    assert Repeat('0', p - i) == Repeat('0', precision - i);
  }
}
