/** The number engine of printk (kernel/printk.c:141-220). Output is a string
    that grows by one character per print_char. */
module Printk {
  import opened Division

  datatype Flags = Flags(left: bool, plus: bool, space: bool, hash: bool, zero: bool)

  // -------------------------------------------------------- specification

  /** The number that the 64-bit argument stands for. */
  function Value(num: int, signed: bool): int {
    if signed && num >= U64 / 2 then num - U64 else num
  }

  /** What is converted to digits: `-snum` as an unsigned value when negative. */
  function Magnitude(num: int, signed: bool): int {
    if signed && num >= U64 / 2 then U64 - num else num
  }

  function SignOf(num: int, signed: bool, f: Flags): string {
    if !signed then ""
    else if num >= U64 / 2 then "-"
    else if f.plus then "+"
    else if f.space then " "
    else ""
  }

  function DigitChar(d: int, upper: bool): char
    requires 0 <= d < 16
  {
    if d < 10 then '0' + d as char else (if upper then 'A' else 'a') + (d - 10) as char
  }

  /** The usual positional notation, most significant digit first. */
  function Digits(m: int, base: int, upper: bool): (s: string)
    requires 0 <= m && 2 <= base <= 16
    ensures |s| > 0
    decreases m
  {
    if m < base then [DigitChar(m, upper)] else Digits(m / base, base, upper) + [DigitChar(m % base, upper)]
  }

  function Repeat(c: char, n: int): (s: string)
    ensures |s| == if n > 0 then n else 0
    decreases n
  {
    if n <= 0 then "" else [c] + Repeat(c, n - 1)
  }

  /** Padding, prefix, zeros, digits, padding. */
  function Laid(prefix: string, digits: string, width: int, precision: int, f: Flags): string {
    var zeros := if precision > |digits| then precision - |digits| else 0;
    var pad := width - (|digits| + zeros + |prefix|);
    var fill := f.zero && precision < 0 && !f.left && pad > 0;
    Repeat(' ', if f.left || fill then 0 else pad) + prefix + Repeat('0', if fill then pad else zeros) + digits
    + Repeat(' ', if f.left then pad else 0)
  }

  /** What the code prints. */
  function Render(num: int, base: int, width: int, precision: int, f: Flags, signed: bool, upper: bool): string
    requires 0 <= num < U64 && 2 <= base <= 16
  {
    Laid(SignOf(num, signed, f), Digits(Magnitude(num, signed), base, upper), width, precision, f)
  }

  // ------------------------------------------------------------ the engine

  lemma HalfBound(m: int, base: int, n: nat)
    requires 0 <= m < Pow2(n) && n > 0 && 2 <= base && m >= base
    ensures n > 1 && 0 <= m / base < Pow2(n - 1) && m / base < m
  {
    var q := m / base;
    assert base * q <= m;
    MulGe(q + 1, base, 2);
    assert 2 * q <= base * q;
  }

  /** In any base a 64-bit number has at most 64 digits: the buffer holds them. */
  lemma {:induction false} DigitsFit(m: int, base: int, upper: bool, n: nat)
    requires 0 <= m < Pow2(n) && n > 0 && 2 <= base <= 16
    ensures |Digits(m, base, upper)| <= n
    decreases m
  {
    if m >= base {
      HalfBound(m, base, n);
      DigitsFit(m / base, base, upper, n - 1);
    }
  }

  /** Least significant digit first, as the loop produces them. */
  ghost function Backwards(s: string): string {
    if s == "" then "" else [s[|s| - 1]] + Backwards(s[..|s| - 1])
  }

  lemma {:induction false} BackwardsLength(s: string)
    ensures |Backwards(s)| == |s|
    decreases |s|
  {
    if s != "" { BackwardsLength(s[..|s| - 1]); }
  }

  lemma {:induction false} BackwardsAt(s: string, k: int)
    requires 0 <= k < |s|
    ensures |Backwards(s)| == |s| && Backwards(s)[k] == s[|s| - 1 - k]
    decreases |s|
  {
    BackwardsLength(s);
    if k > 0 { BackwardsAt(s[..|s| - 1], k - 1); }
  }

  /** What is left to produce once `m` remains. */
  ghost function Pending(m: int, base: int, upper: bool): string
    requires 0 <= m && 2 <= base <= 16
  {
    if m == 0 then "" else Backwards(Digits(m, base, upper))
  }

  lemma PendingStep(m: int, base: int, upper: bool, was: string)
    requires 0 < m && 2 <= base <= 16
    ensures 0 <= m / base < m
    ensures was + Pending(m, base, upper) == was + [DigitChar(m % base, upper)] + Pending(m / base, base, upper)
  {
    DigitsStep(m, base, upper);
  }

  lemma QuotientSmaller(m: int, base: int)
    requires 0 < base <= m && 2 <= base
    ensures 0 < m / base < m
  {
    var q, r := m / base, m % base;
    assert m == base * q + r;
    if q <= 0 {
      MulGe(base, 0, q);
      assert false;
    }
    MulGe(q, base, 2);
  }

  lemma DigitsStep(m: int, base: int, upper: bool)
    requires 0 < m && 2 <= base <= 16
    ensures 0 <= m / base < m
    ensures Backwards(Digits(m, base, upper)) == [DigitChar(m % base, upper)] + Pending(m / base, base, upper)
  {
    var d := Digits(m, base, upper);
    if m < base {
      DivUnique(m, base, 0, m);
      assert d[..|d| - 1] == "";
    } else {
      QuotientSmaller(m, base);
      assert d[..|d| - 1] == Digits(m / base, base, upper);
    }
  }

  lemma PendingLength(m: int, base: int, upper: bool)
    requires 0 < m < U64 && 2 <= base <= 16
    ensures 0 < |Pending(m, base, upper)| == |Digits(m, base, upper)| <= 64
  {
    Pow2Is();
    DigitsFit(m, base, upper, 64);
    BackwardsLength(Digits(m, base, upper));
  }

  /** The digit loop (kernel/printk.c:163-172). The buffer of 64 characters is
      never overrun, and the loop leaves the number at 0. */
  method FillDigits(buf: array<char>, m: int, base: int, upper: bool) returns (i: int, rest: int)
    requires buf.Length == 64 && 0 <= m < U64 && 2 <= base <= 16
    modifies buf
    ensures 0 < i <= 64 && i == |Digits(m, base, upper)| && rest == 0
    ensures buf[..i] == Backwards(Digits(m, base, upper))
  {
    i := 0;
    rest := m;
    if rest == 0 {
      buf[i] := '0';
      i := i + 1;
      assert Backwards(['0']) == ['0'] + Backwards(['0'][..0]);
    } else {
      PendingLength(m, base, upper);
      while rest > 0
        invariant 0 <= rest <= m && 0 <= i <= 64 && Producing(buf[..i], rest, m, base, upper)
        decreases rest
      {
        ghost var was := buf[..i];
        ProduceStep(was, rest, m, base, upper);
        var c := DigitChar(rest % base, upper);
        buf[i] := c;
        i := i + 1;
        assert buf[..i] == was + [c];
        rest := rest / base;
      }
      assert buf[..i] + "" == buf[..i];
    }
  }

  /** The text and the digits that are left make up the digits of m, the last
      one first. */
  ghost predicate Producing(text: string, rest: int, m: int, base: int, upper: bool)
    requires 0 <= rest && 0 <= m && 2 <= base <= 16
  {
    text + Pending(rest, base, upper) == Pending(m, base, upper)
  }

  /** One digit more, for which there is room. */
  lemma ProduceStep(text: string, rest: int, m: int, base: int, upper: bool)
    requires 0 < rest <= m < U64 && 2 <= base <= 16 && Producing(text, rest, m, base, upper)
    ensures |text| < 64 && 0 <= rest / base < rest
    ensures Producing(text + [DigitChar(rest % base, upper)], rest / base, m, base, upper)
  {
    PendingStep(rest, base, upper, text);
    MoreRoom(text, rest, m, base, upper);
  }

  lemma MoreRoom(was: string, rest: int, m: int, base: int, upper: bool)
    requires 0 < rest <= m < U64 && 2 <= base <= 16 && was + Pending(rest, base, upper) == Pending(m, base, upper)
    ensures |was| < 64
  {
    PendingLength(m, base, upper);
    PendingLength(rest, base, upper);
    assert |was + Pending(rest, base, upper)| == |was| + |Pending(rest, base, upper)|;
  }

  lemma RepeatMore(c: char, n: int)
    requires n >= 0
    ensures Repeat(c, n + 1) == Repeat(c, n) + [c]
    decreases n
  {
    if n > 0 { RepeatMore(c, n - 1); }
  }

  method Emit(out: string, c: char, n: int) returns (r: string)
    ensures r == out + Repeat(c, n)
  {
    r := out;
    var k := n;
    ghost var done := 0;
    while k > 0
      invariant done >= 0 && (n > 0 ==> k >= 0 && done + k == n) && (n <= 0 ==> done == 0 && k == n)
      invariant r == out + Repeat(c, done)
      decreases k
    {
      RepeatMore(c, done);
      r := r + [c];
      done := done + 1;
      k := k - 1;
    }
  }

  /** The prefix (kernel/printk.c:150-160, 175-178). The alternate-form test
      looks at the number after the digit loop. */
  method Prefix(num: int, signed: bool, f: Flags) returns (prefix: string, n: int)
    requires 0 <= num < U64
    ensures prefix == SignOf(num, signed, f) && n == Magnitude(num, signed)
  {
    prefix, n := "", num;
    if signed {
      if num >= U64 / 2 {
        prefix := prefix + "-";
        n := U64 - num;
      } else if f.plus {
        prefix := prefix + "+";
      } else if f.space {
        prefix := prefix + " ";
      }
    }
  }

  /** The digits, read from the end of the buffer (kernel/printk.c:214). */
  method EmitDigits(out: string, buf: array<char>, n: int, ghost digits: string) returns (r: string)
    requires 0 <= n <= buf.Length && n == |digits| && buf[..n] == Backwards(digits)
    ensures r == out + digits
  {
    r := out;
    var i := n;
    while i > 0
      invariant 0 <= i <= n
      invariant r == out + digits[..n - i]
    {
      BackwardsAt(digits, i - 1);
      i := i - 1;
      assert buf[i] == buf[..n][i] == digits[n - 1 - i];
      r := r + [buf[i]];
    }
  }

  /** print_number */
  method PrintNumber(num: int, base: int, width: int, precision: int, f: Flags, signed: bool, upper: bool)
    returns (out: string)
    requires 0 <= num < U64 && 2 <= base <= 16
    ensures out == Render(num, base, width, precision, f, signed, upper)
    ensures WellLaid(out, IsoSign(Value(num, signed), signed, f), Digits(Abs(Value(num, signed)), base, upper), width,
      precision, f)
  {
    RenderLaid(num, base, width, precision, f, signed, upper);
    var buf := new char[64](_ => '0');
    var prefix, n := Prefix(num, signed, f);
    var i;
    i, n := FillDigits(buf, n, base, upper);
    if f.hash && n != 0 && base == 16 {
      prefix := prefix + (if upper then "0X" else "0x");
    }
    out := Layout(prefix, buf, i, width, precision, f, Digits(Magnitude(num, signed), base, upper));
  }

  /** Zeros, padding and the render order (kernel/printk.c:181-219). */
  method Layout(prefix: string, buf: array<char>, i: int, width: int, precision: int, f: Flags, ghost digits: string)
    returns (out: string)
    requires 0 <= i <= buf.Length && i == |digits| && buf[..i] == Backwards(digits)
    ensures out == Laid(prefix, digits, width, precision, f)
  {
    var zeroFlag := f.zero;
    if precision >= 0 {
      zeroFlag := false;
    }
    var zeros := 0;
    if precision > i {
      zeros := precision - i;
    }
    var pad := width - (i + zeros + |prefix|);
    if zeroFlag && !f.left && pad > 0 {
      zeros := zeros + pad;
      pad := 0;
    }
    out := "";
    if !f.left {
      out := Emit(out, ' ', pad);
    }
    out := out + prefix;
    out := Emit(out, '0', zeros);
    out := EmitDigits(out, buf, i, digits);
    if f.left {
      out := Emit(out, ' ', pad);
    }
  }

  // ------------------------------------------------------------- the layout

  function Abs(v: int): int { if v < 0 then -v else v }

  /** n times the character. */
  function Row(n: nat, c: char): (s: string)
    ensures |s| == n
  {
    seq(n, i => c)
  }

  /** The sign of a signed conversion (section 7.21.6.1 of ISO/IEC 9899:2011). */
  function IsoSign(value: int, signed: bool, f: Flags): string {
    if signed && value < 0 then "-"
    else if signed && f.plus then "+"
    else if signed && f.space then " "
    else ""
  }

  /** Blanks, sign, zeros, digits, blanks, as long as the width or as what there is
      to show. Blanks stand on the right with the flag `-`, on the left without.
      With the flag 0, no `-` and no precision there are zeros instead, otherwise
      the zeros only bring the digits up to the precision. */
  ghost predicate WellLaid(out: string, sign: string, digits: string, width: int, precision: int, f: Flags) {
    exists a: nat, z: nat, b: nat :: LaidAs(out, sign, digits, width, precision, f, a, z, b)
  }

  ghost predicate LaidAs(out: string, sign: string, digits: string, width: int, precision: int, f: Flags, a: nat,
      z: nat, b: nat)
  {
    && out == Row(a, ' ') + sign + Row(z, '0') + digits + Row(b, ' ')
    && |out| == Max(width, |sign| + Max(precision, |digits|))
    && (if f.left then a == 0 else b == 0)
    && (if f.zero && !f.left && precision < 0 then a == 0 else z + |digits| == Max(precision, |digits|))
  }

  lemma {:induction false} RepeatIsRow(c: char, n: int)
    ensures Repeat(c, n) == Row(if n > 0 then n else 0, c)
    decreases n
  {
    if n > 0 {
      RepeatIsRow(c, n - 1);
      assert [c] + Row(n - 1, c) == Row(n, c);
    }
  }

  lemma LaidWell(sign: string, digits: string, width: int, precision: int, f: Flags)
    ensures WellLaid(Laid(sign, digits, width, precision, f), sign, digits, width, precision, f)
  {
    var zeros := if precision > |digits| then precision - |digits| else 0;
    var pad := width - (|digits| + zeros + |sign|);
    var fill := f.zero && precision < 0 && !f.left && pad > 0;
    var x, y, w := if f.left || fill then 0 else pad, if fill then pad else zeros, if f.left then pad else 0;
    RepeatIsRow(' ', x);
    RepeatIsRow('0', y);
    RepeatIsRow(' ', w);
    var a, z, b := Max(x, 0), Max(y, 0), Max(w, 0);
    assert LaidAs(Laid(sign, digits, width, precision, f), sign, digits, width, precision, f, a, z, b);
  }

  lemma RenderLaid(num: int, base: int, width: int, precision: int, f: Flags, signed: bool, upper: bool)
    requires 0 <= num < U64 && 2 <= base <= 16
    ensures WellLaid(Render(num, base, width, precision, f, signed, upper), IsoSign(Value(num, signed), signed, f),
      Digits(Abs(Value(num, signed)), base, upper), width, precision, f)
  {
    assert Magnitude(num, signed) == Abs(Value(num, signed));
    assert SignOf(num, signed, f) == IsoSign(Value(num, signed), signed, f);
    LaidWell(SignOf(num, signed, f), Digits(Magnitude(num, signed), base, upper), width, precision, f);
  }

  /** The layout fixes the text. */
  lemma LaidOnce(out: string, text: string, sign: string, digits: string, width: int, precision: int, f: Flags)
    requires WellLaid(out, sign, digits, width, precision, f) && WellLaid(text, sign, digits, width, precision, f)
    ensures out == text
  {
    var a: nat, z: nat, b: nat :| LaidAs(out, sign, digits, width, precision, f, a, z, b);
    var c: nat, y: nat, d: nat :| LaidAs(text, sign, digits, width, precision, f, c, y, d);
  }

  /** Without the flag `-` the text ends with the last digit. */
  lemma LastIsDigit(out: string, sign: string, digits: string, width: int, precision: int, f: Flags)
    requires WellLaid(out, sign, digits, width, precision, f) && digits != "" && !f.left
    ensures out != "" && out[|out| - 1] == digits[|digits| - 1]
  {
    var a: nat, z: nat, b: nat :| LaidAs(out, sign, digits, width, precision, f, a, z, b);
    assert Row(b, ' ') == "";
    assert out == (Row(a, ' ') + sign + Row(z, '0')) + digits;
  }

  /** With it the text starts with the sign and a digit. */
  lemma FirstIsShown(out: string, sign: string, digits: string, width: int, precision: int, f: Flags)
    requires WellLaid(out, sign, digits, width, precision, f) && digits != "" && f.left
    ensures sign + [if precision > |digits| then '0' else digits[0]] <= out
  {
    var a: nat, z: nat, b: nat :| LaidAs(out, sign, digits, width, precision, f, a, z, b);
    assert Row(a, ' ') == "";
    assert out == sign + (Row(z, '0') + digits + Row(b, ' '));
    assert (Row(z, '0') + digits + Row(b, ' '))[0] == if precision > |digits| then '0' else digits[0];
  }

  /** With the flag 0 alone there is nothing but sign, zeros, digits. */
  lemma ZeroPadded(out: string, sign: string, digits: string, width: int, precision: int, f: Flags) returns (z: nat)
    requires WellLaid(out, sign, digits, width, precision, f) && f.zero && !f.left && precision < 0
    ensures out == sign + Row(z, '0') + digits && |out| == Max(width, |sign| + |digits|)
  {
    var a: nat, y: nat, b: nat :| LaidAs(out, sign, digits, width, precision, f, a, y, b);
    assert Row(a, ' ') == "" && Row(b, ' ') == "";
    z := y;
  }

  /** Nor is there when the width is not needed: blanks come from it only. */
  lemma WidthPads(out: string, sign: string, digits: string, width: int, precision: int, f: Flags) returns (z: nat)
    requires WellLaid(out, sign, digits, width, precision, f) && width <= |sign| + Max(precision, |digits|)
    ensures out == sign + Row(z, '0') + digits && z + |digits| == Max(precision, |digits|)
  {
    var a: nat, y: nat, b: nat :| LaidAs(out, sign, digits, width, precision, f, a, y, b);
    assert a == 0 && b == 0;
    assert Row(a, ' ') == "" && Row(b, ' ') == "";
    z := y;
  }

  /** There are at least `precision` digits in a row, the last ones those of the
      number. */
  lemma PrecisionShown(out: string, sign: string, digits: string, width: int, precision: int, f: Flags)
    returns (i: nat, z: nat)
    requires WellLaid(out, sign, digits, width, precision, f)
    ensures z + |digits| >= Max(precision, |digits|) && i + z + |digits| <= |out|
    ensures out[i..i + z + |digits|] == Row(z, '0') + digits
  {
    var a: nat, y: nat, b: nat :| LaidAs(out, sign, digits, width, precision, f, a, y, b);
    i, z := a + |sign|, y;
  }

  /** 0xab in `0x%08x`, and 42 in `%5d` and `%-5d`. */
  lemma PaddedNumbers()
    ensures Render(0xab, 16, 8, -1, Flags(false, false, false, false, true), false, false) == "000000ab"
    ensures Render(42, 10, 5, -1, Flags(false, false, false, false, false), true, false) == "   42"
    ensures Render(42, 10, 5, -1, Flags(true, false, false, false, false), true, false) == "42   "
  {
    TwoDigits(0xab, 16);
    TwoDigits(42, 10);
    assert "ab" == [DigitChar(0xa, false)] + [DigitChar(0xb, false)];
    RepeatIsRow('0', 6);
    RepeatIsRow(' ', 3);
    assert Row(6, '0') == "000000" && Row(3, ' ') == "   ";
  }

  lemma TwoDigits(m: int, base: int)
    requires 2 <= base <= 16 && base <= m < base * base
    ensures 0 <= m / base < base
    ensures Digits(m, base, false) == [DigitChar(m / base, false)] + [DigitChar(m % base, false)]
  {
  }

  // ------------------------------------------------------------- properties

  /** The text is as long as the width, or as what it has to show. */
  lemma RenderLength(num: int, base: int, width: int, precision: int, f: Flags, signed: bool, upper: bool)
    requires 0 <= num < U64 && 2 <= base <= 16
    ensures var shown := |SignOf(num, signed, f)| + Max(precision, |Digits(Magnitude(num, signed), base, upper)|);
      |Render(num, base, width, precision, f, signed, upper)| == Max(width, shown)
  {
  }

  function Max(a: int, b: int): int { if a < b then b else a }

  function DigitValue(c: char): int {
    if '0' <= c <= '9' then c as int - '0' as int
    else if 'a' <= c <= 'f' then c as int - 'a' as int + 10
    else if 'A' <= c <= 'F' then c as int - 'A' as int + 10
    else -1
  }

  /** An independent reader: digits up to the first other character. */
  function ReadDigits(s: string, base: int, acc: int): int
    decreases |s|
  {
    if s == "" || !(0 <= DigitValue(s[0]) < base) then acc else ReadDigits(s[1..], base, acc * base + DigitValue(s[0]))
  }

  function SkipSpaces(s: string): string
    decreases |s|
  {
    if s != "" && s[0] == ' ' then SkipSpaces(s[1..]) else s
  }

  /** Blanks, an optional sign, digits. */
  function Read(s: string, base: int): int {
    var t := SkipSpaces(s);
    if t != "" && t[0] == '-' then -ReadDigits(t[1..], base, 0)
    else if t != "" && t[0] == '+' then ReadDigits(t[1..], base, 0)
    else ReadDigits(t, base, 0)
  }

  lemma {:induction false} SkipRepeat(n: int, t: string)
    ensures SkipSpaces(Repeat(' ', n) + t) == SkipSpaces(t)
    decreases n
  {
    if n > 0 {
      assert (Repeat(' ', n) + t)[1..] == Repeat(' ', n - 1) + t;
      SkipRepeat(n - 1, t);
    } else {
      assert Repeat(' ', n) + t == t;
    }
  }

  lemma {:induction false} ReadZeros(n: int, t: string, base: int)
    requires 2 <= base <= 16
    ensures ReadDigits(Repeat('0', n) + t, base, 0) == ReadDigits(t, base, 0)
    decreases n
  {
    if n > 0 {
      assert (Repeat('0', n) + t)[1..] == Repeat('0', n - 1) + t;
      ReadZeros(n - 1, t, base);
    } else {
      assert Repeat('0', n) + t == t;
    }
  }

  lemma {:induction false} ReadNumber(m: int, base: int, upper: bool, t: string)
    requires 0 <= m && 2 <= base <= 16
    ensures ReadDigits(Digits(m, base, upper) + t, base, 0) == ReadDigits(t, base, m)
    decreases m
  {
    if m < base {
      assert (Digits(m, base, upper) + t)[1..] == t;
    } else {
      QuotientSmaller(m, base);
      var c := DigitChar(m % base, upper);
      assert Digits(m, base, upper) + t == Digits(m / base, base, upper) + ([c] + t);
      ReadNumber(m / base, base, upper, [c] + t);
      ReadOne(m, base, upper, t);
    }
  }

  lemma ReadOne(m: int, base: int, upper: bool, t: string)
    requires 0 <= m && 2 <= base <= 16
    ensures ReadDigits([DigitChar(m % base, upper)] + t, base, m / base) == ReadDigits(t, base, m)
  {
    var c := DigitChar(m % base, upper);
    assert ([c] + t)[1..] == t;
    assert DigitValue(c) == m % base;
    assert m / base * base + m % base == m;
  }

  lemma StopsAtBlank(n: int, base: int, m: int)
    requires 2 <= base <= 16
    ensures ReadDigits(Repeat(' ', n), base, m) == m
  {
  }

  lemma {:induction false} FirstDigit(m: int, base: int, upper: bool)
    requires 0 <= m && 2 <= base <= 16
    ensures var c := Digits(m, base, upper)[0]; c != ' ' && c != '-' && c != '+' && c != 'x' && c != 'X'
    decreases m
  {
    if m >= base {
      QuotientSmaller(m, base);
      FirstDigit(m / base, base, upper);
    }
  }

  /** Zeros and digits read back as the magnitude, whatever blanks follow. */
  lemma ReadBody(m: int, base: int, upper: bool, zeros: int, blanks: int)
    requires 0 <= m && 2 <= base <= 16
    ensures var t := Repeat('0', zeros) + Digits(m, base, upper) + Repeat(' ', blanks);
      ReadDigits(t, base, 0) == m && t != "" && t[0] != ' ' && t[0] != '-' && t[0] != '+'
  {
    var d, b := Digits(m, base, upper), Repeat(' ', blanks);
    assert Repeat('0', zeros) + d + b == Repeat('0', zeros) + (d + b);
    ReadZeros(zeros, d + b, base);
    ReadNumber(m, base, upper, b);
    StopsAtBlank(blanks, base, m);
    FirstDigit(m, base, upper);
  }

  /** A sign in front of a body that starts with a digit. */
  lemma ReadSigned(sign: string, body: string, base: int)
    requires sign in {"", "-", "+", " "} && body != "" && body[0] != ' ' && body[0] != '-' && body[0] != '+'
    ensures Read(sign + body, base) == if sign == "-" then -ReadDigits(body, base, 0) else ReadDigits(body, base, 0)
  {
    assert SkipSpaces(body) == body;
    if sign == "" {
      assert sign + body == body;
    } else {
      var t := sign + body;
      assert t[0] == sign[0] && t[1..] == body;
      assert SkipSpaces(t) == if sign == " " then body else t;
    }
  }

  lemma ReadLaid(blanks: int, sign: string, m: int, base: int, upper: bool, zeros: int, after: int)
    requires 0 <= m && 2 <= base <= 16 && sign in {"", "-", "+", " "}
    ensures Read(Repeat(' ', blanks) + sign + Repeat('0', zeros) + Digits(m, base, upper) + Repeat(' ', after), base)
      == if sign == "-" then -m else m
  {
    var z, d, a := Repeat('0', zeros), Digits(m, base, upper), Repeat(' ', after);
    var body := z + d + a;
    ReadBody(m, base, upper, zeros, after);
    ReadSigned(sign, body, base);
    SkipRepeat(blanks, sign + body);
    Regroup(Repeat(' ', blanks), sign, z, d, a);
  }

  lemma Regroup(b: string, sign: string, z: string, d: string, a: string)
    ensures b + sign + z + d + a == b + (sign + (z + d + a))
  {
  }

  /** Every number that is printed reads back as itself. */
  lemma RenderReads(num: int, base: int, width: int, precision: int, f: Flags, signed: bool, upper: bool)
    requires 0 <= num < U64 && 2 <= base <= 16
    ensures Read(Render(num, base, width, precision, f, signed, upper), base) == Value(num, signed)
  {
    var sign := SignOf(num, signed, f);
    var m := Magnitude(num, signed);
    var digits := Digits(m, base, upper);
    var zeros := if precision > |digits| then precision - |digits| else 0;
    var pad := width - (|digits| + zeros + |sign|);
    var fill := f.zero && precision < 0 && !f.left && pad > 0;
    ReadLaid(if f.left || fill then 0 else pad, sign, m, base, upper, if fill then pad else zeros,
      if f.left then pad else 0);
  }

  // -------------------------------------------------------------- the digits

  /** Digits of the base in the case asked for, the first not 0 unless it is the
      only one; their value is `RenderReads`. */
  lemma {:induction false} DigitsForm(m: int, base: int, upper: bool)
    requires 0 <= m && 2 <= base <= 16
    ensures var s := Digits(m, base, upper);
      && (forall k :: 0 <= k < |s| ==> 0 <= DigitValue(s[k]) < base)
      && (forall k :: 0 <= k < |s| ==> if upper then !('a' <= s[k] <= 'z') else !('A' <= s[k] <= 'Z'))
      && (s[0] == '0' ==> |s| == 1)
    decreases m
  {
    if m >= base {
      QuotientSmaller(m, base);
      QuotientNotZero(m, base);
      DigitsForm(m / base, base, upper);
      FirstDigitZero(m / base, base, upper);
    }
  }

  lemma QuotientNotZero(m: int, base: int)
    requires m >= base >= 2
    ensures m / base > 0
  {
  }

  lemma {:induction false} FirstDigitZero(m: int, base: int, upper: bool)
    requires 0 < m && 2 <= base <= 16
    ensures Digits(m, base, upper)[0] != '0'
    decreases m
  {
    if m >= base {
      QuotientSmaller(m, base);
      QuotientNotZero(m, base);
      FirstDigitZero(m / base, base, upper);
    }
  }

  // ---------------------------------------------------- against the standard

  /** The digits of a number, none for 0. */
  function IsoDigits(m: int, base: int, upper: bool): string
    requires 0 <= m && 2 <= base <= 16
    decreases m
  {
    QuotientLess(m, base);
    if m == 0 then ""
    else
      IsoDigits(m / base, base, upper) + [(if upper then "0123456789ABCDEF" else "0123456789abcdef")[m % base]]
  }

  lemma QuotientLess(m: int, base: int)
    requires m >= 0 && base >= 2
    ensures 0 <= m / base && (m > 0 ==> m / base < m)
  {
    if m >= base { QuotientSmaller(m, base); }
  }

  /** What section 7.21.6.1 of ISO/IEC 9899:2011 asks for in bases 10 and 16: the
      precision, 1 by default, is the minimum number of digits; the sign and the
      prefix come in front; then the width. */
  function IsoRender(num: int, base: int, width: int, precision: int, f: Flags, signed: bool, upper: bool): string
    requires 0 <= num < U64 && 2 <= base <= 16
  {
    var v := Value(num, signed);
    var digits := AtLeast(IsoDigits(Abs(v), base, upper), if precision < 0 then 1 else precision);
    var prefix := if f.hash && base == 16 && v != 0 then (if upper then "0X" else "0x") else "";
    IsoText(IsoSign(v, signed, f) + prefix, digits, width, precision, f)
  }

  /** Filled up to the width. */
  function IsoText(front: string, digits: string, width: int, precision: int, f: Flags): string {
    if |front| + |digits| >= width then front + digits
    else if f.left then front + digits + Row(width - |front| - |digits|, ' ')
    else if f.zero && precision < 0 then front + AtLeast(digits, width - |front|)
    else Row(width - |front| - |digits|, ' ') + (front + digits)
  }

  /** Leading zeros up to n digits. */
  function AtLeast(digits: string, n: int): string {
    if |digits| < n then Row(n - |digits|, '0') + digits else digits
  }

  lemma {:induction false} RepeatNoX(c: char, n: int)
    requires c != 'x' && c != 'X'
    ensures 'x' !in Repeat(c, n) && 'X' !in Repeat(c, n)
    decreases n
  {
    if n > 0 { RepeatNoX(c, n - 1); }
  }

  lemma {:induction false} DigitsNoX(m: int, base: int, upper: bool)
    requires 0 <= m && 2 <= base <= 16
    ensures 'x' !in Digits(m, base, upper) && 'X' !in Digits(m, base, upper)
    decreases m
  {
    if m >= base {
      QuotientSmaller(m, base);
      DigitsNoX(m / base, base, upper);
    }
  }

  lemma LaidNoX(prefix: string, digits: string, width: int, precision: int, f: Flags)
    requires 'x' !in prefix && 'X' !in prefix && 'x' !in digits && 'X' !in digits
    ensures 'x' !in Laid(prefix, digits, width, precision, f) && 'X' !in Laid(prefix, digits, width, precision, f)
  {
    var zeros := if precision > |digits| then precision - |digits| else 0;
    var pad := width - (|digits| + zeros + |prefix|);
    var fill := f.zero && precision < 0 && !f.left && pad > 0;
    RepeatNoX(' ', if f.left || fill then 0 else pad);
    RepeatNoX('0', if fill then pad else zeros);
    RepeatNoX(' ', if f.left then pad else 0);
  }

  lemma LaidHas(prefix: string, digits: string, width: int, precision: int, f: Flags, c: char)
    requires c in prefix || c in digits
    ensures c in Laid(prefix, digits, width, precision, f)
  {
  }

  lemma {:induction false} RepeatNoZero(n: int)
    ensures '0' !in Repeat(' ', n)
    decreases n
  {
    if n > 0 { RepeatNoZero(n - 1); }
  }

  lemma ZeroDigit(base: int, upper: bool)
    requires 2 <= base <= 16
    ensures Digits(0, base, upper) == "0"
  {
  }

  /** Zero with precision 0: the standard asks for no digit, the code prints one. */
  lemma ZeroAtPrecisionZero(num: int, base: int, width: int, f: Flags, signed: bool, upper: bool)
    requires 0 <= num < U64 && 2 <= base <= 16 && Magnitude(num, signed) == 0
    ensures '0' in Render(num, base, width, 0, f, signed, upper)
    ensures '0' !in IsoRender(num, base, width, 0, f, signed, upper)
  {
    var sign := SignOf(num, signed, f);
    ZeroDigit(base, upper);
    LaidHas(sign, "0", width, 0, f, '0');
    var pad := width - |sign|;
    RepeatNoZero(pad);
    RepeatNoZero(0);
    assert sign + "" == sign;
  }

  /** Nonzero hexadecimal with '#': the standard asks for 0x, the code never
      prints it. */
  lemma MissingHexPrefix(num: int, width: int, precision: int, f: Flags, signed: bool, upper: bool)
    requires 0 <= num < U64 && Magnitude(num, signed) != 0 && f.hash
    ensures var c := if upper then 'X' else 'x';
      c !in Render(num, 16, width, precision, f, signed, upper)
      && c in IsoRender(num, 16, width, precision, f, signed, upper)
  {
    var sign, m := SignOf(num, signed, f), Magnitude(num, signed);
    var hex := if upper then "0X" else "0x";
    DigitsNoX(m, 16, upper);
    LaidNoX(sign, Digits(m, 16, upper), width, precision, f);
    assert (sign + hex)[|sign| + 1] == hex[1];
    LaidHas(sign + hex, Digits(m, 16, upper), width, precision, f, hex[1]);
  }

  lemma {:induction false} DigitsIso(m: int, base: int, upper: bool)
    requires 0 <= m && 2 <= base <= 16
    ensures Digits(m, base, upper) == if m == 0 then "0" else IsoDigits(m, base, upper)
    decreases m
  {
    QuotientLess(m, base);
    TableDigit(m % base, upper);
    if m >= base {
      QuotientNotZero(m, base);
      DigitsIso(m / base, base, upper);
    } else if m > 0 {
      OneDigit(m, base);
      assert IsoDigits(0, base, upper) == "";
    }
  }

  lemma OneDigit(m: int, base: int)
    requires 0 <= m < base
    ensures m / base == 0 && m % base == m
  {
  }

  lemma TableDigit(d: int, upper: bool)
    requires 0 <= d < 16
    ensures (if upper then "0123456789ABCDEF" else "0123456789abcdef")[d] == DigitChar(d, upper)
  {
  }

  /** Zeros in front of the digits, up to the precision. */
  lemma AtLeastDigits(m: int, base: int, upper: bool, precision: int)
    requires 0 <= m && 2 <= base <= 16 && !(m == 0 && precision == 0)
    ensures var digits := Digits(m, base, upper);
      AtLeast(IsoDigits(m, base, upper), if precision < 0 then 1 else precision)
      == Row(Max(precision, |digits|) - |digits|, '0') + digits
  {
    DigitsIso(m, base, upper);
    var p := if precision < 0 then 1 else precision;
    if m == 0 {
      assert Row(p, '0') + "" == Row(p - 1, '0') + "0";
    } else {
      assert Row(0, '0') + IsoDigits(m, base, upper) == IsoDigits(m, base, upper);
    }
  }

  lemma MoreZeros(n: nat, k: nat, digits: string)
    ensures Row(n, '0') + (Row(k, '0') + digits) == Row(n + k, '0') + digits
  {
  }

  /** The standard's text is laid out in the same way. */
  lemma IsoWell(num: int, base: int, width: int, precision: int, f: Flags, signed: bool, upper: bool)
    requires 0 <= num < U64 && 2 <= base <= 16
    requires var v := Value(num, signed); !(f.hash && base == 16 && v != 0) && !(precision == 0 && v == 0)
    ensures WellLaid(IsoRender(num, base, width, precision, f, signed, upper), IsoSign(Value(num, signed), signed, f),
      Digits(Abs(Value(num, signed)), base, upper), width, precision, f)
  {
    var v := Value(num, signed);
    var sign := IsoSign(v, signed, f);
    AtLeastDigits(Abs(v), base, upper, precision);
    assert sign + "" == sign;
    IsoTextWell(sign, Digits(Abs(v), base, upper), width, precision, f);
  }

  lemma IsoTextWell(sign: string, digits: string, width: int, precision: int, f: Flags)
    ensures var body := Row(Max(precision, |digits|) - |digits|, '0') + digits;
      WellLaid(IsoText(sign, body, width, precision, f), sign, digits, width, precision, f)
  {
    var z := Max(precision, |digits|) - |digits|;
    var body := Row(z, '0') + digits;
    var n := width - |sign| - |body|;
    var text := IsoText(sign, body, width, precision, f);
    assert Row(0, ' ') == "";
    if n <= 0 {
      assert LaidAs(text, sign, digits, width, precision, f, 0, z, 0);
    } else if f.left {
      assert LaidAs(text, sign, digits, width, precision, f, 0, z, n);
    } else if f.zero && precision < 0 {
      MoreZeros(n, z, digits);
      assert LaidAs(text, sign, digits, width, precision, f, 0, n + z, 0);
    } else {
      assert LaidAs(text, sign, digits, width, precision, f, n, z, 0);
    }
  }

  /** The code prints what the standard asks for exactly when neither of the
      two cases applies. */
  lemma IsoExactly(num: int, base: int, width: int, precision: int, f: Flags, signed: bool, upper: bool)
    requires 0 <= num < U64 && (base == 10 || base == 16)
    ensures var m := Magnitude(num, signed);
      Render(num, base, width, precision, f, signed, upper) == IsoRender(num, base, width, precision, f, signed, upper)
      <==> !(f.hash && base == 16 && m != 0) && !(precision == 0 && m == 0)
  {
    var m := Magnitude(num, signed);
    if f.hash && base == 16 && m != 0 {
      MissingHexPrefix(num, width, precision, f, signed, upper);
    } else if precision == 0 && m == 0 {
      ZeroAtPrecisionZero(num, base, width, f, signed, upper);
    } else {
      RenderLaid(num, base, width, precision, f, signed, upper);
      IsoWell(num, base, width, precision, f, signed, upper);
      LaidOnce(Render(num, base, width, precision, f, signed, upper),
        IsoRender(num, base, width, precision, f, signed, upper), IsoSign(Value(num, signed), signed, f),
        Digits(Abs(Value(num, signed)), base, upper), width, precision, f);
    }
  }
}
