/** The number printer (pp_printf/vsprintf-full.c) and the decimal parser (lib/util.c). */
module NumberText {
  import opened Division
  import opened Arith

  datatype Flags = Flags(zeropad: bool, sign: bool, plus: bool, space: bool, left: bool, small: bool, special: bool)

  predicate IsBase(base: nat) { base == 8 || base == 10 || base == 16 }

  // ---------------------------------------------------------------------------------------------
  // What is printed
  // ---------------------------------------------------------------------------------------------

  function DigitChar(v: nat, small: bool): char
    requires v < 16
  {
    if small then "0123456789abcdef"[v] else "0123456789ABCDEF"[v]
  }

  /** The digits of `m`, most significant first. */
  function Digits(m: nat, base: nat, small: bool): (s: string)
    requires IsBase(base)
    ensures |s| > 0
    decreases m, 1
  {
    Leading(m, base, small) + [DigitChar(m % base, small)]
  }

  /** All digits but the last. */
  function Leading(m: nat, base: nat, small: bool): string
    requires IsBase(base)
    decreases m, 0
  {
    if m < base then "" else Digits(m / base, base, small)
  }

  /** The number as the caller meant it. */
  function Signed(num: nat): int {
    if num < TWO63 then num else num - TWO64
  }

  function Magnitude(num: nat, f: Flags): nat
    requires num < TWO64
  {
    if f.sign && Signed(num) < 0 then -Signed(num) else num
  }

  function SignText(num: nat, f: Flags): string {
    if !f.sign then "" else if Signed(num) < 0 then "-" else if f.plus then "+" else if f.space then " " else ""
  }

  function Prefix(base: nat, f: Flags): string {
    if !f.special || base == 10 then "" else if base == 16 then ['0', if f.small then 'x' else 'X'] else "0"
  }

  function Max(a: int, b: int): int { if a > b then a else b }

  /** `n` copies of `c`, none if `n` is negative. */
  function Copies(c: char, n: int): (s: string)
    ensures |s| == (if n > 0 then n else 0) && forall k :: 0 <= k < |s| ==> s[k] == c
  {
    seq(Max(n, 0), _ => c)
  }

  /** The digits with the zeros the precision asks for. */
  function Body(num: nat, base: nat, precision: int, f: Flags): string
    requires num < TWO64 && IsBase(base)
  {
    var digits := Digits(Magnitude(num, f), base, f.small);
    Copies('0', precision - |digits|) + digits
  }

  /** How far the text falls short of the field width. */
  function Gap(num: nat, base: nat, size: int, precision: int, f: Flags): int
    requires num < TWO64 && IsBase(base)
  {
    size - |SignText(num, f)| - |Prefix(base, f)| - |Body(num, base, precision, f)|
  }

  /** Padding goes behind, between or in front. */
  function Layout(head: string, body: string, gap: int, f: Flags): string {
    if f.left then head + body + Copies(' ', gap)
    else if f.zeropad then head + Copies('0', gap) + body
    else Copies(' ', gap) + head + body
  }

  function Text(num: nat, base: nat, size: int, precision: int, f: Flags): string
    requires num < TWO64 && IsBase(base)
  {
    var gap := Gap(num, base, size, precision, f);
    Layout(SignText(num, f) + Prefix(base, f), Body(num, base, precision, f), gap, f)
  }

  lemma TextFillsField(num: nat, base: nat, size: int, precision: int, f: Flags)
    requires num < TWO64 && IsBase(base)
    ensures |Text(num, base, size, precision, f)|
         == Max(size, |SignText(num, f)| + |Prefix(base, f)|
                      + Max(precision, |Digits(Magnitude(num, f), base, f.small)|))
  {
  }

  // ---------------------------------------------------------------------------------------------
  // What digits mean
  // ---------------------------------------------------------------------------------------------

  function DigitValue(c: char): nat {
    if '0' <= c <= '9' then c as int - '0' as int
    else if 'a' <= c <= 'f' then c as int - 'a' as int + 10
    else if 'A' <= c <= 'F' then c as int - 'A' as int + 10
    else 0
  }

  function Value(s: string, base: nat): nat {
    if s == "" then 0 else Value(s[..|s|-1], base) * base + DigitValue(s[|s|-1])
  }

  lemma DigitCharValue(v: nat, small: bool)
    requires v < 16
    ensures DigitValue(DigitChar(v, small)) == v
    ensures v < 10 <==> '0' <= DigitChar(v, small) <= '9'
    ensures DigitChar(v, small) == '0' ==> v == 0
  {
  }

  lemma ValueAppend(s: string, c: char, base: nat)
    ensures Value(s + [c], base) == Value(s, base) * base + DigitValue(c)
  {
    assert (s + [c])[..|s|] == s;
  }

  /** The digits denote the number, with no zero in front but for zero itself. */
  lemma {:induction false} DigitsDenote(m: nat, base: nat, small: bool)
    requires IsBase(base)
    ensures Value(Digits(m, base, small), base) == m
    ensures Digits(m, base, small)[0] == '0' ==> m == 0 && |Digits(m, base, small)| == 1
  {
    var rest := Leading(m, base, small);
    var v := m % base;
    DigitCharValue(v, small);
    ValueAppend(rest, DigitChar(v, small), base);
    DivMod(m, base);
    if m >= base {
      QuotientShrinks(m, base);
      DigitsDenote(m / base, base, small);
      assert Value(rest, base) * base == m / base * base;
      assert m / base != 0;
    }
  }

  // ---------------------------------------------------------------------------------------------
  // The parsers
  // ---------------------------------------------------------------------------------------------

  predicate IsDigit(c: char, base: nat) {
    '0' <= c <= '9' || (base == 16 && ('A' <= c <= 'F' || 'a' <= c <= 'f'))
  }

  function DigitCount(s: string, base: nat): (n: nat)
    ensures n <= |s|
  {
    if s == "" || !IsDigit(s[0], base) then 0 else 1 + DigitCount(s[1..], base)
  }

  predicate Negative(s: string) { s != "" && s[0] == '-' }

  function Unsigned(s: string): string {
    if Negative(s) then s[1..] else s
  }

  /** The number a text denotes, without regard to width. */
  function Parsed(s: string, base: nat): int {
    var u := Unsigned(s);
    var v: int := Value(u[..DigitCount(u, base)], base);
    if Negative(s) then -v else v
  }

  /** What is left unread. */
  function Rest(s: string, base: nat): string {
    Unsigned(s)[DigitCount(Unsigned(s), base)..]
  }

  /** `x` as a two's complement number with `m` values. */
  function ToSigned(x: int, m: nat): int
    requires m > 0
  {
    if x % m < m / 2 then x % m else x % m - m
  }

  lemma ModShift(x: int, y: int, k: int, m: nat)
    requires m > 0 && x == y + k * m
    ensures x % m == y % m
  {
    assert y == y / m * m + y % m;
    assert x == (y / m + k) * m + y % m;
    DivModUnique(x, m, y / m + k, y % m);
  }

  lemma ToSignedShift(x: int, m: nat) returns (k: int)
    requires m > 0
    ensures ToSigned(x, m) == x + k * m
  {
    assert x == x / m * m + x % m;
    if x % m < m / 2 {
      k := -(x / m);
      assert x % m == x + k * m;
    } else {
      k := -(x / m) - 1;
      assert x % m - m == x + k * m;
    }
  }

  lemma Multiplied(x: int, k: int, m: int, base: int)
    ensures (x + k * m) * base == x * base + (k * base) * m
  {
  }

  /** Wrapping at every digit is wrapping at the end. */
  lemma WrapDigit(x: int, base: nat, d: int, m: nat)
    requires m > 0
    ensures ToSigned(ToSigned(x, m) * base + d, m) == ToSigned(x * base + d, m)
  {
    var k := ToSignedShift(x, m);
    Multiplied(x, k, m, base);
    ModShift((x + k * m) * base + d, x * base + d, k * base, m);
  }

  lemma WrapNegate(x: int, m: nat)
    requires m > 0
    ensures ToSigned(-ToSigned(x, m), m) == ToSigned(-x, m)
  {
    var k := ToSignedShift(x, m);
    assert -(x + k * m) == -x + (-k) * m;
    ModShift(-(x + k * m), -x, -k, m);
  }

  lemma {:induction false} DigitCountIs(s: string, n: nat, base: nat)
    requires n <= |s| && forall k :: 0 <= k < n ==> IsDigit(s[k], base)
    requires n == |s| || !IsDigit(s[n], base)
    ensures DigitCount(s, base) == n
  {
    if n > 0 {
      DigitCountIs(s[1..], n - 1, base);
    }
  }

  lemma NextDigit(u: string, n: nat, base: nat, m: nat)
    requires n < |u| && m > 0
    ensures ToSigned(ToSigned(Value(u[..n], base), m) * base + DigitValue(u[n]), m) == ToSigned(Value(u[..n+1], base), m)
  {
    WrapDigit(Value(u[..n], base), base, DigitValue(u[n]), m);
    ValueAppend(u[..n], u[n], base);
    assert u[..n+1] == u[..n] + [u[n]];
  }

  /** The digit loop both parsers share, in `m`-valued signed arithmetic. */
  method ReadDigits(u: string, base: nat, m: nat) returns (o: int, n: nat)
    requires (base == 10 || base == 16) && m > 2
    ensures n == DigitCount(u, base) && o == ToSigned(Value(u[..n], base), m)
  {
    o, n := 0, 0;
    while n < |u| && IsDigit(u[n], base)
      invariant n <= |u| && (forall k :: 0 <= k < n ==> IsDigit(u[k], base))
      invariant o == ToSigned(Value(u[..n], base), m)
    {
      NextDigit(u, n, base, m);
      o := ToSigned(o * base + DigitValue(u[n]), m);
      n := n + 1;
    }
    DigitCountIs(u, n, base);
  }

  /** fromdec, with `int` overflow wrapping. */
  method FromDec(dec: string) returns (v: int, rest: string)
    ensures v == ToSigned(Parsed(dec, 10), TWO32) && rest == Rest(dec, 10)
  {
    var u := Unsigned(dec);
    var o, n := ReadDigits(u, 10, TWO32);
    WrapNegate(Value(u[..n], 10), TWO32);
    v := if Negative(dec) then ToSigned(-o, TWO32) else o;
    rest := u[n..];
  }

  /** fromhex64, with `int64_t` overflow wrapping. */
  method FromHex64(hex: string) returns (v: int, rest: string)
    ensures v == ToSigned(Parsed(hex, 16), TWO64) && rest == Rest(hex, 16)
  {
    var u := Unsigned(hex);
    var o, n := ReadDigits(u, 16, TWO64);
    WrapNegate(Value(u[..n], 16), TWO64);
    v := if Negative(hex) then ToSigned(-o, TWO64) else o;
    rest := u[n..];
  }

  // ---------------------------------------------------------------------------------------------
  // The text in full
  // ---------------------------------------------------------------------------------------------

  /** Digits by their character codes. */
  lemma DigitCodes(v: nat, small: bool)
    requires v < 16
    ensures DigitChar(v, small) as int == if v < 10 then 48 + v else if small then 87 + v else 55 + v
  {
  }

  /** What the parsers take for a digit, and for how much. */
  lemma ParsedCodes(c: char, base: nat)
    ensures IsDigit(c, base) <==> 48 <= c as int <= 57 || (base == 16 && (65 <= c as int <= 70 || 97 <= c as int <= 102))
    ensures IsDigit(c, base) ==>
              var n := c as int; DigitValue(c) == if n <= 57 then n - 48 else if n <= 70 then n - 55 else n - 87
  {
  }

  function Power(base: nat, n: nat): nat {
    if n == 0 then 1 else base * Power(base, n - 1)
  }

  /** The first digit weighs most. */
  lemma {:induction false} ValueHead(c: char, s: string, base: nat)
    ensures Value([c] + s, base) == DigitValue(c) * Power(base, |s|) + Value(s, base)
  {
    if s == "" {
      assert [c] + s == [] + [c];
      ValueAppend([], c, base);
    } else {
      var t, x := s[..|s|-1], s[|s|-1];
      ValueHead(c, t, base);
      assert [c] + s == ([c] + t) + [x] && s == t + [x];
      ValueAppend([c] + t, x, base);
      ValueAppend(t, x, base);
      Weighed(DigitValue(c), Power(base, |t|), Value(t, base), base, Value([c] + t, base));
    }
  }

  lemma Weighed(d: int, p: int, v: int, base: int, w: int)
    requires w == d * p + v
    ensures w * base == d * (base * p) + v * base
  {
    assert w * base == (d * p) * base + v * base;
    assert (d * p) * base == d * (base * p);
  }

  /** The characters are digits of the base, letters in the case asked for. */
  predicate Spelled(s: string, base: nat, small: bool) {
    forall k :: 0 <= k < |s| ==> var c := s[k] as int;
      (48 <= c < 48 + base && c <= 57) || (base == 16 && (if small then 97 <= c <= 102 else 65 <= c <= 70))
  }

  lemma {:induction false} DigitsSpelled(m: nat, base: nat, small: bool)
    requires IsBase(base)
    ensures Spelled(Digits(m, base, small), base, small)
  {
    DigitCodes(m % base, small);
    if m >= base {
      QuotientShrinks(m, base);
      DigitsSpelled(m / base, base, small);
    }
  }

  /** The parts of a printed number. */
  datatype Field = Field(front: nat, sign: string, prefix: string, zeros: nat, digits: string, back: nat) {
    function Joined(): string {
      Copies(' ', front) + (sign + prefix) + (Copies('0', zeros) + digits) + Copies(' ', back)
    }

    predicate SignFor(num: nat, f: Flags) {
      sign == if !f.sign then "" else if num >= 0x8000_0000_0000_0000 then "-"
              else if f.plus then "+" else if f.space then " " else ""
    }

    predicate PrefixFor(base: nat, f: Flags) {
      prefix == if !f.special || base == 10 then "" else if base == 8 then "0" else if f.small then "0x" else "0X"
    }

    /** The digits of the magnitude, with no zero in front. */
    predicate DigitsFor(num: nat, base: nat, f: Flags) {
      && digits != "" && Spelled(digits, base, f.small) && (digits[0] == '0' ==> |digits| == 1)
      && Value(digits, base) == if sign == "-" then 0x1_0000_0000_0000_0000 - num else num
    }

    /** Zeros up to the precision; what is missing to the width is spaces behind if left-justified, else
        zeros if zero-padded, else spaces in front. */
    predicate PaddedFor(size: int, precision: int, f: Flags) {
      var fill := if precision > |digits| then precision - |digits| else 0;
      var short := size - |sign| - |prefix| - fill - |digits|;
      var pad := if short > 0 then short else 0;
      && back == (if f.left then pad else 0)
      && zeros == fill + (if f.zeropad && !f.left then pad else 0)
      && front == if f.left || f.zeropad then 0 else pad
    }
  }

  /** Every text that is printed: spaces, sign, prefix, zeros, the digits of the magnitude, spaces. */
  lemma TextInFull(num: nat, base: nat, size: int, precision: int, f: Flags) returns (t: Field)
    requires num < 0x1_0000_0000_0000_0000 && (base == 8 || base == 10 || base == 16)
    ensures Text(num, base, size, precision, f) == t.Joined()
    ensures t.SignFor(num, f) && t.PrefixFor(base, f) && t.DigitsFor(num, base, f) && t.PaddedFor(size, precision, f)
  {
    var sign, prefix, digits := SignText(num, f), Prefix(base, f), Digits(Magnitude(num, f), base, f.small);
    var gap := GapIs(num, base, size, precision, f, sign, prefix, digits);
    var front, zeros, back := FieldParts(sign + prefix, precision - |digits|, digits, gap, f);
    t := Field(front, sign, prefix, zeros, digits, back);
    SignIs(num, f, t);
    PrefixIs(base, f, t);
    DigitsAre(num, base, f, t);
    PaddedIs(t, size, precision, f, gap);
  }

  lemma PaddedIs(t: Field, size: int, precision: int, f: Flags, gap: int)
    requires gap == size - |t.sign| - |t.prefix| - Max(precision - |t.digits|, 0) - |t.digits|
    requires t.back == (if f.left then Max(gap, 0) else 0) && t.front == (if f.left || f.zeropad then 0 else Max(gap, 0))
    requires t.zeros == Max(precision - |t.digits|, 0) + if f.zeropad && !f.left then Max(gap, 0) else 0
    ensures t.PaddedFor(size, precision, f)
  {
  }

  lemma SignIs(num: nat, f: Flags, t: Field)
    requires num < TWO64 && t.sign == SignText(num, f)
    ensures t.SignFor(num, f)
    ensures Magnitude(num, f) == if t.sign == "-" then TWO64 - num else num
  {
  }

  lemma PrefixIs(base: nat, f: Flags, t: Field)
    requires IsBase(base) && t.prefix == Prefix(base, f)
    ensures t.PrefixFor(base, f)
  {
  }

  lemma DigitsAre(num: nat, base: nat, f: Flags, t: Field)
    requires num < TWO64 && IsBase(base)
    requires t.sign == SignText(num, f) && t.digits == Digits(Magnitude(num, f), base, f.small)
    ensures t.DigitsFor(num, base, f)
  {
    SignIs(num, f, t);
    DigitsSpelled(Magnitude(num, f), base, f.small);
    DigitsDenote(Magnitude(num, f), base, f.small);
  }

  lemma GapIs(num: nat, base: nat, size: int, precision: int, f: Flags, sign: string, prefix: string, digits: string)
    returns (gap: int)
    requires num < TWO64 && IsBase(base)
    requires sign == SignText(num, f) && prefix == Prefix(base, f) && digits == Digits(Magnitude(num, f), base, f.small)
    ensures gap == size - |sign| - |prefix| - Max(precision - |digits|, 0) - |digits|
    ensures Text(num, base, size, precision, f) == Layout(sign + prefix, Copies('0', precision - |digits|) + digits, gap, f)
  {
    gap := Gap(num, base, size, precision, f);
  }

  lemma FieldParts(head: string, more: int, digits: string, gap: int, f: Flags) returns (front: nat, zeros: nat, back: nat)
    ensures Layout(head, Copies('0', more) + digits, gap, f)
         == Copies(' ', front) + head + (Copies('0', zeros) + digits) + Copies(' ', back)
    ensures back == (if f.left then Max(gap, 0) else 0) && front == (if f.left || f.zeropad then 0 else Max(gap, 0))
    ensures zeros == Max(more, 0) + if f.zeropad && !f.left then Max(gap, 0) else 0
  {
    var pad := Max(gap, 0);
    front, back := if f.left || f.zeropad then 0 else pad, if f.left then pad else 0;
    zeros := Max(more, 0) + if f.zeropad && !f.left then pad else 0;
    if f.zeropad && !f.left {
      assert Copies('0', gap) + Copies('0', more) == Copies('0', zeros);
    }
  }

  // ---------------------------------------------------------------------------------------------
  // Printing and parsing back
  // ---------------------------------------------------------------------------------------------

  /** The number a conversion stands for. */
  function Meant(num: nat, f: Flags): int {
    if f.sign then Signed(num) else num
  }

  /** The text starts with its sign or a digit, and no prefix intervenes. */
  predicate Plain(num: nat, base: nat, size: int, precision: int, f: Flags)
    requires num < TWO64 && IsBase(base)
  {
    && (f.left || f.zeropad || Gap(num, base, size, precision, f) <= 0)
    && Prefix(base, f) == ""
    && (SignText(num, f) == "" || SignText(num, f) == "-")
  }

  predicate AllDigits(s: string, base: nat) {
    forall k :: 0 <= k < |s| ==> IsDigit(s[k], base)
  }

  lemma {:induction false} DigitsAreDigits(m: nat, base: nat, small: bool)
    requires base == 10 || base == 16
    ensures AllDigits(Digits(m, base, small), base)
  {
    DigitCharValue(m % base, small);
    if m >= base {
      QuotientShrinks(m, base);
      DigitsAreDigits(m / base, base, small);
    }
  }

  lemma {:induction false} ZerosAreZero(n: int, base: nat)
    ensures Value(Copies('0', n), base) == 0
  {
    if n > 0 {
      ZerosAreZero(n - 1, base);
      ValueAppend(Copies('0', n - 1), '0', base);
      assert Copies('0', n) == Copies('0', n - 1) + ['0'];
    }
  }

  lemma SameHead(x: string, y: string, c: char, base: nat)
    requires Value(x, base) == Value(y, base)
    ensures Value(x + [c], base) == Value(y + [c], base)
  {
    ValueAppend(x, c, base);
    ValueAppend(y, c, base);
  }

  lemma {:induction false} ValueZeros(n: int, s: string, base: nat)
    ensures Value(Copies('0', n) + s, base) == Value(s, base)
  {
    var z := Copies('0', n);
    if s == "" {
      ZerosAreZero(n, base);
      assert z + s == z;
    } else {
      var r, c := s[..|s|-1], s[|s|-1];
      ValueZeros(n, r, base);
      SameHead(z + r, r, c, base);
      assert z + s == (z + r) + [c] && s == r + [c];
    }
  }

  /** A sign, digits, and something that is no digit. */
  lemma ParsedIs(neg: bool, z: string, tail: string, base: nat)
    requires AllDigits(z, base) && z != "" && (tail == "" || !IsDigit(tail[0], base))
    ensures var s := (if neg then "-" else "") + z + tail;
            var v: int := Value(z, base);
            Parsed(s, base) == (if neg then -v else v) && Rest(s, base) == tail
  {
    var s := (if neg then "-" else "") + z + tail;
    assert IsDigit(z[0], base);
    assert Unsigned(s) == z + tail;
    DigitCountIs(z + tail, |z|, base);
    assert (z + tail)[..|z|] == z && (z + tail)[|z|..] == tail;
  }

  /** A field not padded in front: its sign, zeros and the digits, and padding behind. */
  lemma PlainLayout(sign: string, more: int, digits: string, gap: int, f: Flags) returns (zeros: nat, tail: string)
    requires f.left || f.zeropad || gap <= 0
    ensures tail == "" || tail[0] == ' '
    ensures Layout(sign, Copies('0', more) + digits, gap, f) == sign + (Copies('0', zeros) + digits) + tail
  {
    zeros, tail := Max(more, 0), if f.left then Copies(' ', gap) else "";
    if !f.left && gap > 0 {
      zeros := gap + zeros;
      assert Copies('0', gap) + Copies('0', more) == Copies('0', zeros);
    }
  }

  lemma PlainText(num: nat, base: nat, size: int, precision: int, f: Flags, sign: string, digits: string)
    returns (zeros: nat, tail: string)
    requires num < TWO64 && IsBase(base) && Plain(num, base, size, precision, f)
    requires sign == SignText(num, f) && digits == Digits(Magnitude(num, f), base, f.small)
    ensures tail == "" || tail[0] == ' '
    ensures Text(num, base, size, precision, f) == sign + (Copies('0', zeros) + digits) + tail
  {
    assert sign + Prefix(base, f) == sign;
    zeros, tail := PlainLayout(sign, precision - |digits|, digits, Gap(num, base, size, precision, f), f);
  }

  lemma FieldParses(neg: bool, zeros: nat, m: nat, base: nat, small: bool, tail: string)
    requires (base == 10 || base == 16) && (tail == "" || tail[0] == ' ')
    ensures Parsed((if neg then "-" else "") + (Copies('0', zeros) + Digits(m, base, small)) + tail, base)
         == if neg then 0 - m else m
  {
    var digits := Digits(m, base, small);
    DigitsAreDigits(m, base, small);
    DigitsDenote(m, base, small);
    ValueZeros(zeros, digits, base);
    ParsedIs(neg, Copies('0', zeros) + digits, tail, base);
  }

  lemma ParsesBack(num: nat, base: nat, size: int, precision: int, f: Flags)
    requires num < TWO64 && (base == 10 || base == 16) && Plain(num, base, size, precision, f)
    ensures Parsed(Text(num, base, size, precision, f), base) == Meant(num, f)
  {
    var sign, m := SignText(num, f), Magnitude(num, f);
    var zeros, tail := PlainText(num, base, size, precision, f, sign, Digits(m, base, f.small));
    FieldParses(sign == "-", zeros, m, base, f.small, tail);
  }

  /** A text not padded in front starts with its sign and its prefix. */
  lemma HeadFirst(num: nat, base: nat, size: int, precision: int, f: Flags) returns (more: string)
    requires num < TWO64 && IsBase(base)
    requires f.left || f.zeropad || Gap(num, base, size, precision, f) <= 0
    ensures Text(num, base, size, precision, f) == SignText(num, f) + (Prefix(base, f) + more)
  {
    more := HeadLayout(SignText(num, f), Prefix(base, f), Body(num, base, precision, f),
                       Gap(num, base, size, precision, f), f);
  }

  lemma HeadLayout(sign: string, prefix: string, body: string, gap: int, f: Flags) returns (more: string)
    requires f.left || f.zeropad || gap <= 0
    ensures Layout(sign + prefix, body, gap, f) == sign + (prefix + more)
  {
    more := if f.left then body + Copies(' ', gap) else Copies('0', if f.zeropad then gap else 0) + body;
    Regroup(sign, prefix, more);
  }

  lemma StartsOff(s: string, base: nat)
    requires s != "" && s[0] != '-' && !IsDigit(s[0], base)
    ensures Parsed(s, base) == 0
  {
    DigitCountIs(s, 0, base);
  }

  lemma ZeroThenX(neg: bool, more: string, x: char)
    requires x == 'x' || x == 'X'
    ensures Parsed((if neg then "-" else "") + (['0', x] + more), 16) == 0
  {
    var sign := if neg then "-" else "";
    ParsedIs(neg, "0", [x] + more, 16);
    assert sign + "0" + ([x] + more) == sign + (['0', x] + more);
    ValueAppend("", '0', 16);
    assert "" + "0" == "0";
  }

  /** Any other text parses as zero: it starts with a blank, a plus, or the prefix's zero. */
  lemma OtherwiseZero(num: nat, base: nat, size: int, precision: int, f: Flags)
    requires num < TWO64 && (base == 10 || base == 16) && !Plain(num, base, size, precision, f)
    ensures Parsed(Text(num, base, size, precision, f), base) == 0
  {
    var t := Text(num, base, size, precision, f);
    var sign := SignText(num, f);
    if !f.left && !f.zeropad && Gap(num, base, size, precision, f) > 0 {
      StartsOff(t, base);
    } else {
      var more := HeadFirst(num, base, size, precision, f);
      if sign == "+" || sign == " " {
        StartsOff(sign + (Prefix(base, f) + more), base);
      } else {
        ZeroThenX(sign == "-", more, if f.small then 'x' else 'X');
      }
    }
  }

  /** A decimal or hexadecimal conversion is read back exactly if its text is plain, or it was zero. */
  lemma ParsesBackIff(num: nat, base: nat, size: int, precision: int, f: Flags)
    requires num < TWO64 && (base == 10 || base == 16)
    ensures Parsed(Text(num, base, size, precision, f), base) == Meant(num, f)
       <==> Plain(num, base, size, precision, f) || num == 0
  {
    if Plain(num, base, size, precision, f) {
      ParsesBack(num, base, size, precision, f);
    } else {
      OtherwiseZero(num, base, size, precision, f);
    }
  }

  /** "%d", and "%llx". */
  const DECIMAL: Flags := Flags(false, true, false, false, false, false, false)
  const HEX: Flags := Flags(false, false, false, false, false, true, false)

  /** An `int` as it reaches the printer. */
  function SignExtend(v: int): nat
    requires 0 - TWO63 <= v < TWO63
  {
    if v < 0 then v + TWO64 else v
  }

  /** Every `int` printed with "%d" is read back by fromdec. */
  lemma DecimalRoundTrip(v: int)
    requires -(TWO32 / 2) <= v < TWO32 / 2
    ensures ToSigned(Parsed(Text(SignExtend(v), 10, -1, -1, DECIMAL), 10), TWO32) == v
  {
    ParsesBack(SignExtend(v), 10, -1, -1, DECIMAL);
    if v >= 0 { DivModUnique(v, TWO32, 0, v); } else { DivModUnique(v, TWO32, -1, v + TWO32); }
  }

  /** Every 64-bit word printed with "%llx" is read back by fromhex64. */
  lemma HexRoundTrip(num: nat)
    requires num < TWO64
    ensures ToSigned(Parsed(Text(num, 16, -1, -1, HEX), 16), TWO64) == Signed(num)
  {
    ParsesBack(num, 16, -1, -1, HEX);
    DivModUnique(num, TWO64, 0, num);
  }

  lemma {:induction false} ValuePrefix(s: string, n: nat, base: nat)
    requires n <= |s| && base > 0
    ensures Value(s[..n], base) <= Value(s, base)
  {
    if n < |s| {
      var r := s[..|s|-1];
      ValuePrefix(r, n, base);
      assert r[..n] == s[..n];
      MulMonotone(1, base, Value(r, base));
    } else {
      assert s[..n] == s;
    }
  }

  /** Reading back any `int` but the least, no value on the way leaves the range of `int`. */
  lemma DecimalNeverOverflows(v: int, n: nat)
    requires -(TWO32 / 2) < v < TWO32 / 2
    requires n <= DigitCount(Unsigned(Text(SignExtend(v), 10, -1, -1, DECIMAL)), 10)
    ensures Value(Unsigned(Text(SignExtend(v), 10, -1, -1, DECIMAL))[..n], 10) < TWO32 / 2
  {
    var t := Text(SignExtend(v), 10, -1, -1, DECIMAL);
    ParsesBack(SignExtend(v), 10, -1, -1, DECIMAL);
    var u := Unsigned(t);
    var all := u[..DigitCount(u, 10)];
    ValuePrefix(all, n, 10);
    assert all[..n] == u[..n];
  }

  // ---------------------------------------------------------------------------------------------
  // The printer
  // ---------------------------------------------------------------------------------------------

  const TMP_SIZE: nat := 66

  function Pow2(n: nat): nat { if n == 0 then 1 else 2 * Pow2(n - 1) }

  function Reversed(s: string): (r: string)
    ensures |r| == |s|
  {
    if s == "" then "" else [s[|s|-1]] + Reversed(s[..|s|-1])
  }

  lemma ReversedAppend(s: string, c: char)
    ensures Reversed(s + [c]) == [c] + Reversed(s)
  {
    assert (s + [c])[..|s|] == s;
  }

  lemma Regroup(a: string, b: string, c: string)
    ensures (a + b) + c == a + (b + c)
  {
  }

  /** One more digit: the quotient's digits, then this one, then those before. */
  lemma DigitStep(num: nat, base: nat, small: bool, done: string)
    requires IsBase(base)
    ensures Digits(num, base, small) + Reversed(done)
         == Leading(num, base, small) + Reversed(done + [DigitChar(num % base, small)])
  {
    var c := DigitChar(num % base, small);
    ReversedAppend(done, c);
    Regroup(Leading(num, base, small), [c], Reversed(done));
  }

  lemma {:induction false} Pow2Add(a: nat, b: nat)
    ensures Pow2(a + b) == Pow2(a) * Pow2(b)
  {
    if a > 0 {
      Pow2Add(a - 1, b);
    }
  }

  lemma Pow64()
    ensures Pow2(64) == TWO64
  {
    assert Pow2(2) == 4;
    Pow2Add(2, 2);
    Pow2Add(4, 4);
    Pow2Add(8, 8);
    Pow2Add(16, 16);
    Pow2Add(32, 32);
  }

  /** `done` holds the low digits of `m` in reverse, and `num` is what remains. */
  ghost predicate Partial(m: nat, num: nat, base: nat, small: bool, done: string)
    requires IsBase(base)
  {
    Digits(m, base, small) == (if num == 0 then "" else Digits(num, base, small)) + Reversed(done)
  }

  lemma PartialStep(m: nat, num: nat, base: nat, small: bool, done: string)
    requires IsBase(base) && num > 0 && Partial(m, num, base, small, done)
    ensures Partial(m, num / base, base, small, done + [DigitChar(num % base, small)])
  {
    DigitStep(num, base, small, done);
    DivMod(num, base);
    assert num < base <==> num / base == 0;
  }

  lemma HalfFits(num: nat, base: nat, bits: nat)
    requires IsBase(base) && 0 < num < Pow2(bits)
    ensures bits > 0 && num / base < Pow2(bits - 1)
  {
    QuotientShrinks(num, base);
  }

  /** The digit loop between two digits: 64 bits never take more than 64 digits. */
  ghost predicate Converting(m: nat, num: nat, base: nat, small: bool, done: string)
    requires IsBase(base)
  {
    |done| <= 64 && num < TWO64 && num < Pow2(64 - |done|) && Partial(m, num, base, small, done)
  }

  lemma OneDigit(num: nat, base: nat)
    requires IsBase(base) && num > 0
    ensures 0 <= num / base < num && 0 <= num % base < 16
  {
    QuotientShrinks(num, base);
  }

  lemma ConvertingStep(m: nat, num: nat, base: nat, small: bool, done: string, rest: nat, c: char)
    requires IsBase(base) && num > 0 && Converting(m, num, base, small, done)
    requires rest == num / base && c == DigitChar(num % base, small)
    ensures |done| < 64 && rest < num && Converting(m, rest, base, small, done + [c])
  {
    OneDigit(num, base);
    HalfFits(num, base, 64 - |done|);
    PartialStep(m, num, base, small, done);
  }

  method PutDigit(ghost m: nat, num: nat, base: nat, small: bool, tmp: array<char>, i: nat) returns (rest: nat)
    requires IsBase(base) && num > 0 && tmp.Length == TMP_SIZE && i <= 64 && Converting(m, num, base, small, tmp[..i])
    modifies tmp
    ensures i < 64 && rest < num && Converting(m, rest, base, small, tmp[..i+1])
  {
    ghost var done := tmp[..i];
    OneDigit(num, base);
    var quotient, digit := DoDiv(num, base);
    var c := DigitChar(digit, small);
    ConvertingStep(m, num, base, small, done, quotient, c);
    tmp[i] := c;
    assert tmp[..i+1] == done + [c];
    rest := quotient;
  }

  method ConvertDigits(m: nat, base: nat, small: bool, tmp: array<char>) returns (i: nat)
    requires 0 < m < TWO64 && IsBase(base) && tmp.Length == TMP_SIZE
    modifies tmp
    ensures i <= TMP_SIZE && Partial(m, 0, base, small, tmp[..i])
  {
    i := 0;
    var num: nat := m;
    Pow64();
    assert Partial(m, m, base, small, "");
    while num != 0
      invariant i <= 64 && Converting(m, num, base, small, tmp[..i])
      decreases num
    {
      num := PutDigit(m, num, base, small, tmp, i);
      i := i + 1;
    }
  }

  /** Fills the scratch buffer with the digits in reverse, and never beyond its end. */
  method Convert(m: nat, base: nat, small: bool, tmp: array<char>) returns (i: nat)
    requires m < TWO64 && IsBase(base) && tmp.Length == TMP_SIZE
    modifies tmp
    ensures i <= TMP_SIZE && Reversed(tmp[..i]) == Digits(m, base, small)
  {
    if m == 0 {
      tmp[0] := '0';
      i := 1;
      assert tmp[..1] == "0" && "0"[..0] == "";
    } else {
      i := ConvertDigits(m, base, small, tmp);
      assert "" + Reversed(tmp[..i]) == Reversed(tmp[..i]);
    }
  }

  /** A padding loop: as many copies as `size` still asks for, which leaves nothing for the next. */
  method Pad(buf: string, c: char, size: int) returns (out: string, left: int)
    ensures out == buf + Copies(c, size) && left < 0
  {
    out, left := buf, size - 1;
    while left >= 0
      invariant -1 <= left < size || left == size - 1
      invariant out == buf + Copies(c, size - 1 - left)
      decreases left
    {
      out := out + [c];
      left := left - 1;
    }
  }

  method SplitSign(num: nat, width: int, f: Flags) returns (sign: string, m: nat, size: int)
    requires num < TWO64
    ensures sign == SignText(num, f) && m == Magnitude(num, f) && size == width - |sign|
  {
    sign, m, size := "", num, width;
    if f.sign {
      if Signed(num) < 0 {
        sign, m, size := "-", TWO64 - num, size - 1;
      } else if f.plus {
        sign, size := "+", size - 1;
      } else if f.space {
        sign, size := " ", size - 1;
      }
    }
  }

  method WritePrefix(buf: string, base: nat, f: Flags) returns (out: string)
    ensures out == buf + Prefix(base, f)
  {
    out := buf;
    if f.special && base != 10 {
      out := out + "0";
      if base == 16 { out := out + [if f.small then 'x' else 'X']; }
    }
  }

  function Front(gap: int, f: Flags): string {
    if f.zeropad || f.left then "" else Copies(' ', gap)
  }

  function Middle(gap: int, f: Flags): string {
    if f.zeropad && !f.left then Copies('0', gap) else ""
  }

  function Behind(gap: int, f: Flags): string {
    if f.left then Copies(' ', gap) else ""
  }

  lemma Assembled(buf: string, sign: string, prefix: string, zeros: string, digits: string, gap: int, f: Flags)
    ensures buf + Front(gap, f) + sign + prefix + Middle(gap, f) + zeros + digits + Behind(gap, f)
         == buf + Layout(sign + prefix, zeros + digits, gap, f)
  {
  }

  /** Everything before the digits; `left` is the padding still to come. */
  method WriteFront(buf: string, sign: string, base: nat, gap: int, f: Flags) returns (out: string, left: int)
    ensures out == buf + Front(gap, f) + sign + Prefix(base, f) + Middle(gap, f)
    ensures Copies(' ', left) == Behind(gap, f)
  {
    var zeropad := f.zeropad && !f.left;
    out, left := buf, gap;
    if !zeropad && !f.left { out, left := Pad(out, ' ', left); }
    assert out == buf + Front(gap, f);
    out := out + sign;
    out := WritePrefix(out, base, f);
    if !f.left { out, left := Pad(out, if zeropad then '0' else ' ', left); }
  }

  /** Writes sign, prefix, zeros and digits with the padding where the flags want it. */
  method WriteField(buf: string, sign: string, base: nat, tmp: array<char>, i: nat, gap: int, zeros: int, f: Flags)
    returns (out: string)
    requires i <= tmp.Length
    ensures out == buf + Layout(sign + Prefix(base, f), Copies('0', zeros) + Reversed(tmp[..i]), gap, f)
  {
    var left, rest;
    out, left := WriteFront(buf, sign, base, gap, f);
    out, rest := Pad(out, '0', zeros);
    out := WriteDigits(out, tmp, i);
    out, rest := Pad(out, ' ', left);
    Assembled(buf, sign, Prefix(base, f), Copies('0', zeros), Reversed(tmp[..i]), gap, f);
  }

  method Number(buf: string, num: nat, base: nat, width: int, minimum: int, f: Flags) returns (out: string)
    requires num < TWO64 && IsBase(base)
    ensures out == buf + Text(num, base, width, minimum, f)
  {
    var tmp := new char[TMP_SIZE];
    var sign, m, size := SplitSign(num, width, f);
    size := NarrowForPrefix(size, base, f);
    var i := Convert(m, base, f.small, tmp);
    var precision := if i > minimum then i else minimum;
    size := size - precision;
    out := WriteField(buf, sign, base, tmp, i, size, precision - i, f);
    TextIs(num, base, width, minimum, f, sign, Reversed(tmp[..i]), precision - i, size);
  }

  method NarrowForPrefix(width: int, base: nat, f: Flags) returns (size: int)
    ensures size == width - |Prefix(base, f)|
  {
    size := width;
    if f.special && base != 10 {
      size := size - 1;
      if base == 16 { size := size - 1; }
    }
  }

  lemma TextIs(num: nat, base: nat, width: int, minimum: int, f: Flags, sign: string, digits: string, zeros: int, gap: int)
    requires num < TWO64 && IsBase(base)
    requires sign == SignText(num, f) && digits == Digits(Magnitude(num, f), base, f.small)
    requires zeros == Max(minimum - |digits|, 0) && gap == width - |sign| - |Prefix(base, f)| - |digits| - zeros
    ensures Text(num, base, width, minimum, f) == Layout(sign + Prefix(base, f), Copies('0', zeros) + digits, gap, f)
  {
    assert Copies('0', minimum - |digits|) == Copies('0', zeros);
  }

  method WriteDigits(buf: string, tmp: array<char>, n: nat) returns (out: string)
    requires n <= tmp.Length
    ensures out == buf + Reversed(tmp[..n])
  {
    out := buf;
    var i := n;
    while i > 0
      invariant 0 <= i <= n
      invariant out + Reversed(tmp[..i]) == buf + Reversed(tmp[..n])
    {
      i := i - 1;
      assert tmp[..i+1][..i] == tmp[..i];
      Regroup(out, [tmp[i]], Reversed(tmp[..i]));
      out := out + [tmp[i]];
    }
    assert out + "" == out;
  }
}
