/**
 The text of a formatted integer told by its characters: fill, sign, radix mark, fill again,
 digits and fill, each fixed by the specification and the value alone.
 */
module FmtIntText {
  import opened FmtDecimal
  import opened FmtInt
  import opened FmtIntRead

  /** The code letters that are known, and the radix of each. */
  lemma CodeTable(code: char)
    ensures KnownCode(code) <==>
            code == '\0' || code == 'd' || code == 'n' || code == 'x' || code == 'X' || code == 'b' || code == 'B' || code == 'o'
    ensures KnownCode(code) ==>
            Base(code) == if code == 'x' || code == 'X' then 16 else if code == 'b' || code == 'B' then 2
                          else if code == 'o' then 8 else 10
  {
  }

  function Sign(value: int, spec: IntSpec): (r: string) {
    if value < 0 then "-" else if !spec.sign then "" else if spec.plus then "+" else " "
  }

  function Mark(spec: IntSpec): (r: string) {
    if !spec.hash then ""
    else match spec.code
         case 'x' => "0x" case 'X' => "0X" case 'b' => "0b" case 'B' => "0B" case 'o' => "0" case _ => ""
  }

  // ----- numerals -----

  const Small := "0123456789abcdef"
  const Large := "0123456789ABCDEF"

  /** `ds` writes `n` in the radix: no needless zero in front, letters of the asked case. */
  ghost predicate Numeral(ds: string, n: nat, base: nat, large: bool)
    requires base <= 16
  {
    && ds != "" && (|ds| > 1 ==> ds[0] != '0')
    && (forall i :: 0 <= i < |ds| ==> IsDigitOf(ds[i], base, large))
    && ReadDigits(ds, base) == n
  }

  ghost predicate IsDigitOf(c: char, base: nat, large: bool)
    requires base <= 16
  {
    exists d :: 0 <= d < base && c == (if large then Large[d] else Small[d])
  }

  lemma DigitOf(c: char, base: nat, large: bool)
    requires base <= 16 && IsDigitOf(c, base, large)
    ensures DigitValue(c) < base && c == (if large then Large[DigitValue(c)] else Small[DigitValue(c)])
  {
    var d :| 0 <= d < base && c == (if large then Large[d] else Small[d]);
    DigitValues(d);
    assert Small == LowerDigits && Large == UpperDigits;
  }

  /** Only zero is written with a zero in front. */
  lemma {:induction false} LeadingDigit(ds: string, base: nat, large: bool)
    requires 2 <= base <= 16 && ds != "" && ds[0] != '0' && forall i :: 0 <= i < |ds| ==> IsDigitOf(ds[i], base, large)
    ensures ReadDigits(ds, base) > 0
  {
    hide IsDigitOf, DigitValue, ReadDigits;
    var n := |ds| - 1;
    assert ds == ds[..n] + [ds[n]];
    ReadSnoc(ds[..n], ds[n], base);
    if n == 0 {
      NotZero(ds[0], base, large);
      ReadNothing(base);
      assert ds[..0] == "";
    } else {
      LeadingDigit(ds[..n], base, large);
      Positive(ReadDigits(ds[..n], base), base);
    }
  }

  lemma NotZero(c: char, base: nat, large: bool)
    requires base <= 16 && IsDigitOf(c, base, large) && c != '0'
    ensures DigitValue(c) > 0
  {
    hide DigitValue;
    DigitOf(c, base, large);
  }

  lemma Positive(a: nat, b: nat)
    requires a > 0 && b > 0
    ensures a * b > 0
  {
  }

  /** A number has one numeral. */
  lemma {:induction false} OneNumeral(a: string, b: string, n: nat, base: nat, large: bool)
    requires 2 <= base <= 16 && Numeral(a, n, base, large) && Numeral(b, n, base, large)
    ensures a == b
    decreases |a|
  {
    hide IsDigitOf, DigitValue;
    var i, j := |a| - 1, |b| - 1;
    DigitOf(a[i], base, large);
    DigitOf(b[j], base, large);
    SameLast(ReadDigits(a[..i], base), DigitValue(a[i]), ReadDigits(b[..j], base), DigitValue(b[j]), base);
    if i > 0 && j > 0 {
      OneNumeral(a[..i], b[..j], ReadDigits(a[..i], base), base, large);
      assert a == a[..i] + [a[i]] && b == b[..j] + [b[j]];
    } else if i > 0 {
      LeadingDigit(a[..i], base, large);
    } else if j > 0 {
      LeadingDigit(b[..j], base, large);
    }
  }

  lemma SameLast(p: nat, x: nat, q: nat, y: nat, base: nat)
    requires x < base && y < base && p * base + x == q * base + y
    ensures p == q && x == y
  {
    if p < q {
      OneApart(p, q, base);
    } else if q < p {
      OneApart(q, p, base);
    }
  }

  lemma {:induction false} OneApart(p: nat, q: nat, base: nat)
    requires p < q
    ensures q * base >= p * base + base
    decreases q
  {
    if p + 1 < q { OneApart(p, q - 1, base); }
    assert q * base == (q - 1) * base + base;
  }

  lemma {:induction false} RadixIsNumeral(n: nat, base: nat, large: bool)
    requires IsBase(base)
    ensures Numeral(Radix(n, base, if large then Large else Small), n, base, large)
    ensures n > 0 ==> Radix(n, base, if large then Large else Small)[0] != '0'
  {
    hide DigitValue, Quotient, Remainder, ReadDigits, IsDigitOf;
    var table := if large then Large else Small;
    RadixReads(n, base, table);
    if n < base {
      TableDigit(n, base, large);
    } else {
      var q, r := Quotient(n, base), Remainder(n, base);
      RadixIsNumeral(q, base, large);
      TableDigit(r, base, large);
    }
  }

  lemma TableDigit(d: nat, base: nat, large: bool)
    requires d < base <= 16
    ensures IsDigitOf(if large then Large[d] else Small[d], base, large)
    ensures d > 0 ==> (if large then Large[d] else Small[d]) != '0'
  {
    DigitValues(d);
    assert Small == LowerDigits && Large == UpperDigits;
    DigitValues(0);
  }

  lemma {:induction false} DecimalIsNumeral(n: nat)
    ensures Numeral(Decimal(n), n, 10, false)
    ensures n > 0 ==> Decimal(n)[0] != '0'
  {
    hide DigitValue, ReadDigits, IsDigitOf;
    DecimalReads(n);
    DigitIs(n % 10);
    if n >= 10 { DecimalIsNumeral(n / 10); }
  }

  lemma DigitIs(d: nat)
    requires d < 10
    ensures Digit(d) == Small[d] && IsDigitOf(Digit(d), 10, false) && (d > 0 ==> Digit(d) != '0')
  {
    assert Digit(d) == Small[d];
  }

  /** The ranges of the four types. */
  lemma RangeTable(value: int)
    ensures InRange(value, 32, true) <==> -2147483648 <= value <= 2147483647
    ensures InRange(value, 32, false) <==> 0 <= value <= 4294967295
    ensures InRange(value, 64, true) <==> -9223372036854775808 <= value <= 9223372036854775807
    ensures InRange(value, 64, false) <==> 0 <= value <= 18446744073709551615
  {
  }

  // ----- the whole text -----

  /** Fill cells before the sign, between mark and digits, and after the digits. */
  function Fills(spec: IntSpec, pad: nat): (r: (nat, nat, nat)) {
    match spec.align
    case Left => (0, 0, pad)
    case Center => (pad / 2, 0, pad - pad / 2)
    case Numeric => (0, pad, 0)
    case Right => (pad, 0, 0)
    case Default => (pad, 0, 0)
  }

  function Times(c: char, n: nat): (r: string) { seq(n, _ => c) }

  function LaidOut(value: int, digits: string, spec: IntSpec): (r: string) {
    var content := |Sign(value, spec)| + |Mark(spec)| + |digits|;
    var (a, b, c) := Fills(spec, if spec.width > content then spec.width - content else 0);
    Times(spec.fill, a) + Sign(value, spec) + Mark(spec) + Times(spec.fill, b) + digits + Times(spec.fill, c)
  }

  lemma PrefixIs(value: int, spec: IntSpec)
    requires KnownCode(spec.code)
    ensures Prefix(value, spec) == Sign(value, spec) + Mark(spec)
  {
  }

  lemma LayoutIs(value: int, digits: string, spec: IntSpec)
    requires KnownCode(spec.code)
    ensures IntText(Prefix(value, spec), digits, spec) == LaidOut(value, digits, spec)
  {
    hide Prefix, Sign, Mark, KnownCode, Before, After, Times;
    PrefixIs(value, spec);
    var s, m := Sign(value, spec), Mark(spec);
    var content := |s| + |m| + |digits|;
    var pad := if spec.width > content then spec.width - content else 0;
    var (a, b, c) := Fills(spec, pad);
    BeforeIs(s + m, |digits|, spec, pad);
    var x, y := Times(spec.fill, a), Times(spec.fill, b);
    assert x + (s + m) + y == x + s + m + y;
  }

  lemma BeforeIs(prefix: string, digits: nat, spec: IntSpec, pad: nat)
    requires pad == if spec.width > |prefix| + digits then spec.width - |prefix| - digits else 0
    ensures var (a, b, c) := Fills(spec, pad);
            && Before(prefix, digits, spec) == Times(spec.fill, a) + prefix + Times(spec.fill, b)
            && After(prefix, digits, spec) == Times(spec.fill, c)
  {
    hide Times, Repeat;
    assert Padding(spec, |prefix| + digits) == pad;
    RepeatIs(spec.fill, pad);
    RepeatIs(spec.fill, pad / 2);
    RepeatIs(spec.fill, pad - pad / 2);
    RepeatIs(spec.fill, 0);
    assert "" + prefix == prefix && prefix + "" == prefix;
  }

  lemma RepeatIs(c: char, n: nat)
    ensures Repeat(c, n) == Times(c, n) && |Times(c, n)| == n && Times(c, 0) == ""
  {
  }

  function Magnitude(value: int): (r: nat) { if value < 0 then -value else value }

  /** The digits of a written integer: its one numeral, with the separator between groups of
      three for code 'n'. */
  ghost predicate DigitsOf(value: int, spec: IntSpec, sep: string, digits: string) {
    var n := Magnitude(value);
    match spec.code
    case 'x' => Numeral(digits, n, 16, false)
    case 'X' => Numeral(digits, n, 16, true)
    case 'b' => Numeral(digits, n, 2, false)
    case 'B' => Numeral(digits, n, 2, false)
    case 'o' => Numeral(digits, n, 8, false)
    case 'n' => Numeral(Unspread(digits, |sep|), n, 10, false) && digits == Spread(Unspread(digits, |sep|), sep)
    case _ => Numeral(digits, n, 10, false)
  }

  lemma DigitsAre(value: int, bits: nat, signed: bool, spec: IntSpec, sep: string)
    requires InRange(value, bits, signed) && KnownCode(spec.code)
    ensures DigitsOf(value, spec, sep, DigitText(AbsValue(value, bits), spec.code, sep))
  {
    hide Numeral, Radix, Grouped, Decimal, Spread, Unspread, AbsValue;
    AbsValueExact(value, bits, signed);
    var n := AbsValue(value, bits);
    assert Small == LowerDigits && Large == UpperDigits;
    if RadixCode(spec.code) {
      RadixIsNumeral(n, Base(spec.code), spec.code == 'X');
    } else {
      GroupedIsSpread(n, sep, 0);
      GroupedPlain(n, 0);
      DecimalNonempty(n);
      UnspreadSpread(Decimal(n), sep);
      DecimalIsNumeral(n);
    }
  }

  /** For every value of a 32- or 64-bit type and every specification, the text written is
      fill, sign, mark, fill, numeral and fill. */
  lemma IntTextMeans(value: int, bits: nat, signed: bool, spec: IntSpec, sep: string)
    requires InRange(value, bits, signed) && KnownCode(spec.code)
    ensures var digits := DigitText(AbsValue(value, bits), spec.code, sep);
            && DigitsOf(value, spec, sep, digits)
            && IntText(Prefix(value, spec), digits, spec) == LaidOut(value, digits, spec)
  {
    hide DigitText, AbsValue, IntText, LaidOut, DigitsOf, KnownCode;
    DigitsAre(value, bits, signed, spec, sep);
    LayoutIs(value, DigitText(AbsValue(value, bits), spec.code, sep), spec);
  }
}
