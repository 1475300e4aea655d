/**
 Reading integer output back: the digit run of the padded text is the absolute value in
 its radix, and the prefix carries the sign.
 */
module FmtIntRead {
  import opened FmtDecimal
  import opened FmtInt

  function DigitValue(c: char): (r: nat) {
    if '0' <= c <= '9' then (c - '0') as nat
    else if 'a' <= c <= 'f' then 10 + (c - 'a') as nat
    else if 'A' <= c <= 'F' then 10 + (c - 'A') as nat
    else 0
  }

  function ReadDigits(s: string, base: nat): (r: nat) {
    if s == "" then 0 else ReadDigits(s[..|s| - 1], base) * base + DigitValue(s[|s| - 1])
  }

  lemma ReadSnoc(s: string, c: char, base: nat)
    ensures ReadDigits(s + [c], base) == ReadDigits(s, base) * base + DigitValue(c)
  {
    assert (s + [c])[..|s|] == s;
  }

  lemma DigitValues(d: nat)
    requires d < 16
    ensures DigitValue(LowerDigits[d]) == d && DigitValue(UpperDigits[d]) == d
    ensures d < 10 ==> DigitValue(Digit(d)) == d
  {
  }

  lemma {:induction false} RadixReads(n: nat, base: nat, digits: string)
    requires IsBase(base) && (digits == LowerDigits || digits == UpperDigits)
    ensures ReadDigits(Radix(n, base, digits), base) == n
  {
    hide DigitValue, Quotient, Remainder, ReadDigits;
    if n < base {
      DigitValues(n);
      ReadSnoc("", digits[n], base);
      ReadNothing(base);
      assert "" + [digits[n]] == [digits[n]];
    } else {
      var q, r := Quotient(n, base), Remainder(n, base);
      RadixReads(q, base, digits);
      QuotientRemainder(n, base);
      ReadSnoc(Radix(q, base, digits), digits[r], base);
      DigitValues(r);
    }
  }

  lemma ReadNothing(base: nat)
    ensures ReadDigits("", base) == 0
  {
  }

  lemma {:induction false} DecimalReads(n: nat)
    ensures ReadDigits(Decimal(n), 10) == n
  {
    hide DigitValue, ReadDigits, Digit;
    if n < 10 {
      DigitValues(n);
      ReadSnoc("", Digit(n), 10);
      ReadNothing(10);
      assert "" + [Digit(n)] == [Digit(n)];
    } else {
      DecimalReads(n / 10);
      ReadSnoc(Decimal(n / 10), Digit(n % 10), 10);
      DigitValues(n % 10);
    }
  }

  /** The digits alone, with the separators of code 'n' taken out. */
  function PlainDigits(digits: string, code: char, sep: string): (r: string) {
    if code == 'n' then Unspread(digits, |sep|) else digits
  }

  lemma DigitTextReads(n: nat, code: char, sep: string)
    ensures DigitText(n, code, sep) != ""
    ensures ReadDigits(PlainDigits(DigitText(n, code, sep), code, sep), Base(code)) == n
  {
    hide ReadDigits, Radix, Grouped, Spread, Unspread, Decimal, UpperDigits, LowerDigits;
    if RadixCode(code) {
      RadixReads(n, Base(code), if code == 'X' then UpperDigits else LowerDigits);
    } else {
      GroupedIsSpread(n, sep, 0);
      GroupedPlain(n, 0);
      DecimalNonempty(n);
      SpreadNonempty(Decimal(n), sep);
      UnspreadSpread(Decimal(n), sep);
      DecimalReads(n);
    }
  }

  /** Padded integer output, for every value of the type and every specification: the
      text is as long as the width or its content asks, and its digit run and sign give
      the value back. */
  lemma PaddedIntReadsBack(value: int, bits: nat, signed: bool, spec: IntSpec, sep: string)
    requires InRange(value, bits, signed) && KnownCode(spec.code)
    ensures var prefix, digits := Prefix(value, spec), DigitText(AbsValue(value, bits), spec.code, sep);
            var text := IntText(prefix, digits, spec);
            var before := |Before(prefix, |digits|, spec)|;
            && |text| == (if spec.width > |prefix| + |digits| then spec.width else |prefix| + |digits|)
            && before + |digits| <= |text|
            && (value < 0 <==> prefix != "" && prefix[0] == '-')
            && ReadDigits(PlainDigits(text[before..before + |digits|], spec.code, sep), Base(spec.code)) ==
               (if value < 0 then -value else value)
  {
    hide ReadDigits, DigitText, Before, After, PlainDigits, AbsValue;
    AbsValueExact(value, bits, signed);
    var prefix, digits := Prefix(value, spec), DigitText(AbsValue(value, bits), spec.code, sep);
    DigitTextReads(AbsValue(value, bits), spec.code, sep);
    var text := IntText(prefix, digits, spec);
    var before := |Before(prefix, |digits|, spec)|;
    assert text[before..before + |digits|] == digits;
  }
}
