/**
 Writing digits. `format_decimal` fills its cells backwards, two digits at a time, and
 calls the separator functor after every digit but the last; the other radixes write one
 digit at a time.
 */
module FmtDecimal {
  import opened FmtDigits

  /** The i-th digit character, lower-case beyond nine. */
  const LowerDigits := "0123456789abcdef"
  const UpperDigits := "0123456789ABCDEF"

  function Digit(d: nat): (r: char)
    requires d < 10
  {
    '0' + d as char
  }

  // The two-digit table "00" to "99", ten entries a row.

  const Row0 := "00010203040506070809"
  const Row1 := "10111213141516171819"
  const Row2 := "20212223242526272829"
  const Row3 := "30313233343536373839"
  const Row4 := "40414243444546474849"
  const Row5 := "50515253545556575859"
  const Row6 := "60616263646566676869"
  const Row7 := "70717273747576777879"
  const Row8 := "80818283848586878889"
  const Row9 := "90919293949596979899"

  const Pairs: string := Row0 + Row1 + Row2 + Row3 + Row4 + Row5 + Row6 + Row7 + Row8 + Row9

  lemma Row0Digits(j: nat)
    requires j < 10
    ensures Row0[2 * j] == Digit(0) && Row0[2 * j + 1] == Digit(j)
  {
  }

  lemma Row1Digits(j: nat)
    requires j < 10
    ensures Row1[2 * j] == Digit(1) && Row1[2 * j + 1] == Digit(j)
  {
  }

  lemma Row2Digits(j: nat)
    requires j < 10
    ensures Row2[2 * j] == Digit(2) && Row2[2 * j + 1] == Digit(j)
  {
  }

  lemma Row3Digits(j: nat)
    requires j < 10
    ensures Row3[2 * j] == Digit(3) && Row3[2 * j + 1] == Digit(j)
  {
  }

  lemma Row4Digits(j: nat)
    requires j < 10
    ensures Row4[2 * j] == Digit(4) && Row4[2 * j + 1] == Digit(j)
  {
  }

  lemma Row5Digits(j: nat)
    requires j < 10
    ensures Row5[2 * j] == Digit(5) && Row5[2 * j + 1] == Digit(j)
  {
  }

  lemma Row6Digits(j: nat)
    requires j < 10
    ensures Row6[2 * j] == Digit(6) && Row6[2 * j + 1] == Digit(j)
  {
  }

  lemma Row7Digits(j: nat)
    requires j < 10
    ensures Row7[2 * j] == Digit(7) && Row7[2 * j + 1] == Digit(j)
  {
  }

  lemma Row8Digits(j: nat)
    requires j < 10
    ensures Row8[2 * j] == Digit(8) && Row8[2 * j + 1] == Digit(j)
  {
  }

  lemma Row9Digits(j: nat)
    requires j < 10
    ensures Row9[2 * j] == Digit(9) && Row9[2 * j + 1] == Digit(j)
  {
  }

  function Row(k: nat): (r: string)
    requires k < 10
    ensures |r| == 20
  {
    match k
    case 0 => Row0 case 1 => Row1 case 2 => Row2 case 3 => Row3 case 4 => Row4
    case 5 => Row5 case 6 => Row6 case 7 => Row7 case 8 => Row8 case _ => Row9
  }

  lemma RowDigits(k: nat, j: nat)
    requires k < 10 && j < 10
    ensures Row(k)[2 * j] == Digit(k) && Row(k)[2 * j + 1] == Digit(j)
  {
    hide Row0, Row1, Row2, Row3, Row4, Row5, Row6, Row7, Row8, Row9;
    match k
    case 0 => Row0Digits(j);
    case 1 => Row1Digits(j);
    case 2 => Row2Digits(j);
    case 3 => Row3Digits(j);
    case 4 => Row4Digits(j);
    case 5 => Row5Digits(j);
    case 6 => Row6Digits(j);
    case 7 => Row7Digits(j);
    case 8 => Row8Digits(j);
    case _ => Row9Digits(j);
  }

  lemma RowSizes()
    ensures |Row0| == |Row1| == |Row2| == |Row3| == |Row4| == 20
    ensures |Row5| == |Row6| == |Row7| == |Row8| == |Row9| == 20
  {
  }

  lemma PairsRow(k: nat)
    requires k < 10
    ensures |Pairs| == 200 && Pairs[20 * k..20 * k + 20] == Row(k)
  {
    hide Row0, Row1, Row2, Row3, Row4, Row5, Row6, Row7, Row8, Row9;
    RowSizes();
  }

  /** Entry i of the table is the two digits of i. */
  lemma PairDigits(i: nat)
    requires i < 100
    ensures |Pairs| == 200 && Pairs[2 * i] == Digit(i / 10) && Pairs[2 * i + 1] == Digit(i % 10)
  {
    hide Row, Pairs;
    var k, j := i / 10, i % 10;
    PairsRow(k);
    RowDigits(k, j);
    var row := Pairs[20 * k..20 * k + 20];
    assert row[2 * j] == Pairs[2 * i] && row[2 * j + 1] == Pairs[2 * i + 1];
  }

  predicate IsBase(base: nat) { base == 2 || base == 8 || base == 10 || base == 16 }

  /** n / base, that is n >> 1, n >> 3 or n >> 4 for the power-of-two radixes. */
  function Quotient(n: nat, base: nat): (r: nat)
    requires IsBase(base)
    ensures n >= base ==> 0 < r < n
    ensures n < base ==> r == 0
  {
    match base case 2 => n / 2 case 8 => n / 8 case 16 => n / 16 case _ => n / 10
  }

  /** n % base, that is n & 1, n & 7 or n & 0xf. */
  function Remainder(n: nat, base: nat): (r: nat)
    requires IsBase(base)
    ensures r < base
    ensures n < base ==> r == n
  {
    match base case 2 => n % 2 case 8 => n % 8 case 16 => n % 16 case _ => n % 10
  }

  lemma QuotientRemainder(n: nat, base: nat)
    requires IsBase(base)
    ensures n == Quotient(n, base) * base + Remainder(n, base)
  {
  }

  /** The text of `n` in a radix, most significant digit first. */
  function Radix(n: nat, base: nat, digits: string): (r: string)
    requires IsBase(base) && |digits| == 16
    ensures r != ""
  {
    if n < base then [digits[n]]
    else Radix(Quotient(n, base), base, digits) + [digits[Remainder(n, base)]]
  }

  function Decimal(n: nat): (r: string) {
    if n < 10 then [Digit(n)] else Decimal(n / 10) + [Digit(n % 10)]
  }

  /** The decimal text with `sep` put in after each third digit from the right that has
      a digit before it, `index` digits being already written. */
  function Grouped(n: nat, sep: string, index: nat): (r: string) {
    if n < 10 then [Digit(n)]
    else Grouped(n / 10, sep, index + 1) + (if (index + 1) % 3 == 0 then sep else "") + [Digit(n % 10)]
  }

  // ----- separators -----

  /** Reference: groups of three from the right, joined by `sep`. */
  function Spread(ds: string, sep: string): (r: string) {
    if |ds| <= 3 then ds else Spread(ds[..|ds| - 3], sep) + sep + ds[|ds| - 3..]
  }

  /** Takes the separators out again, by position. */
  function Unspread(s: string, width: nat): (r: string) {
    if |s| <= 3 + width then s
    else Unspread(s[..|s| - 3 - width], width) + s[|s| - 3..]
  }

  lemma {:induction false} DecimalLength(n: nat)
    ensures |Decimal(n)| == NumDigits(n)
  {
    if n >= 10 { DecimalLength(n / 10); }
  }

  lemma {:induction false} GroupedPlain(n: nat, index: nat)
    ensures Grouped(n, "", index) == Decimal(n)
  {
    if n >= 10 { GroupedPlain(n / 10, index + 1); }
  }

  lemma DecimalThree(n: nat)
    requires n >= 1000
    ensures Decimal(n) == Decimal(n / 1000) + [Digit(n / 100 % 10), Digit(n / 10 % 10), Digit(n % 10)]
  {
    assert n / 10 / 10 == n / 100 && n / 100 / 10 == n / 1000;
    var a := Decimal(n / 1000);
    assert Decimal(n / 100) == a + [Digit(n / 100 % 10)];
    assert Decimal(n / 10) == Decimal(n / 100) + [Digit(n / 10 % 10)];
  }

  lemma GroupedThree(n: nat, sep: string, index: nat)
    requires n >= 1000 && index % 3 == 0
    ensures Grouped(n, sep, index) ==
            Grouped(n / 1000, sep, index + 3) + sep + [Digit(n / 100 % 10), Digit(n / 10 % 10), Digit(n % 10)]
  {
    assert n / 10 / 10 == n / 100 && n / 100 / 10 == n / 1000;
    var a := Grouped(n / 1000, sep, index + 3) + sep;
    assert Grouped(n / 100, sep, index + 2) == a + [Digit(n / 100 % 10)];
    assert Grouped(n / 10, sep, index + 1) == Grouped(n / 100, sep, index + 2) + "" + [Digit(n / 10 % 10)];
  }

  lemma GroupedSmall(n: nat, sep: string, index: nat)
    requires n < 1000 && index % 3 == 0
    ensures Grouped(n, sep, index) == Decimal(n) && |Decimal(n)| <= 3
  {
    assert n / 10 / 10 == n / 100;
    assert Grouped(n / 100, sep, index + 2) == [Digit(n / 100)];
    if n >= 10 { assert Decimal(n / 10) + "" == Decimal(n / 10); }
  }

  /** What the backward writer puts out is the decimal text in groups of three. */
  lemma {:induction false} GroupedIsSpread(n: nat, sep: string, index: nat)
    requires index % 3 == 0
    ensures Grouped(n, sep, index) == Spread(Decimal(n), sep)
  {
    if n < 1000 {
      GroupedSmall(n, sep, index);
    } else {
      GroupedIsSpread(n / 1000, sep, index + 3);
      GroupedThree(n, sep, index);
      DecimalThree(n);
      hide Decimal, Grouped;
      var ds := Decimal(n);
      var last := [Digit(n / 100 % 10), Digit(n / 10 % 10), Digit(n % 10)];
      DecimalNonempty(n / 1000);
      assert ds[..|ds| - 3] == Decimal(n / 1000) && ds[|ds| - 3..] == last;
    }
  }

  lemma DecimalNonempty(n: nat)
    ensures Decimal(n) != ""
  {
  }

  lemma OneMoreGroup(digits: nat, sepSize: nat)
    requires digits > 3
    ensures sepSize * ((digits - 1) / 3) == sepSize * ((digits - 4) / 3) + sepSize
  {
    assert (digits - 1) / 3 == (digits - 4) / 3 + 1;
  }

  /** It fills exactly the cells that were counted for it. */
  lemma {:induction false} SpreadLength(ds: string, sep: string)
    requires ds != ""
    ensures |Spread(ds, sep)| == |ds| + |sep| * ((|ds| - 1) / 3)
  {
    if |ds| > 3 {
      SpreadLength(ds[..|ds| - 3], sep);
      OneMoreGroup(|ds|, |sep|);
    } else {
      assert (|ds| - 1) / 3 == 0;
    }
  }

  /** Taking the separators out leaves the plain decimal text. */
  lemma {:induction false} UnspreadSpread(ds: string, sep: string)
    requires ds != ""
    ensures Unspread(Spread(ds, sep), |sep|) == ds
  {
    if |ds| > 3 {
      var front, last := ds[..|ds| - 3], ds[|ds| - 3..];
      UnspreadSpread(front, sep);
      SpreadNonempty(front, sep);
      hide Spread;
      var s := Spread(front, sep) + sep + last;
      assert s[..|s| - 3 - |sep|] == Spread(front, sep) && s[|s| - 3..] == last;
      assert front + last == ds;
    }
  }

  lemma SpreadNonempty(ds: string, sep: string)
    requires ds != ""
    ensures Spread(ds, sep) != ""
  {
  }

  // ----- the writers -----

  /** Cells [p, end) hold `written`, and the others are as in `before`. */
  ghost predicate Framed(b: array<char>, before: string, p: nat, end: nat, written: string)
    reads b
  {
    p + |written| == end <= |before| && b[..] == before[..p] + written + before[end..]
  }

  /** Writes `s` in front of what is written. */
  method PutBefore(b: array<char>, p: nat, s: string, ghost before: string, ghost end: nat, ghost written: string)
    returns (p': nat)
    requires Framed(b, before, p, end, written) && |s| <= p
    modifies b
    ensures p' == p - |s| && Framed(b, before, p', end, s + written)
  {
    p' := p - |s|;
    for i := 0 to |s|
      invariant b[..] == before[..p'] + s[..i] + before[p' + i..p] + written + before[end..]
    {
      PutOne(before, p', i, p, end, s, written);
      b[p' + i] := s[i];
    }
    assert s[..|s|] == s && before[p..p] == "";
    assert before[..p'] + s + "" + written == before[..p'] + (s + written);
  }

  lemma PutOne(before: string, p': nat, i: nat, p: nat, end: nat, s: string, written: string)
    requires i < |s| && p' + |s| == p <= end <= |before|
    ensures var cells := before[..p'] + s[..i] + before[p' + i..p] + written + before[end..];
            |cells| > p' + i &&
            cells[p' + i := s[i]] == before[..p'] + s[..i + 1] + before[p' + i + 1..p] + written + before[end..]
  {
  }

  /** The separator text due after `index` digits. */
  function SepAt(index: nat, sep: string): (r: string) { if index % 3 == 0 then sep else "" }

  /** *--buffer = c; thousands_sep(buffer); */
  method EmitDigit(b: array<char>, p: nat, c: char, index: nat, sep: string,
                   ghost before: string, ghost end: nat, ghost written: string)
    returns (p': nat, index': nat)
    requires Framed(b, before, p, end, written) && 1 + |SepAt(index + 1, sep)| <= p
    modifies b
    ensures index' == index + 1 && p' == p - 1 - |SepAt(index', sep)|
    ensures Framed(b, before, p', end, SepAt(index', sep) + ([c] + written))
  {
    hide Framed;
    p' := PutBefore(b, p, [c], before, end, written);
    index' := index + 1;
    if index' % 3 != 0 {
      assert "" + ([c] + written) == [c] + written;
      return;
    }
    p' := PutBefore(b, p', sep, before, end, [c] + written);
  }

  /** What two emitted digits leave. */
  function PairText(n: nat, sep: string, index: nat): (r: string)
    requires n < 100
  {
    (SepAt(index + 2, sep) + [Digit(n / 10)]) + (SepAt(index + 1, sep) + [Digit(n % 10)])
  }

  lemma GroupedTwo(n: nat, sep: string, index: nat)
    requires n >= 100
    ensures Grouped(n, sep, index) == Grouped(n / 100, sep, index + 2) + PairText(n % 100, sep, index)
  {
    assert n / 10 / 10 == n / 100 && n % 100 / 10 == n / 10 % 10 && n % 100 % 10 == n % 10;
    var a := Grouped(n / 100, sep, index + 2) + (SepAt(index + 2, sep) + [Digit(n / 10 % 10)]);
    assert Grouped(n / 10, sep, index + 1) == a;
    assert Grouped(n, sep, index) == a + SepAt(index + 1, sep) + [Digit(n % 10)];
  }

  lemma GroupedLast(n: nat, sep: string, index: nat)
    requires n < 100
    ensures Grouped(n, sep, index) ==
            if n < 10 then [Digit(n)] else [Digit(n / 10)] + (SepAt(index + 1, sep) + [Digit(n % 10)])
  {
    if n >= 10 { assert Grouped(n / 10, sep, index + 1) == [Digit(n / 10)]; }
  }

  /** Two digits from the table, each followed by the separator functor. */
  method EmitPair(b: array<char>, p: nat, n: nat, index: nat, sep: string,
                  ghost before: string, ghost end: nat, ghost written: string)
    returns (p': nat, index': nat)
    requires n < 100 && Framed(b, before, p, end, written) && |PairText(n, sep, index)| <= p
    modifies b
    ensures index' == index + 2 && p' == p - |PairText(n, sep, index)|
    ensures Framed(b, before, p', end, PairText(n, sep, index) + written)
  {
    hide Framed, SepAt, Pairs;
    PairDigits(n);
    p', index' := EmitDigit(b, p, Pairs[n * 2 + 1], index, sep, before, end, written);
    ghost var low := SepAt(index', sep) + ([Digit(n % 10)] + written);
    p', index' := EmitDigit(b, p', Pairs[n * 2], index', sep, before, end, low);
    Regroup4(SepAt(index', sep), [Digit(n / 10)], SepAt(index + 1, sep), [Digit(n % 10)], written);
  }

  lemma Regroup4(a: string, b: string, c: string, d: string, e: string)
    ensures a + (b + (c + (d + e))) == ((a + b) + (c + d)) + e
  {
  }

  /** The leading one or two digits, which no separator follows. */
  method EmitLeading(b: array<char>, p: nat, n: nat, index: nat, sep: string,
                     ghost before: string, ghost end: nat, ghost written: string)
    returns (p': nat)
    requires n < 100 && Framed(b, before, p, end, written) && |Grouped(n, sep, index)| <= p
    modifies b
    ensures p' == p - |Grouped(n, sep, index)| && Framed(b, before, p', end, Grouped(n, sep, index) + written)
  {
    hide Framed, Grouped, SepAt, Pairs;
    GroupedLast(n, sep, index);
    if n < 10 {
      p' := PutBefore(b, p, [Digit(n)], before, end, written);
    } else {
      PairDigits(n);
      var index';
      p', index' := EmitDigit(b, p, Pairs[2 * n + 1], index, sep, before, end, written);
      ghost var low := SepAt(index', sep) + ([Digit(n % 10)] + written);
      p' := PutBefore(b, p', [Pairs[2 * n]], before, end, low);
      Regroup4("", [Digit(n / 10)], SepAt(index', sep), [Digit(n % 10)], written);
      assert "" + [Digit(n / 10)] == [Digit(n / 10)] && "" + ([Digit(n / 10)] + low) == [Digit(n / 10)] + low;
    }
  }

  /** format_decimal, filling the cells that end at `end` and no others. */
  method FormatDecimal(b: array<char>, end: nat, number: nat, sep: string)
    requires |Grouped(number, sep, 0)| <= end <= b.Length
    modifies b
    ensures Framed(b, old(b[..]), end - |Grouped(number, sep, 0)|, end, Grouped(number, sep, 0))
  {
    hide Grouped, PairText, Framed;
    var value, p, index := number, end, 0;
    ghost var before, written := b[..], "";
    NothingWritten(b, end);
    assert Grouped(number, sep, 0) + "" == Grouped(number, sep, 0);
    while value >= 100
      invariant |Grouped(value, sep, index)| <= p
      invariant Grouped(number, sep, 0) == Grouped(value, sep, index) + written
      invariant Framed(b, before, p, end, written) && p == end - |written|
      decreases value
    {
      GroupedTwo(value, sep, index);
      ghost var pair := PairText(value % 100, sep, index);
      p, index := EmitPair(b, p, value % 100, index, sep, before, end, written);
      value := value / 100;
      assert Grouped(value, sep, index) + pair + written == Grouped(value, sep, index) + (pair + written);
      written := pair + written;
    }
    p := EmitLeading(b, p, value, index, sep, before, end, written);
  }

  lemma NothingWritten(b: array<char>, end: nat)
    requires end <= b.Length
    ensures Framed(b, b[..], end, end, "")
  {
  }
}
