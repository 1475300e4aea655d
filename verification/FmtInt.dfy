/**
 fmt's integer output: sign and radix prefix, digits, padding and alignment, written
 into the growing buffer around a hole that the digits then fill backwards.
 */
module FmtInt {
  import opened FmtDigits
  import opened FmtDecimal
  import opened FmtBuffer

  datatype Align = Default | Left | Right | Center | Numeric

  /** A format specification without precision; code '\0' stands for none given. */
  datatype IntSpec = IntSpec(width: nat, fill: char, align: Align, sign: bool, plus: bool, hash: bool, code: char)

  function Repeat(c: char, n: nat): (r: string) { seq(n, _ => c) }

  // ----- what is to be written -----

  /** One more than the largest value of the unsigned type, uint32_t or uint64_t. */
  function Modulus(bits: nat): (r: int)
    requires bits == 32 || bits == 64
  {
    if bits == 32 then 0x1_0000_0000 else 0x1_0000_0000_0000_0000
  }

  /** static_cast to the unsigned type. */
  function Wrap(value: int, bits: nat): (r: nat)
    requires bits == 32 || bits == 64
  {
    if bits == 32 then value % 0x1_0000_0000 else value % 0x1_0000_0000_0000_0000
  }

  /** The unsigned negation of the cast value. */
  function AbsValue(value: int, bits: nat): (r: nat)
    requires bits == 32 || bits == 64
  {
    if value < 0 then Wrap(0 - Wrap(value, bits), bits) else Wrap(value, bits)
  }

  predicate InRange(value: int, bits: nat, signed: bool) {
    (bits == 32 || bits == 64) &&
    if signed then -(Modulus(bits) / 2) <= value < Modulus(bits) / 2 else 0 <= value < Modulus(bits)
  }

  /** That is the absolute value of every number of the type, the smallest included. */
  lemma AbsValueExact(value: int, bits: nat, signed: bool)
    requires InRange(value, bits, signed)
    ensures AbsValue(value, bits) == if value < 0 then -value else value
    ensures AbsValue(value, bits) < Modulus(bits)
  {
    hide Wrap;
    WrapExact(value, bits);
    if value < 0 { WrapExact(0 - (value + Modulus(bits)), bits); }
  }

  lemma WrapExact(value: int, bits: nat)
    requires bits == 32 || bits == 64
    requires -Modulus(bits) < value < Modulus(bits)
    ensures Wrap(value, bits) == if value < 0 then value + Modulus(bits) else value
  {
    if bits == 32 {
      assert value < 0 ==> value / 0x1_0000_0000 == -1;
    } else {
      assert value < 0 ==> value / 0x1_0000_0000_0000_0000 == -1;
    }
  }

  predicate KnownCode(code: char) { code in {'\0', 'd', 'x', 'X', 'b', 'B', 'o', 'n'} }

  function Prefix(value: int, spec: IntSpec): (r: string) {
    (if value < 0 then "-" else if spec.sign then (if spec.plus then "+" else " ") else "") +
    (if !spec.hash then ""
     else if spec.code in {'x', 'X', 'b', 'B'} then ['0', spec.code]
     else if spec.code == 'o' then "0"
     else "")
  }

  predicate RadixCode(code: char) { code in {'x', 'X', 'b', 'B', 'o'} }

  function Base(code: char): (r: nat) {
    if code == 'x' || code == 'X' then 16
    else if code == 'b' || code == 'B' then 2
    else if code == 'o' then 8
    else 10
  }

  function DigitText(n: nat, code: char, sep: string): (r: string) {
    if RadixCode(code) then Radix(n, Base(code), if code == 'X' then UpperDigits else LowerDigits)
    else Grouped(n, if code == 'n' then sep else "", 0)
  }

  function Padding(spec: IntSpec, size: nat): (r: nat) {
    if spec.width <= size then 0 else spec.width - size
  }

  /** What stands before the digits. */
  function Before(prefix: string, digits: nat, spec: IntSpec): (r: string) {
    var pad := Padding(spec, |prefix| + digits);
    match spec.align
    case Left => prefix
    case Center => Repeat(spec.fill, pad / 2) + prefix
    case Numeric => prefix + Repeat(spec.fill, pad)
    case _ => Repeat(spec.fill, pad) + prefix
  }

  /** What stands after them. */
  function After(prefix: string, digits: nat, spec: IntSpec): (r: string) {
    var pad := Padding(spec, |prefix| + digits);
    match spec.align
    case Left => Repeat(spec.fill, pad)
    case Center => Repeat(spec.fill, pad - pad / 2)
    case _ => ""
  }

  function IntText(prefix: string, digits: string, spec: IntSpec): (r: string)
    ensures |r| == if spec.width > |prefix| + |digits| then spec.width else |prefix| + |digits|
  {
    Before(prefix, |digits|, spec) + digits + After(prefix, |digits|, spec)
  }

  // ----- cells -----

  /** `t` with the cells from `lo` on replaced by `s`. */
  function Splice(t: string, lo: nat, s: string): (r: string)
    requires lo + |s| <= |t|
    ensures |r| == |t|
  {
    t[..lo] + s + t[lo + |s|..]
  }

  method FillCells(a: array<char>, lo: nat, n: nat, c: char)
    requires lo + n <= a.Length
    modifies a
    ensures a[..] == Splice(old(a[..]), lo, Repeat(c, n))
  {
    ghost var t := a[..];
    for i := 0 to n
      invariant a[..] == t[..lo] + Repeat(c, i) + t[lo + i..]
    {
      RepeatMore(t, lo, i, c);
      a[lo + i] := c;
    }
  }

  lemma RepeatMore(t: string, lo: nat, i: nat, c: char)
    requires lo + i < |t|
    ensures (t[..lo] + Repeat(c, i) + t[lo + i..])[lo + i := c] == t[..lo] + Repeat(c, i + 1) + t[lo + i + 1..]
  {
  }

  method CopyCells(a: array<char>, lo: nat, s: string)
    requires lo + |s| <= a.Length
    modifies a
    ensures a[..] == Splice(old(a[..]), lo, s)
  {
    ghost var t := a[..];
    for i := 0 to |s|
      invariant a[..] == t[..lo] + s[..i] + t[lo + i..]
    {
      CopyMore(t, lo, i, s);
      a[lo + i] := s[i];
    }
    assert s[..|s|] == s;
  }

  lemma CopyMore(t: string, lo: nat, i: nat, s: string)
    requires i < |s| && lo + i < |t|
    ensures (t[..lo] + s[..i] + t[lo + i..])[lo + i := s[i]] == t[..lo] + s[..i + 1] + t[lo + i + 1..]
  {
  }

  /** do ++n; while ((value >>= k) != 0) */
  method CountRadix(value: nat, base: nat, ghost digits: string) returns (count: nat)
    requires IsBase(base) && |digits| == 16
    ensures count == |Radix(value, base, digits)|
  {
    var n := value;
    count := 1;
    while Quotient(n, base) != 0
      invariant |Radix(value, base, digits)| == count - 1 + |Radix(n, base, digits)|
      decreases n
    {
      n := Quotient(n, base);
      count := count + 1;
    }
  }

  /** Moving the last digit of what is left over to what is written. */
  lemma RadixStep(n: nat, base: nat, digits: string, written: string)
    requires IsBase(base) && |digits| == 16
    ensures var q, c := Quotient(n, base), [digits[Remainder(n, base)]];
            Radix(n, base, digits) + written ==
            if q == 0 then c + written else Radix(q, base, digits) + (c + written)
    ensures Quotient(n, base) == 0 <==> |Radix(n, base, digits)| == 1
  {
    hide Quotient, Remainder;
    if n >= base {
      var q, c := Radix(Quotient(n, base), base, digits), [digits[Remainder(n, base)]];
      assert (q + c) + written == q + (c + written);
    }
  }

  /** do *p-- = digits[n & mask]; while ((n >>= k) != 0), the digits ending at `end`. */
  method WriteRadix(a: array<char>, end: nat, value: nat, base: nat, digits: string)
    requires IsBase(base) && |digits| == 16
    requires |Radix(value, base, digits)| <= end <= a.Length
    modifies a
    ensures Framed(a, old(a[..]), end - |Radix(value, base, digits)|, end, Radix(value, base, digits))
  {
    hide Radix, Quotient, Remainder, Framed;
    var n, p := value, end;
    ghost var before, written := a[..], "";
    NothingWritten(a, end);
    assert Radix(value, base, digits) + "" == Radix(value, base, digits);
    RadixStep(n, base, digits, written);
    while Quotient(n, base) != 0
      invariant Radix(value, base, digits) == Radix(n, base, digits) + written
      invariant |Radix(n, base, digits)| <= p == end - |written|
      invariant Framed(a, before, p, end, written)
      decreases n
    {
      RadixStep(n, base, digits, written);
      p := PutBefore(a, p, [digits[Remainder(n, base)]], before, end, written);
      written := [digits[Remainder(n, base)]] + written;
      n := Quotient(n, base);
    }
    RadixStep(n, base, digits, written);
    p := PutBefore(a, p, [digits[Remainder(n, base)]], before, end, written);
  }

  // ----- the output -----

  /** grow_buffer: makes room for `n` more cells and returns where they start. */
  method GrowBuffer(buffer: MemoryBuffer<char>, n: nat) returns (start: nat)
    requires buffer.Valid()
    modifies buffer
    ensures buffer.Valid() && (buffer.data == old(buffer.data) || fresh(buffer.data))
    ensures start == old(buffer.size) && buffer.size == start + n
    ensures buffer.data[..start] == old(buffer.Contents())
  {
    start := buffer.size;
    buffer.ResizeTo(start + n);
    assert buffer.data[..start] == buffer.Contents()[..start];
  }

  function TotalSize(prefix: string, digits: nat, spec: IntSpec): (r: nat)
    ensures r == |Before(prefix, digits, spec)| + digits + |After(prefix, digits, spec)|
  {
    if spec.width <= |prefix| + digits then |prefix| + digits else spec.width
  }

  /** The cells `t` once prefix and padding stand around the digits' cells at `start`. */
  function Laid(t: string, start: nat, prefix: string, digits: nat, spec: IntSpec): (r: string)
    requires start + TotalSize(prefix, digits, spec) <= |t|
  {
    var hole := start + |Before(prefix, digits, spec)|;
    t[..start] + Before(prefix, digits, spec) + t[hole..hole + digits] + After(prefix, digits, spec)
    + t[start + TotalSize(prefix, digits, spec)..]
  }

  /** fill_padding: fills both sides of the content and returns where it starts. */
  method FillPadding(a: array<char>, start: nat, total: nat, size: nat, fill: char) returns (content: nat)
    requires size <= total && start + total <= a.Length
    modifies a
    ensures content == start + (total - size) / 2
    ensures var left, right := (total - size) / 2, total - size - (total - size) / 2;
            a[..] == Splice(Splice(old(a[..]), start, Repeat(fill, left)), content + size, Repeat(fill, right))
  {
    hide Splice, Repeat;
    var padding := total - size;
    content := start + padding / 2;
    FillCells(a, start, padding / 2, fill);
    FillCells(a, content + size, padding - padding / 2, fill);
  }

  // The writes of each branch of prepare_int_buffer leave the cells laid out.

  /** Two writes side by side, in either order. */
  lemma TwoSplices(t: string, a: nat, x: string, b: nat, y: string)
    requires a + |x| <= b && b + |y| <= |t|
    ensures Splice(Splice(t, a, x), b, y) == t[..a] + x + t[a + |x|..b] + y + t[b + |y|..]
    ensures Splice(Splice(t, b, y), a, x) == t[..a] + x + t[a + |x|..b] + y + t[b + |y|..]
  {
    assert Splice(t, a, x)[..b] == t[..a] + x + t[a + |x|..b];
    assert Splice(t, a, x)[b + |y|..] == t[b + |y|..];
    assert Splice(t, b, y)[..a] == t[..a];
    assert Splice(t, b, y)[a + |x|..] == t[a + |x|..b] + y + t[b + |y|..];
    RegroupFive(t[..a], x, t[a + |x|..b], y, t[b + |y|..]);
  }

  lemma RegroupFive(a: string, b: string, c: string, d: string, e: string)
    ensures a + b + (c + d + e) == a + b + c + d + e
  {
  }

  /** A write at the start of a middle part. */
  lemma MiddleSplice(a: string, b: string, m: string, p: string, c: string, d: string)
    requires |p| <= |m|
    ensures Splice(a + b + m + c + d, |a| + |b|, p) == a + (b + p) + m[|p|..] + c + d
  {
    var t := a + b + m + c + d;
    assert t[..|a| + |b|] == a + b;
    assert t[|a| + |b| + |p|..] == m[|p|..] + c + d;
    RegroupFive(a + b, p, m[|p|..], c, d);
    assert a + b + p == a + (b + p);
  }

  lemma LaidTight(t: string, start: nat, prefix: string, digits: nat, spec: IntSpec)
    requires start + TotalSize(prefix, digits, spec) <= |t| && spec.width <= |prefix| + digits
    ensures |Before(prefix, digits, spec)| == |prefix|
    ensures Splice(t, start, prefix) == Laid(t, start, prefix, digits, spec)
  {
    assert Before(prefix, digits, spec) == prefix && After(prefix, digits, spec) == "";
  }

  lemma LaidLeft(t: string, start: nat, prefix: string, digits: nat, spec: IntSpec)
    requires start + TotalSize(prefix, digits, spec) <= |t| && spec.width > |prefix| + digits && spec.align == Left
    ensures |Before(prefix, digits, spec)| == |prefix|
    ensures Splice(Splice(t, start, prefix), start + |prefix| + digits,
                   Repeat(spec.fill, spec.width - |prefix| - digits)) == Laid(t, start, prefix, digits, spec)
  {
    hide Splice;
    TwoSplices(t, start, prefix, start + |prefix| + digits, Repeat(spec.fill, spec.width - |prefix| - digits));
  }

  lemma LaidCenter(t: string, start: nat, prefix: string, digits: nat, spec: IntSpec)
    requires start + TotalSize(prefix, digits, spec) <= |t| && spec.width > |prefix| + digits && spec.align == Center
    ensures var pad := spec.width - |prefix| - digits;
            var content := start + pad / 2;
            && |Before(prefix, digits, spec)| == pad / 2 + |prefix|
            && Splice(Splice(Splice(t, start, Repeat(spec.fill, pad / 2)), content + |prefix| + digits,
                             Repeat(spec.fill, pad - pad / 2)), content, prefix) ==
               Laid(t, start, prefix, digits, spec)
  {
    hide Splice;
    var pad := spec.width - |prefix| - digits;
    var content := start + pad / 2;
    var left, right := Repeat(spec.fill, pad / 2), Repeat(spec.fill, pad - pad / 2);
    var middle := t[content..content + |prefix| + digits];
    TwoSplices(t, start, left, content + |prefix| + digits, right);
    MiddleSplice(t[..start], left, middle, prefix, right, t[start + spec.width..]);
    assert middle[|prefix|..] == t[content + |prefix|..content + |prefix| + digits];
  }

  lemma LaidNumeric(t: string, start: nat, prefix: string, digits: nat, spec: IntSpec)
    requires start + TotalSize(prefix, digits, spec) <= |t| && spec.width > |prefix| + digits && spec.align == Numeric
    ensures |Before(prefix, digits, spec)| == spec.width - digits
    ensures Splice(Splice(t, start, prefix), start + |prefix|,
                   Repeat(spec.fill, spec.width - |prefix| - digits)) == Laid(t, start, prefix, digits, spec)
  {
    hide Splice;
    var fill := Repeat(spec.fill, spec.width - |prefix| - digits);
    TwoSplices(t, start, prefix, start + |prefix|, fill);
    NoGap(t, start, prefix, fill, start + |prefix|, start + spec.width - digits, start + spec.width);
  }

  lemma LaidRight(t: string, start: nat, prefix: string, digits: nat, spec: IntSpec)
    requires start + TotalSize(prefix, digits, spec) <= |t| && spec.width > |prefix| + digits
    requires spec.align == Right || spec.align == Default
    ensures |Before(prefix, digits, spec)| == spec.width - digits
    ensures Splice(Splice(t, start + spec.width - |prefix| - digits, prefix), start,
                   Repeat(spec.fill, spec.width - |prefix| - digits)) == Laid(t, start, prefix, digits, spec)
  {
    hide Splice;
    var fill := Repeat(spec.fill, spec.width - |prefix| - digits);
    TwoSplices(t, start, fill, start + |fill|, prefix);
    NoGap(t, start, fill, prefix, start + |fill|, start + spec.width - digits, start + spec.width);
  }

  /** Two adjacent writes, and the digits' cells right after them. */
  lemma NoGap(t: string, start: nat, x: string, y: string, gap: nat, hole: nat, end: nat)
    requires start <= gap <= hole <= end <= |t|
    ensures t[..start] + x + t[gap..gap] + y + t[hole..] ==
            t[..start] + (x + y) + t[hole..end] + "" + t[end..]
  {
    assert t[hole..] == t[hole..end] + t[end..];
  }

  method LayOut(a: array<char>, start: nat, digits: nat, spec: IntSpec, prefix: string) returns (last: int)
    requires start + TotalSize(prefix, digits, spec) <= a.Length
    modifies a
    ensures last + 1 == start + |Before(prefix, digits, spec)| + digits
    ensures a[..] == Laid(old(a[..]), start, prefix, digits, spec)
  {
    hide Before, After, Splice, Laid, Repeat;
    ghost var t := a[..];
    var size, end := |prefix| + digits, start + spec.width;
    if spec.width <= size {
      LaidTight(t, start, prefix, digits, spec);
      CopyCells(a, start, prefix);
      last := start + size - 1;
    } else {
      match spec.align
      case Left =>
        LaidLeft(t, start, prefix, digits, spec);
        CopyCells(a, start, prefix);
        FillCells(a, start + size, spec.width - size, spec.fill);
        last := start + size - 1;
      case Center =>
        LaidCenter(t, start, prefix, digits, spec);
        var content := FillPadding(a, start, spec.width, size, spec.fill);
        CopyCells(a, content, prefix);
        last := content + size - 1;
      case Numeric =>
        LaidNumeric(t, start, prefix, digits, spec);
        CopyCells(a, start, prefix);
        FillCells(a, start + |prefix|, spec.width - size, spec.fill);
        last := end - 1;
      case _ =>
        LaidRight(t, start, prefix, digits, spec);
        CopyCells(a, end - size, prefix);
        FillCells(a, start, spec.width - size, spec.fill);
        last := end - 1;
    }
  }

  /** prepare_int_buffer without precision: grows the buffer, lays out prefix and padding
      and returns the cell of the last digit. */
  method PrepareIntBuffer(buffer: MemoryBuffer<char>, digits: nat, spec: IntSpec, prefix: string) returns (last: nat)
    requires buffer.Valid() && digits > 0
    modifies buffer, buffer.data
    ensures buffer.Valid() && (buffer.data == old(buffer.data) || fresh(buffer.data))
    ensures digits <= last + 1 && buffer.size == last + 1 + |After(prefix, digits, spec)|
    ensures buffer.data[..last + 1 - digits] == old(buffer.Contents()) + Before(prefix, digits, spec)
    ensures buffer.data[last + 1..buffer.size] == After(prefix, digits, spec)
  {
    hide Before, After, Laid;
    var start := GrowBuffer(buffer, TotalSize(prefix, digits, spec));
    ghost var t := buffer.data[..];
    last := LayOut(buffer.data, start, digits, spec, prefix);
    LaidSlices(t, start, prefix, digits, spec, buffer.data[..], old(buffer.Contents()));
  }

  lemma LaidSlices(t: string, start: nat, prefix: string, digits: nat, spec: IntSpec, cells: string, front: string)
    requires start + TotalSize(prefix, digits, spec) <= |t| && t[..start] == front
    requires cells == Laid(t, start, prefix, digits, spec)
    ensures var hole, end := start + |Before(prefix, digits, spec)|, start + TotalSize(prefix, digits, spec);
            && |cells| == |t|
            && cells[..hole] == front + Before(prefix, digits, spec)
            && cells[hole + digits..end] == After(prefix, digits, spec)
  {
    hide Before, After;
  }

  /** Filling the hole completes the text. */
  lemma HoleFilled(cells: string, size: nat, hole: nat, before: string, digits: string, after: string,
                   a: array<char>)
    requires hole + |digits| + |after| == size <= |cells|
    requires cells[..hole] == before && cells[hole + |digits|..size] == after
    requires Framed(a, cells, hole, hole + |digits|, digits)
    ensures a.Length == |cells| && a[..size] == before + digits + after
  {
    assert a.Length == |a[..]|;
    var s := cells[..hole] + digits + cells[hole + |digits|..];
    assert a[..size] == s[..size];
  }

  lemma Regroup(a: string, b: string, c: string, d: string)
    ensures a + b + c + d == a + (b + c + d)
  {
  }

  /** Counts and writes the digits of a power-of-two radix into a prepared hole. */
  method PutRadix(buffer: MemoryBuffer<char>, n: nat, base: nat, digits: string, spec: IntSpec, prefix: string)
    requires buffer.Valid() && IsBase(base) && |digits| == 16
    modifies buffer, buffer.data
    ensures buffer.Valid() && (buffer.data == old(buffer.data) || fresh(buffer.data))
    ensures buffer.Contents() == old(buffer.Contents()) + IntText(prefix, Radix(n, base, digits), spec)
  {
    hide Before, After, Radix, Framed;
    var count := CountRadix(n, base, digits);
    var last := PrepareIntBuffer(buffer, count, spec, prefix);
    ghost var cells, text := buffer.data[..], Radix(n, base, digits);
    ghost var before, after := Before(prefix, count, spec), After(prefix, count, spec);
    WriteRadix(buffer.data, last + 1, n, base, digits);
    HoleFilled(cells, buffer.size, last + 1 - count, old(buffer.Contents()) + before, text, after, buffer.data);
    Regroup(old(buffer.Contents()), before, text, after);
  }

  /** The same for decimal digits, with or without separators. */
  method PutDecimal(buffer: MemoryBuffer<char>, n: nat, count: nat, sep: string, spec: IntSpec, prefix: string)
    requires buffer.Valid() && count == |Grouped(n, sep, 0)| > 0
    modifies buffer, buffer.data
    ensures buffer.Valid() && (buffer.data == old(buffer.data) || fresh(buffer.data))
    ensures buffer.Contents() == old(buffer.Contents()) + IntText(prefix, Grouped(n, sep, 0), spec)
  {
    hide Before, After, Grouped, Framed;
    var last := PrepareIntBuffer(buffer, count, spec, prefix);
    ghost var cells, text := buffer.data[..], Grouped(n, sep, 0);
    ghost var before, after := Before(prefix, count, spec), After(prefix, count, spec);
    FormatDecimal(buffer.data, last + 1, n, sep);
    HoleFilled(cells, buffer.size, last + 1 - count, old(buffer.Contents()) + before, text, after, buffer.data);
    Regroup(old(buffer.Contents()), before, text, after);
  }

  /** The decimal digit count of the clz version for the given word size. */
  function CountFor(n: nat, bits: nat): (r: nat)
    requires bits == 32 || bits == 64
    requires n < Modulus(bits)
    ensures r == NumDigits(n) <= 20
  {
    TwoPowers();
    if bits == 32 then
      CountDigits32Exact(n); CountDigits(n, Powers32)
    else
      CountDigits64Exact(n); CountDigits(n, Powers64)
  }

  lemma GroupedLength(n: nat, sep: string)
    ensures |Grouped(n, sep, 0)| == NumDigits(n) + |sep| * ((NumDigits(n) - 1) / 3)
    ensures |Grouped(n, "", 0)| == NumDigits(n) >= 1
  {
    hide Grouped, Spread, Decimal;
    GroupedIsSpread(n, sep, 0);
    GroupedPlain(n, 0);
    DecimalLength(n);
    DecimalNonempty(n);
    SpreadLength(Decimal(n), sep);
  }

  /** The sign and the radix prefix, collected in a small array. */
  method BuildPrefix(value: int, spec: IntSpec) returns (prefix: string)
    ensures prefix == Prefix(value, spec)
  {
    prefix := "";
    if value < 0 {
      prefix := "-";
    } else if spec.sign {
      prefix := if spec.plus then "+" else " ";
    }
    if spec.hash {
      if spec.code in {'x', 'X', 'b', 'B'} {
        prefix := prefix + ['0', spec.code];
      } else if spec.code == 'o' {
        prefix := prefix + "0";
      }
    }
  }

  /** write_int for every value of a 32- or 64-bit type; `sep` is the locale's thousands
      separator, short enough for the size to fit in 32 bits. An unknown code is an error. */
  method WriteInt(buffer: MemoryBuffer<char>, value: int, bits: nat, ghost signed: bool, spec: IntSpec, sep: string)
    returns (ok: bool)
    requires buffer.Valid() && InRange(value, bits, signed) && |sep| < 0x1000_0000
    modifies buffer, buffer.data
    ensures buffer.Valid() && (buffer.data == old(buffer.data) || fresh(buffer.data))
    ensures ok == KnownCode(spec.code)
    ensures buffer.Contents() ==
            if ok then old(buffer.Contents()) + IntText(Prefix(value, spec), DigitText(AbsValue(value, bits), spec.code, sep), spec)
            else old(buffer.Contents())
  {
    hide IntText, Grouped, Radix, NumDigits, AbsValue, Prefix, CountFor;
    AbsValueExact(value, bits, signed);
    var n := AbsValue(value, bits);
    var prefix := BuildPrefix(value, spec);
    ok := KnownCode(spec.code);
    if RadixCode(spec.code) {
      PutRadix(buffer, n, Base(spec.code), if spec.code == 'X' then UpperDigits else LowerDigits, spec, prefix);
    } else if ok {
      GroupedLength(n, sep);
      var digits := CountFor(n, bits);
      if spec.code == 'n' {
        PutDecimal(buffer, n, GroupedSize(digits, |sep|), sep, spec, prefix);
      } else {
        PutDecimal(buffer, n, digits, "", spec, prefix);
      }
    }
  }

  /** static_cast<unsigned>(num_digits + sep.size() * ((num_digits - 1) / 3)) */
  function GroupedSize(digits: nat, sepSize: nat): (r: nat)
    requires 1 <= digits <= 20 && sepSize < 0x1000_0000
    ensures r == digits + sepSize * ((digits - 1) / 3)
  {
    (digits + sepSize * ((digits - 1) / 3)) % 0x1_0000_0000
  }
}
