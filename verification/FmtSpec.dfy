/**
 Format specifications of integer fields: what follows ':' is parsed into the
 specification that the integer writer takes, the width perhaps from a further argument.
 */
module FmtSpec {
  import opened FmtBuffer
  import opened FmtDecimal
  import opened FmtInt
  import opened FmtTemplate

  datatype RawArg = RawArg(value: int, bits: nat, signed: bool)

  /** An argument of one of the four integer types. */
  type IntArg = a: RawArg | InRange(a.value, a.bits, a.signed) witness RawArg(0, 32, true)

  /** What the integer writer appends for an argument. */
  function IntOutput(a: IntArg, spec: IntSpec, sep: string): (r: string) {
    IntText(Prefix(a.value, spec), DigitText(AbsValue(a.value, a.bits), spec.code, sep), spec)
  }

  /** Writing the argument into the growing buffer. */
  method WriteArgument(buffer: MemoryBuffer<char>, a: IntArg, spec: IntSpec, sep: string) returns (ok: bool)
    requires buffer.Valid() && |sep| < 0x1000_0000
    modifies buffer, buffer.data
    ensures buffer.Valid() && (buffer.data == old(buffer.data) || fresh(buffer.data))
    ensures ok == KnownCode(spec.code)
    ensures buffer.Contents() == old(buffer.Contents()) + (if ok then IntOutput(a, spec, sep) else "")
  {
    hide IntText, DigitText, AbsValue, Prefix;
    ok := WriteInt(buffer, a.value, a.bits, a.signed, spec, sep);
  }

  const DefaultSpec := IntSpec(0, ' ', Default, false, false, false, '\0')

  // ----- the parser, part by part -----

  function AlignOf(c: char): (r: Align) {
    if c == '<' then Left else if c == '>' then Right
    else if c == '=' then Numeric else if c == '^' then Center else Default
  }

  /** Fill and alignment: the second character is looked at first. Behind an empty
      specification it is one of the text after the field, which then sets an alignment. */
  function ParseAlign(s: string): (r: Result<(Align, char, string)>)
    ensures r.Ok? ==> |r.value.2| <= |s|
  {
    if |s| > 1 && AlignOf(s[1]) != Default then
      if s[0] == '}' then Ok((AlignOf(s[1]), ' ', s))
      else if s[0] == '{' then Fail(InvalidFill)
      else Ok((AlignOf(s[1]), s[0], s[2..]))
    else if s != "" && AlignOf(s[0]) != Default then Ok((AlignOf(s[0]), ' ', s[1..]))
    else Ok((Default, ' ', s))
  }

  /** The sign flags, which only a signed argument allows. */
  function ParseSign(s: string, signed: bool): (r: Result<(bool, bool, string)>)
    ensures r.Ok? ==> |r.value.2| <= |s|
  {
    if s == "" || s[0] !in {'+', '-', ' '} then Ok((false, false, s))
    else if !signed then Fail(SignedRequired)
    else Ok((s[0] != '-', s[0] == '+', s[1..]))
  }

  function ParseFlag(s: string, c: char): (r: (bool, string))
    ensures |r.1| <= |s|
  {
    if s != "" && s[0] == c then (true, s[1..]) else (false, s)
  }

  /** A number taken from an argument, for width or precision. */
  function FromArgument(a: IntArg, negative: Error): (r: Result<nat>) {
    if a.value < 0 then Fail(negative) else if a.value > MaxInt then Fail(NumberTooBig) else Ok(a.value)
  }

  function NestedNumber(args: Args<IntArg>, next: int, s: string, negative: Error): (r: Result<(nat, int, string)>)
    ensures r.Ok? ==> |r.value.2| <= |s|
  {
    match FieldArg(args, next, s)
    case Fail(e) => Fail(e)
    case Ok((a, n, rest)) =>
      if rest == "" || rest[0] != '}' then Fail(InvalidFormat)
      else match FromArgument(a, negative)
           case Fail(e) => Fail(e)
           case Ok(value) => Ok((value, n, rest[1..]))
  }

  function ParseWidth(args: Args<IntArg>, next: int, s: string): (r: Result<(nat, int, string)>)
    ensures r.Ok? ==> |r.value.2| <= |s|
  {
    if s != "" && IsDigit(s[0]) then
      match ParseInt(s) case Ok(n) => Ok((n, next, s[DigitRun(s)..])) case Fail(e) => Fail(e)
    else if s != "" && s[0] == '{' then NestedNumber(args, next, s[1..], NegativeWidth)
    else Ok((0, next, s))
  }

  /** A precision is parsed and then refused, so it always ends in some error. */
  function PrecisionError(args: Args<IntArg>, next: int, s: string): (r: Error) {
    if s != "" && IsDigit(s[0]) then
      match ParseInt(s) case Ok(_) => PrecisionNotAllowed case Fail(e) => e
    else if s != "" && s[0] == '{' then
      match NestedNumber(args, next, s[1..], NegativePrecision) case Ok(_) => PrecisionNotAllowed case Fail(e) => e
    else MissingPrecision
  }

  function ParseCode(s: string): (r: (char, string))
    ensures |r.1| <= |s|
  {
    if s != "" && s[0] != '}' then (s[0], s[1..]) else ('\0', s)
  }

  /** From the width on. */
  function ParseTail(args: Args<IntArg>, next: int, s: string, base: IntSpec): (r: Result<(IntSpec, int, string)>)
    ensures r.Ok? ==> |r.value.2| < |s|
  {
    match ParseWidth(args, next, s)
    case Fail(e) => Fail(e)
    case Ok((width, n, rest)) =>
      if rest != "" && rest[0] == '.' then Fail(PrecisionError(args, n, rest[1..]))
      else
        var (code, end) := ParseCode(rest);
        if end == "" || end[0] != '}' then Fail(MissingBrace)
        else Ok((base.(width := width, code := code), n, end[1..]))
  }

  /** The whole specification, from behind the ':' to behind the '}'. */
  function ParseSpec(args: Args<IntArg>, next: int, s: string, signed: bool): (r: Result<(IntSpec, int, string)>)
    ensures r.Ok? ==> |r.value.2| < |s|
  {
    match ParseAlign(s)
    case Fail(e) => Fail(e)
    case Ok((align, fill, s1)) =>
      match ParseSign(s1, signed)
      case Fail(e) => Fail(e)
      case Ok((sign, plus, s2)) =>
        var (hash, s3) := ParseFlag(s2, '#');
        var (zero, s4) := ParseFlag(s3, '0');
        ParseTail(args, next, s4,
                  if zero then IntSpec(0, '0', Numeric, sign, plus, hash, '\0')
                  else IntSpec(0, fill, align, sign, plus, hash, '\0'))
  }

  /** Arguments for looking up alone. */
  function Lookup(list: seq<IntArg>, names: map<string, IntArg>): (r: Args<IntArg>) {
    Args(list, names, (a: IntArg) => "", (a: IntArg, next: int, s: string) => Fail(BadSpec))
  }

  /** A field with a specification: parse it and write the argument. */
  function FormatSpec(list: seq<IntArg>, names: map<string, IntArg>, sep: string, a: IntArg, next: int, s: string)
    : (r: Result<(string, int, nat)>)
  {
    if s == "" then Fail(BadSpec)
    else
      match ParseSpec(Lookup(list, names), next, s[1..], a.signed)
      case Fail(e) => Fail(e)
      case Ok((spec, n, rest)) =>
        if KnownCode(spec.code) then Ok((IntOutput(a, spec, sep), n, |s| - |rest|)) else Fail(UnknownCode)
  }

  function IntArgs(list: seq<IntArg>, names: map<string, IntArg>, sep: string): (r: Args<IntArg>) {
    Args(list, names, (a: IntArg) => IntOutput(a, DefaultSpec, sep),
         (a: IntArg, next: int, s: string) => FormatSpec(list, names, sep, a, next, s))
  }

  // ----- how a specification can be spelled -----

  datatype AlignPart = NoAlign | Bare(align: Align) | Filled(fill: char, align: Align)

  datatype SignPart = NoSign | Plus | Minus | Space

  datatype Width = Fixed(digits: string) | Nested(field: Segment)

  datatype Spelling = Spelling(align: AlignPart, sign: SignPart, hash: bool, zero: bool, width: Width, code: char)

  /** What a spelling stands for, the width apart: the zero flag overrides fill and
      alignment, and '-' is read and forgotten. */
  function Meant(sp: Spelling): (r: IntSpec) {
    IntSpec(0,
            if sp.zero then '0' else if sp.align.Filled? then sp.align.fill else ' ',
            if sp.zero then Numeric else if sp.align.NoAlign? then Default else sp.align.align,
            sp.sign.Plus? || sp.sign.Space?, sp.sign.Plus?, sp.hash, sp.code)
  }

  function AlignChar(a: Align): (r: char)
    ensures a != Default ==> AlignOf(r) == a
  {
    match a case Left => '<' case Right => '>' case Numeric => '=' case Center => '^' case Default => ' '
  }

  function AlignText(a: AlignPart): (r: string) {
    match a
    case NoAlign => ""
    case Bare(align) => [AlignChar(align)]
    case Filled(fill, align) => [fill, AlignChar(align)]
  }

  function SignText(sign: SignPart): (r: string) {
    match sign case NoSign => "" case Plus => "+" case Minus => "-" case Space => " "
  }

  function FlagText(present: bool, c: char): (r: string) { if present then [c] else "" }

  function WidthText(w: Width): (r: string) {
    match w
    case Fixed(digits) => digits
    case Nested(field) => ['{'] + Inner(field) + ['}']
  }

  function CodeText(code: char): (r: string) { if code == '\0' then "" else [code] }

  function SpecText(sp: Spelling): (r: string) {
    AlignText(sp.align) +
    (SignText(sp.sign) + (FlagText(sp.hash, '#') + (FlagText(sp.zero, '0') + (WidthText(sp.width) + CodeText(sp.code)))))
  }

  /** A fill is no brace; a width that starts with '0' comes after a zero flag, for which
      that digit would be taken otherwise. */
  predicate Spellable(sp: Spelling) {
    && (!sp.align.NoAlign? ==> sp.align.align != Default)
    && (sp.align.Filled? ==> sp.align.fill != '{' && sp.align.fill != '}')
    && KnownCode(sp.code)
    && match sp.width
       case Fixed(digits) => AllDigits(digits) && ReadFrom(0, digits) <= MaxInt && (sp.zero || digits == "" || digits[0] != '0')
       case Nested(field) => !field.Literal? && (field.Named? ==> IsName(field.name))
  }

  // ----- each part reads back -----

  /** A text that starts with none of these cannot be taken for an earlier part. */
  predicate StartsCode(t: string) { t != "" && (t[0] == '}' || ('a' <= t[0] <= 'z') || ('A' <= t[0] <= 'Z')) }

  predicate StartsWidth(t: string) { StartsCode(t) || (t != "" && (t[0] == '{' || IsDigit(t[0]))) }

  predicate StartsHash(t: string) { StartsWidth(t) || (t != "" && t[0] == '#') }

  predicate StartsSign(t: string) { StartsHash(t) || (t != "" && t[0] in {'+', '-', ' '}) }

  lemma CodeReads(code: char, rest: string)
    requires KnownCode(code)
    ensures StartsCode(CodeText(code) + (['}'] + rest))
    ensures ParseCode(CodeText(code) + (['}'] + rest)) == (code, ['}'] + rest)
  {
    var t := CodeText(code) + (['}'] + rest);
    if code == '\0' {
      assert t == ['}'] + rest;
    } else {
      assert t[1..] == ['}'] + rest;
    }
  }

  lemma FixedReads(args: Args<IntArg>, next: int, digits: string, t: string)
    requires AllDigits(digits) && ReadFrom(0, digits) <= MaxInt && StartsCode(t)
    ensures StartsWidth(digits + t)
    ensures ParseWidth(args, next, digits + t) == Ok((ReadFrom(0, digits), next, t))
  {
    hide ReadFrom, DigitRun;
    RunOfDigits(digits, t);
    ReadConcat(0, digits, t);
    ReadStops(ReadFrom(0, digits), t);
    if digits == "" {
      assert digits + t == t;
      ReadStops(0, digits);
    } else {
      assert (digits + t)[|digits|..] == t;
    }
  }

  /** What a width from a field comes to. */
  function NestedWidth(args: Args<IntArg>, next: int, field: Segment): (r: Result<(nat, int)>)
    requires !field.Literal?
  {
    match FieldValue(args, next, field)
    case Fail(e) => Fail(e)
    case Ok((a, n)) => match FromArgument(a, NegativeWidth) case Ok(v) => Ok((v, n)) case Fail(e) => Fail(e)
  }

  lemma NestedReads(args: Args<IntArg>, next: int, field: Segment, t: string)
    requires !field.Literal? && (field.Named? ==> IsName(field.name))
    ensures StartsWidth(WidthText(Nested(field)) + t)
    ensures ParseWidth(args, next, WidthText(Nested(field)) + t) ==
            match NestedWidth(args, next, field)
            case Fail(e) => Fail(e)
            case Ok((v, n)) => Ok((v, n, t))
  {
    hide FieldArg, FieldValue, Inner;
    var inner, tail := Inner(field), ['}'] + t;
    var s := WidthText(Nested(field)) + t;
    FieldFormats(args, inner, field, tail, next);
    assert s == ['{'] + (inner + tail);
    assert s[1..] == inner + tail && tail[1..] == t;
  }

  /** The width part of any kind. */
  function WidthValue(args: Args<IntArg>, next: int, w: Width): (r: Result<(nat, int)>)
    requires w.Nested? ==> !w.field.Literal?
  {
    match w case Fixed(digits) => Ok((ReadFrom(0, digits), next)) case Nested(field) => NestedWidth(args, next, field)
  }

  /** What stands from the width on. */
  function WidthOn(sp: Spelling, rest: string): (r: string) {
    WidthText(sp.width) + (CodeText(sp.code) + (['}'] + rest))
  }

  /** From the width on, whatever was read before. */
  lemma TailReads(args: Args<IntArg>, next: int, sp: Spelling, base: IntSpec, rest: string)
    requires Spellable(sp)
    ensures StartsWidth(WidthOn(sp, rest))
    ensures ParseTail(args, next, WidthOn(sp, rest), base) ==
            match WidthValue(args, next, sp.width)
            case Fail(e) => Fail(e)
            case Ok((v, n)) => Ok((base.(width := v, code := sp.code), n, rest))
  {
    hide ParseWidth, NestedWidth, ParseCode, CodeText, PrecisionError, ReadFrom, AllDigits;
    var t := CodeText(sp.code) + (['}'] + rest);
    CodeReads(sp.code, rest);
    if sp.width.Fixed? {
      FixedReads(args, next, sp.width.digits, t);
    } else {
      NestedReads(args, next, sp.width.field, t);
    }
    assert (['}'] + rest)[1..] == rest;
  }

  lemma FlagReads(present: bool, c: char, t: string)
    requires present || (t != "" && t[0] != c)
    ensures ParseFlag(FlagText(present, c) + t, c) == (present, t)
  {
    if present {
      assert ([c] + t)[1..] == t;
    } else {
      assert "" + t == t;
    }
  }

  /** Without a zero flag the width does not start with '0'. */
  lemma WidthNotZero(sp: Spelling, rest: string)
    requires Spellable(sp) && !sp.zero
    ensures WidthOn(sp, rest) != "" && WidthOn(sp, rest)[0] != '0'
  {
    hide AllDigits, ReadFrom, Inner;
    CodeReads(sp.code, rest);
    if sp.width == Fixed("") {
      assert WidthOn(sp, rest) == CodeText(sp.code) + (['}'] + rest);
    }
  }

  /** What stands from the zero flag on. */
  function ZeroOn(sp: Spelling, rest: string): (r: string) { FlagText(sp.zero, '0') + WidthOn(sp, rest) }

  lemma ZeroReads(sp: Spelling, rest: string)
    requires Spellable(sp) && StartsWidth(WidthOn(sp, rest))
    ensures StartsWidth(ZeroOn(sp, rest))
    ensures ParseFlag(ZeroOn(sp, rest), '0') == (sp.zero, WidthOn(sp, rest))
  {
    hide WidthOn, Spellable;
    if !sp.zero {
      WidthNotZero(sp, rest);
      assert ZeroOn(sp, rest) == WidthOn(sp, rest);
    }
    FlagReads(sp.zero, '0', WidthOn(sp, rest));
  }

  lemma HashReads(hash: bool, t: string)
    requires StartsWidth(t)
    ensures StartsHash(FlagText(hash, '#') + t)
    ensures ParseFlag(FlagText(hash, '#') + t, '#') == (hash, t)
  {
    FlagReads(hash, '#', t);
    if !hash { assert FlagText(hash, '#') + t == t; }
  }

  lemma SignReads(sign: SignPart, signed: bool, t: string)
    requires StartsHash(t)
    ensures StartsSign(SignText(sign) + t)
    ensures ParseSign(SignText(sign) + t, signed) ==
            if !sign.NoSign? && !signed then Fail(SignedRequired)
            else Ok((sign.Plus? || sign.Space?, sign.Plus?, t))
  {
    if sign.NoSign? {
      assert SignText(sign) + t == t;
    } else {
      assert (SignText(sign) + t)[1..] == t;
    }
  }

  /** The alignment picked up: as spelled, but behind an empty specification the text after
      the field has its say. */
  function AlignSeen(a: AlignPart, t: string): (r: Align) {
    if !a.NoAlign? then a.align else if |t| > 1 && t[0] == '}' then AlignOf(t[1]) else Default
  }

  function FillSeen(a: AlignPart): (r: char) { if a.Filled? then a.fill else ' ' }

  /** Only the character after a '}' can be taken for an alignment. */
  predicate NoAlignSecond(t: string) { |t| > 1 && t[0] != '}' ==> AlignOf(t[1]) == Default }

  lemma AlignReads(a: AlignPart, t: string)
    requires StartsSign(t) && NoAlignSecond(t)
    requires !a.NoAlign? ==> a.align != Default
    requires a.Filled? ==> a.fill != '{' && a.fill != '}'
    ensures ParseAlign(AlignText(a) + t) == Ok((AlignSeen(a, t), FillSeen(a), t))
  {
    var s := AlignText(a) + t;
    match a
    case NoAlign => assert s == t;
    case Bare(align) => assert s[1] == t[0] && s[1..] == t;
    case Filled(fill, align) => assert s[2..] == t;
  }

  // ----- the second character of a specification without alignment -----

  lemma SecondOf(a: string, t: string)
    requires StartsSign(t) && |a| == 1 && AlignOf(a[0]) == Default
    ensures NoAlignSecond(a + t)
  {
    assert (a + t)[1] == t[0];
  }

  lemma SecondCode(code: char, rest: string)
    requires KnownCode(code)
    ensures NoAlignSecond(CodeText(code) + (['}'] + rest))
  {
    var t := ['}'] + rest;
    if code != '\0' { assert (CodeText(code) + t)[1] == '}'; } else { assert CodeText(code) + t == t; }
  }

  lemma SecondDigits(ds: string, t: string)
    requires AllDigits(ds) && ds != "" && StartsCode(t)
    ensures NoAlignSecond(ds + t)
  {
    if |ds| > 1 { assert (ds + t)[1] == ds[1]; } else { assert (ds + t)[1] == t[0]; }
  }

  lemma SecondNested(field: Segment, t: string)
    requires !field.Literal? && (field.Named? ==> IsName(field.name))
    ensures NoAlignSecond(WidthText(Nested(field)) + t)
  {
    hide Decimal;
    var inner := Inner(field);
    var s := WidthText(Nested(field)) + t;
    if field.Index? { DecimalDigits(field.index); }
    if inner == "" { assert s[1] == '}'; } else { assert s[1] == inner[0]; }
  }

  lemma SecondWidth(sp: Spelling, rest: string)
    requires Spellable(sp)
    ensures NoAlignSecond(WidthOn(sp, rest))
  {
    hide CodeText, NoAlignSecond, StartsCode, KnownCode, AllDigits, ReadFrom;
    var t := CodeText(sp.code) + (['}'] + rest);
    CodeReads(sp.code, rest);
    match sp.width
    case Nested(field) => SecondNested(field, t);
    case Fixed(digits) =>
      if digits == "" {
        SecondCode(sp.code, rest);
        assert WidthOn(sp, rest) == t;
      } else {
        SecondDigits(digits, t);
      }
  }

  lemma SecondFlag(present: bool, c: char, t: string)
    requires StartsSign(t) && NoAlignSecond(t) && AlignOf(c) == Default
    ensures NoAlignSecond(FlagText(present, c) + t)
  {
    if present { SecondOf([c], t); } else { assert FlagText(present, c) + t == t; }
  }

  lemma SecondSign(sign: SignPart, t: string)
    requires StartsHash(t) && NoAlignSecond(t)
    ensures NoAlignSecond(SignText(sign) + t)
  {
    if sign.NoSign? { assert SignText(sign) + t == t; } else { SecondOf(SignText(sign), t); }
  }

  // ----- the whole specification -----

  function HashOn(sp: Spelling, rest: string): (r: string) { FlagText(sp.hash, '#') + ZeroOn(sp, rest) }

  /** What follows the alignment of a spelled specification. */
  function SignOn(sp: Spelling, rest: string): (r: string) { SignText(sp.sign) + HashOn(sp, rest) }

  lemma SpelledIs(sp: Spelling, rest: string)
    ensures SpecText(sp) + (['}'] + rest) == AlignText(sp.align) + SignOn(sp, rest)
  {
    hide AlignText, SignText, FlagText, WidthText, CodeText;
    var a, b, c, d, e, f, t := AlignText(sp.align), SignText(sp.sign), FlagText(sp.hash, '#'), FlagText(sp.zero, '0'),
                               WidthText(sp.width), CodeText(sp.code), ['}'] + rest;
    Associate(e, f, t);
    Associate(d, e + f, t);
    Associate(c, d + (e + f), t);
    Associate(b, c + (d + (e + f)), t);
    Associate(a, b + (c + (d + (e + f))), t);
  }

  lemma Associate(a: string, b: string, t: string)
    ensures (a + b) + t == a + (b + t)
  {
  }

  /** What the parser makes of a spelling: its meaning, but for the alignment that may be
      picked up behind an empty one. */
  function Seen(sp: Spelling, rest: string): (r: IntSpec) {
    Meant(sp).(align := if sp.zero then Numeric else AlignSeen(sp.align, SignOn(sp, rest)))
  }

  /** Every spelling is read back, its width from wherever it comes, and the position counter
      moves on by what the width used. A sign of any kind is refused for an unsigned
      argument. */
  lemma SpecReadsBack(args: Args<IntArg>, next: int, sp: Spelling, rest: string, signed: bool)
    requires Spellable(sp)
    ensures ParseSpec(args, next, SpecText(sp) + (['}'] + rest), signed) ==
            if !sp.sign.NoSign? && !signed then Fail(SignedRequired)
            else
              match WidthValue(args, next, sp.width)
              case Fail(e) => Fail(e)
              case Ok((v, n)) => Ok((Seen(sp, rest).(width := v), n, rest))
  {
    hide AlignText, SignText, FlagText, WidthOn, ParseTail, ParseAlign, ParseSign, ParseFlag, WidthValue,
         StartsWidth, StartsHash, StartsSign, NoAlignSecond, SpecText, AlignSeen, KnownCode, AllDigits, ReadFrom;
    SpelledIs(sp, rest);
    TailReads(args, next, sp, Seen(sp, rest).(code := '\0'), rest);
    ZeroReads(sp, rest);
    HashReads(sp.hash, ZeroOn(sp, rest));
    SignReads(sp.sign, signed, HashOn(sp, rest));
    SecondSpec(sp, rest);
    AlignReads(sp.align, SignOn(sp, rest));
  }

  lemma SecondSpec(sp: Spelling, rest: string)
    requires Spellable(sp) && StartsWidth(WidthOn(sp, rest)) && StartsWidth(ZeroOn(sp, rest)) && StartsHash(HashOn(sp, rest))
    ensures NoAlignSecond(SignOn(sp, rest))
  {
    hide WidthOn, FlagText, SignText, NoAlignSecond, Spellable;
    SecondWidth(sp, rest);
    SecondFlag(sp.zero, '0', WidthOn(sp, rest));
    SecondFlag(sp.hash, '#', ZeroOn(sp, rest));
    SecondSign(sp.sign, HashOn(sp, rest));
  }

  // ----- fields with a specification -----

  lemma NoPaddingWithoutWidth(prefix: string, digits: string, spec: IntSpec, align: Align)
    requires spec.width == 0
    ensures IntText(prefix, digits, spec.(align := align)) == prefix + digits
  {
    var p := spec.(align := align);
    assert Padding(p, |prefix| + |digits|) == 0;
    assert Repeat(spec.fill, 0) == "";
    assert Before(prefix, |digits|, p) == prefix && After(prefix, |digits|, p) == "";
  }

  /** The alignment picked up behind an empty specification changes nothing: there is no
      width to pad to. */
  lemma AlignSeenHarmless(a: IntArg, sp: Spelling, rest: string, sep: string, v: nat)
    requires Spellable(sp) && (sp.width.Fixed? ==> v == ReadFrom(0, sp.width.digits))
    ensures IntOutput(a, Seen(sp, rest).(width := v), sep) == IntOutput(a, Meant(sp).(width := v), sep)
  {
    hide IntText, DigitText, AbsValue, KnownCode, AlignOf, SignOn, AllDigits;
    if Seen(sp, rest) != Meant(sp) {
      assert v == 0 by { if sp.width != Fixed("") { WidthComesFirst(sp, rest); } }
      var spec, align := Meant(sp).(width := v), Seen(sp, rest).align;
      var prefix, digits := Prefix(a.value, spec), DigitText(AbsValue(a.value, a.bits), spec.code, sep);
      NoPaddingWithoutWidth(prefix, digits, spec, align);
      NoPaddingWithoutWidth(prefix, digits, spec, spec.align);
    }
  }

  lemma WidthComesFirst(sp: Spelling, rest: string)
    requires Spellable(sp) && sp.width != Fixed("")
    ensures SignOn(sp, rest) != "" && SignOn(sp, rest)[0] != '}'
  {
    hide ReadFrom, Inner;
    var t := WidthOn(sp, rest);
    assert t[0] == WidthText(sp.width)[0];
    assert ZeroOn(sp, rest)[0] != '}';
    assert HashOn(sp, rest)[0] != '}';
  }

  // ----- templates with specifications -----

  datatype Part = Plain(seg: Segment) | Formatted(field: Segment, spec: Spelling)

  predicate WritablePart(p: Part) {
    match p
    case Plain(seg) => seg.Named? ==> IsName(seg.name)
    case Formatted(field, sp) =>
      !field.Literal? && (field.Named? ==> IsName(field.name)) && Spellable(sp)
  }

  predicate WritableParts(ps: seq<Part>) { forall i :: 0 <= i < |ps| ==> WritablePart(ps[i]) }

  function PartText(p: Part): (r: string) {
    match p
    case Plain(seg) => SegmentText(seg)
    case Formatted(field, sp) => ['{'] + (Inner(field) + ([':'] + (SpecText(sp) + ['}'])))
  }

  function PartsText(ps: seq<Part>): (r: string) {
    if ps == [] then "" else PartText(ps[0]) + PartsText(ps[1..])
  }

  /** What one part does: its text, or the error of the argument, of the sign or of the
      width, in this order. The width may take arguments of its own. */
  function PartMeaning(args: Args<IntArg>, sep: string, p: Part, st: State): (r: Result<State>)
    requires WritablePart(p)
  {
    match p
    case Plain(Literal(text)) => Ok(st.(out := st.out + text))
    case Plain(seg) =>
      (match FieldValue(args, st.next, seg)
       case Fail(e) => Fail(e)
       case Ok((a, n)) => Ok(State(n, st.out + IntOutput(a, DefaultSpec, sep))))
    case Formatted(field, sp) =>
      (match FieldValue(args, st.next, field)
       case Fail(e) => Fail(e)
       case Ok((a, n)) =>
         if !sp.sign.NoSign? && !a.signed then Fail(SignedRequired)
         else
           match WidthValue(args, n, sp.width)
           case Fail(e) => Fail(e)
           case Ok((v, n')) => Ok(State(n', st.out + IntOutput(a, Meant(sp).(width := v), sep))))
  }

  function PartsMeaning(args: Args<IntArg>, sep: string, ps: seq<Part>, st: State): (r: Result<State>)
    requires WritableParts(ps)
    decreases ps
  {
    if ps == [] then Ok(st)
    else match PartMeaning(args, sep, ps[0], st)
         case Fail(e) => Fail(e)
         case Ok(st') => PartsMeaning(args, sep, ps[1..], st')
  }

  /** Looking up needs the list and the names only. */
  lemma SameLookup(list: seq<IntArg>, names: map<string, IntArg>, sep: string, next: int, w: Width)
    requires w.Nested? ==> !w.field.Literal?
    ensures WidthValue(Lookup(list, names), next, w) == WidthValue(IntArgs(list, names, sep), next, w)
  {
  }

  /** Formatting goes on with the rest unless there was an error. */
  function GoOn(args: Args<IntArg>, rest: string, r: Result<State>): (q: Result<State>) {
    if r.Ok? then Format(args, rest, r.value) else r
  }

  /** The specification of a field, as the formatter takes it. */
  lemma SpecFormats(list: seq<IntArg>, names: map<string, IntArg>, sep: string, a: IntArg, next: int,
                    sp: Spelling, rest: string)
    requires Spellable(sp)
    ensures var args := IntArgs(list, names, sep);
            var tail := [':'] + (SpecText(sp) + (['}'] + rest));
            var v := WidthValue(args, next, sp.width);
            FormatArg(args, a, next, tail) ==
            if !sp.sign.NoSign? && !a.signed then Fail(SignedRequired)
            else if v.Fail? then Fail(v.error)
            else Ok((IntOutput(a, Meant(sp).(width := v.value.0), sep), v.value.1, |tail| - |rest|))
  {
    hide ParseSpec, IntOutput, SpecText, WidthValue, AlignSeen, SignOn, ReadFrom, AllDigits;
    var tail := [':'] + (SpecText(sp) + (['}'] + rest));
    assert tail[1..] == SpecText(sp) + (['}'] + rest);
    SpecReadsBack(Lookup(list, names), next, sp, rest, a.signed);
    SameLookup(list, names, sep, next, sp.width);
    var v := WidthValue(Lookup(list, names), next, sp.width);
    if v.Ok? {
      FixedIsItself(Lookup(list, names), next, sp.width);
      AlignSeenHarmless(a, sp, rest, sep, v.value.0);
    }
  }

  lemma FixedIsItself(args: Args<IntArg>, next: int, w: Width)
    requires w.Nested? ==> !w.field.Literal?
    ensures w.Fixed? ==> WidthValue(args, next, w) == Ok((ReadFrom(0, w.digits), next))
  {
  }

  /** A field that is no doubled brace: look up, format, go on. */
  lemma FieldRound(args: Args<IntArg>, inner: string, tail: string, rest: string, st: State,
                   a: Result<(IntArg, int)>, f: Result<(string, int, nat)>)
    requires (inner + tail) != "" && (inner + tail)[0] != '{'
    requires FieldArg(args, st.next, inner + tail) ==
             if a.Ok? then Ok((a.value.0, a.value.1, tail)) else Fail(a.error)
    requires a.Ok? ==> f == FormatArg(args, a.value.0, a.value.1, tail)
    requires a.Ok? && f.Ok? ==> tail[f.value.2..] == rest
    ensures Format(args, ['{'] + (inner + tail), st) ==
            if a.Fail? then Fail(a.error) else if f.Fail? then Fail(f.error)
            else Format(args, rest, State(f.value.1, st.out + f.value.0))
  {
    hide FieldArg, FormatArg;
    var t := ['{'] + (inner + tail);
    assert t[1..] == inner + tail;
  }

  lemma FormattedText(p: Part, rest: string)
    requires p.Formatted?
    ensures PartText(p) + rest ==
            ['{'] + (Inner(p.field) + ([':'] + (SpecText(p.spec) + (['}'] + rest))))
  {
    hide SpecText, Inner;
  }

  lemma FormattedStep(list: seq<IntArg>, names: map<string, IntArg>, sep: string, p: Part, rest: string, st: State)
    requires p.Formatted? && WritablePart(p)
    ensures var args := IntArgs(list, names, sep);
            Format(args, PartText(p) + rest, st) == GoOn(args, rest, PartMeaning(args, sep, p, st))
  {
    hide Format, FieldArg, FieldValue, FormatArg, SpecText, Inner, WidthValue, IntOutput, PartText, Spellable, IsName;
    var args := IntArgs(list, names, sep);
    var inner, tail := Inner(p.field), [':'] + (SpecText(p.spec) + (['}'] + rest));
    FormattedText(p, rest);
    FieldFormats(args, inner, p.field, tail, st.next);
    InnerFirst(p.field, tail);
    var a := FieldValue(args, st.next, p.field);
    if a.Ok? {
      SpecFormats(list, names, sep, a.value.0, a.value.1, p.spec, rest);
      var f := FormatArg(args, a.value.0, a.value.1, tail);
      assert tail[|tail| - |rest|..] == rest;
      FieldRound(args, inner, tail, rest, st, a, f);
    } else {
      FieldRound(args, inner, tail, rest, st, a, Fail(BadSpec));
    }
  }

  /** Formatting the template of any literals, fields and fields with specifications, width
      fixed or nested, gives their meaning, error or not. */
  lemma {:induction false} PartsFormat(list: seq<IntArg>, names: map<string, IntArg>, sep: string, ps: seq<Part>, st: State)
    requires WritableParts(ps)
    ensures var args := IntArgs(list, names, sep);
            Format(args, PartsText(ps), st) == PartsMeaning(args, sep, ps, st)
    decreases ps
  {
    hide Format, PartText, PartMeaning, WritablePart;
    if ps == [] {
      NothingToFormat(IntArgs(list, names, sep), st);
    } else {
      var args := IntArgs(list, names, sep);
      PartFormats(list, names, sep, ps[0], PartsText(ps[1..]), st);
      var r := PartMeaning(args, sep, ps[0], st);
      if r.Ok? { PartsFormat(list, names, sep, ps[1..], r.value); }
    }
  }

  lemma PartFormats(list: seq<IntArg>, names: map<string, IntArg>, sep: string, p: Part, rest: string, st: State)
    requires WritablePart(p)
    ensures var args := IntArgs(list, names, sep);
            Format(args, PartText(p) + rest, st) == GoOn(args, rest, PartMeaning(args, sep, p, st))
  {
    hide Format, FieldValue, SegmentText;
    match p
    case Formatted(_, _) => FormattedStep(list, names, sep, p, rest, st);
    case Plain(seg) =>
      if seg.Literal? {
        LiteralText(seg);
        LiteralFormats(IntArgs(list, names, sep), seg.text, rest, st);
      } else {
        FieldStep(IntArgs(list, names, sep), seg, rest, st);
      }
  }

  lemma LiteralText(seg: Segment)
    requires seg.Literal?
    ensures SegmentText(seg) == Doubled(seg.text)
  {
  }
}
