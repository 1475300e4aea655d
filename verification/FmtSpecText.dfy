/**
 Specifications of integer fields told by their characters: what each character asks for,
 what a width taken from an argument comes to, and which error a bad specification gives.
 */
module FmtSpecText {
  import opened FmtInt
  import opened FmtIntText
  import opened FmtTemplate
  import opened FmtSpec

  /** The characters of a spelling. */
  lemma SpellingTable(fill: char)
    ensures AlignText(Bare(Left)) == "<" && AlignText(Bare(Right)) == ">"
    ensures AlignText(Bare(Center)) == "^" && AlignText(Bare(Numeric)) == "="
    ensures AlignText(Filled(fill, Left)) == [fill, '<'] && AlignText(Filled(fill, Right)) == [fill, '>']
    ensures AlignText(Filled(fill, Center)) == [fill, '^'] && AlignText(Filled(fill, Numeric)) == [fill, '=']
    ensures SignText(Plus) == "+" && SignText(Minus) == "-" && SignText(Space) == " "
    ensures FlagText(true, '#') == "#" && FlagText(true, '0') == "0"
  {
  }

  /** What they ask for. */
  lemma MeaningTable(sp: Spelling)
    ensures var m := Meant(sp);
            && m.sign == (sp.sign == Plus || sp.sign == Space) && m.plus == (sp.sign == Plus)
            && m.hash == sp.hash && m.code == sp.code
            && (sp.zero ==> m.fill == '0' && m.align == Numeric)
            && (!sp.zero && sp.align == NoAlign ==> m.fill == ' ' && m.align == Default)
            && (!sp.zero && sp.align.Bare? ==> m.fill == ' ' && m.align == sp.align.align)
            && (!sp.zero && sp.align.Filled? ==> m.fill == sp.align.fill && m.align == sp.align.align)
  {
  }

  // ----- a width from an argument -----

  /** The width is the argument's value, unless that is negative or does not fit an int. */
  lemma NestedWidthMeans(args: Args<IntArg>, next: int, field: Segment, t: string)
    requires !field.Literal? && (field.Named? ==> IsName(field.name))
    ensures var r := FieldValue(args, next, field);
            ParseWidth(args, next, "{" + Inner(field) + "}" + t) ==
            if r.Fail? then Fail(r.error)
            else if r.value.0.value < 0 then Fail(NegativeWidth)
            else if r.value.0.value > 2147483647 then Fail(NumberTooBig)
            else Ok((r.value.0.value, r.value.1, t))
  {
    hide FieldValue, ParseWidth, Inner;
    NestedReads(args, next, field, t);
    assert WidthText(Nested(field)) + t == "{" + Inner(field) + "}" + t;
  }

  /** The text of a field is never shorter than its width. */
  lemma AtLeastWidth(a: IntArg, spec: IntSpec, sep: string)
    ensures |IntOutput(a, spec, sep)| >= spec.width
  {
  }

  lemma OutputMeans(a: IntArg, spec: IntSpec, sep: string)
    requires KnownCode(spec.code)
    ensures exists digits ::
              DigitsOf(a.value, spec, sep, digits) && IntOutput(a, spec, sep) == LaidOut(a.value, digits, spec)
  {
    hide DigitText, AbsValue, IntText, LaidOut, DigitsOf, KnownCode;
    IntTextMeans(a.value, a.bits, a.signed, spec, sep);
    assert DigitsOf(a.value, spec, sep, DigitText(AbsValue(a.value, a.bits), spec.code, sep));
  }

  /** A plain field prints sign and numeral alone. */
  lemma PlainFieldMeans(x: IntArg, names: map<string, IntArg>, sep: string)
    ensures exists digits ::
              && Numeral(digits, Magnitude(x.value), 10, false)
              && Format(IntArgs([x], names, sep), "{}", State(0, "")) ==
                 Ok(State(1, (if x.value < 0 then "-" else "") + digits))
  {
    hide Format, IntOutput, Numeral, SegmentText, LaidOut;
    var args, ps := IntArgs([x], names, sep), [Plain(Auto)];
    assert ps[1..] == [];
    assert PartsText(ps) == "{}" by { AutoText(); }
    PartsFormat([x], names, sep, ps, State(0, ""));
    OutputMeans(x, DefaultSpec, sep);
    var digits :| DigitsOf(x.value, DefaultSpec, sep, digits) &&
                  IntOutput(x, DefaultSpec, sep) == LaidOut(x.value, digits, DefaultSpec);
    NoFill(x.value, digits);
    var text := IntOutput(x, DefaultSpec, sep);
    assert "" + text == text;
  }

  lemma AutoText()
    ensures SegmentText(Auto) + "" == "{}"
  {
  }

  lemma NoFill(value: int, digits: string)
    ensures LaidOut(value, digits, DefaultSpec) == (if value < 0 then "-" else "") + digits
  {
    assert Times(' ', 0) == "";
  }

  const WidthField := Formatted(Auto, Spelling(NoAlign, NoSign, false, false, Nested(Auto), '\0'))

  /** "{:{}}" with a number and a width, for all of both. */
  lemma WidthFromArgument(x: IntArg, w: IntArg, names: map<string, IntArg>, sep: string)
    ensures var r := Format(IntArgs([x, w], names, sep), "{:{}}", State(0, ""));
            if w.value < 0 then r == Fail(NegativeWidth)
            else if w.value > 2147483647 then r == Fail(NumberTooBig)
            else
              r.Ok? && r.value == State(2, IntOutput(x, IntSpec(w.value, ' ', Default, false, false, false, '\0'), sep))
  {
    hide Format, IntOutput, PartText;
    WidthFieldText();
    var ps := [WidthField];
    assert ps[1..] == [];
    assert PartsText(ps) == "{:{}}" by { assert PartText(WidthField) + "" == "{:{}}"; }
    PartsFormat([x, w], names, sep, ps, State(0, ""));
    if w.value >= 0 {
      var text := IntOutput(x, IntSpec(w.value, ' ', Default, false, false, false, '\0'), sep);
      assert "" + text == text;
    }
  }

  lemma WidthFieldText()
    ensures PartText(WidthField) == "{:{}}"
  {
    assert SpecText(WidthField.spec) == "{}";
    assert "" + ([':'] + ("{}" + ['}'])) == ":{}}";
  }

  // ----- errors -----

  /** A precision is refused, whatever it is. */
  lemma PrecisionMeans(args: Args<IntArg>, next: int, digits: string, t: string, base: IntSpec)
    requires AllDigits(digits) && (t == "" || !IsDigit(t[0]))
    ensures digits != "" ==>
              ParseTail(args, next, "." + digits + t, base) ==
              Fail(if ReadFrom(0, digits) > 2147483647 then NumberTooBig else PrecisionNotAllowed)
    ensures digits == "" && (t == "" || t[0] != '{') ==>
              ParseTail(args, next, "." + digits + t, base) == Fail(MissingPrecision)
  {
    hide ReadFrom, DigitRun;
    var s := "." + digits + t;
    assert s[1..] == digits + t;
    ReadConcat(0, digits, t);
    ReadStops(ReadFrom(0, digits), t);
    if digits != "" { assert (digits + t)[0] == digits[0]; } else { assert digits + t == t; }
  }

  /** Also one taken from an argument. */
  lemma NestedPrecisionMeans(args: Args<IntArg>, next: int, field: Segment, t: string, base: IntSpec)
    requires !field.Literal? && (field.Named? ==> IsName(field.name))
    ensures var r := FieldValue(args, next, field);
            ParseTail(args, next, ".{" + Inner(field) + "}" + t, base) ==
            Fail(if r.Fail? then r.error
                 else if r.value.0.value < 0 then NegativePrecision
                 else if r.value.0.value > 2147483647 then NumberTooBig
                 else PrecisionNotAllowed)
  {
    hide FieldValue, FieldArg, Inner;
    var inner, tail := Inner(field), ['}'] + t;
    FieldFormats(args, inner, field, tail, next);
    var s := ".{" + inner + "}" + t;
    assert s == ['.'] + (['{'] + (inner + tail));
    assert s[1..] == ['{'] + (inner + tail);
    assert s[1..][1..] == inner + tail;
  }

  /** A '{' cannot fill, a specification must be closed, and an unknown code is refused. */
  lemma BadSpecMeans(args: Args<IntArg>, next: int, align: char, t: string, signed: bool)
    requires align == '<' || align == '>' || align == '=' || align == '^'
    ensures ParseSpec(args, next, ['{', align] + t, signed) == Fail(InvalidFill)
    ensures ParseSpec(args, next, "", signed) == Fail(MissingBrace)
  {
  }

  lemma UnknownCodeMeans(list: seq<IntArg>, names: map<string, IntArg>, sep: string, a: IntArg, next: int, c: char, rest: string)
    requires 'A' <= c <= 'Z' || 'a' <= c <= 'z'
    requires c !in {'d', 'n', 'x', 'X', 'b', 'B', 'o'}
    ensures FormatSpec(list, names, sep, a, next, [':', c, '}'] + rest) == Fail(UnknownCode)
  {
    hide ParseSpec, IntOutput;
    var s := [':', c, '}'] + rest;
    assert s[1..] == [c, '}'] + rest;
    CodeAlone(Lookup(list, names), next, c, rest, a.signed);
  }

  lemma CodeAlone(args: Args<IntArg>, next: int, c: char, rest: string, signed: bool)
    requires 'A' <= c <= 'Z' || 'a' <= c <= 'z'
    ensures ParseSpec(args, next, [c, '}'] + rest, signed) ==
            Ok((IntSpec(0, ' ', Default, false, false, false, c), next, rest))
  {
    hide NestedNumber, PrecisionError, ParseInt, DigitRun;
    var t := [c, '}'] + rest;
    assert t[1..] == ['}'] + rest;
    assert t[1..][1..] == rest;
  }
}
