/**
 fmt's template language as a function: literals with doubled braces, replacement fields
 by position, by index and by name, and the rule that positions and indexes never mix.
 What follows ':' in a field is a parameter here; `FmtSpec` gives it for integers.
 */
module FmtTemplate {
  import opened FmtDecimal

  const MaxInt: nat := 0x7fff_ffff

  datatype Error =
    | UnmatchedBrace | MissingBrace | InvalidFormat
    | ManualToAutomatic | AutomaticToManual
    | IndexOutOfRange | ArgumentNotFound | NumberTooBig | BadSpec
    | InvalidFill | SignedRequired | NegativeWidth
    | MissingPrecision | NegativePrecision | PrecisionNotAllowed | UnknownCode

  datatype Result<T> = Ok(value: T) | Fail(error: Error)

  /** The arguments, by position and by name, what each prints as in a plain field, and
      what a specification makes of it: the text, the position counter after it, which it
      may use too, and how much of the template it takes. */
  datatype Args<!V> = Args(list: seq<V>, names: map<string, V>,
                           plain: V -> string, spec: (V, int, string) -> Result<(string, int, nat)>)

  /** `next` counts positions used so far, or is -1 once an index or name was used. */
  datatype State = State(next: int, out: string)

  predicate IsDigit(c: char) { '0' <= c <= '9' }

  predicate IsNameStart(c: char) { 'a' <= c <= 'z' || 'A' <= c <= 'Z' || c == '_' }

  predicate IsNameChar(c: char) { IsNameStart(c) || IsDigit(c) }

  // ----- arguments -----

  function DoGetArg<V>(args: Args<V>, index: nat): (r: Result<V>) {
    if index < |args.list| then Ok(args.list[index]) else Fail(IndexOutOfRange)
  }

  function NextArg<V>(args: Args<V>, next: int): (r: Result<(V, int)>) {
    if next < 0 then Fail(ManualToAutomatic)
    else match DoGetArg(args, next) case Ok(v) => Ok((v, next + 1)) case Fail(e) => Fail(e)
  }

  function GetArg<V>(args: Args<V>, next: int, index: nat): (r: Result<(V, int)>) {
    if next > 0 then Fail(AutomaticToManual)
    else match DoGetArg(args, index) case Ok(v) => Ok((v, -1)) case Fail(e) => Fail(e)
  }

  function GetNamed<V>(args: Args<V>, next: int, name: string): (r: Result<(V, int)>) {
    if next > 0 then Fail(AutomaticToManual)
    else if name in args.names then Ok((args.names[name], -1))
    else Fail(ArgumentNotFound)
  }

  // ----- numbers and names in a field -----

  function DigitRun(s: string): (r: nat)
    ensures r <= |s|
  {
    if s != "" && IsDigit(s[0]) then 1 + DigitRun(s[1..]) else 0
  }

  function NameRun(s: string): (r: nat)
    ensures r <= |s|
  {
    if s != "" && IsNameChar(s[0]) then 1 + NameRun(s[1..]) else 0
  }

  /** The number that a run of digits, read from the left, continues. */
  function ReadFrom(value: nat, ds: string): (r: nat)
    decreases ds
  {
    if ds == "" || !IsDigit(ds[0]) then value else ReadFrom(value * 10 + (ds[0] - '0') as nat, ds[1..])
  }

  function ParseInt(s: string): (r: Result<nat>) {
    var n := ReadFrom(0, s);
    if n <= MaxInt then Ok(n) else Fail(NumberTooBig)
  }

  // ----- the template loop -----

  /** An argument was looked up with an error: the message depends on what follows. */
  function LookupError(e: Error, rest: string): (r: Error) {
    if rest != "" && (rest[0] == '}' || rest[0] == ':') then e else InvalidFormat
  }

  /** The argument a field asks for, and what of the template follows its index or name. */
  function FieldArg<V>(args: Args<V>, next: int, s: string): (r: Result<(V, int, string)>)
    ensures r.Ok? ==> |r.value.2| <= |s|
  {
    if s != "" && IsNameStart(s[0]) then
      var k := NameRun(s);
      match GetNamed(args, next, s[..k])
      case Ok((v, n)) => Ok((v, n, s[k..]))
      case Fail(e) => Fail(e)
    else if s != "" && IsDigit(s[0]) then
      var rest := s[DigitRun(s)..];
      match ParseInt(s)
      case Fail(e) => Fail(e)
      case Ok(i) =>
        match GetArg(args, next, i)
        case Ok((v, n)) => Ok((v, n, rest))
        case Fail(e) => Fail(LookupError(e, rest))
    else
      match NextArg(args, next)
      case Ok((v, n)) => Ok((v, n, s))
      case Fail(e) => Fail(LookupError(e, s))
  }

  /** Text for the argument, the position counter, and how many characters of `s` that
      took, '}' included. */
  function FormatArg<V>(args: Args<V>, v: V, next: int, s: string): (r: Result<(string, int, nat)>)
    ensures r.Ok? ==> r.value.2 <= |s|
  {
    if s != "" && s[0] == '}' then Ok((args.plain(v), next, 1))
    else if s != "" && s[0] == ':' then
      match args.spec(v, next, s)
      case Ok((text, n, k)) => if 0 < k <= |s| then Ok((text, n, k)) else Fail(BadSpec)
      case Fail(e) => Fail(e)
    else Fail(MissingBrace)
  }

  function Format<V>(args: Args<V>, t: string, st: State): (r: Result<State>)
    decreases |t|
  {
    if t == "" then Ok(st)
    else if t[0] != '{' && t[0] != '}' then Format(args, t[1..], st.(out := st.out + [t[0]]))
    else if |t| > 1 && t[1] == t[0] then Format(args, t[2..], st.(out := st.out + [t[0]]))
    else if t[0] == '}' then Fail(UnmatchedBrace)
    else
      match FieldArg(args, st.next, t[1..])
      case Fail(e) => Fail(e)
      case Ok((v, next, rest)) =>
        match FormatArg(args, v, next, rest)
        case Fail(e) => Fail(e)
        case Ok((text, n, k)) => Format(args, rest[k..], State(n, st.out + text))
  }

  /** What has been written when formatting stops, at the end or at an error. Literal text is
      `pending` until a doubled brace, a field or the end, so an unmatched '}' loses it. */
  function Written<V>(args: Args<V>, t: string, next: int, out: string, pending: string): (r: string)
    decreases |t|
  {
    if t == "" then out + pending
    else if t[0] != '{' && t[0] != '}' then Written(args, t[1..], next, out, pending + [t[0]])
    else if |t| > 1 && t[1] == t[0] then Written(args, t[2..], next, out + (pending + [t[0]]), "")
    else if t[0] == '}' then out
    else
      match FieldArg(args, next, t[1..])
      case Fail(_) => out + pending
      case Ok((v, n, rest)) =>
        match FormatArg(args, v, n, rest)
        case Fail(_) => out + pending
        case Ok((text, n', k)) => Written(args, rest[k..], n', out + pending + text, "")
  }

  /** Without an error all of it is written. */
  lemma {:induction false} WrittenWhenOk<V>(args: Args<V>, t: string, next: int, out: string, pending: string)
    requires Format(args, t, State(next, out + pending)).Ok?
    ensures Written(args, t, next, out, pending) == Format(args, t, State(next, out + pending)).value.out
    decreases |t|
  {
    hide FieldArg, FormatArg;
    if t == "" {
    } else if t[0] != '{' && t[0] != '}' {
      assert out + (pending + [t[0]]) == out + pending + [t[0]];
      WrittenWhenOk(args, t[1..], next, out, pending + [t[0]]);
    } else if |t| > 1 && t[1] == t[0] {
      assert out + (pending + [t[0]]) + "" == out + pending + [t[0]];
      WrittenWhenOk(args, t[2..], next, out + (pending + [t[0]]), "");
    } else {
      var (v, n, rest) := FieldArg(args, next, t[1..]).value;
      var (text, n', k) := FormatArg(args, v, n, rest).value;
      assert out + pending + text + "" == out + pending + text;
      WrittenWhenOk(args, rest[k..], n', out + pending + text, "");
    }
  }

  lemma NothingToFormat<V>(args: Args<V>, st: State)
    ensures Format(args, "", st) == Ok(st)
  {
  }

  // ----- what a template means -----

  datatype Segment = Literal(text: string) | Auto | Index(index: nat) | Named(name: string)

  predicate IsName(name: string) {
    name != "" && IsNameStart(name[0]) && forall i :: 0 <= i < |name| ==> IsNameChar(name[i])
  }

  predicate Writable(segs: seq<Segment>) {
    forall i :: 0 <= i < |segs| ==> (segs[i].Named? ==> IsName(segs[i].name))
  }

  function Doubled(text: string): (r: string) {
    if text == "" then ""
    else (if text[0] == '{' || text[0] == '}' then [text[0], text[0]] else [text[0]]) + Doubled(text[1..])
  }

  function SegmentText(seg: Segment): (r: string) {
    match seg
    case Literal(text) => Doubled(text)
    case Auto => "{}"
    case Index(n) => ['{'] + Decimal(n) + ['}']
    case Named(name) => ['{'] + name + ['}']
  }

  /** The template that spells out the segments. */
  function Template(segs: seq<Segment>): (r: string) {
    if segs == [] then "" else SegmentText(segs[0]) + Template(segs[1..])
  }

  function FieldValue<V>(args: Args<V>, next: int, seg: Segment): (r: Result<(V, int)>)
    requires !seg.Literal?
  {
    match seg
    case Auto => NextArg(args, next)
    case Index(n) => if n > MaxInt then Fail(NumberTooBig) else GetArg(args, next, n)
    case Named(name) => GetNamed(args, next, name)
  }

  /** The meaning of the segments: literals and argument texts in order, or the first error. */
  function Meaning<V>(args: Args<V>, segs: seq<Segment>, st: State): (r: Result<State>)
    decreases segs
  {
    if segs == [] then Ok(st)
    else if segs[0].Literal? then Meaning(args, segs[1..], st.(out := st.out + segs[0].text))
    else match FieldValue(args, st.next, segs[0])
         case Fail(e) => Fail(e)
         case Ok((v, next)) => Meaning(args, segs[1..], State(next, st.out + args.plain(v)))
  }

  lemma {:induction false} LiteralFormats<V>(args: Args<V>, text: string, rest: string, st: State)
    ensures Format(args, Doubled(text) + rest, st) == Format(args, rest, st.(out := st.out + text))
    decreases text
  {
    if text == "" {
      assert Doubled(text) + rest == rest && st.out + text == st.out;
    } else {
      var c, more := text[0], Doubled(text[1..]) + rest;
      var st' := st.(out := st.out + [c]);
      LiteralStep(args, c, more, st);
      LiteralFormats(args, text[1..], rest, st');
      assert Doubled(text) + rest == (if c == '{' || c == '}' then [c, c] else [c]) + more;
      assert st'.out + text[1..] == st.out + text;
    }
  }

  lemma LiteralStep<V>(args: Args<V>, c: char, more: string, st: State)
    ensures Format(args, (if c == '{' || c == '}' then [c, c] else [c]) + more, st) ==
            Format(args, more, st.(out := st.out + [c]))
  {
    var front := if c == '{' || c == '}' then [c, c] else [c];
    assert (front + more)[|front|..] == more;
  }

  // ----- indexes -----

  predicate AllDigits(s: string) { forall i :: 0 <= i < |s| ==> IsDigit(s[i]) }

  lemma {:induction false} DecimalDigits(n: nat)
    ensures AllDigits(Decimal(n)) && Decimal(n) != ""
  {
    if n >= 10 { DecimalDigits(n / 10); }
  }

  lemma {:induction false} RunOfDigits(ds: string, rest: string)
    requires AllDigits(ds) && (rest == "" || !IsDigit(rest[0]))
    ensures DigitRun(ds + rest) == |ds|
  {
    if ds == "" {
      assert ds + rest == rest;
    } else {
      RunOfDigits(ds[1..], rest);
      assert (ds + rest)[1..] == ds[1..] + rest;
    }
  }

  lemma {:induction false} ReadConcat(value: nat, ds: string, rest: string)
    requires AllDigits(ds)
    ensures ReadFrom(value, ds + rest) == ReadFrom(ReadFrom(value, ds), rest)
    decreases ds
  {
    if ds == "" {
      assert ds + rest == rest;
    } else {
      ReadConcat(value * 10 + (ds[0] - '0') as nat, ds[1..], rest);
      assert (ds + rest)[1..] == ds[1..] + rest;
    }
  }

  lemma {:induction false} ReadDecimal(n: nat)
    ensures ReadFrom(0, Decimal(n)) == n
  {
    var d := [Digit(n % 10)];
    assert d[1..] == "";
    if n >= 10 {
      ReadDecimal(n / 10);
      DecimalDigits(n / 10);
      ReadConcat(0, Decimal(n / 10), d);
    }
  }

  lemma {:induction false} RunOfName(name: string, rest: string)
    requires (forall i :: 0 <= i < |name| ==> IsNameChar(name[i])) && (rest == "" || !IsNameChar(rest[0]))
    ensures NameRun(name + rest) == |name|
  {
    if name == "" {
      assert name + rest == rest;
    } else {
      RunOfName(name[1..], rest);
      assert (name + rest)[1..] == name[1..] + rest;
    }
  }

  // ----- the theorem -----

  /** What stands between the braces of a field. */
  function Inner(seg: Segment): (r: string) {
    match seg case Auto => "" case Index(n) => Decimal(n) case Named(name) => name case Literal(_) => ""
  }

  /** What a field names, when '}' or a specification follows. */
  lemma FieldFormats<V>(args: Args<V>, inner: string, seg: Segment, tail: string, next: int)
    requires !seg.Literal? && (seg.Named? ==> IsName(seg.name))
    requires inner == Inner(seg) && tail != "" && (tail[0] == '}' || tail[0] == ':')
    ensures FieldArg(args, next, inner + tail) ==
            match FieldValue(args, next, seg)
            case Fail(e) => Fail(e)
            case Ok((v, n)) => Ok((v, n, tail))
  {
    hide Decimal, NameRun, DigitRun, ReadFrom;
    var s := inner + tail;
    match seg
    case Auto => assert s == tail;
    case Index(n) =>
      DecimalDigits(n);
      RunOfDigits(inner, tail);
      ReadDecimal(n);
      ReadConcat(0, inner, tail);
      ReadStops(n, tail);
      assert s[|inner|..] == tail;
    case Named(name) =>
      RunOfName(name, tail);
      assert s[|inner|..] == tail && s[..|inner|] == name;
  }

  lemma ReadStops(value: nat, s: string)
    requires s == "" || !IsDigit(s[0])
    ensures ReadFrom(value, s) == value
  {
  }

  lemma FieldStep<V>(args: Args<V>, seg: Segment, rest: string, st: State)
    requires !seg.Literal? && (seg.Named? ==> IsName(seg.name))
    ensures Format(args, SegmentText(seg) + rest, st) ==
            match FieldValue(args, st.next, seg)
            case Fail(e) => Fail(e)
            case Ok((v, next)) => Format(args, rest, State(next, st.out + args.plain(v)))
  {
    hide Decimal, FieldValue, FieldArg;
    var inner, tail := Inner(seg), ['}'] + rest;
    FieldFormats(args, inner, seg, tail, st.next);
    var t := SegmentText(seg) + rest;
    assert t == ['{'] + (inner + tail);
    InnerFirst(seg, tail);
    assert t[1..] == inner + tail && tail[1..] == rest;
  }

  lemma InnerFirst(seg: Segment, tail: string)
    requires !seg.Literal? && (seg.Named? ==> IsName(seg.name)) && tail != "" && tail[0] != '{'
    ensures (Inner(seg) + tail)[0] != '{'
  {
    if seg.Index? { DecimalDigits(seg.index); }
  }

  /** Formatting the template of any segments gives their meaning, error or not. */
  lemma {:induction false} TemplateMeaning<V>(args: Args<V>, segs: seq<Segment>, st: State)
    requires Writable(segs)
    ensures Format(args, Template(segs), st) == Meaning(args, segs, st)
    decreases segs
  {
    if segs != [] {
      var seg, rest := segs[0], Template(segs[1..]);
      if seg.Literal? {
        LiteralFormats(args, seg.text, rest, st);
        TemplateMeaning(args, segs[1..], st.(out := st.out + seg.text));
      } else {
        FieldStep(args, seg, rest, st);
        if FieldValue(args, st.next, seg).Ok? {
          var (v, next) := FieldValue(args, st.next, seg).value;
          TemplateMeaning(args, segs[1..], State(next, st.out + args.plain(v)));
        }
      }
    }
  }

  // ----- when a template formats, and to what -----

  predicate Positional(segs: seq<Segment>) {
    forall i :: 0 <= i < |segs| ==> segs[i].Literal? || segs[i].Auto?
  }

  predicate Manual(segs: seq<Segment>) {
    forall i :: 0 <= i < |segs| ==> !segs[i].Auto?
  }

  function Autos(segs: seq<Segment>): (r: nat) {
    if segs == [] then 0 else (if segs[0].Auto? then 1 else 0) + Autos(segs[1..])
  }

  predicate Found<V>(args: Args<V>, segs: seq<Segment>) {
    forall i :: 0 <= i < |segs| ==>
      (segs[i].Index? ==> segs[i].index <= MaxInt && segs[i].index < |args.list|) &&
      (segs[i].Named? ==> segs[i].name in args.names)
  }

  /** Every argument asked for is there, and positions are not mixed with indexes or names. */
  predicate Formattable<V>(args: Args<V>, segs: seq<Segment>, next: int) {
    || (next >= 0 && Positional(segs) && next + Autos(segs) <= |args.list|)
    || (next <= 0 && Manual(segs) && Found(args, segs))
  }

  lemma NoAutos(segs: seq<Segment>)
    requires Manual(segs)
    ensures Autos(segs) == 0
  {
    if segs != [] { NoAutos(segs[1..]); }
  }

  /** One field: it succeeds exactly when the rest of the condition is left to the others. */
  lemma FormattableStep<V>(args: Args<V>, segs: seq<Segment>, next: int)
    requires segs != [] && -1 <= next && (next > 0 ==> next <= |args.list|)
    ensures if segs[0].Literal? then Formattable(args, segs, next) <==> Formattable(args, segs[1..], next)
            else Formattable(args, segs, next) <==>
                 (var r := FieldValue(args, next, segs[0]); r.Ok? && Formattable(args, segs[1..], r.value.1))
  {
    var seg, rest := segs[0], segs[1..];
    assert Positional(segs) <==> (seg.Literal? || seg.Auto?) && Positional(rest) by { Split(segs); }
    assert Manual(segs) <==> !seg.Auto? && Manual(rest) by { Split(segs); }
    assert Found(args, segs) <==> Found(args, [seg]) && Found(args, rest) by { Split(segs); }
    if Manual(rest) { NoAutos(rest); }
  }

  lemma Split(segs: seq<Segment>)
    requires segs != []
    ensures segs == [segs[0]] + segs[1..]
  {
  }

  /** For every template: formatting succeeds if and only if the arguments are there and
      automatic and manual indexing are not mixed. */
  lemma {:induction false} FormatsIff<V>(args: Args<V>, segs: seq<Segment>, st: State)
    requires -1 <= st.next && (st.next > 0 ==> st.next <= |args.list|)
    ensures Meaning(args, segs, st).Ok? <==> Formattable(args, segs, st.next)
    decreases segs
  {
    if segs != [] {
      hide Formattable;
      FormattableStep(args, segs, st.next);
      var seg := segs[0];
      if seg.Literal? {
        FormatsIff(args, segs[1..], st.(out := st.out + seg.text));
      } else if FieldValue(args, st.next, seg).Ok? {
        var (v, next) := FieldValue(args, st.next, seg).value;
        FormatsIff(args, segs[1..], State(next, st.out + args.plain(v)));
      }
    }
  }

  /** The argument a field stands for when `used` positions came before it. */
  function SegmentOutput<V>(args: Args<V>, seg: Segment, used: nat): (r: string)
  {
    match seg
    case Literal(text) => text
    case Auto => if used < |args.list| then args.plain(args.list[used]) else ""
    case Index(n) => if n < |args.list| then args.plain(args.list[n]) else ""
    case Named(name) => if name in args.names then args.plain(args.names[name]) else ""
  }

  function Output<V>(args: Args<V>, segs: seq<Segment>, used: nat): (r: string)
    decreases segs
  {
    if segs == [] then ""
    else SegmentOutput(args, segs[0], used) + Output(args, segs[1..], if segs[0].Auto? then used + 1 else used)
  }

  /** What a template that formats writes: the literals and the arguments' texts in order. */
  lemma {:induction false} FormatsTo<V>(args: Args<V>, segs: seq<Segment>, st: State, used: nat)
    requires Meaning(args, segs, st).Ok? && st.next == (if st.next < 0 then -1 else used)
    ensures Meaning(args, segs, st).value.out == st.out + Output(args, segs, used)
    decreases segs
  {
    if segs == [] {
      assert st.out + "" == st.out;
    } else {
      var seg := segs[0];
      var text := SegmentOutput(args, seg, used);
      var st' := if seg.Literal? then st.(out := st.out + seg.text)
                 else State(FieldValue(args, st.next, seg).value.1, st.out + text);
      var used' := if seg.Auto? then used + 1 else used;
      FormatsTo(args, segs[1..], st', used');
      assert (st.out + text) + Output(args, segs[1..], used') == st.out + (text + Output(args, segs[1..], used'));
    }
  }

  /** The plain case: brace-doubled literals and {} fields with enough arguments. */
  lemma PlainTemplate<V>(args: Args<V>, segs: seq<Segment>)
    requires Positional(segs) && Autos(segs) <= |args.list|
    ensures var r := Format(args, Template(segs), State(0, ""));
            r.Ok? && r.value.out == Output(args, segs, 0)
  {
    TemplateMeaning(args, segs, State(0, ""));
    FormatsIff(args, segs, State(0, ""));
    FormatsTo(args, segs, State(0, ""), 0);
    assert "" + Output(args, segs, 0) == Output(args, segs, 0);
  }
}
