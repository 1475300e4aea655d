/**
 Which error a template gives. The first field that cannot be served decides, and its kind,
 what came before it and what follows it decide the message.
 */
module FmtErrors {
  import opened CLocale
  import opened FmtTemplate
  import opened FmtFormatter

  // ----- characters and limits -----

  const Numerals := "0123456789"

  lemma DigitClass(c: char)
    ensures IsDigit(c) <==> c in Numerals
  {
    if IsDigit(c) {
      var i := (c - '0') as nat;
      assert Numerals[i] == c;
    }
  }

  lemma SmallAt(c: char)
    requires 'a' <= c <= 'z'
    ensures Smalls[(c - 'a') as nat] == c
  {
  }

  /** Names start with a letter or '_' and go on with those and digits. */
  lemma NameClasses(c: char)
    ensures IsNameStart(c) <==> c == '_' || c in Capitals || c in Smalls
    ensures IsNameChar(c) <==> IsNameStart(c) || c in Numerals
  {
    hide Numerals;
    DigitClass(c);
    if 'A' <= c <= 'Z' { CapitalAt(c); }
    if 'a' <= c <= 'z' { SmallAt(c); }
    if c in Capitals || c in Smalls { LetterRange(c); }
  }

  lemma LetterRange(c: char)
    requires c in Capitals || c in Smalls
    ensures 'A' <= c <= 'Z' || 'a' <= c <= 'z'
  {
    hide Capitals, Smalls;
    LettersCount();
    if c in Capitals {
      var i :| 0 <= i < |Capitals| && Capitals[i] == c;
      CapitalIs(i);
    } else {
      var i :| 0 <= i < |Smalls| && Smalls[i] == c;
      SmallIs(i);
    }
  }

  lemma LettersCount()
    ensures |Capitals| == 26 && |Smalls| == 26
  {
  }

  lemma CapitalIs(i: nat)
    requires i < 26
    ensures 'A' <= Capitals[i] <= 'Z'
  {
  }

  lemma SmallIs(i: nat)
    requires i < 26
    ensures 'a' <= Smalls[i] <= 'z'
  {
  }

  lemma IntLimit()
    ensures MaxInt == 2147483647
  {
  }

  // ----- the first field that fails -----

  ghost predicate HasAuto(segs: seq<Segment>) { exists i :: 0 <= i < |segs| && segs[i].Auto? }

  ghost predicate HasManual(segs: seq<Segment>) {
    exists i :: 0 <= i < |segs| && (segs[i].Index? || segs[i].Named?)
  }

  lemma {:induction false} MeaningConcat<V>(args: Args<V>, a: seq<Segment>, b: seq<Segment>, st: State)
    ensures var r := Meaning(args, a, st);
            Meaning(args, a + b, st) == if r.Ok? then Meaning(args, b, r.value) else r
    decreases a
  {
    hide FieldValue;
    if a == [] {
      assert a + b == b;
    } else {
      assert (a + b)[1..] == a[1..] + b;
      if a[0].Literal? {
        MeaningConcat(args, a[1..], b, st.(out := st.out + a[0].text));
      } else {
        var r := FieldValue(args, st.next, a[0]);
        if r.Ok? { MeaningConcat(args, a[1..], b, State(r.value.1, st.out + args.plain(r.value.0))); }
      }
    }
  }

  lemma HasCons(segs: seq<Segment>)
    requires segs != []
    ensures HasAuto(segs) <==> segs[0].Auto? || HasAuto(segs[1..])
    ensures HasManual(segs) <==> segs[0].Index? || segs[0].Named? || HasManual(segs[1..])
  {
    var t := segs[1..];
    if HasAuto(t) {
      var i :| 0 <= i < |t| && t[i].Auto?;
      assert segs[i + 1].Auto?;
    }
    if HasManual(t) {
      var i :| 0 <= i < |t| && (t[i].Index? || t[i].Named?);
      assert segs[i + 1].Index? || segs[i + 1].Named?;
    }
    if HasAuto(segs) {
      var i :| 0 <= i < |segs| && segs[i].Auto?;
      if i > 0 { assert t[i - 1].Auto?; }
    }
    if HasManual(segs) {
      var i :| 0 <= i < |segs| && (segs[i].Index? || segs[i].Named?);
      if i > 0 { assert t[i - 1].Index? || t[i - 1].Named?; }
    }
  }

  /** Where the position counter stands after fields that were all served. */
  lemma {:induction false} CounterAfter<V>(args: Args<V>, segs: seq<Segment>, st: State)
    requires st.next >= -1 && Meaning(args, segs, st).Ok?
    ensures var next := Meaning(args, segs, st).value.next;
            && (HasManual(segs) ==> next == -1 && !HasAuto(segs))
            && (!HasManual(segs) ==> next == st.next + Autos(segs))
            && (HasAuto(segs) ==> st.next >= 0 && Autos(segs) > 0)
            && (HasManual(segs) ==> st.next <= 0)
            && (!HasAuto(segs) ==> Autos(segs) == 0)
    decreases segs
  {
    hide HasAuto, HasManual;
    if segs == [] {
      HasNothing(segs);
    } else {
      HasCons(segs);
      if segs[0].Literal? {
        CounterAfter(args, segs[1..], st.(out := st.out + segs[0].text));
      } else {
        var (v, next) := FieldValue(args, st.next, segs[0]).value;
        CounterAfter(args, segs[1..], State(next, st.out + args.plain(v)));
      }
    }
  }

  lemma HasNothing(segs: seq<Segment>)
    requires segs == []
    ensures !HasAuto(segs) && !HasManual(segs)
  {
  }

  /** The error of field `i` when all before it are served. */
  ghost function ErrorAt(segs: seq<Segment>, i: nat): (r: Error)
    requires i < |segs|
  {
    match segs[i]
    case Auto => if HasManual(segs[..i]) then ManualToAutomatic else IndexOutOfRange
    case Index(n) =>
      if n > 2147483647 then NumberTooBig
      else if HasAuto(segs[..i]) then AutomaticToManual else IndexOutOfRange
    case Named(_) => if HasAuto(segs[..i]) then AutomaticToManual else ArgumentNotFound
    case Literal(_) => InvalidFormat
  }

  /** For every template that cannot be formatted: the first field that is not served gives
      the error, for mixing, a missing argument, a missing name or a number too big. */
  lemma FirstErrorMeans<V>(args: Args<V>, segs: seq<Segment>, i: nat)
    requires Writable(segs) && i < |segs|
    requires Formattable(args, segs[..i], 0) && !Formattable(args, segs[..i + 1], 0)
    ensures !segs[i].Literal?
    ensures Format(args, Template(segs), State(0, "")) == Fail(ErrorAt(segs, i))
  {
    hide Format, Template, Formattable, Writable, HasAuto, HasManual;
    var st := State(0, "");
    TemplateMeaning(args, segs, st);
    var front, one, rest := segs[..i], [segs[i]], segs[i + 1..];
    assert segs == front + (one + rest) && segs[..i + 1] == front + one;
    MeaningConcat(args, front, one + rest, st);
    MeaningConcat(args, front, one, st);
    FormatsIff(args, front, st);
    FormatsIff(args, segs[..i + 1], st);
    CounterAfter(args, front, st);
    var mid := Meaning(args, front, st).value;
    MeaningConcat(args, one, rest, mid);
    IntLimit();
    OneField(args, segs[i], mid);
  }

  lemma OneField<V>(args: Args<V>, seg: Segment, st: State)
    ensures seg.Literal? ==> Meaning(args, [seg], st).Ok?
    ensures !seg.Literal? ==> (Meaning(args, [seg], st).Ok? <==> FieldValue(args, st.next, seg).Ok?)
    ensures !seg.Literal? && FieldValue(args, st.next, seg).Fail? ==>
              Meaning(args, [seg], st) == Fail(FieldValue(args, st.next, seg).error)
  {
    assert [seg][1..] == [];
  }

  // ----- braces -----

  /** A '}' that is not doubled. */
  lemma UnmatchedMeans<V>(args: Args<V>, t: string, st: State)
    requires t == "" || t[0] != '}'
    ensures Format(args, "}" + t, st) == Fail(UnmatchedBrace)
  {
    assert t != "" ==> ("}" + t)[1] == t[0];
  }

  /** A '{' followed by nothing that belongs into a field: the missing brace is reported when
      there is an argument for the field, otherwise the format as a whole. */
  lemma NoFieldMeans<V>(args: Args<V>, t: string, st: State)
    requires t == "" || !(t[0] == '{' || t[0] == '}' || t[0] == ':' || IsNameStart(t[0]) || IsDigit(t[0]))
    ensures Format(args, "{" + t, st) ==
            Fail(if 0 <= st.next < |args.list| then MissingBrace else InvalidFormat)
  {
    var u := "{" + t;
    assert u[1..] == t;
    if t != "" { assert u[1] == t[0]; }
  }

  /** A name that is known but not followed by '}' or ':'. */
  lemma NoBraceAfterName<V>(args: Args<V>, name: string, t: string, st: State)
    requires IsName(name) && st.next <= 0 && name in args.names
    requires t == "" || !(t[0] == '}' || t[0] == ':' || IsNameChar(t[0]))
    ensures Format(args, "{" + name + t, st) == Fail(MissingBrace)
  {
    hide Format, FieldArg, IsName;
    var u := "{" + name + t;
    NamedField(args, st.next, name, t);
    FormatStep(args, u, st);
    assert u[1..] == name + t && u[1] == (name + t)[0];
  }

  lemma NamedField<V>(args: Args<V>, next: int, name: string, t: string)
    requires IsName(name) && next <= 0 && name in args.names && (t == "" || !IsNameChar(t[0]))
    ensures FieldArg(args, next, name + t) == Ok((args.names[name], -1, t))
    ensures name + t != "" && (name + t)[0] != '{'
  {
    hide NameRun;
    RunOfName(name, t);
    assert (name + t)[..|name|] == name && (name + t)[|name|..] == t;
  }
}
