/**
 The formatter as it runs: a cursor over the template, literals written in batches, and
 an index that counts positions until the first manual one.
 */
module FmtFormatter {
  import opened FmtTemplate

  /** *s, with the terminator past the end. */
  function At(t: string, s: nat): (r: char) { if s < |t| then t[s] else '\0' }

  lemma {:induction false} ReadGrows(value: nat, ds: string)
    ensures ReadFrom(value, ds) >= value
    ensures ds != "" && IsDigit(ds[0]) ==> ReadFrom(value, ds) >= 10 * value
    decreases ds
  {
    if ds != "" && IsDigit(ds[0]) { ReadGrows(value * 10 + (ds[0] - '0') as nat, ds[1..]); }
  }

  /** parse_nonnegative_int: the overflow test before each digit and the one at the end
      together let through exactly the numbers that fit an int. */
  method ParseNonnegativeInt(t: string, s: nat) returns (r: Result<nat>, s': nat)
    requires s < |t| && IsDigit(t[s])
    ensures r == ParseInt(t[s..])
    ensures r.Ok? ==> s' == s + DigitRun(t[s..])
  {
    var value: nat, big := 0, MaxInt / 10;
    s' := s;
    while IsDigit(At(t, s'))
      invariant s <= s' <= |t| && value <= big * 10 + 9 < 0x1_0000_0000
      invariant ReadFrom(0, t[s..]) == ReadFrom(value, t[s'..])
      invariant DigitRun(t[s..]) == s' - s + DigitRun(t[s'..])
      decreases |t| - s'
    {
      assert t[s'..][1..] == t[s' + 1..];
      if value > big {
        ReadGrows(value, t[s'..]);
        return Fail(NumberTooBig), s';
      }
      value := value * 10 + (t[s'] - '0') as nat;
      s' := s' + 1;
    }
    r := if value > MaxInt then Fail(NumberTooBig) else Ok(value);
  }

  method NameEnd(t: string, s: nat) returns (s': nat)
    requires s < |t| && IsNameStart(t[s])
    ensures s' == s + NameRun(t[s..])
  {
    s' := s + 1;
    assert t[s..][1..] == t[s'..];
    while IsNameChar(At(t, s'))
      invariant s < s' <= |t| && NameRun(t[s..]) == s' - s + NameRun(t[s'..])
      decreases |t| - s'
    {
      assert t[s'..][1..] == t[s' + 1..];
      s' := s' + 1;
    }
  }

  class Formatter<V> {
    const args: Args<V>
    var nextArgIndex: int
    var out: string

    constructor (args: Args<V>)
      ensures this.args == args && nextArgIndex == 0 && out == ""
    {
      this.args, nextArgIndex, out := args, 0, "";
    }

    /** next_arg; the counter moves even past the last argument. */
    method NextArgument() returns (r: Result<V>)
      modifies `nextArgIndex
      ensures match NextArg(args, old(nextArgIndex))
              case Ok((v, next)) => r == Ok(v) && nextArgIndex == next
              case Fail(e) => r == Fail(e)
      ensures nextArgIndex == if old(nextArgIndex) >= 0 then old(nextArgIndex) + 1 else old(nextArgIndex)
    {
      if nextArgIndex >= 0 {
        nextArgIndex := nextArgIndex + 1;
        r := DoGetArg(args, nextArgIndex - 1);
      } else {
        r := Fail(ManualToAutomatic);
      }
    }

    method CheckNoAutoIndex() returns (ok: bool)
      modifies `nextArgIndex
      ensures ok == (old(nextArgIndex) <= 0)
      ensures nextArgIndex == if ok then -1 else old(nextArgIndex)
    {
      if nextArgIndex > 0 { return false; }
      nextArgIndex := -1;
      ok := true;
    }

    /** parse_arg_name or parse_arg_index at the cursor. */
    method FieldArgument(t: string, s: nat) returns (r: Result<V>, s': nat)
      requires s <= |t|
      modifies `nextArgIndex
      ensures match FieldArg(args, old(nextArgIndex), t[s..])
              case Ok((v, next, rest)) => r == Ok(v) && nextArgIndex == next && s <= s' <= |t| && t[s'..] == rest
              case Fail(e) => r == Fail(e)
    {
      hide DigitRun, NameRun, ReadFrom;
      if IsNameStart(At(t, s)) {
        s' := NameEnd(t, s);
        assert t[s..][..s' - s] == t[s..s'] && t[s..][s' - s..] == t[s'..];
        var name := t[s..s'];
        var ok := CheckNoAutoIndex();
        r := if !ok then Fail(AutomaticToManual)
             else if name in args.names then Ok(args.names[name]) else Fail(ArgumentNotFound);
      } else if !IsDigit(At(t, s)) {
        s' := s;
        r := NextArgument();
        if r.Fail? { r := Fail(LookupError(r.error, t[s..])); }
      } else {
        var i;
        i, s' := ParseNonnegativeInt(t, s);
        if i.Fail? { return Fail(i.error), s'; }
        assert t[s..][s' - s..] == t[s'..];
        var ok := CheckNoAutoIndex();
        r := if ok then DoGetArg(args, i.value) else Fail(AutomaticToManual);
        if r.Fail? { r := Fail(LookupError(r.error, t[s'..])); }
      }
    }

    /** BasicFormatter::format. The characters [start, s) are read but not yet written. */
    method FormatAll(t: string) returns (error: Result<()>)
      requires '\0' !in t
      modifies this
      ensures match Format(args, t, State(old(nextArgIndex), old(out)))
              case Ok(st) => error == Ok(()) && st == State(nextArgIndex, out)
              case Fail(e) => error == Fail(e)
      ensures out == Written(args, t, old(nextArgIndex), old(out), "")
    {
      hide Format, FieldArg, FormatArg, Written;
      var s, start := 0, 0;
      ghost var result := Format(args, t, State(nextArgIndex, out));
      ghost var written := Written(args, t, nextArgIndex, out, "");
      assert t[0..] == t && t[0..0] == "" && out + "" == out;
      while At(t, s) != '\0'
        invariant start <= s <= |t|
        invariant Written(args, t[s..], nextArgIndex, out, t[start..s]) == written
        invariant Format(args, t[s..], State(nextArgIndex, out + t[start..s])) == result
        decreases |t| - s
      {
        FormatStep(args, t[s..], State(nextArgIndex, out + t[start..s]));
        WrittenStep(args, t[s..], nextArgIndex, out, t[start..s]);
        var c := t[s];
        s := s + 1;
        assert t[start..s - 1] + [c] == t[start..s];
        assert t[s - 1..][1..] == t[s..] && out + t[start..s - 1] + [c] == out + t[start..s];
        if c != '{' && c != '}' { continue; }
        if At(t, s) == c {
          out := out + t[start..s];
          s := s + 1;
          start := s;
          assert t[s - 2..][2..] == t[s..] && t[start..s] == "" && out + "" == out;
          continue;
        }
        if c == '}' { return Fail(UnmatchedBrace); }
        out := out + t[start..s - 1];
        var arg;
        arg, s := FieldArgument(t, s);
        if arg.Fail? { return Fail(arg.error); }
        var formatted := FormatArg(args, arg.value, nextArgIndex, t[s..]);
        if formatted.Fail? { return Fail(formatted.error); }
        var (text, next, k) := formatted.value;
        out, nextArgIndex := out + text, next;
        assert t[s..][k..] == t[s + k..];
        s := s + k;
        start := s;
        assert t[start..s] == "" && out + "" == out;
      }
      assert t[s..] == "";
      NothingToFormat(args, State(nextArgIndex, out + t[start..s]));
      WrittenEnd(args, nextArgIndex, out, t[start..s]);
      out := out + t[start..s];
      error := Ok(());
    }
  }

  lemma WrittenEnd<V>(args: Args<V>, next: int, out: string, pending: string)
    ensures Written(args, "", next, out, pending) == out + pending
  {
  }

  lemma WrittenStep<V>(args: Args<V>, t: string, next: int, out: string, pending: string)
    requires t != ""
    ensures Written(args, t, next, out, pending) ==
            if t[0] != '{' && t[0] != '}' then Written(args, t[1..], next, out, pending + [t[0]])
            else if |t| > 1 && t[1] == t[0] then Written(args, t[2..], next, out + (pending + [t[0]]), "")
            else if t[0] == '}' then out
            else
              var a := FieldArg(args, next, t[1..]);
              if a.Fail? then out + pending
              else
                var f := FormatArg(args, a.value.0, a.value.1, a.value.2);
                if f.Fail? then out + pending
                else Written(args, a.value.2[f.value.2..], f.value.1, out + pending + f.value.0, "")
  {
    hide FieldArg, FormatArg;
  }

  /** One round of the loop, in terms of what is left of the template. */
  lemma FormatStep<V>(args: Args<V>, t: string, st: State)
    requires t != ""
    ensures Format(args, t, st) ==
            if t[0] != '{' && t[0] != '}' then Format(args, t[1..], st.(out := st.out + [t[0]]))
            else if |t| > 1 && t[1] == t[0] then Format(args, t[2..], st.(out := st.out + [t[0]]))
            else if t[0] == '}' then Fail(UnmatchedBrace)
            else
              var a := FieldArg(args, st.next, t[1..]);
              if a.Fail? then Fail(a.error)
              else
                var f := FormatArg(args, a.value.0, a.value.1, a.value.2);
                if f.Fail? then Fail(f.error)
                else Format(args, a.value.2[f.value.2..], State(f.value.1, st.out + f.value.0))
  {
  }
}
