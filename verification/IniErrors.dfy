/**
 Errors of the INI parser: which line is reported, and that loading goes on after it.
 */
module IniErrors {
  import opened IniText
  import opened IniParse

  function Lines(t: string): (r: seq<string>)
    decreases |t|
  {
    if t == "" then [] else [t[..LineLength(t)]] + Lines(RestAfter(t, LineLength(t)))
  }

  /** What is wrong with a line: a section without ']' or a key without '=' or ':',
      before any comment. */
  function Fault(line: string, lineno: nat): (r: ErrCode) {
    var body := Body(line, lineno);
    if body == "" || body[0] == ';' || body[0] == '#' then Ok
    else if body[0] == '[' then
      var end := 1 + FindCharOrComment(body[1..], ']', false);
      if end < |body| && body[end] == ']' then Ok else SectionSyntax
    else
      var end := FindEqualOrComment(body, false);
      if end < |body| && IsIniEqual(body[end]) then Ok else KeySyntax
  }

  lemma LineFault(line: string, st: ParseState)
    ensures var f := Fault(line, st.lineno + 1);
            var r := DoLine(line, st);
            && r.lineno == st.lineno + 1
            && (r.error, r.code) == if st.error == 0 && f != Ok then (r.lineno, f) else (st.error, st.code)
  {
    hide Body, FindCharOrComment, FindEqualOrComment, ReadValue, Put, Touch, RStrip, LSkip;
  }

  /** Line `i` of the lines of `t`, numbered after `before` earlier ones, is the first bad one. */
  ghost predicate FirstFault(ls: seq<string>, before: nat, i: nat) {
    && i < |ls| && Fault(ls[i], before + i + 1) != Ok
    && forall j :: 0 <= j < i ==> Fault(ls[j], before + j + 1) == Ok
  }

  lemma {:induction false} ErrorsKept(t: string, st: ParseState)
    requires st.error != 0
    ensures ParseText(t, st).error == st.error && ParseText(t, st).code == st.code
    decreases |t|
  {
    hide DoLine, LineLength;
    if t != "" {
      LineFault(t[..LineLength(t)], st);
      ErrorsKept(RestAfter(t, LineLength(t)), DoLine(t[..LineLength(t)], st));
    }
  }

  /** `error` and `code` report the first bad one of the lines `ls`, which follow
      `before` earlier ones; error 0 reports that none is bad. */
  ghost predicate Reports(ls: seq<string>, before: nat, error: nat, code: ErrCode) {
    if error == 0 then forall i :: 0 <= i < |ls| ==> Fault(ls[i], before + i + 1) == Ok
    else before < error && FirstFault(ls, before, error - before - 1) &&
         code == Fault(ls[error - before - 1], error)
  }

  lemma ReportsAfterGood(line: string, ls: seq<string>, before: nat, error: nat, code: ErrCode)
    requires Fault(line, before + 1) == Ok && Reports(ls, before + 1, error, code)
    ensures Reports([line] + ls, before, error, code)
  {
    hide Fault;
    var all := [line] + ls;
    if error == 0 {
      forall i | 0 <= i < |all| ensures Fault(all[i], before + i + 1) == Ok {
        if i > 0 { assert all[i] == ls[i - 1] && Fault(ls[i - 1], before + 1 + (i - 1) + 1) == Ok; }
      }
    } else {
      forall j | 0 <= j < error - before - 1 ensures Fault(all[j], before + j + 1) == Ok {
        if j > 0 { assert all[j] == ls[j - 1] && Fault(ls[j - 1], before + 1 + (j - 1) + 1) == Ok; }
      }
    }
  }

  lemma ReportsBad(line: string, ls: seq<string>, before: nat)
    requires Fault(line, before + 1) != Ok
    ensures Reports([line] + ls, before, before + 1, Fault(line, before + 1))
  {
    hide Fault;
  }

  lemma NothingReported(before: nat, code: ErrCode)
    ensures Reports([], before, 0, code)
  {
  }

  lemma TextStep(t: string, st: ParseState)
    ensures t == "" ==> Lines(t) == [] && ParseText(t, st) == st
    ensures t != "" ==>
              var line, rest := t[..LineLength(t)], RestAfter(t, LineLength(t));
              Lines(t) == [line] + Lines(rest) && ParseText(t, st) == ParseText(rest, DoLine(line, st))
  {
    hide DoLine, LineLength;
  }

  /** The reported error is the number and kind of the first bad line; none means that
      no line is bad. */
  lemma {:induction false} FirstErrorReported(t: string, st: ParseState)
    requires st.error == 0
    ensures var r := ParseText(t, st);
            Reports(Lines(t), st.lineno, r.error, r.code) && (r.error == 0 ==> r.code == st.code)
    decreases |t|
  {
    hide DoLine, LineLength, Fault, Reports, Lines, ParseText;
    TextStep(t, st);
    if t == "" {
      NothingReported(st.lineno, st.code);
    } else {
      var line, rest := t[..LineLength(t)], RestAfter(t, LineLength(t));
      var st' := DoLine(line, st);
      LineFault(line, st);
      if st'.error != 0 {
        ErrorsKept(rest, st');
        ReportsBad(line, Lines(rest), st.lineno);
      } else {
        FirstErrorReported(rest, st');
        var r := ParseText(rest, st');
        ReportsAfterGood(line, Lines(rest), st.lineno, r.error, r.code);
      }
    }
  }

  lemma LineLoadsAnyway(line: string, st: ParseState, error: nat, code: ErrCode)
    ensures var r, r' := DoLine(line, st), DoLine(line, st.(error := error, code := code));
            r'.data == r.data && r'.recent == r.recent && r'.lineno == r.lineno
  {
    hide Body, FindCharOrComment, FindEqualOrComment, ReadValue, Put, Touch, RStrip, LSkip;
  }

  /** Whether an error was met makes no difference to what is loaded. */
  lemma {:induction false} LoadingGoesOn(t: string, st: ParseState, error: nat, code: ErrCode)
    ensures ParseText(t, st.(error := error, code := code)).data == ParseText(t, st).data
    decreases |t|
  {
    hide DoLine, LineLength;
    if t != "" {
      var line, rest := t[..LineLength(t)], RestAfter(t, LineLength(t));
      LineLoadsAnyway(line, st, error, code);
      var a, b := DoLine(line, st), DoLine(line, st.(error := error, code := code));
      LoadingGoesOn(rest, a, b.error, b.code);
      assert b == a.(error := b.error, code := b.code);
    }
  }

  /** A bad line only loses itself: the rest of the file loads as if it were blank. */
  lemma BadLineSkipped(line: string, rest: string, st: ParseState)
    requires '\n' !in line && Fault(line, st.lineno + 1) != Ok
    ensures ParseText(rest, DoLine(line, st)).data ==
            ParseText(rest, st.(lineno := st.lineno + 1)).data
  {
    hide Body, FindCharOrComment, FindEqualOrComment, ReadValue, Put, Touch, RStrip, LSkip, ParseText;
    var r := DoLine(line, st);
    assert r == st.(lineno := st.lineno + 1, error := r.error, code := r.code);
    LoadingGoesOn(rest, st.(lineno := st.lineno + 1), r.error, r.code);
  }
}
