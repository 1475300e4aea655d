/**
 What a quoted value reads back as. The writer escapes quotes and backslashes, but the
 two comment scanners of the parser know nothing of escapes, so a ';' inside a value
 can end it.
 */
module IniSurvival {
  import opened IniText
  import opened IniParse
  import opened IniPrint

  function Quotes(v: string): (r: nat) {
    if v == "" then 0 else (if v[|v| - 1] == '"' then 1 else 0) + Quotes(v[..|v| - 1])
  }

  /** A ';' at `i` is harmless: no blank stands right before it and an even number of
      quote marks precede it. */
  ghost predicate HarmlessAt(v: string, i: nat)
    requires i < |v|
  {
    v[i] == ';' ==> (i == 0 || v[i - 1] != ' ') && Quotes(v[..i]) % 2 == 0
  }

  ghost predicate Survives(v: string) {
    forall i: nat :: i < |v| ==> HarmlessAt(v, i)
  }

  function SpaceCut(v: string, ws: bool): (r: nat)
    ensures r <= |v|
    ensures r < |v| ==> v[r] == ';'
  {
    if v == "" || (ws && v[0] == ';') then 0 else 1 + SpaceCut(v[1..], v[0] == ' ')
  }

  /** The first harmful ';'. */
  function Cut(v: string, ws: bool, odd: bool): (r: nat)
    ensures r <= |v|
    ensures r < |v| ==> v[r] == ';'
  {
    if v == "" || ((ws || odd) && v[0] == ';') then 0
    else 1 + Cut(v[1..], v[0] == ' ', odd != (v[0] == '"'))
  }

  function StripBlanks(v: string): (r: string) {
    if v != "" && v[|v| - 1] == ' ' then StripBlanks(v[..|v| - 1]) else v
  }

  lemma {:induction false} StripBlanksKeeps(v: string)
    ensures StripBlanks(v) <= v
    ensures StripBlanks(v) != "" ==> StripBlanks(v)[|StripBlanks(v)| - 1] != ' '
    ensures forall i :: |StripBlanks(v)| <= i < |v| ==> v[i] == ' '
  {
    if v != "" && v[|v| - 1] == ' ' { StripBlanksKeeps(v[..|v| - 1]); }
  }

  /** What remains of a value whose closing quote was cut off. */
  function Unclosed(w: string): (r: string) {
    if w == "" then ['"']
    else if w[|w| - 1] == '"' then w[..|w| - 1]
    else w
  }

  /** The value a reader gets for the quoted form of `v`. */
  function ReadBack(v: string): (r: string) {
    var k := Cut(v, false, false);
    if k == |v| then v else Unclosed(StripBlanks(v[..k]))
  }

  // ----- escaping, seen by the scanners -----

  lemma {:induction false} EscapeConcat(a: string, b: string)
    ensures Escape(a + b) == Escape(a) + Escape(b)
  {
    hide EscapeChar, Escape;
    if a == "" {
      EscapeEmpty();
      assert a + b == b && "" + Escape(b) == Escape(b);
    } else {
      EscapeConcat(a[1..], b);
      assert (a + b)[1..] == a[1..] + b;
      EscapeStep(a);
      EscapeStep(a + b);
      Associate(EscapeChar(a[0]), Escape(a[1..]), Escape(b));
    }
  }

  lemma EscapeStep(v: string)
    requires v != ""
    ensures Escape(v) == EscapeChar(v[0]) + Escape(v[1..])
  {
  }

  lemma Associate(a: string, b: string, c: string)
    ensures a + (b + c) == (a + b) + c
  {
  }

  // One escaped character in front of a text, as each scanner steps over it.

  lemma UnescapeStep(c: char, rest: string)
    ensures Unescape(EscapeChar(c) + rest) == [c] + Unescape(rest)
  {
    var e := EscapeChar(c);
    assert (e + rest)[|e|..] == rest;
  }

  lemma FindStep(c: char, rest: string, ws: bool)
    requires c != NUL
    ensures FindCharOrComment(EscapeChar(c) + rest, NUL, ws) ==
            if ws && c == ';' then 0 else |EscapeChar(c)| + FindCharOrComment(rest, NUL, c == ' ')
  {
    var e := EscapeChar(c);
    var s := e + rest;
    assert s[|e|..] == rest;
    if |e| == 2 {
      assert s[1..][1..] == rest;
      assert FindCharOrComment(s, NUL, ws) == 1 + FindCharOrComment(s[1..], NUL, false);
    }
  }

  lemma CommentStep(c: char, rest: string, odd: bool)
    ensures CommentCut(EscapeChar(c) + rest, !odd) ==
            if odd && c == ';' then 0 else |EscapeChar(c)| + CommentCut(rest, odd == (c == '"'))
  {
    var e := EscapeChar(c);
    var s := e + rest;
    assert s[|e|..] == rest;
    if |e| == 2 {
      assert s[1..][1..] == rest;
      assert CommentCut(s, !odd) == 1 + CommentCut(s[1..], !odd);
    }
  }

  lemma {:induction false} UnescapeEscape(w: string, tail: string)
    ensures Unescape(Escape(w) + tail) == w + Unescape(tail)
  {
    hide EscapeChar, Unescape;
    if w == "" {
      assert Escape(w) + tail == tail;
    } else {
      UnescapeEscape(w[1..], tail);
      UnescapeStep(w[0], Escape(w[1..]) + tail);
      assert Escape(w) + tail == EscapeChar(w[0]) + (Escape(w[1..]) + tail);
    }
  }

  lemma QuoteFound(tail: string, ws: bool)
    requires tail == ['"']
    ensures FindCharOrComment(tail, NUL, ws) == 1
  {
  }

  lemma {:induction false} SpaceCutEscaped(v: string, ws: bool, tail: string)
    requires NulFree(v) && tail == ['"']
    ensures FindCharOrComment(Escape(v) + tail, NUL, ws) ==
            if SpaceCut(v, ws) < |v| then |Escape(v[..SpaceCut(v, ws)])| else |Escape(v)| + 1
  {
    hide EscapeChar, FindCharOrComment;
    if v == "" {
      assert Escape(v) + tail == tail;
      QuoteFound(tail, ws);
    } else {
      assert Escape(v) + tail == EscapeChar(v[0]) + (Escape(v[1..]) + tail);
      FindStep(v[0], Escape(v[1..]) + tail, ws);
      if !(ws && v[0] == ';') {
        SpaceCutEscaped(v[1..], v[0] == ' ', tail);
        var k := SpaceCut(v, ws);
        assert v[..k][1..] == v[1..][..k - 1];
      }
    }
  }

  function QuoteCut(v: string, odd: bool): (r: nat)
    ensures r <= |v|
    ensures r < |v| ==> v[r] == ';'
  {
    if v == "" || (odd && v[0] == ';') then 0 else 1 + QuoteCut(v[1..], odd != (v[0] == '"'))
  }

  lemma TailUncut(tail: string, quoted: bool)
    requires tail == [] || tail == ['"']
    ensures CommentCut(tail, quoted) == |tail|
  {
  }

  lemma {:induction false} QuoteCutEscaped(v: string, odd: bool, tail: string)
    requires tail == [] || tail == ['"']
    ensures CommentCut(Escape(v) + tail, !odd) ==
            if QuoteCut(v, odd) < |v| then |Escape(v[..QuoteCut(v, odd)])| else |Escape(v)| + |tail|
  {
    hide EscapeChar, CommentCut;
    if v == "" {
      assert Escape(v) + tail == tail;
      TailUncut(tail, !odd);
    } else {
      assert Escape(v) + tail == EscapeChar(v[0]) + (Escape(v[1..]) + tail);
      CommentStep(v[0], Escape(v[1..]) + tail, odd);
      if !(odd && v[0] == ';') {
        QuoteCutEscaped(v[1..], odd != (v[0] == '"'), tail);
        var k := QuoteCut(v, odd);
        assert v[..k][1..] == v[1..][..k - 1];
      }
    }
  }

  lemma StripSpaceStep(s: string, c: char)
    ensures RStrip(s + [c]) == if IsSpace(c) then RStrip(s) else s + [c]
  {
    assert (s + [c])[..|s|] == s;
  }

  lemma {:induction false} StripEscaped(w: string)
    ensures RStrip(['"'] + Escape(w)) == ['"'] + Escape(StripBlanks(w))
  {
    hide RStrip, Escape;
    if w == "" {
      EscapeEmpty();
      assert ['"'] + Escape(w) == [] + ['"'];
      StripSpaceStep([], '"');
    } else {
      var n := |w| - 1;
      assert w == w[..n] + [w[n]];
      EscapeSnoc(w[..n], w[n]);
      var e := EscapeChar(w[n]);
      var front := ['"'] + Escape(w[..n]) + e[..|e| - 1];
      assert ['"'] + Escape(w) == front + [e[|e| - 1]];
      StripSpaceStep(front, e[|e| - 1]);
      if w[n] == ' ' {
        StripEscaped(w[..n]);
        assert front == ['"'] + Escape(w[..n]);
      }
    }
  }

  lemma EscapeEmpty()
    ensures Escape("") == ""
  {
  }

  // ----- the two scans together -----

  /** Stage one cuts at a blank before ';', stage two at an odd quote count; together
      they cut at the first harmful ';'. */
  lemma {:induction false} CutsCombine(v: string, ws: bool, odd: bool)
    ensures var j := SpaceCut(v, ws);
            Cut(v, ws, odd) == if QuoteCut(v[..j], odd) < j then QuoteCut(v[..j], odd) else j
  {
    hide Cut, SpaceCut, QuoteCut;
    var j := SpaceCut(v, ws);
    CutSteps(v, ws, odd);
    QuoteCutStep(v[..j], odd);
    if v != "" && !(ws && v[0] == ';') {
      CutsCombine(v[1..], v[0] == ' ', odd != (v[0] == '"'));
      assert v[..j][1..] == v[1..][..j - 1];
    }
  }

  lemma CutSteps(v: string, ws: bool, odd: bool)
    ensures Cut(v, ws, odd) == if v == "" || ((ws || odd) && v[0] == ';') then 0
                               else 1 + Cut(v[1..], v[0] == ' ', odd != (v[0] == '"'))
    ensures SpaceCut(v, ws) == if v == "" || (ws && v[0] == ';') then 0
                               else 1 + SpaceCut(v[1..], v[0] == ' ')
  {
  }

  lemma QuoteCutStep(v: string, odd: bool)
    ensures QuoteCut(v, odd) == if v == "" || (odd && v[0] == ';') then 0
                                else 1 + QuoteCut(v[1..], odd != (v[0] == '"'))
  {
  }

  lemma {:induction false} QuoteCutPrefix(u: string, n: nat, odd: bool)
    requires n <= |u|
    requires forall i :: n <= i < |u| ==> u[i] == ' '
    ensures QuoteCut(u, odd) < |u| <==> QuoteCut(u[..n], odd) < n
    ensures QuoteCut(u, odd) < |u| ==> QuoteCut(u[..n], odd) == QuoteCut(u, odd)
  {
    if u != "" && !(odd && u[0] == ';') {
      if n == 0 {
        QuoteCutPrefix(u[1..], 0, odd);
      } else {
        QuoteCutPrefix(u[1..], n - 1, odd != (u[0] == '"'));
        assert u[..n][1..] == u[1..][..n - 1];
      }
    }
  }

  /** Cutting the escaped text where the cut of the plain text falls. */
  lemma CutEscaped(v: string, k: nat, tail: string)
    requires k <= |v|
    ensures |Escape(v[..k])| <= |Escape(v)|
    ensures (['"'] + Escape(v) + tail)[..1 + |Escape(v[..k])|] == ['"'] + Escape(v[..k])
  {
    EscapeConcat(v[..k], v[k..]);
    assert v == v[..k] + v[k..];
  }

  /** Where a value text ends when its stage-two cut is taken. */
  function QuotePart(w: string): (r: string) { StripBlanks(w[..QuoteCut(w, false)]) }

  lemma StageTwo(v: string, tail: string, s: string)
    requires tail == [] || tail == ['"']
    requires s == ['"'] + Escape(v) + tail
    ensures CommentCut(s, false) == 1 +
            if QuoteCut(v, false) < |v| then |Escape(v[..QuoteCut(v, false)])| else |Escape(v)| + |tail|
  {
    hide Escape, QuoteCut;
    assert s[1..] == Escape(v) + tail;
    QuoteCutEscaped(v, false, tail);
  }

  /** The second stage on a text whose closing quote is already gone. */
  lemma OpenStage(w: string, s: string)
    requires s == ['"'] + Escape(w)
    ensures RStrip(s[..CommentCut(s, false)]) == ['"'] + Escape(QuotePart(w))
  {
    hide Escape, QuoteCut, StripBlanks, RStrip, CommentCut;
    assert s == s + [];
    StageTwo(w, [], s);
    var k := QuoteCut(w, false);
    assert k == |w| ==> w[..k] == w;
    CutEscaped(w, k, []);
    StripEscaped(w[..k]);
  }

  lemma RemoveOpenQuote(e: string)
    requires e != ""
    ensures RemoveQuotes(['"'] + e) == if e[|e| - 1] == '"' then e[..|e| - 1] else e
  {
    var s := ['"'] + e;
    assert s[1..] == e && s[1..|s| - 1] == e[..|e| - 1];
  }

  lemma UnclosedReads(x: string)
    ensures Unescape(RemoveQuotes(['"'] + Escape(x))) == Unclosed(x)
  {
    if x != "" {
      LastEscaped(x);
      RemoveOpenQuote(Escape(x));
      if x[|x| - 1] == '"' {
        BackslashDropped(x[..|x| - 1]);
      } else {
        EscapedReads(x);
      }
    }
  }

  lemma LastEscaped(x: string)
    requires x != ""
    ensures Escape(x) != ""
    ensures var e := Escape(x);
            if x[|x| - 1] == '"' then e[|e| - 1] == '"' && e[..|e| - 1] == Escape(x[..|x| - 1]) + ['\\']
            else e[|e| - 1] != '"'
  {
    var n := |x| - 1;
    assert x == x[..n] + [x[n]];
    EscapeSnoc(x[..n], x[n]);
  }

  lemma BackslashDropped(w: string)
    ensures Unescape(Escape(w) + ['\\']) == w
  {
    UnescapeEscape(w, ['\\']);
    assert w + [] == w;
  }

  lemma EscapedReads(w: string)
    ensures Unescape(Escape(w)) == w
  {
    UnescapeEscape(w, []);
    assert w + [] == w && Escape(w) + [] == Escape(w);
  }

  lemma ClosedReads(v: string)
    ensures Unescape(RemoveQuotes(['"'] + Escape(v) + ['"'])) == v
  {
    assert RemoveQuotes(['"'] + Escape(v) + ['"']) == Escape(v);
    EscapedReads(v);
  }

  lemma StageOne(v: string, s: string)
    requires NulFree(v) && s == ['"'] + Escape(v) + ['"']
    ensures FindCharOrComment(s, NUL, false) == 1 +
            if SpaceCut(v, false) < |v| then |Escape(v[..SpaceCut(v, false)])| else |Escape(v)| + 1
  {
    hide Escape, SpaceCut;
    assert s[1..] == Escape(v) + ['"'];
    SpaceCutEscaped(v, false, ['"']);
  }

  lemma NothingToStrip(s: string)
    requires s == "" || !IsSpace(s[|s| - 1])
    ensures RStrip(s) == s
  {
  }

  /** Both stages, when the first one cuts. */
  lemma SpaceCutReads(v: string, s: string)
    requires NulFree(v) && SpaceCut(v, false) < |v|
    requires s == ['"'] + Escape(v) + ['"']
    ensures ValueText(s) == ['"'] + Escape(QuotePart(StripBlanks(v[..SpaceCut(v, false)])))
  {
    hide Escape, RStrip, StripBlanks, SpaceCut, CommentCut, QuotePart, FindCharOrComment;
    var j := SpaceCut(v, false);
    StageOne(v, s);
    CutEscaped(v, j, ['"']);
    StripEscaped(v[..j]);
    OpenStage(StripBlanks(v[..j]), ['"'] + Escape(StripBlanks(v[..j])));
  }

  /** The second stage alone, when the first one finds nothing. */
  lemma OnlyQuoteCutReads(v: string, s: string)
    requires NulFree(v) && SpaceCut(v, false) == |v| && QuoteCut(v, false) < |v|
    requires s == ['"'] + Escape(v) + ['"']
    ensures ValueText(s) == ['"'] + Escape(QuotePart(v))
  {
    hide Escape, StripBlanks, SpaceCut, QuoteCut, FindCharOrComment, CommentCut, RStrip;
    StageOne(v, s);
    StageTwo(v, ['"'], s);
    assert s[..|s|] == s;
    NothingToStrip(s);
    var k := QuoteCut(v, false);
    CutEscaped(v, k, ['"']);
    StripEscaped(v[..k]);
  }

  lemma NoCutReads(v: string, s: string)
    requires NulFree(v) && SpaceCut(v, false) == |v| && QuoteCut(v, false) == |v|
    requires s == ['"'] + Escape(v) + ['"']
    ensures ValueText(s) == s
  {
    hide Escape, SpaceCut, QuoteCut, FindCharOrComment, CommentCut, RStrip;
    StageOne(v, s);
    StageTwo(v, ['"'], s);
    assert s[..|s|] == s;
    NothingToStrip(s);
  }

  lemma PartsAgree(v: string, u: string, w: string)
    requires SpaceCut(v, false) < |v|
    requires u == v[..SpaceCut(v, false)] && w == StripBlanks(u)
    ensures QuotePart(w) == StripBlanks(v[..Cut(v, false, false)])
  {
    hide SpaceCut, QuoteCut, Cut, StripBlanks;
    CutsCombine(v, false, false);
    StripBlanksKeeps(u);
    QuoteCutPrefix(u, |w|, false);
    assert w == u[..|w|];
    var k := QuoteCut(w, false);
    assert w[..k] == v[..k];
    if k == |w| {
      assert w[..k] == w;
      StripIdempotent(u);
    }
  }

  lemma StripIdempotent(u: string)
    ensures StripBlanks(StripBlanks(u)) == StripBlanks(u)
  {
  }

  /** For every value without NUL: what print-then-parse makes of its quoted form. */
  lemma QuotedReadsBack(v: string)
    requires NulFree(v)
    ensures ReadValue(['"'] + Escape(v) + ['"']) == ReadBack(v)
  {
    hide SpaceCut, QuoteCut, Cut, StripBlanks, Escape, Unescape, RemoveQuotes, ValueText, Unclosed;
    CutsCombine(v, false, false);
    assert v[..|v|] == v;
    var s := ['"'] + Escape(v) + ['"'];
    var j := SpaceCut(v, false);
    if j < |v| {
      SpaceCutReads(v, s);
      PartsAgree(v, v[..j], StripBlanks(v[..j]));
      UnclosedReads(StripBlanks(v[..Cut(v, false, false)]));
    } else if QuoteCut(v, false) < |v| {
      OnlyQuoteCutReads(v, s);
      UnclosedReads(QuotePart(v));
    } else {
      NoCutReads(v, s);
      ClosedReads(v);
    }
  }

  // ----- when the value survives -----

  lemma {:induction false} QuotesCons(v: string)
    requires v != ""
    ensures Quotes(v) == (if v[0] == '"' then 1 else 0) + Quotes(v[1..])
  {
    var n := |v| - 1;
    if n > 0 {
      QuotesCons(v[..n]);
      assert v[..n][1..] == v[1..][..n - 1];
    }
  }

  /** `HarmlessAt` for a text that continues another one, of which `ws` and `odd` say
      how it ended. */
  ghost predicate HarmlessAfter(v: string, i: nat, ws: bool, odd: bool)
    requires i < |v|
  {
    v[i] == ';' ==> (if i == 0 then !ws else v[i - 1] != ' ') &&
                    (Quotes(v[..i]) % 2 == 1) == odd
  }

  lemma HarmlessTail(v: string, i: nat, ws: bool, odd: bool)
    requires v != "" && i < |v| - 1
    ensures HarmlessAfter(v, i + 1, ws, odd) <==>
            HarmlessAfter(v[1..], i, v[0] == ' ', odd != (v[0] == '"'))
  {
    QuotesCons(v[..i + 1]);
    assert v[..i + 1][1..] == v[1..][..i];
  }

  ghost predicate AllHarmless(v: string, ws: bool, odd: bool) {
    forall i: nat :: i < |v| ==> HarmlessAfter(v, i, ws, odd)
  }

  lemma {:induction false} CutReachesEnd(v: string, ws: bool, odd: bool)
    ensures Cut(v, ws, odd) == |v| <==> AllHarmless(v, ws, odd)
  {
    if v != "" {
      var t, ws', odd' := v[1..], v[0] == ' ', odd != (v[0] == '"');
      CutReachesEnd(t, ws', odd');
      assert HarmlessAfter(v, 0, ws, odd) <==> !((ws || odd) && v[0] == ';');
      if AllHarmless(v, ws, odd) {
        forall i: nat | i < |t| ensures HarmlessAfter(t, i, ws', odd') {
          HarmlessTail(v, i, ws, odd);
        }
      }
      if AllHarmless(t, ws', odd') {
        forall i: nat | 0 < i < |v| ensures HarmlessAfter(v, i, ws, odd) {
          HarmlessTail(v, i - 1, ws, odd);
        }
      }
    }
  }

  lemma SurvivesIffNoCut(v: string)
    ensures Survives(v) <==> Cut(v, false, false) == |v|
  {
    CutReachesEnd(v, false, false);
    forall i: nat | i < |v| ensures HarmlessAt(v, i) <==> HarmlessAfter(v, i, false, false) {}
  }

  /** A harmful ';' comes after a blank or a quote mark. */
  lemma {:induction false} CutNotFirst(v: string, ws: bool, odd: bool)
    requires Cut(v, ws, odd) < |v|
    ensures Cut(v, ws, odd) == 0 ==> ws || odd
  {
  }

  lemma ReadBackShorter(v: string)
    requires Cut(v, false, false) < |v|
    ensures |ReadBack(v)| < |v|
  {
    CutNotFirst(v, false, false);
    StripBlanksKeeps(v[..Cut(v, false, false)]);
  }

  lemma ReadBackNoLonger(v: string)
    ensures |ReadBack(v)| <= |v|
  {
    if Cut(v, false, false) < |v| { ReadBackShorter(v); }
  }

  /** The exact survival condition: a value that is quoted comes back unchanged if and only
      if it has no NUL and every ';' in it is harmless; otherwise what comes back is shorter. */
  lemma ExactSurvival(v: string)
    requires !IsFloat(v)
    ensures ReadValue(PrintedValue(v)) == v <==> NulFree(v) && Survives(v)
    ensures !(NulFree(v) && Survives(v)) ==> |ReadValue(PrintedValue(v))| < |v|
  {
    hide ReadBack, Survives, UpToNul, ReadValue;
    var w := UpToNul(v);
    QuotedReadsBack(w);
    ReadBackNoLonger(w);
    if NulFree(v) { SurvivalOf(v); }
  }

  lemma SurvivalOf(v: string)
    ensures ReadBack(v) == v <==> Survives(v)
    ensures !Survives(v) ==> |ReadBack(v)| < |v|
  {
    SurvivesIffNoCut(v);
    if Cut(v, false, false) < |v| { ReadBackShorter(v); }
  }
}
