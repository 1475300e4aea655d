/**
 What a line of an INI file says, told by positions in the text and by the characters
 themselves: where a value ends, which quotes go, which backslashes escape, which section
 and key it is stored under. None of the parser's own helpers is used to say it.
 */
module IniMeaning {
  import opened CLocale
  import opened IniText
  import opened IniParse
  import opened IniSurvival

  predicate Blank(c: char) { c == ' ' || c == '\t' || c == '\n' || c == '\r' }

  // ----- blanks at either end -----

  lemma {:induction false} SkipIsSuffix(s: string) returns (k: nat)
    ensures k <= |s| && LSkip(s) == s[k..]
    ensures LSkip(s) != "" ==> !IsSpace(LSkip(s)[0])
  {
    k := 0;
    if s != "" && IsSpace(s[0]) {
      var j := SkipIsSuffix(s[1..]);
      k := j + 1;
    }
  }

  lemma {:induction false} StripIsPrefix(s: string)
    ensures RStrip(s) <= s
    ensures RStrip(s) != "" ==> !IsSpace(RStrip(s)[|RStrip(s)| - 1])
    ensures forall i :: |RStrip(s)| <= i < |s| ==> IsSpace(s[i])
  {
    if s != "" && IsSpace(s[|s| - 1]) { StripIsPrefix(s[..|s| - 1]); }
  }

  /** `e` is where the text of `s` ends, blanks behind it apart. */
  predicate EndsText(s: string, e: nat) {
    e <= |s| && (forall i :: e <= i < |s| ==> Blank(s[i])) && (e > 0 ==> !Blank(s[e - 1]))
  }

  /** `b` is where it starts. */
  predicate StartsText(s: string, b: nat) {
    b <= |s| && (forall i :: 0 <= i < b ==> Blank(s[i])) && (b < |s| ==> !Blank(s[b]))
  }

  lemma {:induction false} StripAt(s: string, e: nat)
    requires EndsText(s, e)
    ensures RStrip(s) == s[..e]
  {
    if e < |s| {
      var t := s[..|s| - 1];
      StripAt(t, e);
      assert t[..e] == s[..e];
    } else {
      assert s[..e] == s;
    }
  }

  lemma {:induction false} SkipAt(s: string, b: nat)
    requires StartsText(s, b)
    ensures LSkip(s) == s[b..]
  {
    if b > 0 {
      assert forall i :: 0 <= i < b - 1 ==> s[1..][i] == s[i + 1];
      SkipAt(s[1..], b - 1);
      assert s[1..][b - 1..] == s[b..];
    }
  }

  // ----- where a scan stops -----

  /** A ';' right behind a blank; `ws` is whether one stands before the text. */
  predicate BlankComment(s: string, i: nat, ws: bool)
    requires i < |s|
  {
    s[i] == ';' && if i == 0 then ws else Blank(s[i - 1])
  }

  /** `k` is the first `c` or such a ';', or the end. */
  predicate FirstStop(s: string, c: char, k: nat, ws: bool) {
    && k <= |s|
    && (forall i: nat :: i < k ==> s[i] != c && !BlankComment(s, i, ws))
    && (k < |s| ==> s[k] == c || BlankComment(s, k, ws))
  }

  predicate Separator(c: char) { c == ':' || c == '=' }

  predicate FirstSeparator(s: string, k: nat, ws: bool) {
    && k <= |s|
    && (forall i: nat :: i < k ==> !Separator(s[i]) && !BlankComment(s, i, ws))
    && (k < |s| ==> Separator(s[k]) || BlankComment(s, k, ws))
  }

  lemma CommentTail(s: string, i: nat, ws: bool)
    requires i + 1 < |s|
    ensures BlankComment(s, i + 1, ws) <==> BlankComment(s[1..], i, Blank(s[0]))
  {
  }

  lemma {:induction false} StopsAt(s: string, c: char, k: nat, ws: bool)
    requires FirstStop(s, c, k, ws)
    ensures FindCharOrComment(s, c, ws) == k
  {
    if k > 0 {
      var t := s[1..];
      assert s[0] != c && !BlankComment(s, 0, ws);
      forall i: nat | i < k - 1 ensures t[i] != c && !BlankComment(t, i, Blank(s[0])) {
        CommentTail(s, i, ws);
        assert s[i + 1] != c && !BlankComment(s, i + 1, ws);
      }
      if k < |s| { CommentTail(s, k - 1, ws); }
      StopsAt(t, c, k - 1, Blank(s[0]));
    }
  }

  lemma {:induction false} SeparatesAt(s: string, k: nat, ws: bool)
    requires FirstSeparator(s, k, ws)
    ensures FindEqualOrComment(s, ws) == k
  {
    if k > 0 {
      var t := s[1..];
      assert !Separator(s[0]) && !BlankComment(s, 0, ws);
      forall i: nat | i < k - 1 ensures !Separator(t[i]) && !BlankComment(t, i, Blank(s[0])) {
        CommentTail(s, i, ws);
        assert !Separator(s[i + 1]) && !BlankComment(s, i + 1, ws);
      }
      if k < |s| { CommentTail(s, k - 1, ws); }
      SeparatesAt(t, k - 1, Blank(s[0]));
    }
  }

  /** A ';' with an even number of quote marks before it, `odd` telling of those before the
      text. */
  predicate OpenSemicolon(s: string, i: nat, odd: bool)
    requires i < |s|
  {
    s[i] == ';' && (Quotes(s[..i]) % 2 == 1) == odd
  }

  predicate FirstOpen(s: string, k: nat, odd: bool) {
    k <= |s| && (forall i: nat :: i < k ==> !OpenSemicolon(s, i, odd)) && (k < |s| ==> OpenSemicolon(s, k, odd))
  }

  lemma OpenTail(s: string, i: nat, odd: bool)
    requires i + 1 < |s|
    ensures OpenSemicolon(s, i + 1, odd) <==> OpenSemicolon(s[1..], i, odd != (s[0] == '"'))
  {
    QuotesCons(s[..i + 1]);
    assert s[..i + 1][1..] == s[1..][..i];
  }

  lemma {:induction false} CutsAt(s: string, k: nat, odd: bool)
    requires FirstOpen(s, k, odd)
    ensures CommentCut(s, odd) == k
  {
    if k > 0 {
      var t, odd' := s[1..], odd != (s[0] == '"');
      assert !OpenSemicolon(s, 0, odd);
      forall i: nat | i < k - 1 ensures !OpenSemicolon(t, i, odd') {
        OpenTail(s, i, odd);
        assert !OpenSemicolon(s, i + 1, odd);
      }
      if k < |s| { OpenTail(s, k - 1, odd); }
      CutsAt(t, k - 1, odd');
    }
  }

  // ----- the text of a value -----

  /** Where a comment starts: a ';' behind a blank, or with an even number of quote marks
      before it. */
  predicate CommentAt(s: string, i: nat)
    requires i < |s|
  {
    BlankComment(s, i, false) || OpenSemicolon(s, i, false)
  }

  predicate FirstComment(s: string, k: nat) {
    k <= |s| && (forall i: nat :: i < k ==> !CommentAt(s, i)) && (k < |s| ==> CommentAt(s, k))
  }

  lemma {:induction false} StopExists(s: string, n: nat) returns (k: nat)
    requires NulFree(s) && n <= |s| && forall i: nat :: i < n ==> !BlankComment(s, i, false)
    ensures FirstStop(s, NUL, k, false)
    decreases |s| - n
  {
    if n == |s| || BlankComment(s, n, false) {
      k := n;
    } else {
      k := StopExists(s, n + 1);
    }
  }

  lemma OpenInPrefix(s: string, n: nat, i: nat)
    requires i < n <= |s|
    ensures OpenSemicolon(s[..n], i, false) <==> OpenSemicolon(s, i, false)
  {
    assert s[..n][..i] == s[..i];
  }

  /** No comment in front of `n` means that nothing is cut off it. */
  lemma UncutPrefix(s: string, n: nat)
    requires n <= |s| && forall i: nat :: i < n ==> !CommentAt(s, i)
    ensures CommentCut(s[..n], false) == n
  {
    hide OpenSemicolon, CommentCut;
    forall i: nat | i < n ensures !OpenSemicolon(s[..n], i, false) {
      OpenInPrefix(s, n, i);
      assert !CommentAt(s, i);
    }
    CutsAt(s[..n], n, false);
  }

  lemma CutPrefix(s: string, n: nat, k: nat)
    requires k < n <= |s| && OpenSemicolon(s, k, false) && forall i: nat :: i < k ==> !CommentAt(s, i)
    ensures CommentCut(s[..n], false) == k
  {
    hide OpenSemicolon, CommentCut;
    forall i: nat | i < k ensures !OpenSemicolon(s[..n], i, false) {
      OpenInPrefix(s, n, i);
      assert !CommentAt(s, i);
    }
    OpenInPrefix(s, n, k);
    CutsAt(s[..n], k, false);
  }

  /** The text of a value ends before its first comment and the blanks in front of that. */
  lemma ValueTextEnds(s: string, k: nat, e: nat)
    requires NulFree(s) && FirstComment(s, k) && EndsText(s[..k], e)
    ensures ValueText(s) == s[..e]
  {
    hide FindCharOrComment, CommentCut, RStrip, OpenSemicolon, NulFree;
    var j := StopExists(s, 0);
    StopsAt(s, NUL, j, false);
    if j < |s| { StopIsComment(s, j); }
    assert k <= j;
    if k == j {
      StripAt(s[..k], e);
      assert s[..k][..e] == s[..e];
      UncutPrefix(s, e);
      assert s[..e][..e] == s[..e];
      assert EndsText(s[..e], e);
      StripAt(s[..e], e);
    } else {
      assert OpenSemicolon(s, k, false);
      StripIsPrefix(s[..j]);
      var n := |RStrip(s[..j])|;
      assert RStrip(s[..j]) == s[..n];
      assert n > k by { if n <= k { assert IsSpace(s[..j][k]); SemicolonNotBlank(s, k); } }
      CutPrefix(s, n, k);
      assert s[..n][..k] == s[..k];
      StripAt(s[..k], e);
      assert s[..k][..e] == s[..e];
    }
  }

  lemma StopIsComment(s: string, j: nat)
    requires NulFree(s) && j < |s| && FirstStop(s, NUL, j, false)
    ensures CommentAt(s, j)
  {
  }

  lemma SemicolonNotBlank(s: string, k: nat)
    requires k < |s| && OpenSemicolon(s, k, false)
    ensures !IsSpace(s[k])
  {
  }

  // ----- escapes -----

  /** Backslashes right before position `i`. */
  function RunBefore(t: string, i: nat): (r: nat)
    requires i <= |t|
  {
    if i == 0 || t[i - 1] != '\\' then 0 else 1 + RunBefore(t, i - 1)
  }

  /** A backslash escapes when an even number of them stands right before it. */
  predicate Escapes(t: string, i: nat)
    requires i < |t|
  {
    t[i] == '\\' && RunBefore(t, i) % 2 == 0
  }

  const EscapeNames := "nrt"
  const EscapeChars := "\n\r\t"

  /** An escaped letter of the table stands for its control character, any other for itself. */
  predicate StandsFor(c: char, x: char) {
    if exists i :: 0 <= i < 3 && EscapeNames[i] == c
    then exists i :: 0 <= i < 3 && EscapeNames[i] == c && EscapeChars[i] == x
    else x == c
  }

  function CharFrom(t: string, i: nat): (r: string)
    requires i < |t|
  {
    if Escapes(t, i) then ""
    else if i > 0 && Escapes(t, i - 1) then
      [if t[i] == 'n' then '\n' else if t[i] == 'r' then '\r' else if t[i] == 't' then '\t' else t[i]]
    else [t[i]]
  }

  lemma EscapeTable(t: string, i: nat)
    requires 0 < i < |t| && Escapes(t, i - 1)
    ensures |CharFrom(t, i)| == 1 && StandsFor(t[i], CharFrom(t, i)[0])
  {
    assert EscapeNames[0] == 'n' && EscapeNames[1] == 'r' && EscapeNames[2] == 't';
    assert EscapeChars[0] == '\n' && EscapeChars[1] == '\r' && EscapeChars[2] == '\t';
  }

  /** The first `n` characters of `t`, each by itself. */
  function DecodedTo(t: string, n: nat): (r: string)
    requires n <= |t|
  {
    if n == 0 then "" else DecodedTo(t, n - 1) + CharFrom(t, n - 1)
  }

  lemma DecodedStep(t: string, i: nat)
    requires i < |t|
    ensures DecodedTo(t, i + 1) == DecodedTo(t, i) + CharFrom(t, i)
  {
  }

  lemma UnescapeSteps(t: string, i: nat)
    requires i < |t|
    ensures t[i] != '\\' ==> Unescape(t[i..]) == [t[i]] + Unescape(t[i + 1..])
    ensures t[i] == '\\' && i + 1 == |t| ==> Unescape(t[i..]) == ""
    ensures t[i] == '\\' && i + 1 < |t| ==>
              Unescape(t[i..]) == [UnescapeChar(t[i + 1])] + Unescape(t[i + 2..])
  {
    assert t[i..][1..] == t[i + 1..];
    if i + 1 < |t| { assert t[i..][2..] == t[i + 2..]; }
  }

  lemma {:induction false} UnescapeFrom(t: string, i: nat)
    requires i <= |t| && RunBefore(t, i) % 2 == 0
    ensures DecodedTo(t, |t|) == DecodedTo(t, i) + Unescape(t[i..])
    decreases |t| - i
  {
    hide Unescape, DecodedTo, RunBefore;
    if i == |t| {
      UnescapeNothing(t[i..]);
    } else {
      UnescapeSteps(t, i);
      DecodedStep(t, i);
      RunNext(t, i);
      if i > 0 { RunNext(t, i - 1); }
      if t[i] != '\\' {
        assert CharFrom(t, i) == [t[i]];
        UnescapeFrom(t, i + 1);
        Associate(DecodedTo(t, i), [t[i]], Unescape(t[i + 1..]));
      } else if i + 1 == |t| {
        assert CharFrom(t, i) == "";
      } else {
        assert CharFrom(t, i) == "" && DecodedTo(t, i) + "" == DecodedTo(t, i);
        DecodedStep(t, i + 1);
        RunNext(t, i + 1);
        assert CharFrom(t, i + 1) == [UnescapeChar(t[i + 1])];
        UnescapeFrom(t, i + 2);
        Associate(DecodedTo(t, i), [UnescapeChar(t[i + 1])], Unescape(t[i + 2..]));
      }
    }
  }

  lemma UnescapeNothing(t: string)
    requires t == ""
    ensures Unescape(t) == ""
  {
  }

  lemma RunNext(t: string, i: nat)
    requires i < |t|
    ensures RunBefore(t, i + 1) == if t[i] == '\\' then RunBefore(t, i) + 1 else 0
  {
  }

  /** Every escape counts by its position alone; a final one that escapes nothing is dropped. */
  lemma UnescapeMeans(t: string)
    ensures Unescape(t) == DecodedTo(t, |t|)
  {
    hide Unescape, DecodedTo, RunBefore;
    AtStart(t);
    UnescapeFrom(t, 0);
    assert t[0..] == t && "" + Unescape(t) == Unescape(t);
  }

  lemma AtStart(t: string)
    ensures RunBefore(t, 0) == 0 && DecodedTo(t, 0) == ""
  {
  }

  lemma {:induction false} NothingEscaped(t: string, n: nat)
    requires n <= |t| && '\\' !in t
    ensures DecodedTo(t, n) == t[..n]
  {
    if n > 0 {
      NothingEscaped(t, n - 1);
      assert t[n - 1] in t;
      if n > 1 { assert t[n - 2] in t; }
      assert t[..n] == t[..n - 1] + [t[n - 1]];
    }
  }

  lemma {:induction false} PlainPaired(t: string)
    requires '\\' !in t
    ensures Paired(t)
  {
    if t != "" { PlainPaired(t[1..]); }
  }

  // ----- the value -----

  /** Where the characters of a value text [0, e) start and end, its quote marks apart: the
      opening one goes when anything follows it, the closing one only together with it. */
  function ValueStart(s: string, e: nat): (r: nat)
    requires e <= |s|
    ensures r <= e
  {
    if e >= 2 && s[0] == '"' then 1 else 0
  }

  function ValueEnd(s: string, e: nat): (r: nat)
    requires e <= |s|
    ensures ValueStart(s, e) <= r <= e
  {
    if e >= 2 && s[0] == '"' && s[e - 1] == '"' then e - 1 else e
  }

  /** What a value reads as, for every text without NUL. */
  lemma ReadValueMeans(s: string, k: nat, e: nat)
    requires NulFree(s) && FirstComment(s, k) && EndsText(s[..k], e)
    ensures var t := s[ValueStart(s, e)..ValueEnd(s, e)];
            ReadValue(s) == DecodedTo(t, |t|)
  {
    hide ValueText, Unescape, DecodedTo, NulFree;
    ValueTextEnds(s, k, e);
    QuotesGone(s, e);
    UnescapeMeans(s[ValueStart(s, e)..ValueEnd(s, e)]);
  }

  lemma QuotesGone(s: string, e: nat)
    requires e <= |s|
    ensures RemoveQuotes(s[..e]) == s[ValueStart(s, e)..ValueEnd(s, e)]
  {
    var t := s[..e];
    if e >= 2 {
      assert t[0] == s[0] && t[e - 1] == s[e - 1];
      assert t[1..] == s[1..e] && t[1..e - 1] == s[1..e - 1];
    }
    assert s[0..e] == t;
  }

  /** An ordinary value: no blank at either end, not quoted, no backslash, no semicolon. */
  predicate Plain(s: string) {
    && NulFree(s) && '\\' !in s && ';' !in s
    && (s != "" ==> !Blank(s[0]) && !Blank(s[|s| - 1]) && s[0] != '"')
  }

  /** It reads as it stands. */
  lemma PlainReads(s: string)
    requires Plain(s)
    ensures ReadValue(s) == s
  {
    hide DecodedTo, ReadValue;
    forall i: nat | i < |s| ensures !CommentAt(s, i) { assert s[i] in s; }
    assert s[..|s|] == s;
    ReadValueMeans(s, |s|, |s|);
    assert s[0..|s|] == s;
    NothingEscaped(s, |s|);
  }

  /** And so does one in quotes, blanks and semicolons included. */
  lemma QuotedReads(s: string)
    requires NulFree(s) && '\\' !in s && '"' !in s && forall i: nat :: i < |s| ==> !BlankComment(s, i, false)
    ensures ReadValue(['"'] + s + ['"']) == s
  {
    hide DecodedTo, ReadValue;
    var q := ['"'] + s + ['"'];
    forall i: nat | i < |q| ensures !CommentAt(q, i) {
      if 0 < i <= |s| {
        OneQuote(s, i);
        assert q[..i] == ['"'] + s[..i - 1];
        assert !BlankComment(s, i - 1, false);
      }
    }
    assert q[..|q|] == q;
    ReadValueMeans(q, |q|, |q|);
    assert q[1..|q| - 1] == s;
    NothingEscaped(s, |s|);
    assert s[..|s|] == s;
  }

  lemma OneQuote(s: string, i: nat)
    requires '"' !in s && 0 < i <= |s|
    ensures Quotes(['"'] + s[..i - 1]) == 1
  {
    NoQuotes(s[..i - 1]);
    var q := ['"'] + s[..i - 1];
    QuotesCons(q);
    assert q[1..] == s[..i - 1];
  }

  lemma {:induction false} NoQuotes(s: string)
    requires '"' !in s
    ensures Quotes(s) == 0
  {
    if s != "" { NoQuotes(s[..|s| - 1]); }
  }

  // ----- lines -----

  /** The byte order mark by its codes. */
  predicate HasMark(line: string) {
    |line| >= 3 && line[0] as int == 0xEF && line[1] as int == 0xBB && line[2] as int == 0xBF
  }

  /** Blanks around a line do not count, nor does a byte order mark on the first one. */
  lemma BodyMeans(line: string, lineno: nat, b: nat, e: nat)
    requires var skip := if lineno == 1 && HasMark(line) then 3 else 0;
             skip <= b <= e <= |line| && StartsText(line[skip..], b - skip) && EndsText(line[b..], e - b)
    ensures Body(line, lineno) == line[b..e]
  {
    hide LSkip, RStrip, StartsText, EndsText;
    MarkIs(line);
    var skip := if lineno == 1 && HasMark(line) then 3 else 0;
    assert line[0..] == line;
    SkipAt(line[skip..], b - skip);
    assert line[skip..][b - skip..] == line[b..];
    StripAt(line[b..], e - b);
    assert line[b..][..e - b] == line[b..e];
  }

  lemma MarkIs(line: string)
    ensures HasMark(line) <==> Bom <= line
  {
    if HasMark(line) {
      assert line[0] == 0xEF as char && line[1] == 0xBB as char && line[2] == 0xBF as char;
      assert line[..3] == Bom;
    }
  }

  /** Sections with an entry stored, the section made when it is missing. */
  ghost predicate Stores(data: Sections, section: string, key: string, value: string, data': Sections) {
    && data'.Keys == data.Keys + {section}
    && (forall s :: s in data && s != section ==> data'[s] == data[s])
    && section in data' && key in data'[section] && data'[section][key] == value
    && (forall k :: k != key ==>
          (k in data'[section] <==> section in data && k in data[section]) &&
          (section in data && k in data[section] ==> k in data'[section] && data'[section][k] == data[section][k]))
  }

  lemma PutStores(data: Sections, section: string, key: string, value: string)
    ensures Stores(data, section, key, value, Put(data, section, key, value))
  {
  }

  /** A key line: the name before the first separator, in lower case and without blanks
      around it, and the value behind it, go into the section opened last, or into "General"
      when none was. */
  lemma KeyMeans(body: string, st: ParseState, p: nat, n: nat, v: nat)
    requires body != "" && body[0] != ';' && body[0] != '#' && body[0] != '['
    requires p < |body| && FirstSeparator(body, p, false) && Separator(body[p])
    requires EndsText(body[..p], n) && p < v && StartsText(body[p + 1..], v - p - 1)
    ensures var r := DoBody(body, st);
            var section := if st.recent == None then "General" else st.recent.value;
            && r == st.(recent := Some(section), data := r.data)
            && Stores(st.data, section, Lower(body[..n]), ReadValue(body[v..]), r.data)
  {
    hide FindEqualOrComment, RStrip, LSkip, ReadValue, Put, Stores, Lower;
    SeparatesAt(body, p, false);
    StripAt(body[..p], n);
    assert body[..p][..n] == body[..n];
    SkipAt(body[p + 1..], v - p - 1);
    assert body[p + 1..][v - p - 1..] == body[v..];
    PutStores(st.data, if st.recent == None then "General" else st.recent.value, Lower(body[..n]), ReadValue(body[v..]));
  }

  /** Without a separator before any comment the line is a key error, reported if it is the
      first. */
  lemma KeyErrorMeans(body: string, st: ParseState, p: nat)
    requires body != "" && body[0] != ';' && body[0] != '#' && body[0] != '['
    requires FirstSeparator(body, p, false) && (p < |body| ==> !Separator(body[p]))
    ensures DoBody(body, st) == if st.error == 0 then st.(error := st.lineno, code := KeySyntax) else st
  {
    hide FindEqualOrComment;
    SeparatesAt(body, p, false);
  }

  /** A header opens the section between its brackets, making it when it is missing. */
  lemma SectionMeans(body: string, st: ParseState, q: nat)
    requires body != "" && body[0] == '[' && q + 1 < |body| && body[q + 1] == ']' && FirstStop(body[1..], ']', q, false)
    ensures var name := body[1..q + 1];
            var r := DoBody(body, st);
            && r == st.(recent := Some(name), data := r.data)
            && r.data == if name in st.data then st.data else st.data[name := map[]]
  {
    hide FindCharOrComment;
    StopsAt(body[1..], ']', q, false);
  }

  lemma SectionErrorMeans(body: string, st: ParseState, q: nat)
    requires body != "" && body[0] == '[' && FirstStop(body[1..], ']', q, false)
    requires q + 1 < |body| ==> body[q + 1] != ']'
    ensures DoBody(body, st) == if st.error == 0 then st.(error := st.lineno, code := SectionSyntax) else st
  {
    hide FindCharOrComment;
    StopsAt(body[1..], ']', q, false);
  }

  /** Blank lines and comment lines say nothing. */
  lemma SilentMeans(body: string, st: ParseState)
    ensures body == "" || body[0] == ';' || body[0] == '#' ==> DoBody(body, st) == st
  {
  }
}
