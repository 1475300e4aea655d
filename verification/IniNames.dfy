/**
 Which names survive. Whatever text is parsed, the names of the store it gives are
 writable; so the names of a store come back from its file if and only if they are.
 */
module IniNames {
  import opened CLocale
  import opened IniText
  import opened IniParse
  import opened IniPrint
  import opened IniBuffer
  import opened IniMeaning
  import opened IniRoundTrip

  /** Text of one line: no NUL, no line feed. */
  predicate OneLine(s: string) { NulFree(s) && '\n' !in s }

  lemma SliceOneLine(s: string, i: nat, j: nat)
    requires OneLine(s) && i <= j <= |s|
    ensures OneLine(s[i..j])
  {
  }

  lemma StripOneLine(s: string)
    requires OneLine(s)
    ensures OneLine(RStrip(s))
  {
    hide RStrip;
    StripIsPrefix(s);
    SliceOneLine(s, 0, |RStrip(s)|);
    assert RStrip(s) == s[0..|RStrip(s)|];
  }

  lemma SkipOneLine(s: string)
    requires OneLine(s)
    ensures OneLine(LSkip(s))
  {
    hide LSkip;
    var k := SkipIsSuffix(s);
    SliceOneLine(s, k, |s|);
    assert s[k..] == s[k..|s|];
  }

  lemma BodyShape(line: string, lineno: nat)
    requires OneLine(line)
    ensures var b := Body(line, lineno);
            OneLine(b) && (b != "" ==> !IsSpace(b[0]))
  {
    hide LSkip, RStrip;
    var l := if lineno == 1 && Bom <= line then line[3..] else line;
    SliceOneLine(line, |line| - |l|, |line|);
    assert l == line[|line| - |l|..|line|];
    SkipOneLine(l);
    StripOneLine(LSkip(l));
    var k := SkipIsSuffix(l);
    StripIsPrefix(LSkip(l));
  }

  // ----- what the two scans leave before them -----

  lemma {:induction false} FindBefore(s: string, c: char, ws: bool)
    ensures var t := s[..FindCharOrComment(s, c, ws)];
            c !in t && NoBlankSemicolon(t) && (ws && t != "" ==> t[0] != ';')
  {
    if !(s == "" || s[0] == c || (ws && s[0] == ';')) {
      FindBefore(s[1..], c, IsSpace(s[0]));
      var r := FindCharOrComment(s, c, ws);
      ConsBlank(s[0], s[1..][..r - 1]);
      assert s[..r] == [s[0]] + s[1..][..r - 1];
    }
  }

  lemma {:induction false} FindEqualBefore(s: string, ws: bool)
    ensures var t := s[..FindEqualOrComment(s, ws)];
            ':' !in t && '=' !in t && NoBlankSemicolon(t) && (ws && t != "" ==> t[0] != ';')
  {
    if !(s == "" || IsIniEqual(s[0]) || (ws && s[0] == ';')) {
      FindEqualBefore(s[1..], IsSpace(s[0]));
      var r := FindEqualOrComment(s, ws);
      ConsBlank(s[0], s[1..][..r - 1]);
      assert s[..r] == [s[0]] + s[1..][..r - 1];
    }
  }

  lemma ConsBlank(c: char, t: string)
    requires NoBlankSemicolon(t) && (IsSpace(c) && t != "" ==> t[0] != ';')
    ensures NoBlankSemicolon([c] + t)
  {
    var s := [c] + t;
    forall i | 0 < i < |s| && s[i] == ';' ensures !IsSpace(s[i - 1]) {
      if i > 1 { assert s[i] == t[i - 1] && s[i - 1] == t[i - 2]; }
    }
  }

  // ----- names -----

  lemma SectionWritable(body: string)
    requires OneLine(body) && body != ""
    ensures WritableSection(body[1..][..FindCharOrComment(body[1..], ']', false)])
  {
    hide FindCharOrComment, NoBlankSemicolon;
    var s := body[1..];
    var r := FindCharOrComment(s, ']', false);
    FindBefore(s, ']', false);
    SliceOneLine(body, 1, 1 + r);
    assert s[..r] == body[1..1 + r];
  }

  /** Lower-casing neither brings in nor hides a character that is not a letter. */
  lemma LowerKeeps(c: char)
    ensures IsSpace(ToLower(c)) <==> IsSpace(c)
    ensures (ToLower(c) == NUL <==> c == NUL) && (ToLower(c) == '\n' <==> c == '\n')
    ensures (ToLower(c) == ':' <==> c == ':') && (ToLower(c) == '=' <==> c == '=')
    ensures (ToLower(c) == ';' <==> c == ';') && (ToLower(c) == '#' <==> c == '#')
    ensures ToLower(c) == '[' <==> c == '['
  {
  }

  lemma LowerWritable(k: string)
    requires OneLine(k) && ':' !in k && '=' !in k && NoBlankSemicolon(k)
    requires k != "" ==> !IsSpace(k[0]) && !IsSpace(k[|k| - 1]) && k[0] !in {';', '#', '['}
    ensures WritableKey(Lower(k))
  {
    hide IsSpace, ToLower;
    var l := Lower(k);
    forall i | 0 <= i < |k|
      ensures l[i] != NUL && l[i] != '\n' && l[i] != ':' && l[i] != '=' && (l[i] == ';' <==> k[i] == ';')
      ensures IsSpace(l[i]) <==> IsSpace(k[i])
    {
      LowerKeeps(k[i]);
      assert k[i] in k;
    }
    if k != "" { LowerKeeps(k[0]); }
    LowerTwice(k);
  }

  lemma NoBlankPrefix(s: string, n: nat)
    requires NoBlankSemicolon(s) && n <= |s|
    ensures NoBlankSemicolon(s[..n])
  {
  }

  lemma KeyWritable(body: string)
    requires OneLine(body) && body != "" && !IsSpace(body[0]) && body[0] !in {';', '#', '['}
    ensures WritableKey(Lower(RStrip(body[..FindEqualOrComment(body, false)])))
  {
    hide FindEqualOrComment, RStrip, NoBlankSemicolon, WritableKey, IsSpace;
    var end := FindEqualOrComment(body, false);
    FindEqualBefore(body, false);
    SliceOneLine(body, 0, end);
    assert body[0..end] == body[..end];
    var k := RStrip(body[..end]);
    StripIsPrefix(body[..end]);
    StripOneLine(body[..end]);
    NoBlankPrefix(body[..end], |k|);
    assert k == body[..end][..|k|];
    if k != "" { assert k[0] == body[0]; }
    LowerWritable(k);
  }

  // ----- values -----

  lemma {:induction false} ValueNulFree(s: string)
    requires NulFree(s)
    ensures NulFree(ReadValue(s))
  {
    hide RStrip, FindCharOrComment, CommentCut, Unescape;
    var u := s[..FindCharOrComment(s, NUL, false)];
    var v := RStrip(u);
    StripIsPrefix(u);
    var w := v[..CommentCut(v, false)];
    StripIsPrefix(w);
    var x := RStrip(w);
    assert x == ValueText(s);
    assert NulFree(v) && NulFree(w) && NulFree(x);
    UnescapeNulFree(RemoveQuotes(x));
  }

  // ----- the parser -----

  /** Writable names and values without NUL. */
  ghost predicate CleanStore(m: Sections) {
    WritableStore(m) && forall s, k :: s in m && k in m[s] ==> NulFree(m[s][k])
  }

  /** The store is clean, and the name of the section being filled is writable. */
  ghost predicate GoodState(st: ParseState) {
    CleanStore(st.data) && (st.recent.Some? ==> WritableSection(st.recent.value))
  }

  lemma TouchWritable(data: Sections, section: string)
    requires CleanStore(data) && WritableSection(section)
    ensures CleanStore(Touch(data, section))
  {
    hide WritableSection, WritableKey, NulFree;
    var touched := Touch(data, section);
    forall s, k | s in touched && k in touched[s] ensures WritableKey(k) && NulFree(touched[s][k]) {
      assert s in data && k in data[s];
    }
  }

  lemma PutWritable(data: Sections, section: string, key: string, value: string)
    requires CleanStore(data) && WritableSection(section) && WritableKey(key) && NulFree(value)
    ensures CleanStore(Put(data, section, key, value))
  {
    hide WritableSection, WritableKey, NulFree;
  }

  lemma SectionKeeps(body: string, st: ParseState)
    requires GoodState(st) && OneLine(body) && body != "" && body[0] == '['
    ensures GoodState(DoSection(body, st))
  {
    hide FindCharOrComment, CleanStore, WritableSection, Touch;
    var end := FindCharOrComment(body[1..], ']', false);
    SectionWritable(body);
    if 1 + end < |body| && body[1 + end] == ']' {
      assert body[1..1 + end] == body[1..][..end];
      TouchWritable(st.data, body[1..1 + end]);
    }
  }

  lemma GeneralWritable()
    ensures WritableSection("General")
  {
  }

  lemma KeyKeeps(body: string, st: ParseState)
    requires GoodState(st) && OneLine(body) && body != "" && !IsSpace(body[0]) && body[0] !in {';', '#', '['}
    ensures GoodState(DoKey(body, st))
  {
    hide FindEqualOrComment, CleanStore, WritableSection, WritableKey, Put, ReadValue, LSkip, RStrip, IsSpace;
    var end := FindEqualOrComment(body, false);
    GeneralWritable();
    if end < |body| && IsIniEqual(body[end]) {
      var rest := body[end + 1..];
      SliceOneLine(body, end + 1, |body|);
      assert rest == body[end + 1..|body|];
      SkipOneLine(rest);
      ValueNulFree(LSkip(rest));
      KeyWritable(body);
      PutWritable(st.data, if st.recent.Some? then st.recent.value else "General",
                  Lower(RStrip(body[..end])), ReadValue(LSkip(rest)));
    }
  }

  lemma LineKeeps(line: string, st: ParseState)
    requires GoodState(st) && OneLine(line)
    ensures GoodState(DoLine(line, st))
  {
    hide Body, DoSection, DoKey, IsSpace, OneLine, CleanStore, WritableSection;
    var st' := st.(lineno := st.lineno + 1);
    var body := Body(line, st'.lineno);
    BodyShape(line, st'.lineno);
    if body == "" || body[0] == ';' || body[0] == '#' {
    } else if body[0] == '[' {
      SectionKeeps(body, st');
    } else {
      KeyKeeps(body, st');
    }
  }

  lemma {:induction false} TextKeeps(t: string, st: ParseState)
    requires GoodState(st) && NulFree(t)
    ensures GoodState(ParseText(t, st))
    decreases |t|
  {
    hide GoodState, DoLine, LineLength;
    if t != "" {
      LineOneLine(t);
      LineKeeps(t[..LineLength(t)], st);
      TextKeeps(RestAfter(t, LineLength(t)), DoLine(t[..LineLength(t)], st));
    }
  }

  lemma LineOneLine(t: string)
    requires NulFree(t)
    ensures OneLine(t[..LineLength(t)]) && NulFree(RestAfter(t, LineLength(t)))
  {
    hide LineLength;
  }

  /** Whatever text without NUL is loaded, errors or not, the store is one that can be
      saved: writable names, values without NUL. */
  lemma LoadedIsClean(t: string)
    requires NulFree(t)
    ensures CleanStore(Parse(t).data)
  {
    hide ParseText;
    TextKeeps(t, Start);
  }

  // ----- the results -----

  predicate SameNames(a: Sections, b: Sections) {
    a.Keys == b.Keys && forall s :: s in a && s in b ==> a[s].Keys == b[s].Keys
  }

  lemma NamesFromStore(a: Sections, b: Sections)
    requires WritableStore(a) && SameNames(a, b)
    ensures WritableStore(b)
  {
    hide WritableSection, WritableKey;
    forall s | s in b ensures WritableSection(s) { assert s in a.Keys; }
    forall s, k | s in b && k in b[s] ensures WritableKey(k) {
      assert s in a.Keys;
      assert k in a[s].Keys;
    }
  }

  /** For every store, whatever its names and values, and every iteration order: the
      section and key names come back from the file without an error if and only if they
      are writable. */
  lemma NamesComeBackIff(gs: Groups, m: Sections)
    requires Lists(gs, m)
    ensures var r := Parse(PrintFile(gs));
            r.error == 0 && SameNames(r.data, m) <==> WritableStore(m)
  {
    hide Parse, PrintFile, Lists, WritableSection, WritableKey, NulFree;
    var r := Parse(PrintFile(gs));
    FileNulFree(gs);
    LoadedIsClean(PrintFile(gs));
    if SameNames(r.data, m) { NamesFromStore(r.data, m); }
    if WritableStore(m) {
      FileReadsBack(gs, m);
      ReadBackNames(m);
    }
  }

  lemma ReadBackNames(m: Sections)
    ensures SameNames(ReadBackSections(m), m)
  {
    hide ValueReadBack;
  }

  /** So a file brings a store back exactly when its names are writable and its values
      numeric or without NUL and with harmless semicolons. */
  lemma StoreComesBackIff(gs: Groups, m: Sections)
    requires Lists(gs, m)
    ensures var r := Parse(PrintFile(gs));
            r.error == 0 && r.data == m <==> WritableStore(m) && AllSurvive(m)
  {
    hide Parse, PrintFile, Lists, WritableStore, AllSurvive;
    NamesComeBackIff(gs, m);
    if WritableStore(m) { WholeFileRoundTrip(gs, m); }
  }

  /** Loading any text without NUL, saving the store and loading that: no error, and the
      same store if and only if every value is numeric or survives quoting. */
  lemma LoadSaveLoad(t: string, gs: Groups)
    requires NulFree(t) && Lists(gs, Parse(t).data)
    ensures var m, r := Parse(t).data, Parse(PrintFile(gs));
            r.error == 0 && r.code == Ok && (r.data == m <==> AllSurvive(m))
  {
    hide Parse, PrintFile, Lists, AllSurvive;
    LoadedIsClean(t);
    WholeFileRoundTrip(gs, Parse(t).data);
  }
}
