/**
 Ordinary files from text to reading: a plain "key=value" line, a small file, a byte order
 mark, and what a reader who opens the file and begins the group gets.
 */
module IniPlain {
  import opened CLocale
  import IniErrors
  import opened IniText
  import opened IniParse
  import opened IniLines
  import opened IniGroups
  import opened IniRoundTrip
  import opened IniMeaning

  /** Every key line with an ordinary value stores just that value. */
  lemma PlainLineLoads(key: string, s: string, st: ParseState)
    requires WritableKey(key) && Plain(s)
    requires st.lineno > 0 || !HasMark(key + "=" + s)
    ensures var r := DoLine(key + "=" + s, st);
            var section := if st.recent == None then "General" else st.recent.value;
            && r == st.(lineno := st.lineno + 1, recent := Some(section), data := r.data)
            && Stores(st.data, section, key, s, r.data)
  {
    hide Body, DoBody, ReadValue, Stores, Lower, NulFree, HasMark;
    var line := key + "=" + s;
    PlainBody(key, s, st.lineno + 1);
    PlainSeparator(key, s);
    PlainReads(s);
    assert line[|key| + 1..] == s && line[..|key|] == key;
    KeyMeans(line, st.(lineno := st.lineno + 1), |key|, |key|, |key| + 1);
  }

  lemma PlainBody(key: string, s: string, lineno: nat)
    requires WritableKey(key) && Plain(s) && (lineno > 1 || !HasMark(key + "=" + s))
    ensures Body(key + "=" + s, lineno) == key + "=" + s
  {
    hide Body, HasMark, NulFree;
    var line := key + "=" + s;
    assert line[0..] == line && line[0..|line|] == line;
    if key != "" { assert line[0] == key[0]; }
    if s != "" { assert line[|line| - 1] == s[|s| - 1]; }
    BodyMeans(line, lineno, 0, |line|);
  }

  lemma PlainSeparator(key: string, s: string)
    requires WritableKey(key) && Plain(s)
    ensures var line := key + "=" + s;
            && FirstSeparator(line, |key|, false) && line[|key|] == '='
            && line[0] != ';' && line[0] != '#' && line[0] != '['
            && EndsText(line[..|key|], |key|) && StartsText(line[|key| + 1..], 0)
  {
    hide NulFree;
    var line := key + "=" + s;
    assert line[|key| + 1..] == s && line[..|key|] == key;
    if key != "" { assert line[0] == key[0]; }
    forall i: nat | i < |key| ensures !Separator(line[i]) && !BlankComment(line, i, false) {
      assert line[i] == key[i] && key[i] in key;
    }
  }

  /** A file with one section and one ordinary entry. */
  function SmallFile(section: string, key: string, s: string): (r: string) {
    "[" + section + "]\n" + key + "=" + s + "\n"
  }

  lemma SmallFileLoads(section: string, key: string, s: string)
    requires WritableSection(section) && WritableKey(key) && Plain(s) && '\n' !in s
    ensures var r := Parse(SmallFile(section, key, s));
            r.error == 0 && r.code == Ok && r.data == map[section := map[key := s]]
  {
    hide ParseText, DoLine, WritableSection, WritableKey, Plain;
    var header, line := ['['] + section + [']'], key + "=" + s;
    var rest := line + (['\n'] + "");
    assert SmallFile(section, key, s) == header + (['\n'] + rest);
    NamesOneLine(section, key);
    ParseOneLine(header, rest, Start);
    SectionParses(section, Start);
    var st := DoLine(header, Start);
    ParseOneLine(line, "", st);
    PlainLineLoads(key, s, st);
    var r := DoLine(line, st);
    NothingToParse(r);
    OneEntry(st.data, section, key, s, r.data);
  }

  lemma NamesOneLine(section: string, key: string)
    requires WritableSection(section) && WritableKey(key)
    ensures '\n' !in section && '\n' !in key
  {
  }

  lemma OneEntry(data: Sections, section: string, key: string, s: string, data': Sections)
    requires data == map[section := map[]] && Stores(data, section, key, s, data')
    ensures data' == map[section := map[key := s]]
  {
    assert data'[section].Keys == {key};
    assert data'[section] == map[key := s];
  }

  /** A byte order mark in front of a file makes no difference to what is loaded. */
  lemma MarkIgnored(t: string)
    requires !HasMark(t)
    ensures var r, p := Parse(Bom + t), Parse(t);
            r.data == p.data && r.error == p.error && r.code == p.code
    ensures HasMark(Bom + t)
  {
    hide ParseText, DoLine, LineLength;
    MarkIs(Bom + t);
    var k := LineLength(t);
    MarkLine(t);
    if t == "" {
      OnlyMark();
      NothingToParse(Start);
    } else {
      MarkedStep(t);
      FirstLine(t[..k], t);
    }
  }

  lemma MarkLine(t: string)
    ensures LineLength(Bom + t) == 3 + LineLength(t)
  {
    hide LineLength;
    var u := Bom + t;
    LineLengthStep(u);
    LineLengthStep(u[1..]);
    LineLengthStep(u[1..][1..]);
    assert u[1..][1..][1..] == t;
  }

  lemma OnlyMark()
    ensures Parse(Bom + "") == Start.(lineno := 1)
  {
    hide LineLength;
    MarkLine("");
    LineLengthEmpty();
    assert Bom + "" == Bom && Bom[..3] == Bom && Bom[3..] == "";
    assert DoLine(Bom, Start) == Start.(lineno := 1);
    NothingToParse(Start.(lineno := 1));
  }

  lemma MarkedStep(t: string)
    requires t != ""
    ensures ParseText(Bom + t, Start) == ParseText(RestAfter(t, LineLength(t)), DoLine(Bom + t[..LineLength(t)], Start))
    ensures ParseText(t, Start) == ParseText(RestAfter(t, LineLength(t)), DoLine(t[..LineLength(t)], Start))
  {
    hide LineLength, DoLine, ParseText;
    MarkLine(t);
    var u, k := Bom + t, LineLength(t);
    assert u[..3 + k] == Bom + t[..k];
    assert RestAfter(u, 3 + k) == RestAfter(t, k);
    IniErrors.TextStep(u, Start);
    IniErrors.TextStep(t, Start);
  }

  lemma FirstLine(line: string, t: string)
    requires line <= t && !HasMark(t)
    ensures DoLine(Bom + line, Start) == DoLine(line, Start)
  {
    hide Trim, DoBody;
    MarkIs(line);
    MarkIs(Bom + line);
    assert (Bom + line)[3..] == line;
  }

  // ----- without backslashes the in-place parser has nothing to fear -----

  lemma ValueWithoutBackslash(s: string)
    requires '\\' !in s
    ensures SafeValue(s)
  {
    hide RStrip, FindCharOrComment, CommentCut, Paired;
    var u := s[..FindCharOrComment(s, NUL, false)];
    StripIsPrefix(u);
    var v := RStrip(u);
    var w := v[..CommentCut(v, false)];
    StripIsPrefix(w);
    assert '\\' !in v && '\\' !in w && '\\' !in RStrip(w);
    PlainPaired(RemoveQuotes(ValueText(s)));
  }

  lemma LineWithoutBackslash(line: string, lineno: nat)
    requires '\\' !in line
    ensures SafeBody(Body(line, lineno))
  {
    hide SafeValue, Body, FindEqualOrComment, LSkip;
    BodyWithoutBackslash(line, lineno);
    var body := Body(line, lineno);
    var end := FindEqualOrComment(body, false);
    if end < |body| {
      SkipWithoutBackslash(body[end + 1..]);
      ValueWithoutBackslash(LSkip(body[end + 1..]));
    }
  }

  lemma SkipWithoutBackslash(s: string)
    requires '\\' !in s
    ensures '\\' !in LSkip(s)
  {
    hide LSkip;
    var k := SkipIsSuffix(s);
  }

  lemma BodyWithoutBackslash(line: string, lineno: nat)
    requires '\\' !in line
    ensures '\\' !in Body(line, lineno)
  {
    hide LSkip, RStrip;
    var l := if lineno == 1 && Bom <= line then line[3..] else line;
    SkipWithoutBackslash(l);
    StripIsPrefix(LSkip(l));
  }

  /** Every text without backslashes meets the in-place parser's precondition. */
  lemma {:induction false} TextWithoutBackslash(t: string, lineno: nat)
    requires '\\' !in t
    ensures SafeText(t, lineno)
    decreases |t|
  {
    hide SafeBody, Body, LineLength;
    if t != "" {
      LineWithoutBackslash(t[..LineLength(t)], lineno + 1);
      TextWithoutBackslash(RestAfter(t, LineLength(t)), lineno + 1);
    }
  }

  // ----- reading -----

  /** After opening, a group that was loaded gives each of its keys, whatever the case it is
      asked in; nothing is read from a store that did not open. */
  lemma OpenBeginRead(s: Store, data: Sections, ok: bool, group: string, key: string)
    requires s.current == Null && group in data
    ensures var r := Begin(Load(s, data, ok), group);
            && WellFormed(r) && r.current == At(group)
            && Find(r, key) == if ok && Lower(key) in data[group] then Some(data[group][Lower(key)]) else None
  {
  }

  /** From the text of a file to the value read. */
  lemma FileToReader(s: Store, section: string, key: string, v: string, asked: string)
    requires s.current == Null && WritableSection(section) && WritableKey(key) && Plain(v) && '\n' !in v
    requires |asked| == |key| && forall i :: 0 <= i < |key| ==> SameLetter(asked[i], key[i])
    ensures var p := Parse(SmallFile(section, key, v));
            var r := Begin(Load(s, p.data, p.error == 0), section);
            WellFormed(r) && r.current == At(section) && Find(r, asked) == Some(v)
  {
    hide Parse, SmallFile, WritableSection, Plain, SameLetter, ToLower;
    SmallFileLoads(section, key, v);
    forall i | 0 <= i < |key| ensures Lower(asked)[i] == key[i] {
      LowerEqual(asked[i], key[i]);
      assert Lower(key)[i] == key[i];
    }
    assert Lower(asked) == key;
    OpenBeginRead(s, Parse(SmallFile(section, key, v)).data, true, section, asked);
  }
}
