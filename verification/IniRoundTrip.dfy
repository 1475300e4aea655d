/**
 Writing a store and parsing the text back. Names must be writable; values may be
 anything, and the result says exactly what each of them becomes.
 */
module IniRoundTrip {
  import opened CLocale
  import opened IniText
  import opened IniParse
  import opened IniPrint
  import opened IniSurvival

  ghost predicate NoBlankSemicolon(s: string) {
    forall i :: 0 < i < |s| && s[i] == ';' ==> !IsSpace(s[i - 1])
  }

  ghost predicate WritableSection(name: string) {
    NulFree(name) && '\n' !in name && ']' !in name && NoBlankSemicolon(name)
  }

  ghost predicate WritableKey(key: string) {
    && NulFree(key) && '\n' !in key && ':' !in key && '=' !in key
    && NoBlankSemicolon(key) && IsLower(key)
    && (key != "" ==> !IsSpace(key[0]) && !IsSpace(key[|key| - 1]) && key[0] !in {';', '#', '['})
  }

  /** A value as print-then-parse returns it. */
  function ValueReadBack(v: string): (r: string) {
    if IsFloat(v) then v else ReadBack(UpToNul(v))
  }

  // ----- one line -----

  lemma {:induction false} LineLengthOf(line: string, rest: string)
    requires '\n' !in line
    ensures LineLength(line + (['\n'] + rest)) == |line|
  {
    var t := line + (['\n'] + rest);
    if line == "" {
      assert t == ['\n'] + rest;
    } else {
      LineLengthOf(line[1..], rest);
      assert t[1..] == line[1..] + (['\n'] + rest);
    }
  }

  lemma ParseOneLine(line: string, rest: string, st: ParseState)
    requires '\n' !in line
    ensures ParseText(line + (['\n'] + rest), st) == ParseText(rest, DoLine(line, st))
  {
    hide DoLine, LineLength;
    var t := line + (['\n'] + rest);
    LineLengthOf(line, rest);
    assert t[..|line|] == line && t[|line| + 1..] == rest;
  }

  lemma {:induction false} FindEqualPast(k: string, ws: bool, rest: string)
    requires ':' !in k && '=' !in k && NoBlankSemicolon(k)
    requires ws ==> k == "" || k[0] != ';'
    requires rest != "" && rest[0] == '='
    ensures FindEqualOrComment(k + rest, ws) == |k|
  {
    if k == "" {
      assert k + rest == rest;
    } else {
      FindEqualPast(k[1..], IsSpace(k[0]), rest);
      assert (k + rest)[1..] == k[1..] + rest;
    }
  }

  lemma {:induction false} FindBracketPast(name: string, ws: bool)
    requires ']' !in name && NoBlankSemicolon(name)
    requires ws ==> name == "" || name[0] != ';'
    ensures FindCharOrComment(name + [']'], ']', ws) == |name|
  {
    if name == "" {
      assert name + [']'] == [']'];
    } else {
      FindBracketPast(name[1..], IsSpace(name[0]));
      assert (name + [']'])[1..] == name[1..] + [']'];
    }
  }

  lemma {:induction false} FindNothing(s: string, ws: bool)
    requires NulFree(s) && ';' !in s
    ensures FindCharOrComment(s, NUL, ws) == |s|
  {
    if s != "" { FindNothing(s[1..], IsSpace(s[0])); }
  }

  lemma {:induction false} CutNothing(s: string, quoted: bool)
    requires ';' !in s && '"' !in s
    ensures CommentCut(s, quoted) == |s|
  {
    if s != "" { CutNothing(s[1..], quoted); }
  }

  lemma {:induction false} UnescapePlain(s: string)
    requires '\\' !in s
    ensures Unescape(s) == s
  {
    if s != "" { UnescapePlain(s[1..]); }
  }

  lemma PrintedReadsBack(v: string)
    ensures ReadValue(PrintedValue(v)) == ValueReadBack(v)
  {
    hide RStrip, FindCharOrComment, CommentCut, FloatRun;
    if IsFloat(v) {
      FloatCharacters(v, Sign);
      FindNothing(v, false);
      CutNothing(v, false);
      UnescapePlain(v);
      assert v[..|v|] == v;
      if v != "" { assert v[|v| - 1] in v; }
      NothingToStrip(v);
    } else {
      QuotedReadsBack(UpToNul(v));
    }
  }

  lemma {:induction false} EscapeNoNewline(v: string)
    ensures '\n' !in Escape(v)
  {
    if v != "" { EscapeNoNewline(v[1..]); }
  }

  lemma PrintedShape(v: string)
    ensures '\n' !in PrintedValue(v)
    ensures var p := PrintedValue(v); p != "" ==> !IsSpace(p[0]) && !IsSpace(p[|p| - 1])
  {
    if IsFloat(v) {
      FloatCharacters(v, Sign);
      if v != "" { assert v[0] in v && v[|v| - 1] in v; }
    } else {
      EscapeNoNewline(UpToNul(v));
    }
  }

  lemma NothingToSkip(s: string)
    requires s == "" || !IsSpace(s[0])
    ensures LSkip(s) == s
  {
  }

  /** A trimmed "key = value" line, whatever blanks the empty key or value lost. */
  function EntryLeft(key: string): (r: string) { if key == "" then "" else key + [' '] }

  function EntryRight(p: string): (r: string) { if p == "" then "" else [' '] + p }

  function EntryBody(key: string, p: string): (r: string) {
    EntryLeft(key) + (['='] + EntryRight(p))
  }

  lemma SkipLeft(key: string, tail: string)
    requires key != "" ==> !IsSpace(key[0])
    requires tail != "" && !IsSpace(tail[0])
    ensures LSkip(key + ([' '] + tail)) == EntryLeft(key) + tail
  {
    var line := key + ([' '] + tail);
    if key == "" {
      assert line == [' '] + tail && line[1..] == tail;
      NothingToSkip(tail);
    } else {
      NothingToSkip(line);
      assert line == EntryLeft(key) + tail;
    }
  }

  lemma StripOneSpace(s: string)
    requires s != "" ==> !IsSpace(s[|s| - 1])
    ensures RStrip(s + [' ']) == s
  {
    assert (s + [' '])[..|s|] == s;
  }

  lemma StripRight(front: string, p: string)
    requires front != "" && !IsSpace(front[|front| - 1])
    requires p != "" ==> !IsSpace(p[|p| - 1])
    ensures RStrip(front + ([' '] + p)) == front + EntryRight(p)
  {
    hide RStrip, EntryRight, IsSpace;
    if p == "" {
      StripRightBlank(front, p);
    } else {
      StripRightKeeps(front + ([' '] + p), front, p);
    }
  }

  lemma StripRightBlank(front: string, p: string)
    requires front != "" && !IsSpace(front[|front| - 1]) && p == ""
    ensures RStrip(front + ([' '] + p)) == front + EntryRight(p)
  {
    hide RStrip, IsSpace;
    assert [' '] + p == [' '];
    assert front + "" == front;
    StripOneSpace(front);
  }

  lemma StripRightKeeps(s: string, front: string, p: string)
    requires s == front + ([' '] + p) && p != "" && !IsSpace(p[|p| - 1])
    ensures RStrip(s) == front + EntryRight(p)
  {
    hide RStrip, IsSpace;
    LastOf(front, [' '] + p);
    NothingToStrip(s);
  }

  lemma LastOf(a: string, b: string)
    requires b != ""
    ensures a + b != "" && (a + b)[|a + b| - 1] == b[|b| - 1]
  {
  }

  lemma Regroup(a: string, b: string, c: string)
    ensures (a + b) + c == a + (b + c)
  {
  }

  lemma TrimEntry(key: string, p: string)
    requires key != "" ==> !IsSpace(key[0])
    requires p != "" ==> !IsSpace(p[|p| - 1])
    ensures Trim(key + " = " + p) == EntryBody(key, p)
  {
    hide LSkip, RStrip, EntryLeft, EntryRight;
    var tail := ['='] + ([' '] + p);
    assert key + " = " + p == key + ([' '] + tail) by {
      Regroup(key, " = ", p);
      assert " = " + p == [' '] + tail;
    }
    SkipLeft(key, tail);
    var left := EntryLeft(key);
    StripRight(left + ['='], p);
    Regroup(left, ['='], [' '] + p);
    Regroup(left, ['='], EntryRight(p));
  }

  lemma StripName(key: string)
    requires key != "" ==> !IsSpace(key[|key| - 1])
    ensures RStrip(EntryLeft(key)) == key
  {
    hide RStrip;
    NothingToStrip(key);
    StripOneSpace(key);
  }

  lemma SkipValue(p: string)
    requires p != "" ==> !IsSpace(p[0])
    ensures LSkip(EntryRight(p)) == p
  {
    NothingToSkip(p);
    if p != "" { assert EntryRight(p)[1..] == p; }
  }

  lemma EntrySeparator(key: string, p: string)
    requires WritableKey(key)
    ensures FindEqualOrComment(EntryBody(key, p), false) == |EntryLeft(key)|
  {
    var left := EntryLeft(key);
    assert ':' !in left && '=' !in left && NoBlankSemicolon(left);
    FindEqualPast(left, false, ['='] + EntryRight(p));
  }

  lemma EntryPieces(key: string, p: string)
    requires WritableKey(key)
    requires p != "" ==> !IsSpace(p[0])
    ensures var b := EntryBody(key, p);
            var end := FindEqualOrComment(b, false);
            && end < |b| && b[end] == '='
            && RStrip(b[..end]) == key
            && LSkip(b[end + 1..]) == p
  {
    hide LSkip, RStrip, FindEqualOrComment, EntryLeft, EntryRight;
    EntrySeparator(key, p);
    StripName(key);
    SkipValue(p);
    var left, b := EntryLeft(key), EntryBody(key, p);
    assert b[..|left|] == left;
    assert b[|left| + 1..] == EntryRight(p);
  }

  lemma EntryFirst(key: string, p: string)
    requires WritableKey(key)
    ensures EntryBody(key, p) != "" && EntryBody(key, p)[0] !in {';', '#', '['}
  {
    if key != "" { assert EntryBody(key, p)[0] == key[0]; }
  }

  lemma BodyParses(key: string, v: string, st: ParseState)
    requires WritableKey(key)
    requires st.recent.Some?
    ensures DoBody(EntryBody(key, PrintedValue(v)), st) ==
            st.(data := Put(st.data, st.recent.value, key, ValueReadBack(v)))
  {
    hide ReadValue, FindEqualOrComment, PrintedValue, ValueReadBack, RStrip, LSkip, EntryBody, Put;
    PrintedShape(v);
    EntryFirst(key, PrintedValue(v));
    EntryPieces(key, PrintedValue(v));
    PrintedReadsBack(v);
  }

  lemma EntryBodyIs(key: string, v: string, lineno: nat)
    requires WritableKey(key) && lineno > 1
    ensures Body(EntryLine(key, v), lineno) == EntryBody(key, PrintedValue(v))
  {
    hide PrintedValue, Trim, EntryBody, UpToNul;
    PrintedShape(v);
    TrimEntry(key, PrintedValue(v));
  }

  /** One written entry, read back into the section it was written under. */
  lemma EntryParses(key: string, v: string, st: ParseState)
    requires WritableKey(key)
    requires st.lineno >= 1 && st.recent.Some?
    ensures DoLine(EntryLine(key, v), st) ==
            st.(lineno := st.lineno + 1, data := Put(st.data, st.recent.value, key, ValueReadBack(v)))
  {
    hide PrintedValue, ValueReadBack, Body, EntryBody, EntryLine, DoBody, Put, WritableKey;
    EntryBodyIs(key, v, st.lineno + 1);
    BodyParses(key, v, st.(lineno := st.lineno + 1));
  }

  lemma SectionParses(name: string, st: ParseState)
    requires WritableSection(name)
    ensures DoLine(['['] + name + [']'], st) ==
            st.(lineno := st.lineno + 1, recent := Some(name), data := Touch(st.data, name))
  {
    hide FindCharOrComment, RStrip, LSkip;
    var line := ['['] + name + [']'];
    NothingToStrip(line);
    NothingToSkip(line);
    assert Trim(line) == line;
    assert line[1..] == name + [']'];
    FindBracketPast(name, false);
    assert line[1..1 + |name|] == name;
  }

  lemma BlankParses(st: ParseState)
    ensures DoLine("", st) == st.(lineno := st.lineno + 1)
  {
  }

  // ----- a whole file -----

  ghost predicate WritableEntries(es: Entries) {
    forall i :: 0 <= i < |es| ==> WritableKey(es[i].0)
  }

  ghost predicate WritableGroups(gs: Groups) {
    forall i :: 0 <= i < |gs| ==> WritableSection(gs[i].0) && WritableEntries(gs[i].1)
  }

  function PutAll(data: Sections, section: string, es: Entries): (r: Sections)
    decreases es
  {
    if es == [] then data
    else PutAll(Put(data, section, es[0].0, ValueReadBack(es[0].1)), section, es[1..])
  }

  function LoadAll(data: Sections, gs: Groups): (r: Sections)
    decreases gs
  {
    if gs == [] then data
    else LoadAll(PutAll(Touch(data, gs[0].0), gs[0].0, gs[0].1), gs[1..])
  }

  lemma EntriesText(es: Entries, rest: string)
    requires es != []
    ensures PrintEntries(es) + rest ==
            EntryLine(es[0].0, es[0].1) + (['\n'] + (PrintEntries(es[1..]) + rest))
  {
    hide EntryLine;
  }

  lemma EntryOneLine(key: string, v: string)
    requires WritableKey(key)
    ensures '\n' !in EntryLine(key, v)
  {
    PrintedShape(v);
  }

  lemma EntryStep(es: Entries, rest: string, st: ParseState)
    requires WritableEntries(es) && es != [] && st.lineno >= 1 && st.recent.Some?
    ensures ParseText(PrintEntries(es) + rest, st) ==
            ParseText(PrintEntries(es[1..]) + rest,
                      st.(lineno := st.lineno + 1,
                          data := Put(st.data, st.recent.value, es[0].0, ValueReadBack(es[0].1))))
  {
    hide ParseText, DoLine, Put, EntryLine, PrintEntries;
    EntriesText(es, rest);
    EntryOneLine(es[0].0, es[0].1);
    ParseOneLine(EntryLine(es[0].0, es[0].1), PrintEntries(es[1..]) + rest, st);
    EntryParses(es[0].0, es[0].1, st);
  }

  lemma NothingPrinted(es: Entries)
    requires es == []
    ensures PrintEntries(es) == ""
  {
  }

  lemma {:induction false} EntriesParse(es: Entries, rest: string, st: ParseState)
    requires WritableEntries(es) && st.lineno >= 1 && st.recent.Some?
    ensures ParseText(PrintEntries(es) + rest, st) ==
            ParseText(rest, st.(lineno := st.lineno + |es|, data := PutAll(st.data, st.recent.value, es)))
    decreases es
  {
    hide ParseText, Put, PrintEntries, ValueReadBack;
    if es == [] {
      NothingPrinted(es);
      assert PrintEntries(es) + rest == rest;
    } else {
      EntryStep(es, rest, st);
      EntriesParse(es[1..], rest, st.(lineno := st.lineno + 1,
                          data := Put(st.data, st.recent.value, es[0].0, ValueReadBack(es[0].1))));
    }
  }

  function AfterGroup(g: (string, Entries), st: ParseState): (r: ParseState) {
    st.(lineno := st.lineno + |g.1| + 2, recent := Some(g.0),
        data := PutAll(Touch(st.data, g.0), g.0, g.1))
  }

  lemma GroupParses(g: (string, Entries), rest: string, st: ParseState)
    requires WritableSection(g.0) && WritableEntries(g.1)
    ensures ParseText(PrintGroup(g) + rest, st) ==
            ParseText(rest, AfterGroup(g, st))
  {
    hide ParseText, DoLine, PutAll, PrintEntries;
    var header := ['['] + g.0 + [']'];
    var body := PrintEntries(g.1);
    var tail := ['\n'] + rest;
    GroupText(g, rest);
    SectionParses(g.0, st);
    ParseOneLine(header, body + tail, st);
    var st1 := DoLine(header, st);
    EntriesParse(g.1, tail, st1);
    var st2 := st1.(lineno := st1.lineno + |g.1|, data := PutAll(st1.data, g.0, g.1));
    ParseOneLine([], rest, st2);
    assert [] + tail == tail;
    BlankParses(st2);
  }

  lemma GroupText(g: (string, Entries), rest: string)
    requires NulFree(g.0)
    ensures PrintGroup(g) + rest ==
            (['['] + g.0 + [']']) + (['\n'] + (PrintEntries(g.1) + (['\n'] + rest)))
  {
    hide UpToNul, PrintEntries;
  }

  lemma {:induction false} FileParses(gs: Groups, st: ParseState)
    requires WritableGroups(gs)
    ensures var r := ParseText(PrintFile(gs), st);
            r.error == st.error && r.code == st.code && r.data == LoadAll(st.data, gs)
    decreases gs
  {
    hide ParseText, PrintGroup, PutAll, Touch;
    if gs == [] {
      NothingToParse(st);
    } else {
      GroupParses(gs[0], PrintFile(gs[1..]), st);
      FileParses(gs[1..], AfterGroup(gs[0], st));
    }
  }

  // ----- the map that a file stands for -----

  function Build<V>(base: map<string, V>, items: seq<(string, V)>): (r: map<string, V>)
    decreases items
  {
    if items == [] then base else Build(base[items[0].0 := items[0].1], items[1..])
  }

  /** `items` lists the entries of `m` in some order, each key once. */
  ghost predicate Enumerates<V>(items: seq<(string, V)>, m: map<string, V>) {
    && (forall i, j :: 0 <= i < j < |items| ==> items[i].0 != items[j].0)
    && (forall i :: 0 <= i < |items| ==> items[i].0 in m && m[items[i].0] == items[i].1)
    && (forall k :: k in m ==> exists i :: 0 <= i < |items| && items[i].0 == k)
  }

  lemma {:induction false} BuildUntouched<V>(base: map<string, V>, items: seq<(string, V)>, k: string)
    requires forall i :: 0 <= i < |items| ==> items[i].0 != k
    ensures k in Build(base, items) <==> k in base
    ensures k in base ==> Build(base, items)[k] == base[k]
    decreases items
  {
    if items != [] { BuildUntouched(base[items[0].0 := items[0].1], items[1..], k); }
  }

  lemma {:induction false} BuildAt<V>(base: map<string, V>, items: seq<(string, V)>, i: nat)
    requires forall i, j :: 0 <= i < j < |items| ==> items[i].0 != items[j].0
    requires i < |items|
    ensures items[i].0 in Build(base, items)
    ensures Build(base, items)[items[i].0] == items[i].1
    decreases items
  {
    var base' := base[items[0].0 := items[0].1];
    if i == 0 {
      BuildUntouched(base', items[1..], items[0].0);
    } else {
      BuildAt(base', items[1..], i - 1);
    }
  }

  lemma BuildEnumerated<V>(items: seq<(string, V)>, m: map<string, V>)
    requires Enumerates(items, m)
    ensures Build(map[], items) == m
  {
    var b := Build(map[], items);
    forall k | k in b || k in m
      ensures k in b && k in m && b[k] == m[k]
    {
      if k !in m { BuildUntouched(map[], items, k); }
      var i :| 0 <= i < |items| && items[i].0 == k;
      BuildAt(map[], items, i);
    }
  }

  function ReadBackEntries(es: Entries): (r: Entries) {
    seq(|es|, i requires 0 <= i < |es| => (es[i].0, ValueReadBack(es[i].1)))
  }

  function ReadBackKeys(m: Keys): (r: Keys) { map k | k in m :: ValueReadBack(m[k]) }

  function ReadBackSections(m: Sections): (r: Sections) { map s | s in m :: ReadBackKeys(m[s]) }

  lemma {:induction false} PutAllBuilds(data: Sections, section: string, es: Entries)
    requires section in data
    ensures PutAll(data, section, es) == data[section := Build(data[section], ReadBackEntries(es))]
    decreases es
  {
    if es == [] {
      assert data[section := data[section]] == data;
    } else {
      var data' := Put(data, section, es[0].0, ValueReadBack(es[0].1));
      PutAllBuilds(data', section, es[1..]);
      assert ReadBackEntries(es)[1..] == ReadBackEntries(es[1..]);
    }
  }

  function ReadBackGroups(gs: Groups): (r: seq<(string, Keys)>) {
    seq(|gs|, i requires 0 <= i < |gs| => (gs[i].0, Build(map[], ReadBackEntries(gs[i].1))))
  }

  lemma {:induction false} LoadAllBuilds(data: Sections, gs: Groups)
    requires forall i, j :: 0 <= i < j < |gs| ==> gs[i].0 != gs[j].0
    requires forall i :: 0 <= i < |gs| ==> gs[i].0 !in data
    ensures LoadAll(data, gs) == Build(data, ReadBackGroups(gs))
    decreases gs
  {
    hide PutAll, Build, ReadBackEntries;
    if gs == [] {
      BuildNothing(data, ReadBackGroups(gs));
    } else {
      PutAllBuilds(Touch(data, gs[0].0), gs[0].0, gs[0].1);
      var keys := Build(map[], ReadBackEntries(gs[0].1));
      var data' := data[gs[0].0 := keys];
      assert PutAll(Touch(data, gs[0].0), gs[0].0, gs[0].1) == data';
      LoadAllBuilds(data', gs[1..]);
      assert ReadBackGroups(gs)[1..] == ReadBackGroups(gs[1..]);
      BuildStep(data, ReadBackGroups(gs));
    }
  }

  lemma BuildNothing<V>(base: map<string, V>, items: seq<(string, V)>)
    requires items == []
    ensures Build(base, items) == base
  {
  }

  lemma BuildStep<V>(base: map<string, V>, items: seq<(string, V)>)
    requires items != []
    ensures Build(base, items) == Build(base[items[0].0 := items[0].1], items[1..])
  {
  }

  /** `gs` is the store `m`, its sections and keys in whatever order the hash maps give. */
  ghost predicate Lists(gs: Groups, m: Sections) {
    && (forall i, j :: 0 <= i < j < |gs| ==> gs[i].0 != gs[j].0)
    && (forall i :: 0 <= i < |gs| ==> gs[i].0 in m && Enumerates(gs[i].1, m[gs[i].0]))
    && (forall s :: s in m ==> exists i :: 0 <= i < |gs| && gs[i].0 == s)
  }

  lemma ReadBackEnumerates(es: Entries, m: Keys)
    requires Enumerates(es, m)
    ensures Enumerates(ReadBackEntries(es), ReadBackKeys(m))
  {
    var r := ReadBackEntries(es);
    forall k | k in ReadBackKeys(m) ensures exists i :: 0 <= i < |r| && r[i].0 == k {
      var i :| 0 <= i < |es| && es[i].0 == k;
      assert r[i].0 == k;
    }
  }

  lemma GroupsEnumerate(gs: Groups, m: Sections)
    requires Lists(gs, m)
    ensures Enumerates(ReadBackGroups(gs), ReadBackSections(m))
  {
    var r := ReadBackGroups(gs);
    forall i | 0 <= i < |gs| ensures r[i].1 == ReadBackKeys(m[gs[i].0]) {
      ReadBackEnumerates(gs[i].1, m[gs[i].0]);
      BuildEnumerated(ReadBackEntries(gs[i].1), ReadBackKeys(m[gs[i].0]));
    }
    forall s | s in ReadBackSections(m) ensures exists i :: 0 <= i < |r| && r[i].0 == s {
      var i :| 0 <= i < |gs| && gs[i].0 == s;
      assert r[i].0 == s;
    }
  }

  ghost predicate WritableStore(m: Sections) {
    && (forall s :: s in m ==> WritableSection(s))
    && (forall s, k :: s in m && k in m[s] ==> WritableKey(k))
  }

  /** Numeric, or without NUL and with harmless semicolons only. */
  ghost predicate Reloads(v: string) { IsFloat(v) || (NulFree(v) && Survives(v)) }

  ghost predicate AllSurvive(m: Sections) {
    forall s, k :: s in m && k in m[s] ==> Reloads(m[s][k])
  }

  /** Print then parse, for every store with writable names, whatever its values, and in
      every iteration order: no error, the same sections and keys, each value read back. */
  lemma FileReadsBack(gs: Groups, m: Sections)
    requires WritableStore(m) && Lists(gs, m)
    ensures var r := Parse(PrintFile(gs));
            r.error == 0 && r.code == Ok && r.data == ReadBackSections(m)
  {
    assert WritableGroups(gs) by {
      forall i | 0 <= i < |gs| ensures WritableSection(gs[i].0) && WritableEntries(gs[i].1) {
        assert gs[i].0 in m;
      }
    }
    FileParses(gs, Start);
    LoadAllBuilds(map[], gs);
    GroupsEnumerate(gs, m);
    BuildEnumerated(ReadBackGroups(gs), ReadBackSections(m));
  }

  lemma ReadBackSame(v: string)
    ensures ValueReadBack(v) == v <==> Reloads(v)
  {
    hide ReadBack, Survives, UpToNul, FloatRun;
    ReadBackNoLonger(UpToNul(v));
    SurvivalOf(v);
  }

  lemma KeysSame(m: Keys)
    ensures ReadBackKeys(m) == m <==> forall k :: k in m ==> Reloads(m[k])
  {
    hide Reloads, ValueReadBack;
    forall k | k in m ensures ReadBackKeys(m)[k] == m[k] <==> Reloads(m[k]) { ReadBackSame(m[k]); }
  }

  lemma SectionsSame(m: Sections)
    ensures ReadBackSections(m) == m <==> AllSurvive(m)
  {
    hide Reloads, ReadBackKeys;
    forall s | s in m
      ensures ReadBackSections(m)[s] == m[s] <==> forall k :: k in m[s] ==> Reloads(m[s][k])
    {
      KeysSame(m[s]);
    }
  }

  /** The whole-file round trip, and when it fails: the parsed file is the written store
      if and only if every value is numeric, or has no NUL and survives quoting. */
  lemma WholeFileRoundTrip(gs: Groups, m: Sections)
    requires WritableStore(m) && Lists(gs, m)
    ensures var r := Parse(PrintFile(gs)); r.error == 0 && r.code == Ok
    ensures Parse(PrintFile(gs)).data == m <==> AllSurvive(m)
  {
    FileReadsBack(gs, m);
    SectionsSame(m);
  }
}
