/**
 Save and reload through the real parser: the writer's text is always safe for the
 in-place parser, and the reloaded store is what the round trip theorem says.
 */
module IniReload {
  import opened IniText
  import opened IniParse
  import opened IniPrint
  import opened IniSurvival
  import opened IniRoundTrip
  import opened IniLines
  import opened IniMeaning
  import opened IniStore

  lemma {:induction false} EscapePaired(v: string)
    ensures Paired(Escape(v))
  {
    if v != "" {
      EscapePaired(v[1..]);
      var e := EscapeChar(v[0]);
      assert Escape(v)[|e|..] == Escape(v[1..]);
    }
  }

  /** A value text whose closing quote the comment scans cut off. */
  lemma OpenSafe(x: string, u: string)
    requires u == ['"'] + Escape(x)
    ensures Paired(RemoveQuotes(u)) || ClosingQuoteRemoved(u)
  {
    if x == "" {
      PlainPaired(u);
    } else {
      LastEscaped(x);
      RemoveOpenQuote(Escape(x));
      EscapePaired(x);
    }
  }

  lemma QuotedSafe(v: string, s: string)
    requires NulFree(v) && s == ['"'] + Escape(v) + ['"']
    ensures SafeValue(s)
  {
    hide RStrip, FindCharOrComment, CommentCut, Escape, SpaceCut, QuoteCut, StripBlanks, Paired;
    if SpaceCut(v, false) < |v| {
      SpaceCutReads(v, s);
      OpenSafe(QuotePart(StripBlanks(v[..SpaceCut(v, false)])), ValueText(s));
    } else if QuoteCut(v, false) < |v| {
      OnlyQuoteCutReads(v, s);
      OpenSafe(QuotePart(v), ValueText(s));
    } else {
      NoCutReads(v, s);
    }
  }

  lemma PrintedSafe(v: string)
    ensures SafeValue(PrintedValue(v))
  {
    hide RStrip, FindCharOrComment, CommentCut, FloatRun, Escape, UpToNul, Paired;
    if IsFloat(v) {
      FloatCharacters(v, Sign);
      FindNothing(v, false);
      CutNothing(v, false);
      assert v[..|v|] == v;
      if v != "" { assert v[|v| - 1] in v; }
      NothingToStrip(v);
      PlainPaired(RemoveQuotes(v));
    } else {
      QuotedSafe(UpToNul(v), PrintedValue(v));
    }
  }

  lemma EntrySafe(key: string, v: string, lineno: nat)
    requires WritableKey(key) && lineno > 1
    ensures SafeBody(Body(EntryLine(key, v), lineno))
  {
    hide PrintedValue, Body, EntryBody, SafeBody, EntryLine, WritableKey, SafeValue;
    EntryBodyIs(key, v, lineno);
    PrintedShape(v);
    PrintedSafe(v);
    SafeEntryBody(key, PrintedValue(v));
  }

  lemma SafeEntryBody(key: string, p: string)
    requires WritableKey(key) && (p != "" ==> !IsSpace(p[0])) && SafeValue(p)
    ensures SafeBody(EntryBody(key, p))
  {
    hide EntryBody, SafeValue, FindEqualOrComment, LSkip, RStrip, WritableKey, IsSpace;
    EntryPieces(key, p);
  }

  lemma SafeLineThen(line: string, rest: string, lineno: nat)
    requires '\n' !in line && SafeBody(Body(line, lineno + 1)) && SafeText(rest, lineno + 1)
    ensures SafeText(line + (['\n'] + rest), lineno)
  {
    hide SafeBody, Body, LineLength;
    var t := line + (['\n'] + rest);
    LineLengthOf(line, rest);
    assert t[..|line|] == line && t[|line| + 1..] == rest;
  }

  lemma {:induction false} EntriesSafe(es: Entries, rest: string, lineno: nat)
    requires WritableEntries(es) && lineno >= 1 && SafeText(rest, lineno + |es|)
    ensures SafeText(PrintEntries(es) + rest, lineno)
    decreases es
  {
    hide SafeText, EntryLine, SafeBody, Body;
    if es == [] {
      assert PrintEntries(es) + rest == rest;
    } else {
      EntriesText(es, rest);
      EntryOneLine(es[0].0, es[0].1);
      EntriesSafe(es[1..], rest, lineno + 1);
      EntrySafe(es[0].0, es[0].1, lineno + 1);
      SafeLineThen(EntryLine(es[0].0, es[0].1), PrintEntries(es[1..]) + rest, lineno);
    }
  }

  lemma HeaderSafe(name: string, lineno: nat)
    ensures SafeBody(Body(['['] + name + [']'], lineno))
  {
    hide FindEqualOrComment, SafeValue, LSkip, RStrip;
    var line := ['['] + name + [']'];
    NothingToStrip(line);
    NothingToSkip(line);
  }

  lemma BlankSafe(lineno: nat)
    ensures SafeBody(Body("", lineno))
  {
  }

  /** Whatever the values, the written text is safe for the in-place parser. */
  lemma {:induction false} FileSafe(gs: Groups, lineno: nat)
    requires WritableGroups(gs)
    ensures SafeText(PrintFile(gs), lineno)
    decreases gs
  {
    hide SafeText, SafeBody, Body, PrintEntries, PrintGroup;
    if gs == [] {
      NothingSafe(lineno);
    } else {
      var g, rest := gs[0], PrintFile(gs[1..]);
      FileSafe(gs[1..], lineno + |g.1| + 2);
      BlankSafe(lineno + |g.1| + 2);
      SafeLineThen([], rest, lineno + |g.1| + 1);
      var tail := ['\n'] + rest;
      assert [] + tail == tail;
      EntriesSafe(g.1, tail, lineno + 1);
      HeaderSafe(g.0, lineno + 1);
      SafeLineThen(['['] + g.0 + [']'], PrintEntries(g.1) + tail, lineno);
      GroupText(g, rest);
    }
  }

  lemma NothingSafe(lineno: nat)
    ensures SafeText("", lineno)
  {
  }

  lemma StoreWritable(gs: Groups, m: Sections)
    requires WritableStore(m) && Lists(gs, m)
    ensures WritableGroups(gs)
  {
    forall i | 0 <= i < |gs| ensures WritableSection(gs[i].0) && WritableEntries(gs[i].1) {
      assert gs[i].0 in m;
    }
  }

  /** Save the store listed by `gs` to a file and open the file again with the in-place
      parser, into any store. */
  method SaveAndReload(ini: IniProcessing, gs: Groups, ghost m: Sections) returns (ok: bool)
    requires ini.Valid() && WritableStore(m) && Lists(gs, m)
    modifies ini
    ensures ok && ini.Valid() && ini.isOpened && ini.lineWithError == 0 && ini.errorCode == Ok
    ensures ini.Contents() == ReadBackSections(m) && (ini.Contents() == m <==> AllSurvive(m))
  {
    hide PrintFile, SafeText, Parse, WritableGroups, Lists;
    StoreWritable(gs, m);
    var text := WriteIniFile(gs);
    FileSafe(gs, 0);
    FileNulFree(gs);
    FileReadsBack(gs, m);
    SectionsSame(m);
    ok := ini.OpenFile(Some(text));
  }
}
