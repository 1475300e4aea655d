/**
 The INI writer: which values are stored as they are, how the others are quoted, and
 the text of a whole file, cut at a NUL where there is one.
 */
module IniPrint {
  import opened IniText

  /** State of the number scanner: what it still accepts besides digits. */
  datatype FloatState = Sign | Dot | Exponent | ExponentSign | Tail | Rejected

  predicate IsDigit(c: char) { '0' <= c <= '9' }

  function FloatStep(st: FloatState, c: char): (r: FloatState) {
    if IsDigit(c) then (if st == Sign then Dot else st)
    else if st == Sign && c == '-' then Dot
    else if st == Dot && c == '.' then Exponent
    else if st == Exponent && (c == 'E' || c == 'e') then ExponentSign
    else if st == ExponentSign && c == '-' then Tail
    else Rejected
  }

  function FloatRun(s: string, st: FloatState): (r: FloatState) {
    if s == "" then st else FloatRun(s[1..], FloatStep(st, s[0]))
  }

  predicate IsFloat(s: string) { FloatRun(s, Sign) != Rejected }

  const Numerals := "0123456789"

  lemma DigitClass(c: char)
    ensures IsDigit(c) <==> c in Numerals
  {
    if IsDigit(c) { assert Numerals[(c - '0') as nat] == c; }
  }

  predicate Digits(s: string) { forall i :: 0 <= i < |s| ==> IsDigit(s[i]) }

  /** Digits, then nothing or one of the first separators followed by the same for the
      remaining separators. */
  ghost predicate Blocks(s: string, separators: seq<set<char>>)
    decreases |separators|
  {
    exists k :: 0 <= k <= |s| && Digits(s[..k]) && BlocksAfter(s[k..], separators)
  }

  ghost predicate BlocksAfter(s: string, separators: seq<set<char>>)
    decreases |separators|, 0
  {
    s == "" || (separators != [] && s[0] in separators[0] && Blocks(s[1..], separators[1..]))
  }

  method IsFloatValue(s: string) returns (r: bool)
    ensures r == IsFloat(s)
  {
    var st := Sign;
    for i := 0 to |s|
      invariant st != Rejected
      invariant FloatRun(s, Sign) == FloatRun(s[i..], st)
    {
      assert s[i..][1..] == s[i + 1..];
      if !IsDigit(s[i]) {
        match st
        case Sign => if s[i] != '-' { RejectedStays(s[i + 1..]); return false; } st := Dot;
        case Dot => if s[i] != '.' { RejectedStays(s[i + 1..]); return false; } st := Exponent;
        case Exponent =>
          if s[i] != 'E' && s[i] != 'e' { RejectedStays(s[i + 1..]); return false; }
          st := ExponentSign;
        case ExponentSign => if s[i] != '-' { RejectedStays(s[i + 1..]); return false; } st := Tail;
        case Tail => RejectedStays(s[i + 1..]); return false;
      } else if st == Sign {
        st := Dot;
      }
    }
    return true;
  }

  lemma {:induction false} RejectedStays(s: string)
    ensures FloatRun(s, Rejected) == Rejected
  {
    if s != "" { RejectedStays(s[1..]); }
  }

  function Separators(st: FloatState): (r: seq<set<char>>)
    requires st != Rejected && st != Sign
  {
    match st
    case Dot => [{'.'}, {'E', 'e'}, {'-'}]
    case Exponent => [{'E', 'e'}, {'-'}]
    case ExponentSign => [{'-'}]
    case Tail => []
  }

  /** The scanner accepts the empty text and exactly the texts
      (- | d) d* (. d* ([Ee] d* (- d*)?)?)?  where d is a digit. */
  lemma FloatLanguage(s: string)
    ensures IsFloat(s) <==>
            || s == ""
            || (s[0] == '-' && Blocks(s[1..], [{'.'}, {'E', 'e'}, {'-'}]))
            || (IsDigit(s[0]) && Blocks(s, [{'.'}, {'E', 'e'}, {'-'}]))
  {
    if s != "" {
      FloatBlocks(if s[0] == '-' then s[1..] else s, Dot);
      if FloatStep(Sign, s[0]) == Rejected { RejectedStays(s[1..]); }
    }
  }

  lemma BlocksDigit(s: string, seps: seq<set<char>>)
    requires s != "" && IsDigit(s[0])
    requires seps != [] ==> forall c :: c in seps[0] ==> !IsDigit(c)
    ensures Blocks(s, seps) <==> Blocks(s[1..], seps)
  {
    if Blocks(s, seps) {
      var k :| 0 <= k <= |s| && Digits(s[..k]) && BlocksAfter(s[k..], seps);
      assert k > 0;
      hide BlocksAfter;
      assert s[1..][..k - 1] == s[..k][1..] && s[1..][k - 1..] == s[k..];
      assert Digits(s[..k][1..]);
    }
    if Blocks(s[1..], seps) {
      var k :| 0 <= k <= |s[1..]| && Digits(s[1..][..k]) && BlocksAfter(s[1..][k..], seps);
      assert s[..k + 1] == [s[0]] + s[1..][..k] && s[1..][k..] == s[k + 1..];
    }
  }

  lemma BlocksOther(s: string, seps: seq<set<char>>)
    requires s == "" || !IsDigit(s[0])
    ensures Blocks(s, seps) <==> BlocksAfter(s, seps)
  {
    assert s[0..] == s && Digits(s[..0]);
    if Blocks(s, seps) {
      var k :| 0 <= k <= |s| && Digits(s[..k]) && BlocksAfter(s[k..], seps);
      assert k == 0;
    }
  }

  lemma {:induction false} FloatBlocks(s: string, st: FloatState)
    requires st != Rejected && st != Sign
    ensures FloatRun(s, st) != Rejected <==> Blocks(s, Separators(st))
    decreases |s|
  {
    if s != "" && IsDigit(s[0]) {
      BlocksDigit(s, Separators(st));
      FloatBlocks(s[1..], st);
    } else {
      BlocksOther(s, Separators(st));
      if s == "" {
      } else if FloatStep(st, s[0]) == Rejected {
        RejectedStays(s[1..]);
      } else {
        FloatBlocks(s[1..], FloatStep(st, s[0]));
        assert Separators(st)[1..] == Separators(FloatStep(st, s[0]));
      }
    }
  }

  lemma {:induction false} FloatCharacters(s: string, st: FloatState)
    requires FloatRun(s, st) != Rejected
    ensures forall c :: c in s ==> IsDigit(c) || c in {'-', '.', 'E', 'e'}
  {
    if s != "" {
      if FloatStep(st, s[0]) == Rejected { RejectedStays(s[1..]); }
      FloatCharacters(s[1..], FloatStep(st, s[0]));
    }
  }

  function EscapeChar(c: char): (r: string)
    ensures 1 <= |r| <= 2
    ensures |r| == 1 ==> r[0] == c
    ensures |r| == 2 ==> r[0] == '\\' && UnescapeChar(r[1]) == c
  {
    if c == '\n' then "\\n"
    else if c == '\r' then "\\r"
    else if c == '\t' then "\\t"
    else if c == '\\' || c == '"' then ['\\', c]
    else [c]
  }

  function Escape(s: string): (r: string) {
    if s == "" then "" else EscapeChar(s[0]) + Escape(s[1..])
  }

  /** What "%s" prints of a string: up to its first NUL. */
  function UpToNul(s: string): (r: string)
    ensures NulFree(r) && r <= s
    ensures NulFree(s) <==> r == s
    ensures |r| < |s| ==> s[|r|] == NUL
  {
    if s == "" || s[0] == NUL then "" else [s[0]] + UpToNul(s[1..])
  }

  /** A number as it is, anything else quoted, a NUL ending it. */
  function PrintedValue(v: string): (r: string) {
    if IsFloat(v) then v else ['"'] + Escape(UpToNul(v)) + ['"']
  }

  function EntryLine(key: string, v: string): (r: string) { UpToNul(key) + " = " + PrintedValue(v) }

  type Entries = seq<(string, string)>
  type Groups = seq<(string, Entries)>

  function PrintEntries(es: Entries): (r: string) {
    if es == [] then "" else EntryLine(es[0].0, es[0].1) + "\n" + PrintEntries(es[1..])
  }

  function PrintGroup(g: (string, Entries)): (r: string) {
    "[" + UpToNul(g.0) + "]\n" + PrintEntries(g.1) + "\n"
  }

  /** The whole file, groups and keys in the order the hash maps happen to give them. */
  function PrintFile(gs: Groups): (r: string) {
    if gs == [] then "" else PrintGroup(gs[0]) + PrintFile(gs[1..])
  }

  lemma {:induction false} EscapeSnoc(s: string, c: char)
    ensures Escape(s + [c]) == Escape(s) + EscapeChar(c)
  {
    if s != "" {
      EscapeSnoc(s[1..], c);
      assert (s + [c])[1..] == s[1..] + [c];
    }
  }

  method EscapeValue(s: string) returns (escaped: string)
    ensures escaped == Escape(s)
  {
    escaped := "";
    for i := 0 to |s|
      invariant escaped == Escape(s[..i])
    {
      EscapeSnoc(s[..i], s[i]);
      assert s[..i + 1] == s[..i] + [s[i]];
      var piece := [s[i]];
      if s[i] == '\n' { piece := "\\n"; }
      else if s[i] == '\r' { piece := "\\r"; }
      else if s[i] == '\t' { piece := "\\t"; }
      else if s[i] == '\\' || s[i] == '"' { piece := ['\\', s[i]]; }
      escaped := escaped + piece;
    }
    assert s[..|s|] == s;
  }

  // ----- writing -----

  lemma UpToNulEscaped(c: char, rest: string)
    requires c != NUL
    ensures UpToNul(EscapeChar(c) + rest) == EscapeChar(c) + UpToNul(rest)
  {
    var e := EscapeChar(c);
    assert (e + rest)[|e|..] == rest;
    if |e| == 2 { assert (e + rest)[1..][1..] == rest; }
  }

  /** Printing an escaped value up to its NUL is escaping what stands before the NUL. */
  lemma {:induction false} EscapeCut(v: string)
    ensures UpToNul(Escape(v)) == Escape(UpToNul(v))
  {
    if v != "" && v[0] != NUL {
      EscapeCut(v[1..]);
      UpToNulEscaped(v[0], Escape(v[1..]));
      assert UpToNul(v)[1..] == UpToNul(v[1..]);
    }
  }

  lemma FloatNulFree(v: string)
    requires IsFloat(v)
    ensures NulFree(v) && UpToNul(v) == v
  {
    hide FloatRun, UpToNul;
    FloatCharacters(v, Sign);
  }

  method WriteEntry(key: string, value: string) returns (line: string)
    ensures line == EntryLine(key, value) + "\n"
  {
    hide UpToNul, Escape, FloatRun;
    var float := IsFloatValue(value);
    if float {
      FloatNulFree(value);
      line := UpToNul(key) + " = " + UpToNul(value) + "\n";
    } else {
      var escaped := EscapeValue(value);
      EscapeCut(value);
      line := UpToNul(key) + " = \"" + UpToNul(escaped) + "\"\n";
      QuotedLine(UpToNul(key), UpToNul(escaped));
    }
  }

  lemma QuotedLine(key: string, text: string)
    ensures key + " = \"" + text + "\"\n" == key + " = " + (['"'] + text + ['"']) + "\n"
  {
    assert " = \"" == " = " + ['"'] && "\"\n" == ['"'] + "\n";
  }

  method WriteGroup(name: string, entries: Entries) returns (text: string)
    ensures text == PrintGroup((name, entries))
  {
    hide EntryLine;
    text := "[" + UpToNul(name) + "]\n";
    ghost var header := text;
    for j := 0 to |entries|
      invariant header + PrintEntries(entries) == text + PrintEntries(entries[j..])
    {
      var line := WriteEntry(entries[j].0, entries[j].1);
      text := text + line;
      assert entries[j..][1..] == entries[j + 1..];
    }
    text := text + "\n";
  }

  method WriteIniFile(groups: Groups) returns (text: string)
    ensures text == PrintFile(groups)
  {
    hide PrintGroup;
    text := "";
    for i := 0 to |groups|
      invariant PrintFile(groups) == text + PrintFile(groups[i..])
    {
      var g := WriteGroup(groups[i].0, groups[i].1);
      text := text + g;
      assert groups[i..][1..] == groups[i + 1..];
    }
  }

  // ----- what is written, character by character -----

  /** The five characters that are escaped, and how. */
  const Escaped := "\n\r\t\\\""
  const EscapedAs := "nrt\\\""

  ghost predicate WrittenAs(c: char, text: string) {
    if c in Escaped
    then exists i :: 0 <= i < 5 && Escaped[i] == c && text == ['\\', EscapedAs[i]]
    else text == [c]
  }

  lemma EscapeTable(c: char)
    ensures WrittenAs(c, EscapeChar(c))
  {
    assert Escaped[0] == '\n' && Escaped[1] == '\r' && Escaped[2] == '\t' && Escaped[3] == '\\' && Escaped[4] == '"';
    assert EscapedAs[0] == 'n' && EscapedAs[1] == 'r' && EscapedAs[2] == 't' && EscapedAs[3] == '\\' && EscapedAs[4] == '"';
  }

  function Concat(parts: seq<string>): (r: string) {
    if parts == [] then "" else Concat(parts[..|parts| - 1]) + parts[|parts| - 1]
  }

  /** The escaped text is the characters' own texts, one after the other. */
  lemma {:induction false} EscapeMeans(v: string) returns (parts: seq<string>)
    ensures |parts| == |v| && (forall i :: 0 <= i < |v| ==> WrittenAs(v[i], parts[i]))
    ensures Escape(v) == Concat(parts)
  {
    hide EscapeChar, WrittenAs;
    if v == "" {
      parts := [];
    } else {
      var n := |v| - 1;
      var front := EscapeMeans(v[..n]);
      EscapeTable(v[n]);
      EscapeSnoc(v[..n], v[n]);
      assert v == v[..n] + [v[n]];
      parts := front + [EscapeChar(v[n])];
      assert parts[..n] == front;
    }
  }

  /** The line of an entry: the value bare when it is a number, else in quotes. */
  lemma EntryMeans(key: string, v: string)
    requires NulFree(key) && NulFree(v)
    ensures EntryLine(key, v) == key + " = " + (if IsFloat(v) then v else "\"" + Escape(v) + "\"")
  {
    hide Escape, FloatRun, UpToNul;
  }

  /** The file of one group with one entry. */
  lemma FileMeans(group: string, key: string, v: string)
    requires NulFree(group) && NulFree(key) && NulFree(v)
    ensures PrintFile([(group, [(key, v)])]) ==
            "[" + group + "]\n" + (key + " = " + (if IsFloat(v) then v else "\"" + Escape(v) + "\"")) + "\n\n"
  {
    hide Escape, FloatRun, UpToNul, EntryLine;
    EntryMeans(key, v);
    var es := [(key, v)];
    assert es[1..] == [];
    assert PrintEntries(es) == EntryLine(key, v) + "\n" + "";
    var gs := [(group, es)];
    assert gs[1..] == [];
    assert PrintFile(gs) == PrintGroup(gs[0]) + "";
    assert "\n" + "" + "\n" == "\n\n";
  }

  // ----- what is written has no NUL -----

  lemma {:induction false} EscapeNulFree(v: string)
    requires NulFree(v)
    ensures NulFree(Escape(v))
  {
    if v != "" { EscapeNulFree(v[1..]); }
  }

  lemma EntryNulFree(key: string, v: string)
    ensures NulFree(EntryLine(key, v))
  {
    hide Escape, UpToNul;
    EscapeNulFree(UpToNul(v));
    if IsFloat(v) { FloatNulFree(v); }
  }

  lemma {:induction false} EntriesNulFree(es: Entries)
    ensures NulFree(PrintEntries(es))
  {
    hide EntryLine;
    if es != [] {
      EntryNulFree(es[0].0, es[0].1);
      EntriesNulFree(es[1..]);
    }
  }

  lemma {:induction false} FileNulFree(gs: Groups)
    ensures NulFree(PrintFile(gs))
  {
    hide PrintEntries, UpToNul;
    if gs != [] {
      EntriesNulFree(gs[0].1);
      FileNulFree(gs[1..]);
    }
  }
}
