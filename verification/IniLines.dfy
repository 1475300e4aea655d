/**
 One line of the in-place INI parser: where the line ends, and what a section line and a
 key line leave behind, proved against the pure parser.
 */
module IniLines {
  import opened CLocale
  import opened IniText
  import opened IniParse
  import opened IniBuffer

  /** The value text never makes `unescapeString` run past its line: no backslash is left
      without a character to escape, unless the closing quote that followed it went. */
  predicate SafeValue(s: string) {
    var u := ValueText(s);
    Paired(RemoveQuotes(u)) || ClosingQuoteRemoved(u)
  }

  predicate SafeBody(body: string) {
    var end := FindEqualOrComment(body, false);
    body != "" && body[0] !in {';', '#', '['} && end < |body| && IsIniEqual(body[end]) ==>
    SafeValue(LSkip(body[end + 1..]))
  }

  predicate SafeText(t: string, lineno: nat)
    decreases |t|
  {
    t == "" || (SafeBody(Body(t[..LineLength(t)], lineno + 1)) &&
                SafeText(RestAfter(t, LineLength(t)), lineno + 1))
  }

  /** The value text: both comment scans and the blanks before them, in place. */
  method ValueTextAt(b: array<char>, s: nat, ghost e: nat) returns (ghost e': nat)
    requires CStr(b, s, e)
    modifies b
    ensures s <= e' <= e && CStr(b, s, e') && b[s..e'] == ValueText(old(b[s..e]))
    ensures OnlyWithin(b, s, e)
  {
    hide RStrip, CommentCut, FindCharOrComment;
    ghost var text := b[s..e];
    var end := FindCharOrCommentAt(b, s, NUL, e);
    ghost var e1 := e;
    if b[end] == ';' {
      CutAt(b, s, end, e);
      e1 := end;
    }
    assert b[s..e1] == text[..FindCharOrComment(text, NUL, false)];
    ghost var e2 := RStripAt(b, s, e1);
    ghost var e3 := SkipCommentAt(b, s, e2);
    e' := RStripAt(b, s, e3);
  }

  /** The value part of a key line: comments, blanks, quotes and escapes, in place. */
  method ReadValueAt(b: array<char>, s: nat, ghost e: nat) returns (value: string)
    requires CStr(b, s, e) && SafeValue(b[s..e])
    modifies b
    ensures value == ReadValue(old(b[s..e]))
    ensures OnlyWithin(b, s, e)
  {
    hide ValueText, Unescape, RemoveQuotes, Paired;
    ghost var e' := ValueTextAt(b, s, e);
    var n := StrLen(b, s, e');
    var r, e'' := RemoveQuotesAt(b, s, s + n);
    ghost var last := UnescapeAt(b, r, e'');
    value := ReadString(b, r, last);
  }

  /** name[=:]value. `found` is whether a separator stands before any comment. */
  method KeyLineAt(b: array<char>, s: nat, ghost e: nat) returns (found: bool, name: string, value: string)
    requires CStr(b, s, e) && s < e && b[s] !in {';', '#', '['} && SafeBody(b[s..e])
    modifies b
    ensures var body := old(b[s..e]);
            var end := FindEqualOrComment(body, false);
            found == (end < |body| && IsIniEqual(body[end])) &&
            (found ==> name == Lower(RStrip(body[..end])) && value == ReadValue(LSkip(body[end + 1..])))
    ensures OnlyWithin(b, s, e)
  {
    hide RStrip, LSkip, FindEqualOrComment, ReadValue, SafeValue;
    ghost var body := b[s..e];
    name, value := "", "";
    var end := FindIniEqAt(b, s, e);
    found := IsIniEqual(b[end]);
    if found {
      CutAt(b, s, end, e);
      ghost var e' := RStripAt(b, s, end);
      assert b[end + 1..e] == body[end + 1 - s..];
      var v := LSkipAt(b, end + 1, e);
      ghost var text := b[v..e];
      LowerAt(b, s, e');
      assert b[v..e] == text;
      name := ReadString(b, s, e');
      value := ReadValueAt(b, v, e);
    }
  }

  /** [section]. `found` is whether a ']' stands before any comment. */
  method SectionLineAt(b: array<char>, s: nat, ghost e: nat) returns (found: bool, name: string)
    requires CStr(b, s, e) && s < e && b[s] == '['
    modifies b
    ensures var body := old(b[s..e]);
            var end := FindCharOrComment(body[1..], ']', false);
            found == (1 + end < |body| && body[1 + end] == ']') &&
            (found ==> name == body[1..1 + end])
    ensures OnlyWithin(b, s, e)
  {
    hide FindCharOrComment;
    ghost var body := b[s..e];
    assert body[1..] == b[s + 1..e];
    name := "";
    var end := FindCharOrCommentAt(b, s + 1, ']', e);
    found := b[end] == ']';
    if found {
      CutAt(b, s + 1, end, e);
      name := ReadString(b, s + 1, end);
    }
  }

  method LineEndAt(b: array<char>, pos: nat, size: nat) returns (p: nat)
    requires pos <= size < b.Length
    ensures p == pos + LineLength(b[pos..size])
  {
    hide LineLength;
    p := pos;
    ghost var t := b[pos..size];
    assert t[0..] == t;
    while p != size && b[p] != '\n'
      invariant pos <= p <= size
      invariant LineLength(t) == p - pos + LineLength(t[p - pos..])
      decreases size - p
    {
      LineLengthStep(t[p - pos..]);
      assert t[p - pos..][1..] == t[p + 1 - pos..];
      p := p + 1;
    }
    if p == size {
      LineLengthEmpty();
      assert t[p - pos..] == "";
    } else {
      LineLengthStep(t[p - pos..]);
    }
  }

  /** Where the text of the line [pos, line end) ends, and where the next line starts. The
      cells are those before the line was ended. */
  ghost predicate LineTaken(cells: string, pos: nat, size: nat, next: nat, e: nat)
    requires pos <= size <= |cells|
  {
    var t := cells[pos..size];
    var k := LineLength(t);
    && pos <= e <= next <= size && (next < size ==> e < next)
    && cells[next..size] == RestAfter(t, k)
    && t[..k] == cells[pos..e] + (if e == pos + k then [] else ['\r'])
    && (forall i :: pos <= i < e ==> cells[i] != NUL)
  }

  /** One cell of the line is overwritten, or none at the end of the text. */
  method EndLine(b: array<char>, ghost pos: nat, e: nat)
    requires pos <= e < b.Length && forall i :: pos <= i < e ==> b[i] != NUL
    modifies b
    ensures CStr(b, pos, e) && b[pos..e] == old(b[pos..e])
    ensures forall i :: 0 <= i < b.Length && i != e ==> b[i] == old(b[i])
  {
    b[e] := NUL;
    assert b[pos..e] == old(b[pos..e]);
  }

  /** memfgets: ends the line that starts at `pos` with a NUL, over the CR when the line
      end is CRLF, and returns where the next one starts. Nothing read means the end. */
  method MemFGets(b: array<char>, pos: nat, size: nat) returns (next: nat, ghost e: nat)
    requires pos <= size < b.Length && b[size] == NUL && NulFree(b[pos..size])
    requires pos == 0 || b[pos - 1] != '\r'
    modifies b
    ensures next == pos <==> pos == size
    ensures pos < size ==>
              && LineTaken(old(b[..]), pos, size, next, e)
              && CStr(b, pos, e) && b[pos..e] == old(b[pos..e])
              && (next < size ==> b[next - 1] != '\r')
    ensures OnlyWithin(b, pos, next)
  {
    hide LineTaken, LineLength, NulFree;
    if pos == size { return pos, pos; }
    var end := LineEndAt(b, pos, size);
    LineBounds(b[..], pos, size, end);
    if end == size {
      TakenLast(b[..], pos, size);
      return end, end;
    }
    next := end + 1;
    if end > 0 && b[end - 1] == '\r' {
      TakenCr(b[..], pos, size, end);
      e := end - 1;
      EndLine(b, pos, end - 1);
    } else {
      TakenLf(b[..], pos, size, end);
      e := end;
      EndLine(b, pos, end);
    }
  }

  lemma LineBounds(cells: string, pos: nat, size: nat, end: nat)
    requires pos <= size <= |cells| && end == pos + LineLength(cells[pos..size])
    ensures pos <= end <= size && (end < size ==> cells[end] == '\n')
  {
  }

  // The three ways a line ends: at the end of the text, at CRLF, and at LF alone.

  lemma TakenLast(cells: string, pos: nat, size: nat)
    requires pos <= size < |cells| && cells[size] == NUL && NulFree(cells[pos..size])
    requires pos + LineLength(cells[pos..size]) == size
    ensures LineTaken(cells, pos, size, size, size)
    ensures forall i :: pos <= i < size ==> cells[i] != NUL
  {
    hide LineLength;
    CellsNotNul(cells, pos, size, size);
    assert cells[size..size] == "";
    assert cells[pos..size][..size - pos] == cells[pos..size] + [];
  }

  lemma TakenLf(cells: string, pos: nat, size: nat, end: nat)
    requires pos <= size < |cells| && NulFree(cells[pos..size])
    requires end < size && end == pos + LineLength(cells[pos..size])
    ensures LineTaken(cells, pos, size, end + 1, end)
    ensures forall i :: pos <= i < end ==> cells[i] != NUL
  {
    hide LineLength;
    CellsNotNul(cells, pos, size, end);
    assert cells[pos..size][end - pos + 1..] == cells[end + 1..size];
    assert cells[pos..size][..end - pos] == cells[pos..end] + [];
  }

  lemma TakenCr(cells: string, pos: nat, size: nat, end: nat)
    requires pos <= size < |cells| && NulFree(cells[pos..size])
    requires 0 < end < size && end == pos + LineLength(cells[pos..size]) && cells[end - 1] == '\r'
    requires pos == 0 || cells[pos - 1] != '\r'
    ensures pos < end && LineTaken(cells, pos, size, end + 1, end - 1)
    ensures forall i :: pos <= i < end - 1 ==> cells[i] != NUL
  {
    hide LineLength;
    CellsNotNul(cells, pos, size, end - 1);
    assert cells[pos..size][end - pos + 1..] == cells[end + 1..size];
    assert cells[pos..size][..end - pos] == cells[pos..end - 1] + ['\r'];
  }

  lemma CellsNotNul(cells: string, pos: nat, size: nat, e: nat)
    requires pos <= e <= size <= |cells| && NulFree(cells[pos..size])
    ensures forall i :: pos <= i < e ==> cells[i] != NUL
  {
    forall i | pos <= i < e ensures cells[i] != NUL { assert cells[i] == cells[pos..size][i - pos]; }
  }

  lemma LineLengthStep(t: string)
    requires t != ""
    ensures LineLength(t) == if t[0] == '\n' then 0 else 1 + LineLength(t[1..])
  {
  }

  lemma LineLengthEmpty()
    ensures LineLength("") == 0
  {
  }
}
