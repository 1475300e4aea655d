/**
 The INI string helpers as they run: pointer loops over one zero-terminated buffer,
 trimming, cutting and unescaping by writing into it. A string is the cells from `s`
 up to the first NUL, whose position `e` is passed along as a ghost.
 */
module IniBuffer {
  import opened CLocale
  import opened IniText

  ghost predicate CStr(b: array<char>, s: nat, e: nat)
    reads b
  {
    s <= e < b.Length && b[e] == NUL && forall i :: s <= i < e ==> b[i] != NUL
  }

  twostate predicate OnlyWithin(b: array<char>, lo: nat, hi: nat)
    reads b
  {
    forall i :: 0 <= i < b.Length && !(lo <= i < hi) ==> b[i] == old(b[i])
  }

  method StrLen(b: array<char>, s: nat, ghost e: nat) returns (n: nat)
    requires CStr(b, s, e)
    ensures n == e - s
  {
    n := 0;
    while b[s + n] != NUL
      invariant s + n <= e
      decreases e - n
    {
      n := n + 1;
    }
  }

  /** rstrip: writes NUL over the trailing whitespace. */
  method RStripAt(b: array<char>, s: nat, ghost e: nat) returns (ghost e': nat)
    requires CStr(b, s, e)
    modifies b
    ensures s <= e' <= e && CStr(b, s, e')
    ensures b[s..e'] == RStrip(old(b[s..e])) && b[s..e'] == old(b[s..e'])
    ensures forall i :: e' <= i <= e ==> b[i] == NUL
    ensures OnlyWithin(b, s, e)
  {
    var n := StrLen(b, s, e);
    var p := s + n;
    while p > s && IsSpace(b[p - 1])
      invariant s <= p <= e
      invariant forall i :: s <= i < p ==> b[i] == old(b[i])
      invariant RStrip(b[s..p]) == RStrip(old(b[s..e]))
      invariant forall i :: p <= i <= e ==> b[i] == NUL
      invariant OnlyWithin(b, s, e)
    {
      p := p - 1;
      assert b[s..p + 1][..p - s] == b[s..p];
      ghost var kept := b[s..p];
      b[p] := NUL;
      assert b[s..p] == kept;
    }
    e' := p;
    assert b[s..p] == old(b[s..p]);
  }

  method LSkipAt(b: array<char>, s: nat, ghost e: nat) returns (r: nat)
    requires CStr(b, s, e)
    ensures s <= r <= e && b[r..e] == LSkip(b[s..e])
  {
    r := s;
    while b[r] != NUL && IsSpace(b[r])
      invariant s <= r <= e
      invariant LSkip(b[r..e]) == LSkip(b[s..e])
      decreases e - r
    {
      assert b[r..e][1..] == b[r + 1..e];
      r := r + 1;
    }
  }

  method LrTrimAt(b: array<char>, s: nat, ghost e: nat) returns (r: nat, ghost e': nat)
    requires CStr(b, s, e)
    modifies b
    ensures s <= r <= e' <= e && CStr(b, r, e') && b[r..e'] == Trim(old(b[s..e]))
    ensures OnlyWithin(b, s, e)
  {
    r := LSkipAt(b, s, e);
    e' := RStripAt(b, r, e);
  }

  method FindCharOrCommentAt(b: array<char>, s: nat, c: char, ghost e: nat) returns (r: nat)
    requires CStr(b, s, e)
    ensures r == s + FindCharOrComment(b[s..e], c, false)
  {
    var ws := false;
    r := s;
    while b[r] != NUL && b[r] != c && !(ws && b[r] == ';')
      invariant s <= r <= e
      invariant r + FindCharOrComment(b[r..e], c, ws) == s + FindCharOrComment(b[s..e], c, false)
      decreases e - r
    {
      assert b[r..e][1..] == b[r + 1..e];
      ws := IsSpace(b[r]);
      r := r + 1;
    }
  }

  method FindIniEqAt(b: array<char>, s: nat, ghost e: nat) returns (r: nat)
    requires CStr(b, s, e)
    ensures r == s + FindEqualOrComment(b[s..e], false)
  {
    var ws := false;
    r := s;
    while b[r] != NUL && !IsIniEqual(b[r]) && !(ws && b[r] == ';')
      invariant s <= r <= e
      invariant r + FindEqualOrComment(b[r..e], ws) == s + FindEqualOrComment(b[s..e], false)
      decreases e - r
    {
      assert b[r..e][1..] == b[r + 1..e];
      ws := IsSpace(b[r]);
      r := r + 1;
    }
  }

  /** Cuts the string at `cut`, where the source writes a NUL. */
  method CutAt(b: array<char>, s: nat, cut: nat, ghost e: nat)
    requires CStr(b, s, e) && s <= cut <= e
    modifies b
    ensures CStr(b, s, cut) && b[s..cut] == old(b[s..e])[..cut - s]
    ensures OnlyWithin(b, cut, e) && forall i :: cut < i < b.Length ==> b[i] == old(b[i])
  {
    b[cut] := NUL;
  }

  /** skipcomment: every '"' toggles the depth; a backslash inside quotes is stepped over
      alone, so the character it escapes is still looked at. */
  method SkipCommentAt(b: array<char>, s: nat, ghost e: nat) returns (ghost e': nat)
    requires CStr(b, s, e)
    modifies b
    ensures s <= e' <= e && CStr(b, s, e')
    ensures b[s..e'] == old(b[s..e])[..CommentCut(old(b[s..e]), false)]
    ensures OnlyWithin(b, s, e)
  {
    var quoteDepth := 0;
    var p := s;
    while b[p] != NUL
      invariant s <= p <= e && 0 <= quoteDepth <= 1
      invariant b[..] == old(b[..])
      invariant p - s + CommentCut(b[p..e], quoteDepth > 0) == CommentCut(b[s..e], false)
      decreases e - p
    {
      assert b[p..e][1..] == b[p + 1..e];
      if quoteDepth > 0 {
        if b[p] == '\\' {
          p := p + 1;
          continue;
        }
        if b[p] == '"' { quoteDepth := quoteDepth - 1; }
      } else if b[p] == '"' {
        quoteDepth := quoteDepth + 1;
      }
      if quoteDepth == 0 && b[p] == ';' {
        CutAt(b, s, p, e);
        return p;
      }
      p := p + 1;
    }
    e' := e;
    assert b[s..e] == old(b[s..e]);
  }

  /** removeQuotes on the string [begin, end). */
  method RemoveQuotesAt(b: array<char>, begin: nat, end: nat) returns (r: nat, ghost e': nat)
    requires CStr(b, begin, end)
    modifies b
    ensures begin <= r <= e' <= end && CStr(b, r, e')
    ensures b[r..e'] == RemoveQuotes(old(b[begin..end]))
    ensures e' < end <==> ClosingQuoteRemoved(old(b[begin..end]))
    ensures OnlyWithin(b, begin, end) && b[end] == NUL && (e' < end ==> e' + 1 == end)
  {
    if b[begin] == NUL || begin == end { return begin, end; }
    if b[begin] != '"' || begin + 1 == end { return begin, end; }
    r, e' := begin + 1, end;
    ghost var text := b[begin..end];
    assert text[0] == b[begin] && text[|text| - 1] == b[end - 1];
    assert text[1..] == b[begin + 1..end] && text[1..|text| - 1] == b[begin + 1..end - 1];
    if b[end - 1] == '"' {
      b[end - 1] := NUL;
      e' := end - 1;
      assert b[r..e'] == text[1..|text| - 1];
    }
  }

  lemma PlainStep(done: string, rest: string)
    requires rest != "" && rest[0] != '\\'
    ensures done + Unescape(rest) == (done + [rest[0]]) + Unescape(rest[1..])
    ensures Paired(rest) == Paired(rest[1..])
  {
    var tail := Unescape(rest[1..]);
    assert done + ([rest[0]] + tail) == (done + [rest[0]]) + tail;
  }

  lemma EscapedStep(done: string, rest: string)
    requires |rest| >= 2 && rest[0] == '\\'
    ensures done + Unescape(rest) == (done + [UnescapeChar(rest[1])]) + Unescape(rest[2..])
    ensures Paired(rest) == Paired(rest[2..])
  {
    var c, tail := UnescapeChar(rest[1]), Unescape(rest[2..]);
    assert done + ([c] + tail) == (done + [c]) + tail;
  }

  lemma UnescapeEnd(done: string, rest: string)
    requires rest == "" || rest == "\\"
    ensures done + Unescape(rest) == done
    ensures Paired(rest) ==> rest == ""
  {
  }

  lemma {:induction false} UnescapeNulFree(s: string)
    requires NulFree(s)
    ensures NulFree(Unescape(s))
  {
    if s == "" {
    } else if s[0] != '\\' {
      UnescapeNulFree(s[1..]);
    } else if |s| >= 2 {
      UnescapeNulFree(s[2..]);
    }
  }

  /** One write through `dst`. */
  method Emit(b: array<char>, ghost s: nat, dst: nat, c: char)
    requires s <= dst < b.Length
    modifies b
    ensures b[s..dst] == old(b[s..dst]) && b[s..dst + 1] == old(b[s..dst]) + [c]
    ensures forall i :: dst < i < b.Length ==> b[i] == old(b[i])
    ensures OnlyWithin(b, dst, dst + 1)
  {
    b[dst] := c;
  }

  method Terminate(b: array<char>, ghost s: nat, dst: nat)
    requires s <= dst < b.Length && NulFree(b[s..dst])
    modifies b
    ensures CStr(b, s, dst) && b[s..dst] == old(b[s..dst])
    ensures OnlyWithin(b, dst, dst + 1)
  {
    forall i | s <= i < dst ensures b[i] != NUL { assert b[i] in b[s..dst]; }
    b[dst] := NUL;
  }

  /** A final backslash: the character copied is the terminator at `src`, and the loop test
      then looks at the cell after it. */
  method Overrun(b: array<char>, ghost s: nat, dst: nat, src: nat)
    requires s <= dst < src && src + 1 < b.Length && b[src] == NUL && b[src + 1] == NUL
    requires NulFree(b[s..dst])
    modifies b
    ensures CStr(b, s, dst) && b[s..dst] == old(b[s..dst])
    ensures OnlyWithin(b, dst, src)
  {
    Terminate(b, s, dst);
    b[dst + 1] := NUL;
  }

  /** unescapeString. A final backslash makes it step over the terminator, so either
      there is none or the cell after the terminator must be NUL too. */
  method UnescapeAt(b: array<char>, s: nat, ghost e: nat) returns (ghost e': nat)
    requires CStr(b, s, e)
    requires Paired(b[s..e]) || (e + 1 < b.Length && b[e + 1] == NUL)
    modifies b
    ensures s <= e' <= e && CStr(b, s, e') && b[s..e'] == Unescape(old(b[s..e]))
    ensures OnlyWithin(b, s, e)
  {
    hide Unescape, Paired, UnescapeChar;
    var src, dst := s, s;
    ghost var text := b[s..e];
    ghost var result, safe := Unescape(text), Paired(text);
    UnescapeNulFree(text);
    assert b[s..s] + result == result && text[0..] == text;
    while b[src] != NUL
      invariant s <= dst <= src <= e
      invariant forall i :: src <= i < b.Length ==> b[i] == old(b[i])
      invariant b[s..dst] + Unescape(text[src - s..]) == result
      invariant safe ==> Paired(text[src - s..])
      invariant OnlyWithin(b, s, e)
      decreases e - src
    {
      ghost var rest, done := text[src - s..], b[s..dst];
      assert rest[0] == b[src];
      if b[src] == '\\' {
        src := src + 1;
        if b[src] == NUL {
          assert rest == "\\";
          UnescapeEnd(done, rest);
          Overrun(b, s, dst, src);
          return dst;
        }
        EscapedStep(done, rest);
        assert rest[1] == b[src] && rest[2..] == text[src + 1 - s..];
        Emit(b, s, dst, UnescapeChar(b[src]));
      } else {
        PlainStep(done, rest);
        assert rest[1..] == text[src + 1 - s..];
        Emit(b, s, dst, b[src]);  // a cell onto itself while nothing has been dropped
      }
      src, dst := src + 1, dst + 1;
    }
    assert text[src - s..] == "";
    UnescapeEnd(b[s..dst], "");
    Terminate(b, s, dst);
    e' := dst;
  }

  method LowerAt(b: array<char>, s: nat, ghost e: nat)
    requires CStr(b, s, e)
    modifies b
    ensures CStr(b, s, e) && b[s..e] == Lower(old(b[s..e]))
    ensures OnlyWithin(b, s, e)
  {
    var p := s;
    while b[p] != NUL
      invariant s <= p <= e && CStr(b, s, e)
      invariant forall i :: s <= i < p ==> b[i] == ToLower(old(b[i]))
      invariant forall i :: p <= i < e ==> b[i] == old(b[i])
      invariant OnlyWithin(b, s, e)
      decreases e - p
    {
      b[p] := ToLower(b[p]);
      p := p + 1;
    }
  }

  /** std::string(char *). */
  method ReadString(b: array<char>, s: nat, ghost e: nat) returns (r: string)
    requires CStr(b, s, e)
    ensures r == b[s..e]
  {
    var n := StrLen(b, s, e);
    r := b[s..s + n];
  }
}
