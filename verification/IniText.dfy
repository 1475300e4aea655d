/**
 Character classes and the pure meaning of the string helpers that the INI parser
 runs on one zero-terminated buffer. Text is a `string` without its terminator; the
 array methods that do the same work in place are in `IniBuffer`.
 */
module IniText {

  const NUL: char := '\0'

  predicate IsSpace(c: char) { c == ' ' || c == '\t' || c == '\n' || c == '\r' }

  predicate IsIniEqual(c: char) { c == ':' || c == '=' }

  predicate NulFree(s: string) { NUL !in s }

  function RStrip(s: string): (r: string) {
    if s != "" && IsSpace(s[|s| - 1]) then RStrip(s[..|s| - 1]) else s
  }

  function LSkip(s: string): (r: string) {
    if s != "" && IsSpace(s[0]) then LSkip(s[1..]) else s
  }

  function Trim(s: string): (r: string) { RStrip(LSkip(s)) }

  /** Offset of the first `c`, or of the first ';' that follows whitespace, or `|s|`.
      `ws` says whether the character before `s` was whitespace. */
  function FindCharOrComment(s: string, c: char, ws: bool): (r: nat)
    ensures r <= |s|
    ensures r < |s| ==> s[r] == c || s[r] == ';'
  {
    if s == "" || s[0] == c || (ws && s[0] == ';') then 0
    else 1 + FindCharOrComment(s[1..], c, IsSpace(s[0]))
  }

  /** The same scan, stopping at ':' or '='. */
  function FindEqualOrComment(s: string, ws: bool): (r: nat)
    ensures r <= |s|
    ensures r < |s| ==> IsIniEqual(s[r]) || s[r] == ';'
  {
    if s == "" || IsIniEqual(s[0]) || (ws && s[0] == ';') then 0
    else 1 + FindEqualOrComment(s[1..], IsSpace(s[0]))
  }

  /** Offset at which `skipcomment` cuts: the first ';' outside quotes, where every
      quote mark toggles, escaped or not. */
  function CommentCut(s: string, quoted: bool): (r: nat)
    ensures r <= |s|
    ensures r < |s| ==> s[r] == ';'
  {
    if s == "" || (!quoted && s[0] == ';') then 0
    else 1 + CommentCut(s[1..], if s[0] == '"' then !quoted else quoted)
  }

  /** The opening quote goes only when something follows it; the closing one only when
      the opening one went. */
  function RemoveQuotes(s: string): (r: string)
  {
    if |s| >= 2 && s[0] == '"' then
      if s[|s| - 1] == '"' then s[1..|s| - 1] else s[1..]
    else s
  }

  predicate ClosingQuoteRemoved(s: string) {
    |s| >= 2 && s[0] == '"' && s[|s| - 1] == '"'
  }

  function UnescapeChar(c: char): (r: char) {
    if c == 'n' then '\n' else if c == 'r' then '\r' else if c == 't' then '\t' else c
  }

  /** A backslash that ends the text is dropped. */
  function Unescape(s: string): (r: string)
    ensures |r| <= |s|
  {
    if s == "" then ""
    else if s[0] != '\\' then [s[0]] + Unescape(s[1..])
    else if |s| == 1 then ""
    else [UnescapeChar(s[1])] + Unescape(s[2..])
  }

  /** Every backslash is followed by the character it escapes. */
  predicate Paired(s: string) {
    if s == "" then true
    else if s[0] != '\\' then Paired(s[1..])
    else |s| >= 2 && Paired(s[2..])
  }
}
