/**
 The INI parser as a function from text to a section map: one line at a time, no
 buffer. `IniStore` proves that the destructive in-place parser computes this.
 */
module IniParse {
  import opened CLocale
  import opened IniText

  type Keys = map<string, string>
  type Sections = map<string, Keys>

  datatype Option<T> = None | Some(value: T)

  datatype ErrCode = Ok | NoFile | SectionSyntax | KeySyntax | NoMemory

  /** `error` is the number of the first bad line, 0 while there is none. */
  datatype ParseState = ParseState(
    lineno: nat, error: nat, code: ErrCode, recent: Option<string>, data: Sections)

  const Bom: string := "\U{EF}\U{BB}\U{BF}"

  function Touch(data: Sections, section: string): (r: Sections) {
    if section in data then data else data[section := map[]]
  }

  function Put(data: Sections, section: string, key: string, value: string): (r: Sections) {
    data[section := (if section in data then data[section] else map[])[key := value]]
  }

  /** What is left of a value text once comments, trailing blanks and quotes are gone. */
  function ValueText(s: string): (r: string) {
    var uncommented := RStrip(s[..FindCharOrComment(s, NUL, false)]);
    RStrip(uncommented[..CommentCut(uncommented, false)])
  }

  function ReadValue(s: string): (r: string) { Unescape(RemoveQuotes(ValueText(s))) }

  function Body(line: string, lineno: nat): (r: string) {
    Trim(if lineno == 1 && Bom <= line then line[3..] else line)
  }

  function Fail(st: ParseState, code: ErrCode): (r: ParseState) {
    if st.error == 0 then st.(error := st.lineno, code := code) else st
  }

  function DoSection(body: string, st: ParseState): (r: ParseState)
    requires body != "" && body[0] == '['
  {
    var end := FindCharOrComment(body[1..], ']', false);
    if 1 + end < |body| && body[1 + end] == ']' then
      var name := body[1..1 + end];
      st.(recent := Some(name), data := Touch(st.data, name))
    else Fail(st, SectionSyntax)
  }

  function DoKey(body: string, st: ParseState): (r: ParseState) {
    var end := FindEqualOrComment(body, false);
    if end < |body| && IsIniEqual(body[end]) then
      var name := Lower(RStrip(body[..end]));
      var value := ReadValue(LSkip(body[end + 1..]));
      var section := if st.recent.Some? then st.recent.value else "General";
      st.(recent := Some(section), data := Put(st.data, section, name, value))
    else Fail(st, KeySyntax)
  }

  function DoBody(body: string, st: ParseState): (r: ParseState) {
    if body == "" || body[0] == ';' || body[0] == '#' then st
    else if body[0] == '[' then DoSection(body, st)
    else DoKey(body, st)
  }

  function DoLine(line: string, st: ParseState): (r: ParseState) {
    var st' := st.(lineno := st.lineno + 1);
    DoBody(Body(line, st'.lineno), st')
  }

  function LineLength(t: string): (r: nat)
    ensures r <= |t|
    ensures '\n' !in t[..r]
    ensures r < |t| ==> t[r] == '\n'
  {
    if t == "" || t[0] == '\n' then 0
    else
      var r := 1 + LineLength(t[1..]);
      assert t[..r] == [t[0]] + t[1..][..r - 1];
      r
  }

  function RestAfter(t: string, k: nat): (r: string)
    requires k <= |t|
  {
    if k < |t| then t[k + 1..] else ""
  }

  function ParseText(t: string, st: ParseState): (r: ParseState)
    decreases |t|
  {
    if t == "" then st
    else
      var k := LineLength(t);
      ParseText(RestAfter(t, k), DoLine(t[..k], st))
  }

  lemma NothingToParse(st: ParseState)
    ensures ParseText("", st) == st
  {
  }

  const Start := ParseState(0, 0, Ok, None, map[])

  /** What the parser makes of a whole file, starting from an empty store. */
  function Parse(t: string): (r: ParseState) { ParseText(t, Start) }
}
