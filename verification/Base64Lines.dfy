/**
 Base64 text broken into lines of a fixed length, as PEM (64) and MIME (76) use it, with
 "\n" as the line break.
 */
module Base64Lines {
  import opened Base64

  /** Reference: the text cut into pieces of `d` characters, the last one shorter. */
  function Pieces(s: string, d: nat): (r: seq<string>)
    requires d > 0
  {
    if |s| <= d then [s] else [s[..d]] + Pieces(s[d..], d)
  }

  function Broken(s: string, d: nat): (r: string)
    requires d > 0
  {
    if |s| <= d then s else s[..d] + ['\n'] + Broken(s[d..], d)
  }

  /** insert_linebreaks: the text grows under the loop, a break after each `distance`. */
  method InsertLinebreaks(text: string, distance: nat) returns (str: string)
    requires distance > 0
    ensures str == Broken(text, distance)
  {
    str := text;
    if |str| == 0 { return; }
    var pos := distance;
    ghost var done, left := "", text;
    while pos < |str|
      invariant str == done + left && pos == |done| + distance && left != ""
      invariant Broken(text, distance) == done + Broken(left, distance)
      decreases |left|
    {
      ghost var head, tail := left[..distance], left[distance..];
      assert str[..pos] == done + head && str[pos..] == tail;
      str := str[..pos] + ['\n'] + str[pos..];
      assert done + (head + ['\n'] + Broken(tail, distance)) == (done + head + ['\n']) + Broken(tail, distance);
      done, left := done + head + ['\n'], tail;
      pos := pos + distance + 1;
    }
  }

  // ----- lines -----

  /** The text between line breaks. */
  function Lines(s: string): (r: seq<string>)
    ensures r != []
  {
    if s == "" then [""]
    else if s[0] == '\n' then [""] + Lines(s[1..])
    else var ls := Lines(s[1..]); [[s[0]] + ls[0]] + ls[1..]
  }

  lemma {:induction false} LinesOfPlain(s: string)
    requires '\n' !in s
    ensures Lines(s) == [s]
  {
    if s != "" {
      LinesOfPlain(s[1..]);
      assert [s[0]] + s[1..] == s;
      assert [s[1..]][1..] == [];
    }
  }

  lemma {:induction false} LinesOfJoin(s: string, rest: string)
    requires '\n' !in s
    ensures Lines(s + ['\n'] + rest) == [s] + Lines(rest)
  {
    var t := s + ['\n'] + rest;
    if s == "" {
      assert t[1..] == rest;
    } else {
      LinesOfJoin(s[1..], rest);
      assert t[1..] == s[1..] + ['\n'] + rest;
      assert t[0] == s[0] && [s[0]] + s[1..] == s;
      assert ([s[1..]] + Lines(rest))[1..] == Lines(rest);
    }
  }

  /** The lines of the broken text are the pieces. */
  lemma {:induction false} LinesOfBroken(s: string, d: nat)
    requires d > 0 && '\n' !in s
    ensures Lines(Broken(s, d)) == Pieces(s, d)
  {
    if |s| <= d {
      LinesOfPlain(s);
    } else {
      LinesOfBroken(s[d..], d);
      LinesOfJoin(s[..d], Broken(s[d..], d));
    }
  }

  /** Every line but the last is full, and the last is neither empty nor too long. */
  ghost predicate WellBroken(lines: seq<string>, d: nat) {
    && lines != []
    && (forall i :: 0 <= i < |lines| - 1 ==> |lines[i]| == d)
    && 0 < |lines[|lines| - 1]| <= d
  }

  lemma {:induction false} PiecesWellBroken(s: string, d: nat)
    requires d > 0 && s != ""
    ensures WellBroken(Pieces(s, d), d)
  {
    if |s| > d { PiecesWellBroken(s[d..], d); }
  }

  // ----- taking the breaks out -----

  function Without(s: string): (r: string) {
    if s == "" then "" else (if s[0] == '\n' then "" else [s[0]]) + Without(s[1..])
  }

  lemma WithoutStep(s: string)
    ensures Without(s) == if s == "" then "" else (if s[0] == '\n' then "" else [s[0]]) + Without(s[1..])
  {
  }

  lemma {:induction false} WithoutConcat(a: string, b: string)
    ensures Without(a + b) == Without(a) + Without(b)
  {
    hide Without;
    WithoutStep("");
    if a == "" {
      assert a + b == b;
    } else {
      WithoutConcat(a[1..], b);
      WithoutStep(a);
      WithoutStep(a + b);
      assert (a + b)[1..] == a[1..] + b;
      Associate(if a[0] == '\n' then "" else [a[0]], Without(a[1..]), Without(b));
    }
  }

  lemma Associate(a: string, b: string, c: string)
    ensures a + (b + c) == (a + b) + c
  {
  }

  lemma {:induction false} WithoutPlain(s: string)
    requires '\n' !in s
    ensures Without(s) == s
  {
    if s != "" { WithoutPlain(s[1..]); }
  }

  lemma WithoutBreak()
    ensures Without(['\n']) == ""
  {
    assert ['\n'][1..] == "";
  }

  lemma {:induction false} WithoutBroken(s: string, d: nat)
    requires d > 0 && '\n' !in s
    ensures Without(Broken(s, d)) == s
  {
    hide Without;
    if |s| <= d {
      WithoutPlain(s);
    } else {
      WithoutBroken(s[d..], d);
      WithoutConcat(s[..d] + ['\n'], Broken(s[d..], d));
      WithoutConcat(s[..d], ['\n']);
      WithoutPlain(s[..d]);
      WithoutBreak();
      assert s[..d] + "" + s[d..] == s;
    }
  }

  /** find("\n", pos) */
  method FindBreak(copy: string, from: nat) returns (pos: nat)
    requires from <= |copy|
    ensures from <= pos <= |copy| && '\n' !in copy[from..pos]
    ensures pos < |copy| ==> copy[pos] == '\n'
  {
    pos := from;
    while pos < |copy| && copy[pos] != '\n'
      invariant from <= pos <= |copy| && '\n' !in copy[from..pos]
    {
      assert copy[from..pos + 1] == copy[from..pos] + [copy[pos]];
      pos := pos + 1;
    }
  }

  /** The erase loop of decode. */
  method EraseBreaks(encoded: string) returns (copy: string)
    ensures copy == Without(encoded)
  {
    copy := encoded;
    var pos := FindBreak(copy, 0);
    assert copy[0..pos] == copy[..pos];
    while pos < |copy|
      invariant pos <= |copy| && '\n' !in copy[..pos]
      invariant Without(copy) == Without(encoded)
      invariant pos < |copy| ==> copy[pos] == '\n'
      decreases |copy| - pos
    {
      EraseOne(copy, pos);
      ghost var front := copy[..pos];
      copy := copy[..pos] + copy[pos + 1..];
      assert copy[..pos] == front;
      var next := FindBreak(copy, pos);
      assert copy[..next] == copy[..pos] + copy[pos..next];
      pos := next;
    }
    assert copy[..pos] == copy;
    WithoutPlain(copy);
  }

  lemma EraseOne(s: string, pos: nat)
    requires pos < |s| && s[pos] == '\n'
    ensures Without(s[..pos] + s[pos + 1..]) == Without(s)
  {
    hide Without;
    assert s == s[..pos] + (['\n'] + s[pos + 1..]);
    WithoutConcat(s[..pos], ['\n'] + s[pos + 1..]);
    WithoutConcat(['\n'], s[pos + 1..]);
    WithoutBreak();
    WithoutConcat(s[..pos], s[pos + 1..]);
    assert "" + Without(s[pos + 1..]) == Without(s[pos + 1..]);
  }

  // ----- PEM and MIME -----

  method EncodeWithLineBreaks(bytes: seq<Byte>, length: nat) returns (text: string)
    requires |bytes| < 0x1_0000_0000 && length > 0
    ensures text == Broken(Encode(bytes, false), length)
  {
    var plain := EncodeBytes(bytes, false);
    text := InsertLinebreaks(plain, length);
  }

  method EncodePem(bytes: seq<Byte>) returns (text: string)
    requires |bytes| < 0x1_0000_0000
    ensures Decode(Without(text)) == Ok(bytes) && (bytes != [] ==> WellBroken(Lines(text), 64))
  {
    hide Decode, Without, Broken, Lines, WellBroken;
    LineBrokenRoundTrip(bytes, 64);
    text := EncodeWithLineBreaks(bytes, 64);
  }

  method EncodeMime(bytes: seq<Byte>) returns (text: string)
    requires |bytes| < 0x1_0000_0000
    ensures Decode(Without(text)) == Ok(bytes) && (bytes != [] ==> WellBroken(Lines(text), 76))
  {
    hide Decode, Without, Broken, Lines, WellBroken;
    LineBrokenRoundTrip(bytes, 76);
    text := EncodeWithLineBreaks(bytes, 76);
  }

  /** base64_decode with removal of line breaks. */
  method DecodeLines(encoded: string) returns (r: Result<seq<Byte>>)
    ensures r == Decode(Without(encoded))
  {
    if |encoded| == 0 { return Ok([]); }
    var copy := EraseBreaks(encoded);
    r := DecodeString(copy);
  }

  /** Line-broken output, for every byte string and line length, PEM's and MIME's among
      them: the lines are well broken, and decoding gives the bytes back. */
  lemma LineBrokenRoundTrip(bs: seq<Byte>, length: nat)
    requires length > 0
    ensures Decode(Without(Broken(Encode(bs, false), length))) == Ok(bs)
    ensures bs != [] ==> WellBroken(Lines(Broken(Encode(bs, false), length)), length)
  {
    hide Decode, Encode, Without, Broken, Lines, Pieces;
    EncodeNoNewline(bs, false);
    WithoutBroken(Encode(bs, false), length);
    DecodeEncode(bs, false);
    if bs != [] {
      EncodedLength(bs, false);
      LinesOfBroken(Encode(bs, false), length);
      PiecesWellBroken(Encode(bs, false), length);
    }
  }
}
