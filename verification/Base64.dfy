/**
 Base64 encoder and decoder with the alphabets of sections 4 and 5 of RFC 4648. The url
 form pads with '.'; the decoder takes both alphabets and both padding characters.
 */
module Base64 {

  type Byte = bv8

  datatype Result<T> = Ok(value: T) | BadCharacter {
    predicate IsFailure() { BadCharacter? }
    function PropagateFailure<U>(): (r: Result<U>)
      requires BadCharacter?
    {
      BadCharacter
    }
    function Extract(): (r: T)
      requires Ok?
    {
      value
    }
  }

  const UpperCase := "ABCDEFGHIJKLMNOPQRSTUVWXYZ"
  const LowerCase := "abcdefghijklmnopqrstuvwxyz"
  const Digits := "0123456789"

  function Alphabet(url: bool): (r: string)
    ensures |r| == 64
  {
    UpperCase + LowerCase + Digits + (if url then "-_" else "+/")
  }

  /** pos_of_char, which throws on anything outside both alphabets. */
  function PosOfChar(c: char): (r: Result<nat>)
    ensures r.Ok? ==> r.value < 64
  {
    if 'A' <= c <= 'Z' then Ok((c - 'A') as nat)
    else if 'a' <= c <= 'z' then Ok((c - 'a') as nat + 26)
    else if '0' <= c <= '9' then Ok((c - '0') as nat + 52)
    else if c == '+' || c == '-' then Ok(62)
    else if c == '/' || c == '_' then Ok(63)
    else BadCharacter
  }

  lemma UpperAt(i: nat)
    requires i < 26
    ensures UpperCase[i] == 'A' + i as char
  {
  }

  lemma LowerAt(i: nat)
    requires i < 26
    ensures LowerCase[i] == 'a' + i as char
  {
  }

  /** pos_of_char inverts both alphabets. */
  lemma PosInvertsAlphabet(i: nat, url: bool)
    requires i < 64
    ensures PosOfChar(Alphabet(url)[i]) == Ok(i)
    ensures Alphabet(url)[i] !in {'=', '.', '\n', '\0'}
  {
    if i < 26 {
      UpperAt(i);
      assert Alphabet(url)[i] == UpperCase[i];
    } else if i < 52 {
      LowerAt(i - 26);
      assert Alphabet(url)[i] == LowerCase[i - 26];
    } else if i < 62 {
      assert Alphabet(url)[i] == Digits[i - 52];
    }
  }

  // ----- six-bit fields -----

  function Six0(a: Byte): (r: bv8) ensures r < 64 { (a & 0xfc) >> 2 }
  function Six1(a: Byte, b: Byte): (r: bv8) ensures r < 64 { ((a & 0x03) << 4) + ((b & 0xf0) >> 4) }
  function Six2(b: Byte, c: Byte): (r: bv8) ensures r < 64 { ((b & 0x0f) << 2) + ((c & 0xc0) >> 6) }
  function Six3(c: Byte): (r: bv8) ensures r < 64 { c & 0x3f }

  // The last field of an unfinished group.

  function LowTwo(a: Byte): (r: bv8) ensures r < 64 { (a & 0x03) << 4 }
  function LowFour(b: Byte): (r: bv8) ensures r < 64 { (b & 0x0f) << 2 }

  lemma LowBits(a: Byte, b: Byte)
    ensures LowTwo(a) == Six1(a, 0) && LowFour(b) == Six2(b, 0)
  {
  }

  // The decoder's way back from positions to bytes.

  function Join0(p0: bv8, p1: bv8): (r: Byte) { (p0 << 2) + ((p1 & 0x30) >> 4) }
  function Join1(p1: bv8, p2: bv8): (r: Byte) { ((p1 & 0x0f) << 4) + ((p2 & 0x3c) >> 2) }
  function Join2(p2: bv8, p3: bv8): (r: Byte) { ((p2 & 0x03) << 6) + p3 }

  /** The masks and shifts cut the 24 bits of three bytes into four groups of six. */
  lemma MasksAreFields(a: Byte, b: Byte, c: Byte)
    ensures ((a as bv24) << 16) | ((b as bv24) << 8) | (c as bv24) ==
            ((Six0(a) as bv24) << 18) | ((Six1(a, b) as bv24) << 12) | ((Six2(b, c) as bv24) << 6) | (Six3(c) as bv24)
  {
  }

  function CharAt(x: bv8, url: bool): (r: char)
    requires x < 64
  {
    Alphabet(url)[x as nat]
  }

  /** A position as the byte arithmetic of the decoder takes it. */
  function Bits(p: nat): (r: bv8)
    requires p < 64
  {
    p as bv8
  }

  lemma CharAtInverts(x: bv8, url: bool)
    requires x < 64
    ensures var p := PosOfChar(CharAt(x, url)); p.Ok? && Bits(p.value) == x
    ensures CharAt(x, url) !in {'=', '.', '\n', '\0'}
  {
    hide PosOfChar, Alphabet;
    PosInvertsAlphabet(x as nat, url);
  }

  // ----- encoding -----

  function Padding(url: bool): (r: char) { if url then '.' else '=' }

  /** The four characters for the next one, two or three bytes. */
  function Quad(bs: seq<Byte>, url: bool): (r: string)
    requires bs != []
    ensures |r| == 4
  {
    if |bs| == 1 then
      [CharAt(Six0(bs[0]), url), CharAt(Six1(bs[0], 0), url), Padding(url), Padding(url)]
    else if |bs| == 2 then
      [CharAt(Six0(bs[0]), url), CharAt(Six1(bs[0], bs[1]), url), CharAt(Six2(bs[1], 0), url), Padding(url)]
    else
      [CharAt(Six0(bs[0]), url), CharAt(Six1(bs[0], bs[1]), url), CharAt(Six2(bs[1], bs[2]), url), CharAt(Six3(bs[2]), url)]
  }

  function Rest(bs: seq<Byte>): (r: seq<Byte>) { if |bs| <= 3 then [] else bs[3..] }

  function Encode(bs: seq<Byte>, url: bool): (r: string)
    decreases |bs|
  {
    if bs == [] then "" else Quad(bs, url) + Encode(Rest(bs), url)
  }

  /** Where the encoder's position stands after `k` rounds. */
  function PosAfter(k: nat): (r: nat) { 3 * k % 0x1_0000_0000 }

  /** pos += 3 on 32 bits. */
  function Advance(pos: nat): (r: nat) { (pos + 3) % 0x1_0000_0000 }

  /** Each round moves the position on, wrapping around at 2^32. */
  lemma PosWraps(k: nat)
    ensures PosAfter(0) == 0 && PosAfter(k + 1) == Advance(PosAfter(k))
  {
  }

  /** Within a length that fits, round `k` starts at 3k and moves on without wrapping. */
  lemma PosNext(k: nat, length: nat)
    requires 3 * k < length < 0x1_0000_0000
    ensures PosAfter(k) == 3 * k && PosAfter(k + 1) == Advance(3 * k) == 3 * k + 3 < 0x1_0000_0000
  {
  }

  /** base64_encode with its 32-bit position. */
  method EncodeBytes(bytes: seq<Byte>, url: bool) returns (ret: string)
    requires |bytes| < 0x1_0000_0000
    ensures ret == Encode(bytes, url)
  {
    hide Quad, Encode, PosAfter, Advance, From;
    ret := "";
    var pos := 0;
    ghost var round := 0;
    FromEnds(bytes);
    while pos < |bytes|
      invariant pos == 3 * round && (round > 0 ==> pos == PosAfter(round))
      invariant Encode(bytes, url) == ret + Encode(From(bytes, pos), url)
      decreases |bytes| - pos
    {
      PosNext(round, |bytes|);
      EncodeRound(bytes, pos, url, ret);
      var quad := EncodeQuad(bytes, pos, url);
      ret := ret + quad;
      pos, round := Advance(pos), round + 1;
    }
    FromPast(bytes, pos);
    EncodeNothing(url);
  }

  /** What is still to be encoded. */
  function From(bytes: seq<Byte>, pos: nat): (r: seq<Byte>) { if pos < |bytes| then bytes[pos..] else [] }

  lemma FromEnds(bytes: seq<Byte>)
    ensures From(bytes, 0) == bytes
  {
  }

  lemma FromPast(bytes: seq<Byte>, pos: nat)
    requires pos >= |bytes|
    ensures From(bytes, pos) == []
  {
  }

  lemma EncodeRound(bytes: seq<Byte>, pos: nat, url: bool, done: string)
    requires pos < |bytes|
    ensures done + Encode(From(bytes, pos), url) == (done + Quad(bytes[pos..], url)) + Encode(From(bytes, pos + 3), url)
  {
    hide Encode, Quad;
    EncodeStep(bytes[pos..], url);
    assert Rest(bytes[pos..]) == From(bytes, pos + 3);
  }

  method EncodeQuad(bytes: seq<Byte>, pos: nat, url: bool) returns (ret: string)
    requires pos < |bytes| && pos + 2 < 0x1_0000_0000
    ensures ret == Quad(bytes[pos..], url)
  {
    hide CharAt, Six0, Six1, Six2, Six3;
    ret := [CharAt(Six0(bytes[pos]), url)];
    if pos + 1 < |bytes| {
      ret := ret + [CharAt(Six1(bytes[pos], bytes[pos + 1]), url)];
      if pos + 2 < |bytes| {
        ret := ret + [CharAt(Six2(bytes[pos + 1], bytes[pos + 2]), url), CharAt(Six3(bytes[pos + 2]), url)];
      } else {
        LowBits(bytes[pos], bytes[pos + 1]);
        ret := ret + [CharAt(LowFour(bytes[pos + 1]), url), Padding(url)];
      }
    } else {
      LowBits(bytes[pos], 0);
      ret := ret + [CharAt(LowTwo(bytes[pos]), url), Padding(url), Padding(url)];
    }
  }

  lemma EncodeStep(bs: seq<Byte>, url: bool)
    requires bs != []
    ensures Encode(bs, url) == Quad(bs, url) + Encode(Rest(bs), url)
  {
  }

  lemma EncodeNothing(url: bool)
    ensures Encode([], url) == ""
  {
  }

  /** The loop test fails at some round if and only if the length fits 32 bits; at 2^32
      bytes and more the position wraps around for ever. */
  lemma EncodeEndsIff(length: nat)
    ensures (exists k: nat :: PosAfter(k) >= length) <==> length < 0x1_0000_0000
  {
    if length < 0x1_0000_0000 { assert PosAfter(0x5555_5555) >= length; }
  }

  lemma {:induction false} EncodedLength(bs: seq<Byte>, url: bool)
    ensures |Encode(bs, url)| == (|bs| + 2) / 3 * 4
    decreases |bs|
  {
    hide Quad;
    if bs != [] { EncodedLength(Rest(bs), url); }
  }

  // ----- decoding -----

  /** std::string's operator[], which gives a NUL just past the end. */
  function At(s: string, i: nat): (r: char)
    requires i <= |s|
  {
    if i < |s| then s[i] else '\0'
  }

  predicate IsPad(c: char) { c == '=' || c == '.' }

  /** The bytes of the next four characters, looking no further than one past the end. */
  function DecodeQuad(s: string): (r: Result<seq<Byte>>)
    requires s != ""
  {
    var p1 :- PosOfChar(At(s, 1));
    var p0 :- PosOfChar(s[0]);
    var b0 := Join0(Bits(p0), Bits(p1));
    if IsPad(At(s, 2)) then Ok([b0])
    else
      var p2 :- PosOfChar(At(s, 2));
      var b1 := Join1(Bits(p1), Bits(p2));
      if IsPad(At(s, 3)) then Ok([b0, b1])
      else
        var p3 :- PosOfChar(At(s, 3));
        Ok([b0, b1, Join2(Bits(p2), Bits(p3))])
  }

  function RestOf(s: string): (r: string) { if |s| <= 4 then "" else s[4..] }

  function Decode(s: string): (r: Result<seq<Byte>>)
    decreases |s|
  {
    if s == "" then Ok([])
    else
      var first :- DecodeQuad(s);
      var more :- Decode(RestOf(s));
      Ok(first + more)
  }

  method DecodeString(encoded: string) returns (r: Result<seq<Byte>>)
    ensures r == Decode(encoded)
  {
    hide DecodeQuad;
    var ret: seq<Byte> := [];
    var pos := 0;
    assert encoded[0..] == encoded;
    PrependNothing(Decode(encoded));
    while pos < |encoded|
      invariant 0 <= pos
      invariant Decode(encoded) == Prepend(ret, Decode(if pos < |encoded| then encoded[pos..] else ""))
      decreases |encoded| - pos
    {
      var quad := DecodeQuad(encoded[pos..]);
      if quad.BadCharacter? { return BadCharacter; }
      assert RestOf(encoded[pos..]) == if pos + 4 < |encoded| then encoded[pos + 4..] else "";
      PrependTwice(ret, quad.value, Decode(RestOf(encoded[pos..])));
      ret := ret + quad.value;
      pos := pos + 4;
    }
    assert ret + [] == ret;
    return Ok(ret);
  }

  function Prepend(bs: seq<Byte>, r: Result<seq<Byte>>): (q: Result<seq<Byte>>) {
    if r.Ok? then Ok(bs + r.value) else BadCharacter
  }

  lemma PrependNothing(r: Result<seq<Byte>>)
    ensures Prepend([], r) == r
  {
    if r.Ok? { assert [] + r.value == r.value; }
  }

  lemma PrependTwice(a: seq<Byte>, b: seq<Byte>, r: Result<seq<Byte>>)
    ensures Prepend(a, Prepend(b, r)) == Prepend(a + b, r)
  {
    if r.Ok? { assert a + (b + r.value) == (a + b) + r.value; }
  }

  // ----- the round trip -----

  lemma FieldsJoin(a: Byte, b: Byte, c: Byte)
    ensures Join0(Six0(a), Six1(a, b)) == a
    ensures Join1(Six1(a, b), Six2(b, c)) == b
    ensures Join2(Six2(b, c), Six3(c)) == c
  {
  }

  lemma QuadDecodes(bs: seq<Byte>, url: bool, tail: string)
    requires bs != []
    ensures DecodeQuad(Quad(bs, url) + tail) == Ok(if |bs| <= 3 then bs else bs[..3])
  {
    hide CharAt, PosOfChar, Bits, Six0, Six1, Six2, Six3, Join0, Join1, Join2;
    var b := if |bs| > 1 then bs[1] else 0;
    var c := if |bs| > 2 then bs[2] else 0;
    FieldsJoin(bs[0], b, c);
    CharAtInverts(Six0(bs[0]), url);
    CharAtInverts(Six1(bs[0], b), url);
    CharAtInverts(Six2(b, c), url);
    CharAtInverts(Six3(c), url);
    var s := Quad(bs, url) + tail;
    assert At(s, 1) == Quad(bs, url)[1] && At(s, 2) == Quad(bs, url)[2] && At(s, 3) == Quad(bs, url)[3];
    if |bs| == 1 {
      assert bs == [bs[0]];
    } else if |bs| == 2 {
      assert bs == [bs[0], b];
    } else {
      assert (if |bs| <= 3 then bs else bs[..3]) == [bs[0], b, c];
    }
  }

  /** Decoding an encoding gives the bytes back, for every byte string and both alphabets. */
  lemma {:induction false} DecodeEncode(bs: seq<Byte>, url: bool)
    ensures Decode(Encode(bs, url)) == Ok(bs)
    decreases |bs|
  {
    hide Quad, DecodeQuad;
    if bs != [] {
      var q, rest := Quad(bs, url), Encode(Rest(bs), url);
      QuadDecodes(bs, url, rest);
      DecodeEncode(Rest(bs), url);
      assert RestOf(q + rest) == rest;
      assert (if |bs| <= 3 then bs else bs[..3]) + Rest(bs) == bs;
    }
  }

  /** An encoding has no line break in it. */
  lemma {:induction false} EncodeNoNewline(bs: seq<Byte>, url: bool)
    ensures '\n' !in Encode(bs, url)
    decreases |bs|
  {
    if bs != [] {
      QuadNoNewline(bs, url);
      EncodeNoNewline(Rest(bs), url);
    }
  }

  lemma QuadNoNewline(bs: seq<Byte>, url: bool)
    requires bs != []
    ensures '\n' !in Quad(bs, url)
  {
    hide CharAt, Six0, Six1, Six2, Six3;
    var b := if |bs| > 1 then bs[1] else 0;
    var c := if |bs| > 2 then bs[2] else 0;
    CharAtInverts(Six0(bs[0]), url);
    CharAtInverts(Six1(bs[0], b), url);
    CharAtInverts(Six2(b, c), url);
    CharAtInverts(Six3(c), url);
  }
}
