/**
 Base64 told by bits: the bytes are one stream of bits, most significant first, each
 character stands for the next six of them, and padding fills the last group of four.
 */
module Base64Bits {
  import opened Base64

  const Common := "ABCDEFGHIJKLMNOPQRSTUVWXYZabcdefghijklmnopqrstuvwxyz0123456789"

  /** The characters for 0 to 63, the last two by the alphabet. */
  function Symbol(x: nat, url: bool): (r: char)
    requires x < 64
  {
    if x == 62 then (if url then '-' else '+')
    else if x == 63 then (if url then '_' else '/')
    else Common[x]
  }

  /** A bit of a byte, number 0 being the most significant. */
  function BitOf(b: Byte, k: nat): (r: bv8)
    requires k < 8
  {
    match k
    case 0 => (b >> 7) & 1 case 1 => (b >> 6) & 1 case 2 => (b >> 5) & 1 case 3 => (b >> 4) & 1
    case 4 => (b >> 3) & 1 case 5 => (b >> 2) & 1 case 6 => (b >> 1) & 1 case _ => b & 1
  }

  /** A bit of the stream; behind its end there are zeros. */
  function StreamBit(bs: seq<Byte>, k: nat): (r: bv8) {
    if k / 8 < |bs| then BitOf(bs[k / 8], k % 8) else 0
  }

  /** Six bits as a number. */
  function SixBits(a: bv8, b: bv8, c: bv8, d: bv8, e: bv8, f: bv8): (r: bv8) {
    (a << 5) | (b << 4) | (c << 3) | (d << 2) | (e << 1) | f
  }

  /** The i-th group of six bits of the stream. */
  function Sextet(bs: seq<Byte>, i: nat): (r: bv8) {
    SixBits(StreamBit(bs, 6 * i), StreamBit(bs, 6 * i + 1), StreamBit(bs, 6 * i + 2),
            StreamBit(bs, 6 * i + 3), StreamBit(bs, 6 * i + 4), StreamBit(bs, 6 * i + 5))
  }

  // ----- fields are groups of bits -----

  lemma FieldBits(a: Byte, b: Byte, c: Byte)
    ensures Six0(a) == SixBits(BitOf(a, 0), BitOf(a, 1), BitOf(a, 2), BitOf(a, 3), BitOf(a, 4), BitOf(a, 5))
    ensures Six1(a, b) == SixBits(BitOf(a, 6), BitOf(a, 7), BitOf(b, 0), BitOf(b, 1), BitOf(b, 2), BitOf(b, 3))
    ensures Six2(b, c) == SixBits(BitOf(b, 4), BitOf(b, 5), BitOf(b, 6), BitOf(b, 7), BitOf(c, 0), BitOf(c, 1))
    ensures Six3(c) == SixBits(BitOf(c, 2), BitOf(c, 3), BitOf(c, 4), BitOf(c, 5), BitOf(c, 6), BitOf(c, 7))
  {
  }

  lemma ZeroBits(k: nat)
    requires k < 8
    ensures BitOf(0, k) == 0
  {
  }

  function ByteAt(bs: seq<Byte>, i: nat): (r: Byte) { if i < |bs| then bs[i] else 0 }

  lemma StreamBits(bs: seq<Byte>, i: nat, k: nat)
    requires k < 8
    ensures StreamBit(bs, 8 * i + k) == BitOf(ByteAt(bs, i), k)
  {
    hide BitOf;
    assert (8 * i + k) / 8 == i && (8 * i + k) % 8 == k;
    ZeroBits(k);
  }

  /** The first four groups. */
  lemma FirstSextets(bs: seq<Byte>)
    ensures var a, b, c := ByteAt(bs, 0), ByteAt(bs, 1), ByteAt(bs, 2);
            && Sextet(bs, 0) == Six0(a) && Sextet(bs, 1) == Six1(a, b)
            && Sextet(bs, 2) == Six2(b, c) && Sextet(bs, 3) == Six3(c)
  {
    hide BitOf, SixBits, StreamBit, ByteAt, Six0, Six1, Six2, Six3;
    FieldBits(ByteAt(bs, 0), ByteAt(bs, 1), ByteAt(bs, 2));
    ByteBits(bs, 0);
    ByteBits(bs, 1);
    ByteBits(bs, 2);
  }

  lemma ByteBits(bs: seq<Byte>, i: nat)
    ensures var b := ByteAt(bs, i);
            && StreamBit(bs, 8 * i) == BitOf(b, 0) && StreamBit(bs, 8 * i + 1) == BitOf(b, 1)
            && StreamBit(bs, 8 * i + 2) == BitOf(b, 2) && StreamBit(bs, 8 * i + 3) == BitOf(b, 3)
            && StreamBit(bs, 8 * i + 4) == BitOf(b, 4) && StreamBit(bs, 8 * i + 5) == BitOf(b, 5)
            && StreamBit(bs, 8 * i + 6) == BitOf(b, 6) && StreamBit(bs, 8 * i + 7) == BitOf(b, 7)
  {
    hide BitOf, StreamBit, ByteAt;
    StreamBits(bs, i, 0);
    StreamBits(bs, i, 1);
    StreamBits(bs, i, 2);
    StreamBits(bs, i, 3);
    StreamBits(bs, i, 4);
    StreamBits(bs, i, 5);
    StreamBits(bs, i, 6);
    StreamBits(bs, i, 7);
  }

  /** Three bytes further on, the stream goes on by 24 bits. */
  lemma LaterBit(bs: seq<Byte>, k: nat)
    ensures StreamBit(bs, k + 24) == StreamBit(Rest(bs), k)
  {
    hide BitOf;
    assert (k + 24) / 8 == k / 8 + 3 && (k + 24) % 8 == k % 8;
  }

  lemma LaterSextet(bs: seq<Byte>, i: nat)
    ensures Sextet(bs, i + 4) == Sextet(Rest(bs), i)
  {
    hide SixBits, StreamBit;
    LaterBit(bs, 6 * i);
    LaterBit(bs, 6 * i + 1);
    LaterBit(bs, 6 * i + 2);
    LaterBit(bs, 6 * i + 3);
    LaterBit(bs, 6 * i + 4);
    LaterBit(bs, 6 * i + 5);
    assert 6 * (i + 4) == 6 * i + 24;
  }

  // ----- characters -----

  lemma SymbolIs(x: nat, url: bool)
    requires x < 64
    ensures Alphabet(url)[x] == Symbol(x, url)
  {
    hide Common, UpperCase, LowerCase, Digits;
    AlphabetParts(x, url);
    if x < 26 {
      CommonUpper(x);
    } else if x < 52 {
      CommonLower(x - 26);
    } else if x < 62 {
      CommonDigit(x - 52);
      DigitsAt(x - 52);
    }
  }

  lemma AlphabetParts(x: nat, url: bool)
    requires x < 64
    ensures Alphabet(url)[x] == if x < 26 then UpperCase[x] else if x < 52 then LowerCase[x - 26]
                                else if x < 62 then Digits[x - 52] else if url then "-_"[x - 62] else "+/"[x - 62]
  {
  }

  lemma DigitsAt(i: nat)
    requires i < 10
    ensures Digits[i] == '0' + i as char
  {
  }

  lemma CharIs(x: bv8, url: bool)
    requires x < 64
    ensures CharAt(x, url) == Symbol(x as nat, url)
  {
    hide Alphabet, Symbol;
    SymbolIs(x as nat, url);
  }

  lemma SextetSmall(bs: seq<Byte>, i: nat)
    ensures Sextet(bs, i) < 64
  {
    hide StreamBit, BitOf;
    OneBit(bs, 6 * i);
    OneBit(bs, 6 * i + 1);
    OneBit(bs, 6 * i + 2);
    OneBit(bs, 6 * i + 3);
    OneBit(bs, 6 * i + 4);
    OneBit(bs, 6 * i + 5);
    SixSmall(StreamBit(bs, 6 * i), StreamBit(bs, 6 * i + 1), StreamBit(bs, 6 * i + 2),
             StreamBit(bs, 6 * i + 3), StreamBit(bs, 6 * i + 4), StreamBit(bs, 6 * i + 5));
  }

  lemma OneBit(bs: seq<Byte>, k: nat)
    ensures StreamBit(bs, k) < 2
  {
    if k / 8 < |bs| { BitSmall(bs[k / 8], k % 8); }
  }

  lemma BitSmall(b: Byte, k: nat)
    requires k < 8
    ensures BitOf(b, k) < 2
  {
  }

  lemma SixSmall(a: bv8, b: bv8, c: bv8, d: bv8, e: bv8, f: bv8)
    requires a < 2 && b < 2 && c < 2 && d < 2 && e < 2 && f < 2
    ensures SixBits(a, b, c, d, e, f) < 64
  {
  }

  /** How many characters carry bits of `n` bytes. */
  function Carrying(n: nat): (r: nat) { (4 * n + 2) / 3 }

  /** Character `i` of an encoding. */
  ghost predicate RightCharacter(bs: seq<Byte>, url: bool, text: string, i: nat)
    requires i < |text|
  {
    if i < Carrying(|bs|)
    then Sextet(bs, i) < 64 && text[i] == Symbol(Sextet(bs, i) as nat, url)
    else text[i] == if url then '.' else '='
  }

  lemma QuadCharacter(bs: seq<Byte>, url: bool, i: nat)
    requires bs != [] && i < 4
    ensures RightCharacter(bs, url, Quad(bs, url), i)
  {
    hide Sextet, Symbol, CharAt, Six0, Six1, Six2, Six3;
    FirstSextets(bs);
    SextetSmall(bs, i);
    CharIs(Sextet(bs, i), url);
    if |bs| == 1 {
      LastFields(bs[0]);
    }
  }

  lemma LastFields(a: Byte)
    ensures Six1(a, 0) < 64
  {
  }

  /** For every byte string and both alphabets: the encoding spells the stream of bits six at
      a time, and is filled up with '.' in the url form and '=' otherwise. */
  lemma {:induction false} EncodeMeans(bs: seq<Byte>, url: bool, i: nat)
    requires i < |Encode(bs, url)|
    ensures RightCharacter(bs, url, Encode(bs, url), i)
    decreases |bs|
  {
    hide Sextet, Symbol, Quad;
    if i < 4 {
      QuadCharacter(bs, url, i);
    } else {
      EncodeMeans(Rest(bs), url, i - 4);
      LaterSextet(bs, i - 4);
    }
  }

  /** As many fill characters as the length lacks to a multiple of three. */
  lemma PaddingCount(bs: seq<Byte>, url: bool)
    ensures |Encode(bs, url)| - Carrying(|bs|) == (3 - |bs| % 3) % 3
  {
    hide Encode;
    EncodedLength(bs, url);
    Remainders(|bs|);
  }

  lemma Remainders(n: nat)
    ensures (n + 2) / 3 * 4 - Carrying(n) == (3 - n % 3) % 3
  {
    var q, r := n / 3, n % 3;
    assert n == 3 * q + r;
    assert (n + 2) / 3 == q + (r + 2) / 3 && (4 * n + 2) / 3 == 4 * q + (4 * r + 2) / 3;
  }

  // ----- decoding -----

  /** Only the symbols of either alphabet have a position, and it is theirs. */
  lemma PositionMeans(c: char)
    ensures PosOfChar(c).Ok? <==> exists x: nat, url :: x < 64 && Symbol(x, url) == c
    ensures forall x: nat, url :: x < 64 && Symbol(x, url) == c ==> PosOfChar(c) == Ok(x)
  {
    hide Symbol, PosOfChar;
    forall x: nat, url | x < 64 && Symbol(x, url) == c ensures PosOfChar(c) == Ok(x) {
      SymbolIs(x, url);
      PosInvertsAlphabet(x, url);
    }
    if PosOfChar(c).Ok? { HasSymbol(c); }
  }

  lemma HasSymbol(c: char)
    requires PosOfChar(c).Ok?
    ensures exists x: nat, url :: x < 64 && Symbol(x, url) == c
  {
    var x := PosOfChar(c).value;
    var url := c == '-' || c == '_';
    assert Symbol(x, url) == c by { SymbolAt(c); }
  }

  lemma SymbolAt(c: char)
    requires PosOfChar(c).Ok?
    ensures Symbol(PosOfChar(c).value, c == '-' || c == '_') == c
  {
    if 'A' <= c <= 'Z' {
      UpperAt((c - 'A') as nat);
      CommonUpper((c - 'A') as nat);
    } else if 'a' <= c <= 'z' {
      LowerAt((c - 'a') as nat);
      CommonLower((c - 'a') as nat);
    } else if '0' <= c <= '9' {
      CommonDigit((c - '0') as nat);
    }
  }

  lemma CommonUpper(i: nat)
    requires i < 26
    ensures Common[i] == UpperCase[i]
  {
  }

  lemma CommonLower(i: nat)
    requires i < 26
    ensures Common[i + 26] == LowerCase[i]
  {
  }

  lemma CommonDigit(i: nat)
    requires i < 10
    ensures Common[i + 52] == '0' + i as char
  {
  }

  ghost predicate IsSymbol(c: char) { exists x: nat, url :: x < 64 && Symbol(x, url) == c }

  predicate IsFill(c: char) { c == '=' || c == '.' }

  /** A group that can be decoded: two symbols, then a fill character or a symbol, then, unless
      there was one, again either. */
  ghost predicate GoodGroup(s: string) {
    && |s| > 2 && IsSymbol(s[0]) && IsSymbol(s[1])
    && (IsFill(s[2]) || (IsSymbol(s[2]) && |s| > 3 && (IsFill(s[3]) || IsSymbol(s[3]))))
  }

  lemma SymbolHasPosition(c: char)
    ensures IsSymbol(c) <==> PosOfChar(c).Ok?
  {
    hide Symbol, PosOfChar;
    PositionMeans(c);
  }

  lemma GroupDecodes(s: string)
    requires s != ""
    ensures DecodeQuad(s).Ok? <==> GoodGroup(s)
  {
    hide PosOfChar, IsSymbol, Join0, Join1, Join2, Bits;
    SymbolHasPosition(s[0]);
    SymbolHasPosition(At(s, 1));
    if |s| > 1 { SymbolHasPosition(At(s, 2)); }
    if |s| > 2 { SymbolHasPosition(At(s, 3)); }
    NulHasNone();
  }

  lemma NulHasNone()
    ensures PosOfChar('\0').BadCharacter?
  {
  }

  /** A text decodes if and only if each of its groups of four characters can, the last one
      perhaps shorter. */
  lemma {:induction false} DecodesIff(s: string)
    ensures Decode(s).Ok? <==> forall q: nat :: 4 * q < |s| ==> GoodGroup(s[4 * q..])
    decreases |s|
  {
    hide DecodeQuad, GoodGroup;
    if s != "" {
      var rest := RestOf(s);
      GroupDecodes(s);
      DecodesIff(rest);
      assert s[4 * 0..] == s;
      forall q: nat | 4 * q < |rest| ensures rest[4 * q..] == s[4 * (q + 1)..] {}
      if forall q: nat :: 4 * q < |s| ==> GoodGroup(s[4 * q..]) {
        forall q: nat | 4 * q < |rest| ensures GoodGroup(rest[4 * q..]) {
          assert GoodGroup(s[4 * (q + 1)..]);
        }
      }
      if GoodGroup(s) && forall q: nat :: 4 * q < |rest| ==> GoodGroup(rest[4 * q..]) {
        forall q: nat | 4 * q < |s| ensures GoodGroup(s[4 * q..]) {
          if q > 0 { assert GoodGroup(rest[4 * (q - 1)..]); }
        }
      }
    }
  }

  /** A bit of a position, number 0 being the most significant of six. */
  function PositionBit(p: bv8, k: nat): (r: bv8)
    requires k < 6
  {
    match k
    case 0 => (p >> 5) & 1 case 1 => (p >> 4) & 1 case 2 => (p >> 3) & 1
    case 3 => (p >> 2) & 1 case 4 => (p >> 1) & 1 case _ => p & 1
  }

  /** The decoder puts the same bits together again. */
  lemma JoinBits(p0: bv8, p1: bv8, p2: bv8, p3: bv8)
    requires p0 < 64 && p1 < 64 && p2 < 64 && p3 < 64
    ensures Join0(p0, p1) == (PositionBit(p0, 0) << 7) | (PositionBit(p0, 1) << 6) | (PositionBit(p0, 2) << 5) |
                             (PositionBit(p0, 3) << 4) | (PositionBit(p0, 4) << 3) | (PositionBit(p0, 5) << 2) |
                             (PositionBit(p1, 0) << 1) | PositionBit(p1, 1)
    ensures Join1(p1, p2) == (PositionBit(p1, 2) << 7) | (PositionBit(p1, 3) << 6) | (PositionBit(p1, 4) << 5) |
                             (PositionBit(p1, 5) << 4) | (PositionBit(p2, 0) << 3) | (PositionBit(p2, 1) << 2) |
                             (PositionBit(p2, 2) << 1) | PositionBit(p2, 3)
    ensures Join2(p2, p3) == (PositionBit(p2, 4) << 7) | (PositionBit(p2, 5) << 6) | (PositionBit(p3, 0) << 5) |
                             (PositionBit(p3, 1) << 4) | (PositionBit(p3, 2) << 3) | (PositionBit(p3, 3) << 2) |
                             (PositionBit(p3, 4) << 1) | PositionBit(p3, 5)
  {
  }

  /** One byte for a group filled from its third character on, two from its fourth, else
      three, made of the positions of its symbols. */
  lemma GroupMeans(s: string, p0: nat, p1: nat, p2: nat, p3: nat)
    requires GoodGroup(s) && p0 < 64 && p1 < 64 && p2 < 64 && p3 < 64
    requires PosOfChar(s[0]) == Ok(p0) && PosOfChar(s[1]) == Ok(p1)
    requires !IsFill(s[2]) ==> PosOfChar(s[2]) == Ok(p2)
    requires !IsFill(s[2]) && !IsFill(s[3]) ==> PosOfChar(s[3]) == Ok(p3)
    ensures var a, b, c := Join0(Bits(p0), Bits(p1)), Join1(Bits(p1), Bits(p2)), Join2(Bits(p2), Bits(p3));
            DecodeQuad(s) == Ok(if IsFill(s[2]) then [a] else if IsFill(s[3]) then [a, b] else [a, b, c])
  {
    hide PosOfChar, IsSymbol, Join0, Join1, Join2, Bits;
  }
}
