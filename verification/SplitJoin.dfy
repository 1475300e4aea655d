/**
 Splitting a text by a delimiter and joining the pieces again. The split loop stops as
 soon as the last piece found ends at or after the last character, so a one-character
 delimiter at the very end yields no empty piece after it.
 */
module SplitJoin {

  datatype Result<T> = Ok(value: T) | OutOfRange

  predicate OccursAt(t: string, d: string, k: nat) { k + |d| <= |t| && t[k..k + |d|] == d }

  /** std::string::find: the first occurrence, or the length when there is none. */
  function Find(t: string, d: string): (r: nat)
    ensures r <= |t|
    ensures r < |t| && d != "" ==> OccursAt(t, d, r)
  {
    if t == "" || OccursAt(t, d, 0) then 0
    else
      var r := 1 + Find(t[1..], d);
      assert OccursAt(t[1..], d, r - 1) ==> t[r..r + |d|] == t[1..][r - 1..r - 1 + |d|];
      r
  }

  /** The pieces of what is left of the text. */
  function Pieces(t: string, d: string): (r: seq<string>)
    requires d != ""
    decreases |t|
  {
    var k := Find(t, d);
    [t[..k]] + (if k + 1 < |t| then Pieces(t[k + |d|..], d) else [])
  }

  function Join(ps: seq<string>, d: string): (r: string) {
    if ps == [] then "" else if |ps| == 1 then ps[0] else ps[0] + d + Join(ps[1..], d)
  }

  /** find(delimiter, beg) */
  method FindFrom(t: string, d: string, beg: nat) returns (end: nat)
    requires beg <= |t|
    ensures end == beg + Find(t[beg..], d)
  {
    end := beg;
    while end < |t| && !(end + |d| <= |t| && t[end..end + |d|] == d)
      invariant beg <= end <= |t| && beg + Find(t[beg..], d) == end + Find(t[end..], d)
    {
      assert t[end..][1..] == t[end + 1..];
      assert end + |d| <= |t| ==> t[end..][0..|d|] == t[end..end + |d|];
      end := end + 1;
    }
    assert end + |d| <= |t| ==> t[end..][0..|d|] == t[end..end + |d|];
  }

  /** What splitting gives: the empty text throws. */
  function SplitResult(t: string, d: string): (r: Result<seq<string>>)
    requires d != ""
  {
    if t == "" then OutOfRange else Ok(Pieces(t, d))
  }

  /** size() - 1 on a 64-bit unsigned size. */
  function LastIndex(size: nat): (r: nat) { if size == 0 then 0xFFFF_FFFF_FFFF_FFFF else size - 1 }

  /** Both split loops; the one for a character has a delimiter of one. On the empty text
      the loop test wraps around, and the second round takes a substring from past the end,
      which throws. The empty delimiter ends the loop only on a text of one character. */
  method Split(str: string, delimiter: string) returns (r: Result<seq<string>>)
    requires delimiter != "" || |str| == 1
    ensures delimiter == "" ==> r == Ok([""])
    ensures delimiter != "" ==> r == SplitResult(str, delimiter)
  {
    hide Pieces, Find, OccursAt;
    var out := [];
    var beg, end := 0, 0;
    SplitStart(str, delimiter);
    var more := true;
    while more
      invariant delimiter == "" && more ==> beg == 0 && out == []
      invariant delimiter == "" && !more ==> out == [""]
      invariant delimiter != "" && str != "" && more ==>
                  beg <= |str| && Pieces(str, delimiter) == out + Pieces(str[beg..], delimiter)
      invariant delimiter != "" && str != "" && !more ==> Pieces(str, delimiter) == out
      invariant str == "" ==> more
      decreases more, |str| - beg
    {
      if beg > |str| { return OutOfRange; }
      end := FindFrom(str, delimiter, beg);
      if delimiter == "" {
        FindNothing(str[beg..]);
      } else {
        PiecesBounds(str[beg..], delimiter);
        if end + 1 < |str| {
          MorePieces(str, delimiter, beg, end - beg);
          Associate(out, [str[beg..end]], Pieces(str[end + |delimiter|..], delimiter));
        } else {
          LastPiece(str, delimiter, beg, end - beg);
        }
      }
      out := out + [str[beg..end]];
      more := end < LastIndex(|str|);
      beg := end + |delimiter|;
    }
    return Ok(out);
  }

  lemma SplitStart(str: string, d: string)
    ensures d != "" ==> Pieces(str, d) == [] + Pieces(str[0..], d)
  {
    hide Pieces;
    assert str[0..] == str;
  }

  /** find("") finds it at once. */
  lemma FindNothing(t: string)
    ensures Find(t, "") == 0
  {
  }

  lemma MorePieces(str: string, d: string, beg: nat, k: nat)
    requires d != "" && beg <= |str| && k == Find(str[beg..], d) && beg + k + 1 < |str| && beg + k + |d| <= |str|
    ensures Pieces(str[beg..], d) == [str[beg..beg + k]] + Pieces(str[beg + k + |d|..], d)
  {
    hide Pieces, Find, OccursAt;
    PiecesStep(str[beg..], d);
    SliceOfRest(str, beg, k);
    SliceOfRest(str, beg, k + |d|);
  }

  lemma LastPiece(str: string, d: string, beg: nat, k: nat)
    requires d != "" && beg <= |str| && k == Find(str[beg..], d) && beg + k <= |str| <= beg + k + 1
    ensures Pieces(str[beg..], d) == [str[beg..beg + k]]
  {
    hide Pieces, Find, OccursAt;
    PiecesStep(str[beg..], d);
    SliceOfRest(str, beg, k);
    assert [str[beg..beg + k]] + [] == [str[beg..beg + k]];
  }

  /** Where round `k` starts when all rounds before it went on. */
  function RoundStart(str: string, d: string, k: nat): (r: Result<nat>) {
    if k == 0 then Ok(0)
    else
      var before := RoundStart(str, d, k - 1);
      if before.OutOfRange? || before.value > |str| then OutOfRange
      else
        var end := before.value + Find(str[before.value..], d);
        if end < LastIndex(|str|) then Ok(end + |d|) else OutOfRange
  }

  /** With the empty delimiter every round starts at the beginning again, so the loop goes
      on for ever if and only if the text is not a single character. */
  lemma {:induction false} EmptyDelimiterStays(str: string, k: nat)
    ensures RoundStart(str, "", k) == if k == 0 || |str| != 1 then Ok(0) else OutOfRange
  {
    hide Find;
    if k > 0 {
      EmptyDelimiterStays(str, k - 1);
      FindNothing(str[0..]);
    }
  }

  lemma FoundFits(t: string, d: string)
    requires d != "" && Find(t, d) < |t|
    ensures Find(t, d) + |d| <= |t|
  {
    hide Find;
  }

  lemma PiecesBounds(t: string, d: string)
    requires d != ""
    ensures var k := Find(t, d); k <= |t| && (k < |t| ==> k + |d| <= |t|)
  {
    hide Find, OccursAt;
    if Find(t, d) < |t| { FoundFits(t, d); }
  }

  lemma PiecesStep(t: string, d: string)
    requires d != ""
    ensures var k := Find(t, d);
            k <= |t| && (k + 1 < |t| ==> k + |d| <= |t|)
    ensures var k := Find(t, d);
            Pieces(t, d) == [t[..k]] + (if k + 1 < |t| then Pieces(t[k + |d|..], d) else [])
  {
    hide Find, OccursAt;
    PiecesBounds(t, d);
  }

  lemma SliceOfRest(str: string, beg: nat, k: nat)
    requires beg + k <= |str|
    ensures str[beg..][..k] == str[beg..beg + k] && str[beg..][k..] == str[beg + k..]
  {
  }

  lemma Associate(a: seq<string>, b: seq<string>, c: seq<string>)
    ensures a + (b + c) == (a + b) + c
  {
  }

  method JoinStrings(strings: seq<string>, delimiter: string) returns (result: string)
    ensures result == Join(strings, delimiter)
  {
    result := "";
    for i := 0 to |strings|
      invariant Join(strings, delimiter) == result + Join(strings[i..], delimiter)
    {
      ghost var was := result;
      assert strings[i..][1..] == strings[i + 1..];
      result := result + strings[i];
      if i != |strings| - 1 {
        result := result + delimiter;
        assert was + (strings[i] + delimiter + Join(strings[i + 1..], delimiter)) == result + Join(strings[i + 1..], delimiter);
      }
    }
  }

  // ----- they undo each other -----

  ghost predicate Occurs(t: string, d: string) { exists k: nat :: OccursAt(t, d, k) }

  lemma {:induction false} FindIsFirst(t: string, d: string, k: nat)
    requires d != "" && OccursAt(t, d, k)
    ensures Find(t, d) <= k
  {
    if k > 0 && !OccursAt(t, d, 0) {
      assert t[1..][k - 1..k - 1 + |d|] == t[k..k + |d|];
      FindIsFirst(t[1..], d, k - 1);
    }
  }

  lemma FirstFree(t: string, d: string)
    requires d != ""
    ensures !Occurs(t[..Find(t, d)], d)
  {
    hide Find;
    var k := Find(t, d);
    if j: nat :| OccursAt(t[..k], d, j) {
      assert t[..k][j..j + |d|] == t[j..j + |d|];
      FindIsFirst(t, d, j);
      assert false;
    }
  }

  /** No piece contains the delimiter. */
  lemma {:induction false} PiecesFree(t: string, d: string, i: nat)
    requires d != "" && i < |Pieces(t, d)|
    ensures !Occurs(Pieces(t, d)[i], d)
    decreases |t|
  {
    hide Pieces, Find, Occurs;
    PiecesStep(t, d);
    if i == 0 {
      FirstFree(t, d);
    } else {
      PiecesFree(t[Find(t, d) + |d|..], d, i - 1);
    }
  }

  /** The text lost at the end: a final delimiter of one character. */
  predicate EndsIn(t: string, d: string) { |d| == 1 && t != "" && t[|t| - 1] == d[0] }

  function Kept(t: string, d: string): (r: string) { if EndsIn(t, d) then t[..|t| - 1] else t }

  lemma JoinStep(p: string, ps: seq<string>, d: string)
    ensures Join([p] + ps, d) == if ps == [] then p else p + d + Join(ps, d)
  {
    assert ([p] + ps)[1..] == ps;
  }

  /** The first delimiter splits the text, and the loss at the end is that of the rest. */
  lemma SplitsAt(t: string, d: string)
    requires d != ""
    ensures var k := Find(t, d);
            if k + 1 < |t| then k + |d| <= |t| && Kept(t, d) == t[..k] + d + Kept(t[k + |d|..], d)
            else Kept(t, d) == t[..k]
  {
    hide Find;
    var k := Find(t, d);
    if k + 1 < |t| {
      KeptAfter(t, d, k);
    } else if k == |t| {
      assert t[..k] == t;
      if EndsIn(t, d) { LastIsFound(t, d); }
    } else {
      assert t[k..k + |d|] == d;
    }
  }

  lemma KeptAfter(t: string, d: string, k: nat)
    requires d != "" && OccursAt(t, d, k) && k + 1 < |t|
    ensures Kept(t, d) == t[..k] + d + Kept(t[k + |d|..], d)
  {
    var rest := t[k + |d|..];
    CutAtDelimiter(t, d, k);
    if EndsIn(t, d) { LastOff(t[..k], d, rest); }
  }

  lemma CutAtDelimiter(t: string, d: string, k: nat)
    requires OccursAt(t, d, k)
    ensures t == t[..k] + d + t[k + |d|..]
  {
    assert t == t[..k] + t[k..k + |d|] + t[k + |d|..];
  }

  lemma LastOff(a: string, d: string, rest: string)
    requires rest != ""
    ensures (a + d + rest)[..|a| + |d| + |rest| - 1] == a + d + rest[..|rest| - 1]
  {
  }

  lemma LastIsFound(t: string, d: string)
    requires EndsIn(t, d)
    ensures Find(t, d) < |t|
  {
    hide Find;
    assert t[|t| - 1..|t| - 1 + |d|] == d;
    FindIsFirst(t, d, |t| - 1);
  }

  /** Joining the pieces of a split gives back the text, less a final delimiter of one
      character. */
  lemma {:induction false} JoinPieces(t: string, d: string)
    requires d != ""
    ensures Join(Pieces(t, d), d) == Kept(t, d)
    decreases |t|
  {
    hide Pieces, Find, Join, Kept;
    PiecesStep(t, d);
    SplitsAt(t, d);
    var k := Find(t, d);
    if k + 1 < |t| {
      var rest := t[k + |d|..];
      JoinPieces(rest, d);
      PiecesNonempty(rest, d);
      JoinStep(t[..k], Pieces(rest, d), d);
    } else {
      JoinStep(t[..k], [], d);
    }
  }

  lemma PiecesNonempty(t: string, d: string)
    requires d != ""
    ensures Pieces(t, d) != []
  {
  }

  /** So join undoes split exactly when there is a text to split and the delimiter is
      longer than one character or the text does not end in it. */
  lemma JoinUndoesSplit(t: string, d: string)
    requires d != ""
    ensures var r := SplitResult(t, d);
            r.Ok? && Join(r.value, d) == t <==> t != "" && !EndsIn(t, d)
  {
    JoinPieces(t, d);
  }

  // ----- the other way round, for one character -----

  lemma {:induction false} FindPast(p: string, c: char, rest: string)
    requires c !in p && (rest == "" || rest[0] == c)
    ensures Find(p + rest, [c]) == |p|
  {
    var t := p + rest;
    if p == "" {
      assert t == rest;
      if rest != "" { assert rest[0..1] == [c]; }
    } else {
      assert t[0..1] == [p[0]];
      assert t[1..] == p[1..] + rest;
      FindPast(p[1..], c, rest);
    }
  }

  ghost predicate FreeOf(ps: seq<string>, c: char) {
    ps != [] && forall i :: 0 <= i < |ps| ==> c !in ps[i]
  }

  function WithoutEmptyLast(ps: seq<string>): (r: seq<string>) {
    if |ps| > 1 && ps[|ps| - 1] == "" then ps[..|ps| - 1] else ps
  }

  lemma OnePiece(p: string, c: char)
    requires c !in p
    ensures Pieces(p, [c]) == [p]
  {
    hide Find;
    FindPast(p, c, "");
    assert p + "" == p && p[..|p|] == p;
  }

  /** A piece, the delimiter, and what follows. */
  lemma PieceThen(p: string, c: char, rest: string)
    requires c !in p
    ensures Pieces(p + ([c] + rest), [c]) == if rest == "" then [p] else [p] + Pieces(rest, [c])
  {
    hide Find, Pieces;
    var t := p + ([c] + rest);
    FindPast(p, c, [c] + rest);
    PiecesStep(t, [c]);
    assert t[..|p|] == p && t[|p| + 1..] == rest;
  }

  lemma {:induction false} JoinedPieces(ps: seq<string>, c: char)
    requires FreeOf(ps, c)
    ensures Pieces(Join(ps, [c]), [c]) == WithoutEmptyLast(ps)
    decreases ps
  {
    hide Find, Pieces, Join;
    assert ps == [ps[0]] + ps[1..];
    JoinStep(ps[0], ps[1..], [c]);
    if |ps| == 1 {
      OnePiece(ps[0], c);
    } else {
      var rest := Join(ps[1..], [c]);
      assert ps[0] + [c] + rest == ps[0] + ([c] + rest);
      PieceThen(ps[0], c, rest);
      JoinNothing(ps[1..], [c]);
      if rest != "" {
        JoinedPieces(ps[1..], c);
        assert |ps| > 2 ==> ps[..|ps| - 1] == [ps[0]] + ps[1..][..|ps| - 2];
      }
    }
  }

  /** Splitting joined pieces by one character gives them back, less an empty last one; a
      single empty piece leaves nothing to split. */
  lemma PiecesJoin(ps: seq<string>, c: char)
    requires FreeOf(ps, c)
    ensures SplitResult(Join(ps, [c]), [c]) == if ps == [""] then OutOfRange else Ok(WithoutEmptyLast(ps))
  {
    hide Pieces, Join;
    JoinedPieces(ps, c);
    JoinNothing(ps, [c]);
  }

  // ----- and for every delimiter -----

  /** Read from the front, the first delimiter of `p` followed by `d` is that one. */
  predicate EndsAt(p: string, d: string) { Find(p + d, d) == |p| }

  /** Every piece but the last ends at its own delimiter, and the last has none in it. */
  ghost predicate Clean(ps: seq<string>, d: string)
    requires ps != []
  {
    && (forall i :: 0 <= i < |ps| - 1 ==> EndsAt(ps[i], d))
    && Find(ps[|ps| - 1], d) == |ps[|ps| - 1]|
  }

  /** What comes after a delimiter does not matter to where it is found. */
  lemma FindLocal(p: string, d: string, rest: string)
    requires d != ""
    ensures Find(p + d + rest, d) <= |p|
    ensures Find(p + d + rest, d) == |p| <==> EndsAt(p, d)
  {
    hide Find;
    var t, u := p + d + rest, p + d;
    assert t[|p|..|p| + |d|] == d;
    assert u[|p|..|p| + |d|] == d;
    FindIsFirst(t, d, |p|);
    FindIsFirst(u, d, |p|);
    var k, j := Find(t, d), Find(u, d);
    if k < |p| {
      assert u[k..k + |d|] == t[k..k + |d|];
      FindIsFirst(u, d, k);
    }
    if j < |p| {
      assert t[j..j + |d|] == u[j..j + |d|];
      FindIsFirst(t, d, j);
    }
  }

  lemma WholePiece(t: string, d: string)
    requires d != ""
    ensures Pieces(t, d) == [t] <==> Find(t, d) == |t|
  {
    hide Find, Pieces;
    PiecesStep(t, d);
    var k := Find(t, d);
    if k == |t| {
      assert t[..k] == t;
    } else {
      assert Pieces(t, d)[0] == t[..k];
    }
  }

  /** One piece off the front of a joined text. */
  lemma FirstPiece(p: string, d: string, rest: string)
    requires d != ""
    ensures var r := Pieces(p + d + rest, d);
            if !EndsAt(p, d) then r[..1] != [p]
            else r == if |d| + |rest| > 1 then [p] + Pieces(rest, d) else [p]
  {
    hide Find, Pieces, EndsAt;
    var t := p + d + rest;
    FindLocal(p, d, rest);
    PiecesStep(t, d);
    var k := Find(t, d);
    assert Pieces(t, d)[..1] == [t[..k]];
    if k == |p| { assert t[..k] == p && t[k + |d|..] == rest; }
  }

  lemma CleanStep(ps: seq<string>, d: string)
    requires |ps| > 1
    ensures Clean(ps, d) <==> EndsAt(ps[0], d) && Clean(ps[1..], d)
  {
    hide EndsAt, Find;
    var rest := ps[1..];
    if EndsAt(ps[0], d) && Clean(rest, d) {
      forall i | 0 <= i < |ps| - 1 ensures EndsAt(ps[i], d) {
        if i > 0 { assert ps[i] == rest[i - 1]; }
      }
    }
    if Clean(ps, d) {
      forall i | 0 <= i < |rest| - 1 ensures EndsAt(rest[i], d) { assert rest[i] == ps[i + 1]; }
    }
  }

  lemma {:induction false} JoinNothing(ps: seq<string>, d: string)
    requires d != "" && ps != []
    ensures Join(ps, d) == "" <==> ps == [""]
  {
  }

  lemma {:induction false} PiecesOfJoin(ps: seq<string>, d: string)
    requires d != "" && ps != []
    ensures Pieces(Join(ps, d), d) == ps <==>
            Clean(ps, d) && (|d| == 1 && |ps| > 1 ==> ps[|ps| - 1] != "")
    decreases ps
  {
    hide Find, Pieces, Join, EndsAt, Clean;
    assert ps == [ps[0]] + ps[1..];
    JoinStep(ps[0], ps[1..], d);
    if |ps| == 1 {
      WholePiece(ps[0], d);
      CleanOne(ps, d);
    } else {
      var rest := Join(ps[1..], d);
      FirstPiece(ps[0], d, rest);
      CleanStep(ps, d);
      JoinNothing(ps[1..], d);
      PiecesOfJoin(ps[1..], d);
      SameHead(Pieces(ps[0] + d + rest, d), ps, Pieces(rest, d));
    }
  }

  /** Split undoes join if and only if there is something to split, no delimiter shows up
      early, and the last piece is not the empty one that a delimiter of one character
      loses. */
  lemma SplitUndoesJoin(ps: seq<string>, d: string)
    requires d != ""
    ensures SplitResult(Join(ps, d), d) == Ok(ps) <==>
            && ps != [] && ps != [""] && Clean(ps, d)
            && (|d| == 1 && |ps| > 1 ==> ps[|ps| - 1] != "")
  {
    hide Pieces, Clean;
    if ps != [] {
      JoinNothing(ps, d);
      PiecesOfJoin(ps, d);
    }
  }

  lemma CleanOne(ps: seq<string>, d: string)
    requires |ps| == 1
    ensures Clean(ps, d) <==> Find(ps[0], d) == |ps[0]|
  {
  }

  lemma SameHead(a: seq<string>, ps: seq<string>, more: seq<string>)
    requires |ps| > 1
    ensures a[..if a == [] then 0 else 1] != [ps[0]] ==> a != ps
    ensures a == [ps[0]] + more ==> (a == ps <==> more == ps[1..])
    ensures a == [ps[0]] ==> a != ps
  {
    if a == [ps[0]] + more { assert a[1..] == more; }
  }
}
