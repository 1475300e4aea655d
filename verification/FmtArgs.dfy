/**
 fmt's argument list: the types of up to fifteen arguments packed four bits each into one
 word, and from sixteen on an array that ends with a NONE entry.
 */
module FmtArgs {

  const MaxPackedArgs: nat := 16

  /** Argument types as the word holds them; 0 is NONE. */
  const NoneType: bv64 := 0

  datatype Arg<V> = Arg(kind: bv64, value: V)

  /** The shift of the i-th nibble: i * 4. */
  function Shift(index: nat): (r: bv64)
    requires index < 16
  {
    match index
    case 0 => 0 case 1 => 4 case 2 => 8 case 3 => 12
    case 4 => 16 case 5 => 20 case 6 => 24 case 7 => 28
    case 8 => 32 case 9 => 36 case 10 => 40 case 11 => 44
    case 12 => 48 case 13 => 52 case 14 => 56 case _ => 60
  }

  /** ArgList::type: (types & (mask << shift)) >> shift */
  function TypeAt(types: bv64, index: nat): (r: bv64)
    requires index < 16
  {
    (types & (0xf << Shift(index))) >> Shift(index)
  }

  /** make_type: first | (make_type(tail...) << 4); what does not fit is shifted out. */
  function MakeType(kinds: seq<bv64>): (r: bv64) {
    if kinds == [] then 0 else kinds[0] | (MakeType(kinds[1..]) << 4)
  }

  predicate IsKind(k: bv64) { 0 < k < 16 }

  lemma NibbleShifts(first: bv64, tail: bv64, s: bv64)
    requires first < 16 && IsShift(s)
    ensures ((first | (tail << 4)) & (0xf << (s + 4))) >> (s + 4) == (tail & (0xf << s)) >> s
  {
    var word := first | (tail << 4);
    if
    case s == 0 => assert (word & (0xf << 4)) >> 4 == (tail & (0xf << 0)) >> 0;
    case s == 4 => assert (word & (0xf << 8)) >> 8 == (tail & (0xf << 4)) >> 4;
    case s == 8 => assert (word & (0xf << 12)) >> 12 == (tail & (0xf << 8)) >> 8;
    case s == 12 => assert (word & (0xf << 16)) >> 16 == (tail & (0xf << 12)) >> 12;
    case s == 16 => assert (word & (0xf << 20)) >> 20 == (tail & (0xf << 16)) >> 16;
    case s == 20 => assert (word & (0xf << 24)) >> 24 == (tail & (0xf << 20)) >> 20;
    case s == 24 => assert (word & (0xf << 28)) >> 28 == (tail & (0xf << 24)) >> 24;
    case s == 28 => assert (word & (0xf << 32)) >> 32 == (tail & (0xf << 28)) >> 28;
    case s == 32 => assert (word & (0xf << 36)) >> 36 == (tail & (0xf << 32)) >> 32;
    case s == 36 => assert (word & (0xf << 40)) >> 40 == (tail & (0xf << 36)) >> 36;
    case s == 40 => assert (word & (0xf << 44)) >> 44 == (tail & (0xf << 40)) >> 40;
    case s == 44 => assert (word & (0xf << 48)) >> 48 == (tail & (0xf << 44)) >> 44;
    case s == 48 => assert (word & (0xf << 52)) >> 52 == (tail & (0xf << 48)) >> 48;
    case s == 52 => assert (word & (0xf << 56)) >> 56 == (tail & (0xf << 52)) >> 52;
    case s == 56 => assert (word & (0xf << 60)) >> 60 == (tail & (0xf << 56)) >> 56;
  }

  predicate IsShift(s: bv64) {
    || s == 0 || s == 4 || s == 8 || s == 12 || s == 16 || s == 20 || s == 24 || s == 28
    || s == 32 || s == 36 || s == 40 || s == 44 || s == 48 || s == 52 || s == 56
  }

  lemma ShiftNext(index: nat)
    requires index < 15
    ensures Shift(index + 1) == Shift(index) + 4 && IsShift(Shift(index))
  {
  }

  function Cons(first: bv64, tail: bv64): (r: bv64) { first | (tail << 4) }

  lemma TypeAtNext(first: bv64, tail: bv64, index: nat)
    requires first < 16 && index < 15
    ensures TypeAt(Cons(first, tail), index + 1) == TypeAt(tail, index)
  {
    hide Shift;
    ShiftNext(index);
    NibbleShifts(first, tail, Shift(index));
  }

  lemma TypeAtFirst(first: bv64, tail: bv64)
    requires first < 16
    ensures TypeAt(Cons(first, tail), 0) == first
  {
  }

  lemma TypeAtNone(index: nat)
    requires index < 16
    ensures TypeAt(0, index) == NoneType
  {
  }

  lemma MakeTypeCons(kinds: seq<bv64>)
    ensures MakeType(kinds) == if kinds == [] then 0 else Cons(kinds[0], MakeType(kinds[1..]))
  {
  }

  /** Unpacking returns the packed types, and NONE after the last one. */
  lemma {:induction false} TypeOfMakeType(kinds: seq<bv64>, index: nat)
    requires index < 16 && forall i :: 0 <= i < |kinds| ==> IsKind(kinds[i])
    ensures TypeAt(MakeType(kinds), index) == if index < |kinds| then kinds[index] else NoneType
  {
    hide TypeAt, MakeType, Cons;
    MakeTypeCons(kinds);
    if kinds == [] {
      TypeAtNone(index);
    } else if index == 0 {
      TypeAtFirst(kinds[0], MakeType(kinds[1..]));
    } else {
      TypeOfMakeType(kinds[1..], index - 1);
      TypeAtNext(kinds[0], MakeType(kinds[1..]), index - 1);
    }
  }

  datatype Option<T> = None | Some(value: T)

  /** The untagged union behind an argument list: values alone, or whole arguments. */
  datatype Storage<V> = Values(values: seq<V>) | Args(args: seq<Arg<V>>)

  datatype ArgList<V> = ArgList(types: bv64, storage: Storage<V>)

  function Kinds<V>(args: seq<Arg<V>>): (r: seq<bv64>)
    ensures |r| == |args| && forall i :: 0 <= i < |args| ==> r[i] == args[i].kind
  {
    seq(|args|, i requires 0 <= i < |args| => args[i].kind)
  }

  ghost predicate AllKinds<V>(args: seq<Arg<V>>) {
    forall i :: 0 <= i < |args| ==> IsKind(args[i].kind)
  }

  /** What a formatting call builds: fewer than sixteen arguments are stored as values,
      more as arguments with a NONE entry at the end, whose value is never looked at. */
  function Build<V>(args: seq<Arg<V>>, unused: V): (r: ArgList<V>) {
    ArgList(MakeType(Kinds(args)),
            if |args| < MaxPackedArgs then Values(seq(|args|, i requires 0 <= i < |args| => args[i].value))
            else Args(args + [Arg(NoneType, unused)]))
  }

  /** Sixteen arguments are the first to be stored whole. */
  lemma StoredForm<V>(args: seq<Arg<V>>, unused: V)
    ensures Build(args, unused).storage.Values? <==> |args| < 16
    ensures |args| < 16 ==> |Build(args, unused).storage.values| == |args|
    ensures |args| >= 16 ==> Build(args, unused).storage.args == args + [Arg(0, unused)]
  {
  }

  /** operator[]: the i-th argument, or NONE from the end on. Which member of the union to
      read is told from the sixteenth type. */
  method ArgAt<V>(list: ArgList<V>, index: nat, ghost args: seq<Arg<V>>, ghost unused: V) returns (r: Option<Arg<V>>)
    requires AllKinds(args) && list == Build(args, unused)
    ensures r == if index < |args| then Some(args[index]) else None
  {
    hide TypeAt, MakeType;
    TypeOfMakeType(Kinds(args), MaxPackedArgs - 1);
    var useValues := TypeAt(list.types, MaxPackedArgs - 1) == NoneType;
    if index < MaxPackedArgs {
      TypeOfMakeType(Kinds(args), index);
      var kind := TypeAt(list.types, index);
      if kind == NoneType { return None; }
      return Some(Arg(kind, if useValues then list.storage.values[index] else list.storage.args[index].value));
    }
    if useValues { return None; }
    for i := MaxPackedArgs to index + 1
      invariant i <= |args|
    {
      if list.storage.args[i].kind == NoneType { return None; }
    }
    return Some(list.storage.args[index]);
  }
}
