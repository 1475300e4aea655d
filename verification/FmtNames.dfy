/**
 Named arguments: the table of names that the formatter builds from the packed argument
 list, looking a name up in it, and following a named argument by its index.
 */
module FmtNames {
  import opened FmtArgs
  import T = FmtTemplate

  const NamedArgType: bv64 := 1

  /** What an argument's cell holds: its value, or a pointer to a name and a value. */
  datatype Cell<V> = Direct(value: V) | NamedCell(name: string, value: V)

  type CellArg<V> = Arg<Cell<V>>

  /** The type tells which. */
  ghost predicate Tagged<V>(args: seq<CellArg<V>>) {
    forall i :: 0 <= i < |args| ==> (args[i].kind == NamedArgType <==> args[i].value.NamedCell?)
  }

  /** The named arguments in order. */
  function NamedOf<V>(args: seq<CellArg<V>>): (r: seq<(string, V)>) {
    if args == [] then []
    else NamedOf(args[..|args| - 1]) + NamedEntry(args[|args| - 1])
  }

  function NamedEntry<V>(a: CellArg<V>): (r: seq<(string, V)>) {
    if a.value.NamedCell? then [(a.value.name, a.value.value)] else []
  }

  lemma NamedMore<V>(args: seq<CellArg<V>>, i: nat)
    requires i < |args|
    ensures NamedOf(args[..i + 1]) == NamedOf(args[..i]) + NamedEntry(args[i])
  {
    assert args[..i + 1][..i] == args[..i];
  }

  /** The first entry with the name. */
  function FirstNamed<V>(entries: seq<(string, V)>, name: string): (r: Option<V>) {
    if entries == [] then None
    else if entries[0].0 == name then Some(entries[0].1)
    else FirstNamed(entries[1..], name)
  }

  class ArgMap<V> {
    var entries: seq<(string, V)>

    constructor ()
      ensures entries == []
    {
      entries := [];
    }

    /** Takes up argument `i` when it is a named one. */
    method TakeUp(kind: bv64, cell: Cell<V>)
      requires kind == NamedArgType <==> cell.NamedCell?
      modifies this
      ensures entries == old(entries) + NamedEntry(Arg(kind, cell))
    {
      if kind == NamedArgType {
        entries := entries + [(cell.name, cell.value)];
      }
    }

    /** init: goes through the list in whichever form it has, up to its end; a table that
        has entries stays as it is. */
    method Init(list: ArgList<Cell<V>>, ghost args: seq<CellArg<V>>, ghost unused: Cell<V>)
      requires AllKinds(args) && Tagged(args) && list == Build(args, unused)
      modifies this
      ensures entries == if old(entries) != [] then old(entries) else NamedOf(args)
    {
      hide TypeAt, MakeType, NamedOf, NamedEntry;
      if entries != [] { return; }
      TypeOfMakeType(Kinds(args), MaxPackedArgs - 1);
      assert args[..0] == [];
      NamedNone(args[..0]);
      var useValues := TypeAt(list.types, MaxPackedArgs - 1) == NoneType;
      var i := 0;
      if useValues {
        TypeOfMakeType(Kinds(args), 0);
        while TypeAt(list.types, i) != NoneType
          invariant i <= |args| < MaxPackedArgs && entries == NamedOf(args[..i])
          invariant TypeAt(list.types, i) == if i < |args| then args[i].kind else NoneType
          decreases |args| - i
        {
          NamedMore(args, i);
          TakeUp(TypeAt(list.types, i), list.storage.values[i]);
          i := i + 1;
          TypeOfMakeType(Kinds(args), i);
        }
      } else {
        while i != MaxPackedArgs
          invariant i <= MaxPackedArgs <= |args| && entries == NamedOf(args[..i])
          decreases MaxPackedArgs - i
        {
          TypeOfMakeType(Kinds(args), i);
          NamedMore(args, i);
          TakeUp(TypeAt(list.types, i), list.storage.args[i].value);
          i := i + 1;
        }
        while list.storage.args[i].kind != NoneType
          invariant i <= |args| && entries == NamedOf(args[..i])
          decreases |args| - i
        {
          NamedMore(args, i);
          TakeUp(list.storage.args[i].kind, list.storage.args[i].value);
          i := i + 1;
        }
      }
      assert args[..|args|] == args;
    }

    method Find(name: string) returns (r: Option<V>)
      ensures r == FirstNamed(entries, name)
    {
      assert entries[0..] == entries;
      for i := 0 to |entries|
        invariant FirstNamed(entries, name) == FirstNamed(entries[i..], name)
      {
        assert entries[i..][1..] == entries[i + 1..];
        if entries[i].0 == name { return Some(entries[i].1); }
      }
      r := None;
    }
  }

  lemma NamedNone<V>(args: seq<CellArg<V>>)
    requires args == []
    ensures NamedOf(args) == []
  {
  }

  /** do_get_arg: a named argument is followed to its value. */
  method GetByIndex<V>(list: ArgList<Cell<V>>, index: nat, ghost args: seq<CellArg<V>>, ghost unused: Cell<V>)
    returns (r: Option<V>)
    requires AllKinds(args) && Tagged(args) && list == Build(args, unused)
    ensures r == if index < |args| then Some(args[index].value.value) else None
  {
    var a := ArgAt(list, index, args, unused);
    if a.None? { return None; }
    r := Some(a.value.value.value);
  }

  lemma {:induction false} FirstOfConcat<V>(a: seq<(string, V)>, b: seq<(string, V)>, name: string)
    ensures FirstNamed(a + b, name) == if FirstNamed(a, name).Some? then FirstNamed(a, name) else FirstNamed(b, name)
  {
    if a == [] {
      assert a + b == b;
    } else {
      assert (a + b)[1..] == a[1..] + b;
      FirstOfConcat(a[1..], b, name);
    }
  }

  lemma OneEntry<V>(a: CellArg<V>, name: string)
    ensures FirstNamed(NamedEntry(a), name) ==
            if a.value.NamedCell? && a.value.name == name then Some(a.value.value) else None
  {
    if a.value.NamedCell? { assert NamedEntry(a)[1..] == []; }
  }

  predicate Bears<V>(a: CellArg<V>, name: string) { a.value.NamedCell? && a.value.name == name }

  lemma NamedSnoc<V>(args: seq<CellArg<V>>, name: string)
    requires args != []
    ensures var n := |args| - 1;
            var before := FirstNamed(NamedOf(args[..n]), name);
            FirstNamed(NamedOf(args), name) ==
            if before.Some? then before else if Bears(args[n], name) then Some(args[n].value.value) else None
  {
    hide NamedEntry, FirstNamed;
    var n := |args| - 1;
    FirstOfConcat(NamedOf(args[..n]), NamedEntry(args[n]), name);
    OneEntry(args[n], name);
  }

  /** Looking up a name that no argument bears. */
  lemma {:induction false} NameMissing<V>(args: seq<CellArg<V>>, name: string)
    requires forall i :: 0 <= i < |args| ==> !Bears(args[i], name)
    ensures FirstNamed(NamedOf(args), name) == None
  {
    hide NamedOf, FirstNamed;
    if args == [] {
      NamedNone(args);
      NothingNamed<V>(name);
    } else {
      NamedSnoc(args, name);
      NameMissing(args[..|args| - 1], name);
    }
  }

  /** Looking a name up gives the value of the first argument that bears it. */
  lemma {:induction false} NameMeans<V>(args: seq<CellArg<V>>, name: string, i: nat)
    requires i < |args| && Bears(args[i], name) && forall j :: 0 <= j < i ==> !Bears(args[j], name)
    ensures FirstNamed(NamedOf(args), name) == Some(args[i].value.value)
  {
    hide NamedOf, FirstNamed;
    var n := |args| - 1;
    NamedSnoc(args, name);
    if i < n {
      NameMeans(args[..n], name, i);
    } else {
      NameMissing(args[..n], name);
    }
  }

  lemma NothingNamed<V>(name: string)
    ensures FirstNamed<V>([], name) == None
  {
  }

  // ----- as the templates see them -----

  function NamesMap<V>(entries: seq<(string, V)>): (r: map<string, V>) {
    if entries == [] then map[] else NamesMap(entries[1..])[entries[0].0 := entries[0].1]
  }

  /** The table of names is a map in which the first of several equal names counts. */
  lemma {:induction false} FirstIsMapped<V>(entries: seq<(string, V)>, name: string)
    ensures FirstNamed(entries, name) == if name in NamesMap(entries) then Some(NamesMap(entries)[name]) else None
  {
    if entries != [] { FirstIsMapped(entries[1..], name); }
  }

  /** The arguments of a template, taken from the list. */
  function TemplateArgs<V>(args: seq<CellArg<V>>, plain: V -> string, spec: (V, int, string) -> T.Result<(string, int, nat)>)
    : (r: T.Args<V>)
  {
    T.Args(seq(|args|, i requires 0 <= i < |args| => args[i].value.value), NamesMap(NamedOf(args)), plain, spec)
  }

  /** Looking up by index and by name in the packed list is looking up in those. */
  lemma LookupsAgree<V>(args: seq<CellArg<V>>, plain: V -> string, spec: (V, int, string) -> T.Result<(string, int, nat)>,
                        index: nat, name: string)
    ensures var targs := TemplateArgs(args, plain, spec);
            && T.DoGetArg(targs, index) ==
               (if index < |args| then T.Ok(args[index].value.value) else T.Fail(T.IndexOutOfRange))
            && (FirstNamed(NamedOf(args), name) == if name in targs.names then Some(targs.names[name]) else None)
  {
    FirstIsMapped(NamedOf(args), name);
  }
}
