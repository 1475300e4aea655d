/**
 The "current group" of the INI store as a state machine. The source keeps a raw pointer
 to one section's table next to the group's name; this says when the two agree.
 */
module IniGroups {
  import opened CLocale
  import opened IniParse

  /** Where the current-group pointer leads: nowhere, to the table of a section of the
      store, or to a table the store has thrown away. */
  datatype Pointer = Null | At(section: string) | Dangling

  datatype Store = Store(isOpened: bool, data: Sections, current: Pointer, name: string)

  /** A pointer into the store leads to a section it has. */
  predicate WellFormed(s: Store) { s.current.At? ==> s.current.section in s.data }

  /** The pointer is the table stored under the current name, and is null only when no
      name is set or the store has no such section. */
  predicate Consistent(s: Store) {
    if s.current == Null then s.name == "" || s.name !in s.data
    else s.current == At(s.name) && s.name in s.data
  }

  function Begin(s: Store, group: string): (r: Store) {
    s.(name := group, current := if group in s.data then At(group) else s.current)
  }

  function End(s: Store): (r: Store) { s.(name := "", current := Null) }

  function Close(s: Store): (r: Store) {
    s.(isOpened := false, data := map[], current := if s.current == Null then Null else Dangling)
  }

  /** open: close, then whatever the parser loaded. */
  function Load(s: Store, data: Sections, ok: bool): (r: Store) {
    Close(s).(isOpened := ok, data := data)
  }

  /** readHelper: the lower-cased key in the table pointed to. */
  function Find(s: Store, key: string): (r: Option<string>)
    requires WellFormed(s) && s.current != Dangling
  {
    if !s.isOpened || s.current == Null then None
    else if Lower(key) in s.data[s.current.section] then Some(s.data[s.current.section][Lower(key)])
    else None
  }

  /** std::unordered_map::insert, which keeps a value that is already there. */
  function Insert(keys: Keys, key: string, value: string): (r: Keys) {
    if key in keys then keys else keys[key := value]
  }

  /** writeIniParam: overwrite the lower-cased key when reading finds it, else insert the
      key as given, into a section made on demand. */
  function Write(s: Store, key: string, value: string): (r: Store)
    requires WellFormed(s) && s.current != Dangling
  {
    if s.name == "" then s
    else if Find(s, key).Some? then
      s.(data := Put(s.data, s.current.section, Lower(key), value))
    else
      var (data, section) := if s.current == Null then (Touch(s.data, s.name), s.name)
                             else (s.data, s.current.section);
      s.(isOpened := true, current := At(section),
         data := data[section := Insert(data[section], key, value)])
  }

  datatype Op =
    | BeginGroup(group: string)
    | EndGroup
    | SetValue(key: string, value: string)
    | CloseStore
    | OpenStore(loaded: Sections, ok: bool)

  /** Only a write goes through the pointer. */
  predicate Legal(s: Store, op: Op) {
    WellFormed(s) && (op.SetValue? ==> s.current != Dangling)
  }

  function Step(s: Store, op: Op): (r: Store)
    requires Legal(s, op)
  {
    match op
    case BeginGroup(group) => Begin(s, group)
    case EndGroup => End(s)
    case SetValue(key, value) => Write(s, key, value)
    case CloseStore => Close(s)
    case OpenStore(loaded, ok) => Load(s, loaded, ok)
  }

  /** What a caller can check before each operation: a group that does not exist yet is
      begun only with no table selected, and so is closing; reopening must not bring in
      the very group that was begun before. */
  predicate Guard(s: Store, op: Op) {
    match op
    case BeginGroup(group) => group in s.data || s.current == Null
    case EndGroup => true
    case SetValue(_, _) => true
    case CloseStore => s.current == Null
    case OpenStore(loaded, _) => s.current == Null && (s.name == "" || s.name !in loaded)
  }

  /** From a consistent store, an operation keeps consistency exactly under the guard. */
  lemma StepConsistent(s: Store, op: Op)
    requires Consistent(s)
    ensures Legal(s, op)
    ensures Consistent(Step(s, op)) <==> Guard(s, op)
  {
  }

  /** Consistency after every operation of a run. */
  predicate ConsistentRun(s: Store, ops: seq<Op>)
    decreases ops
  {
    Consistent(s) && (ops != [] ==> ConsistentRun(Step(s, ops[0]), ops[1..]))
  }

  predicate GuardedRun(s: Store, ops: seq<Op>)
    requires Consistent(s)
    decreases ops
  {
    ops == [] || (Guard(s, ops[0]) && (StepConsistent(s, ops[0]); GuardedRun(Step(s, ops[0]), ops[1..])))
  }

  /** Over every run: the pointer agrees with the name all along if and only if each
      operation was guarded. */
  lemma {:induction false} RunConsistent(s: Store, ops: seq<Op>)
    requires Consistent(s)
    ensures ConsistentRun(s, ops) <==> GuardedRun(s, ops)
    decreases ops
  {
    if ops != [] {
      StepConsistent(s, ops[0]);
      if Guard(s, ops[0]) { RunConsistent(Step(s, ops[0]), ops[1..]); }
    }
  }

  /** The half that reads and writes rely on: a pointer that is set is the table stored
      under the current name. */
  predicate PointerAgrees(s: Store) {
    s.current != Null ==> s.current == At(s.name) && s.name in s.data
  }

  /** For it the guard speaks of the state before the call alone. */
  predicate PointerGuard(s: Store, op: Op) {
    match op
    case BeginGroup(group) => group in s.data || s.current == Null
    case EndGroup => true
    case SetValue(_, _) => true
    case CloseStore => s.current == Null
    case OpenStore(_, _) => s.current == Null
  }

  lemma StepPointer(s: Store, op: Op)
    requires PointerAgrees(s)
    ensures Legal(s, op)
    ensures PointerAgrees(Step(s, op)) <==> PointerGuard(s, op)
  {
  }

  predicate AgreeingRun(s: Store, ops: seq<Op>)
    decreases ops
  {
    PointerAgrees(s) && (ops != [] ==> AgreeingRun(Step(s, ops[0]), ops[1..]))
  }

  predicate PointerGuardedRun(s: Store, ops: seq<Op>)
    requires PointerAgrees(s)
    decreases ops
  {
    ops == [] ||
    (PointerGuard(s, ops[0]) && (StepPointer(s, ops[0]); PointerGuardedRun(Step(s, ops[0]), ops[1..])))
  }

  /** Over every run: a set pointer leads to the current name's table all along if and only
      if each call was made in a state that allows it. */
  lemma {:induction false} RunPointer(s: Store, ops: seq<Op>)
    requires PointerAgrees(s)
    ensures AgreeingRun(s, ops) <==> PointerGuardedRun(s, ops)
    decreases ops
  {
    if ops != [] {
      StepPointer(s, ops[0]);
      if PointerGuard(s, ops[0]) { RunPointer(Step(s, ops[0]), ops[1..]); }
    }
  }

  /** Without the guard a write lands in the wrong section: begin "a" (it exists), begin
      "b" (it does not), set a key. */
  lemma UnguardedBeginMisplaces(value: string)
    ensures var s := Store(true, map["a" := map[]], Null, "");
            var r := Write(Begin(Begin(s, "a"), "b"), "k", value);
            r.name == "b" && "b" !in r.data && r.data["a"] == map["k" := value]
  {
    assert Lower("k") == "k";
  }

  /** Beginning the empty name inside a group is no way out of it: reads still come from
      the old group while writes are ignored. */
  lemma EmptyNameStaysInside(s: Store, group: string, key: string, value: string)
    requires Consistent(s) && group != "" && group in s.data && "" !in s.data
    ensures var r := Begin(Begin(s, group), "");
            && !Consistent(r) && WellFormed(r) && r.current == At(group)
            && Find(r, key) == Find(Begin(s, group), key) && Write(r, key, value) == r
  {
  }

  /** Outside any group nothing is read or written, and a closed store gives nothing and has
      nothing. */
  lemma OutsideGroups(s: Store, key: string, value: string)
    ensures var e := End(s);
            e.name == "" && e.data == s.data && Find(e, key) == None && Write(e, key, value) == e
    ensures var c := Close(s);
            !c.isOpened && c.data == map[] && c.name == s.name && (s.current == Null ==> Find(c, key) == None)
  {
  }

  /** What a read gives in a group whose pointer agrees with its name: the entry under the
      lower-cased key, provided that the store is opened. */
  lemma ReadMeans(s: Store, key: string, value: string)
    requires Consistent(s)
    ensures Find(s, key) == Some(value) <==>
            && s.isOpened && s.current != Null && s.name in s.data
            && Lower(key) in s.data[s.name] && s.data[s.name][Lower(key)] == value
  {
  }

  /** The keys a write of the current group starts from. */
  function Selected(s: Store): (r: Keys)
    requires Consistent(s)
  {
    if s.name in s.data then s.data[s.name] else map[]
  }

  /** When a set value is what the next read of the same key returns, for every key: it
      was found and overwritten, or it is lower-case and new, or it was already there. In
      particular a write to a key of a store that failed to open is lost. */
  lemma SetThenRead(s: Store, key: string, value: string)
    requires Consistent(s) && s.name != ""
    ensures var s' := Write(s, key, value);
            Consistent(s') && s'.current == At(s.name) &&
            (Find(s', key) == Some(value) <==>
             || Find(s, key).Some?
             || (IsLower(key) && key !in Selected(s))
             || (Lower(key) in Selected(s) && Selected(s)[Lower(key)] == value))
  {
    LowerTwice(key);
    var s' := Write(s, key, value);
    assert s.current.At? || s.current == Null;
    assert s'.data[s.name] == if Find(s, key).Some? then Selected(s)[Lower(key) := value]
                              else Insert(Selected(s), key, value);
  }

  /** On an opened or empty store a lower-case key reads back. */
  lemma SetReadsBack(s: Store, key: string, value: string)
    requires Consistent(s) && s.name != "" && IsLower(key)
    requires s.isOpened || s.data == map[]
    ensures Find(Write(s, key, value), key) == Some(value)
  {
    SetThenRead(s, key, value);
  }

  /** A write changes nothing but one key of the current group. */
  lemma WriteTouchesOneKey(s: Store, key: string, value: string)
    requires Consistent(s)
    ensures var s' := Write(s, key, value);
            && (forall g :: g in s'.data <==> g in s.data || (g == s.name && s.name != ""))
            && (forall g :: g in s.data && g != s.name ==> s'.data[g] == s.data[g])
            && (forall k :: k != key && k != Lower(key) && s.name in s'.data ==>
                  (k in s'.data[s.name] <==> k in Selected(s)) &&
                  (k in Selected(s) ==> s'.data[s.name][k] == Selected(s)[k]))
  {
  }
}
