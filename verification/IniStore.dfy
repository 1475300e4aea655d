/**
 The INI store: sections are separate key tables that the store points to, and the
 parser fills them while it eats its buffer.
 */
module IniStore {
  import opened CLocale
  import opened IniText
  import opened IniParse
  import opened IniBuffer
  import opened IniLines
  import opened IniGroups

  /** One section's keys; `IniProcessing` hands out references to these. */
  class IniKeys {
    var entries: Keys

    constructor ()
      ensures entries == map[]
    {
      entries := map[];
    }
  }

  class IniProcessing {
    var isOpened: bool
    var lineWithError: int
    var errorCode: ErrCode
    var iniData: map<string, IniKeys>
    var currentGroup: IniKeys?
    var currentGroupName: string

    /** Different sections have different tables. */
    ghost predicate Valid()
      reads `iniData
    {
      forall s, t :: s in iniData && t in iniData && iniData[s] == iniData[t] ==> s == t
    }

    ghost function Tables(): (r: set<IniKeys>)
      reads `iniData
    {
      set s | s in iniData :: iniData[s]
    }

    ghost function Contents(): (r: Sections)
      reads `iniData, Tables()
    {
      map s | s in iniData :: iniData[s].entries
    }

    constructor ()
      ensures Valid() && Contents() == map[] && fresh(Tables())
      ensures !isOpened && lineWithError == -1 && errorCode == Ok
      ensures currentGroup == null && currentGroupName == ""
    {
      isOpened, lineWithError, errorCode := false, -1, Ok;
      iniData, currentGroup, currentGroupName := map[], null, "";
    }

    /** iniData[name]: the section's table, made when it is missing. */
    method Section(name: string) returns (t: IniKeys)
      requires Valid()
      modifies `iniData
      ensures Valid() && name in iniData && iniData[name] == t
      ensures Contents() == Touch(old(Contents()), name)
      ensures name in old(iniData) ==> iniData == old(iniData)
      ensures name !in old(iniData) ==> fresh(t) && iniData == old(iniData)[name := t]
    {
      if name in iniData {
        t := iniData[name];
      } else {
        t := new IniKeys();
        iniData := iniData[name := t];
        assert Contents().Keys == Touch(old(Contents()), name).Keys;
      }
    }

    /** (*keys)[key] = value through a pointer to the table of `section`. */
    method PutEntry(keys: IniKeys, ghost section: string, key: string, value: string)
      requires Valid() && section in iniData && iniData[section] == keys
      modifies keys
      ensures Valid() && Contents() == Put(old(Contents()), section, key, value)
    {
      keys.entries := keys.entries[key := value];
    }

    /** A line whose text starts with '['. */
    method HandleSection(b: array<char>, start: nat, ghost e: nat, lineno: nat, error: nat,
                         recentKeys: IniKeys?, ghost recent: Option<string>)
      returns (error': nat, recentKeys': IniKeys?, ghost recent': Option<string>)
      requires Valid() && CStr(b, start, e) && start < e && b[start] == '['
      requires PointsTo(recentKeys, recent)
      modifies b, `iniData, `errorCode
      ensures Valid() && PointsTo(recentKeys', recent')
      ensures ParseState(lineno, error', errorCode, recent', Contents()) ==
              DoSection(old(b[start..e]), ParseState(lineno, error, old(errorCode), recent, old(Contents())))
      ensures OnlyWithin(b, start, e)
      ensures forall t :: t in Tables() ==> t in old(Tables()) || fresh(t)
    {
      hide FindCharOrComment, Touch;
      error', recentKeys', recent' := error, recentKeys, recent;
      var found, name := SectionLineAt(b, start, e);
      assert Contents() == old(Contents());
      if found {
        recentKeys' := Section(name);
        assert Contents() == Touch(old(Contents()), name);
        recent' := Some(name);
      } else if error == 0 {
        errorCode := SectionSyntax;
        error' := lineno;
      }
    }

    /** A line that is neither blank, comment nor section. */
    method HandleKey(b: array<char>, start: nat, ghost e: nat, lineno: nat, error: nat,
                     recentKeys: IniKeys?, ghost recent: Option<string>)
      returns (error': nat, recentKeys': IniKeys?, ghost recent': Option<string>)
      requires Valid() && CStr(b, start, e) && start < e && b[start] !in {';', '#', '['}
      requires SafeBody(b[start..e])
      requires PointsTo(recentKeys, recent)
      modifies b, `iniData, `errorCode, Tables()
      ensures Valid() && PointsTo(recentKeys', recent')
      ensures ParseState(lineno, error', errorCode, recent', Contents()) ==
              DoKey(old(b[start..e]), ParseState(lineno, error, old(errorCode), recent, old(Contents())))
      ensures OnlyWithin(b, start, e)
      ensures forall t :: t in Tables() ==> t in old(Tables()) || fresh(t)
    {
      hide FindEqualOrComment, ReadValue, RStrip, LSkip, Put, Touch, SafeBody;
      error', recentKeys', recent' := error, recentKeys, recent;
      var found, name, value := KeyLineAt(b, start, e);
      if found {
        if recentKeys == null {
          recentKeys' := Section("General");
          recent' := Some("General");
          TouchThenPut(old(Contents()), "General", name, value);
        }
        PutEntry(recentKeys', recent'.value, name, value);
      } else if error == 0 {
        errorCode := KeySyntax;
        error' := lineno;
      }
    }

    /** Handles the line [line, e): the pure parser's step, touching only that line's
        cells. `recent` names the section `recentKeys` points to. */
    method HandleLine(b: array<char>, line: nat, ghost e: nat, lineno: nat, error: nat,
                      recentKeys: IniKeys?, ghost recent: Option<string>)
      returns (error': nat, recentKeys': IniKeys?, ghost recent': Option<string>)
      requires Valid() && CStr(b, line, e) && lineno >= 1
      requires SafeBody(Body(b[line..e], lineno))
      requires PointsTo(recentKeys, recent)
      modifies b, `iniData, `errorCode, Tables()
      ensures Valid() && PointsTo(recentKeys', recent')
      ensures ParseState(lineno, error', errorCode, recent', Contents()) ==
              DoLine(old(b[line..e]), ParseState(lineno - 1, error, old(errorCode), recent, old(Contents())))
      ensures OnlyWithin(b, line, e)
      ensures forall t :: t in Tables() ==> t in old(Tables()) || fresh(t)
    {
      hide Trim, DoSection, DoKey, SafeBody;
      error', recentKeys', recent' := error, recentKeys, recent;
      var start := line;
      BomMatches(b, line, e);
      if lineno == 1 && line + 3 < b.Length && b[line..line + 3] == Bom {
        start := line + 3;
      }
      ghost var text := b[line..e];
      assert b[start..e] == if lineno == 1 && Bom <= text then text[3..] else text;
      ghost var e';
      start, e' := LrTrimAt(b, start, e);
      if b[start] == NUL {
      } else if b[start] == ';' || b[start] == '#' {
      } else if b[start] == '[' {
        error', recentKeys', recent' := HandleSection(b, start, e', lineno, error, recentKeys, recent);
      } else {
        error', recentKeys', recent' := HandleKey(b, start, e', lineno, error, recentKeys, recent);
      }
    }

    /** One round of the parser's loop: take the line at `pos`, handle it, and leave the
        cells after it as they were. */
    method NextLine(b: array<char>, pos: nat, size: nat, lineno: nat, error: nat,
                    recentKeys: IniKeys?, ghost recent: Option<string>)
      returns (next: nat, error': nat, recentKeys': IniKeys?, ghost recent': Option<string>)
      requires Valid() && pos < size < b.Length && b[size] == NUL && NulFree(b[pos..size])
      requires pos == 0 || b[pos - 1] != '\r'
      requires SafeText(b[pos..size], lineno) && PointsTo(recentKeys, recent)
      modifies b, `iniData, `errorCode, Tables()
      ensures Valid() && PointsTo(recentKeys', recent')
      ensures pos < next <= size && OnlyWithin(b, pos, next)
      ensures next < size ==> b[next - 1] != '\r'
      ensures ParseText(b[next..size], ParseState(lineno + 1, error', errorCode, recent', Contents())) ==
              ParseText(old(b[pos..size]), ParseState(lineno, error, old(errorCode), recent, old(Contents())))
      ensures SafeText(b[next..size], lineno + 1)
      ensures forall t :: t in Tables() ==> t in old(Tables()) || fresh(t)
    {
      hide ParseText, DoLine, SafeText, SafeBody, Body, LineLength;
      ghost var t := b[pos..size];
      ghost var e;
      next, e := MemFGets(b, pos, size);
      LineStep(t, ParseState(lineno, error, errorCode, recent, Contents()), b[pos..e]);
      error', recentKeys', recent' := HandleLine(b, pos, e, lineno + 1, error, recentKeys, recent);
      assert b[next..size] == old(b[next..size]);
    }

    /** parseHelper: for every buffer whose only NUL is its last cell and whose values
        keep to their lines, the store ends as the pure parser leaves it. */
    method ParseHelper(b: array<char>, size: nat) returns (ok: bool)
      requires Valid() && b.Length == size + 1 && b[size] == NUL && NulFree(b[..size])
      requires SafeText(b[..size], 0)
      modifies b, `iniData, `errorCode, `lineWithError, Tables()
      ensures Valid()
      ensures var r := ParseText(old(b[..size]), ParseState(0, 0, old(errorCode), None, old(Contents())));
              Contents() == r.data && lineWithError == r.error && errorCode == r.code && ok == (r.error == 0)
      ensures forall t :: t in Tables() ==> t in old(Tables()) || fresh(t)
    {
      hide ParseText, SafeText;
      var lineno, error, pos := 0, 0, 0;
      var recentKeys: IniKeys? := null;
      ghost var recent := None;
      ghost var result := ParseText(b[..size], ParseState(0, 0, errorCode, None, Contents()));
      assert b[0..size] == b[..size];
      while pos != size  // memfgets reads something
        invariant pos <= size && b[size] == NUL && NulFree(b[pos..size])
        invariant pos == 0 || pos == size || b[pos - 1] != '\r'
        invariant Valid() && PointsTo(recentKeys, recent)
        invariant ParseText(b[pos..size], ParseState(lineno, error, errorCode, recent, Contents())) == result
        invariant SafeText(b[pos..size], lineno)
        invariant forall t :: t in Tables() ==> t in old(Tables()) || fresh(t)
        decreases size - pos
      {
        ghost var before, was := b[pos..size], pos;
        pos, error, recentKeys, recent := NextLine(b, pos, size, lineno, error, recentKeys, recent);
        assert b[pos..size] == before[pos - was..];
        lineno := lineno + 1;
      }
      NothingToParse(ParseState(lineno, error, errorCode, recent, Contents()));
      assert b[pos..size] == "";
      lineWithError := error;
      ok := error == 0;
    }

    // ----- groups -----

    ghost function Where(): (r: Pointer)
      reads `iniData, `currentGroup
    {
      if currentGroup == null then Null
      else if currentGroup in Tables() then
        var s :| s in iniData && iniData[s] == currentGroup; At(s)
      else Dangling
    }

    /** The store as the group state machine sees it. */
    ghost function State(): (r: Store)
      reads this, Tables()
    {
      Store(isOpened, Contents(), Where(), currentGroupName)
    }

    method Close()
      requires Valid()
      modifies this
      ensures Valid() && State() == IniGroups.Close(old(State())) && Tables() == {}
      ensures errorCode == Ok && lineWithError == -1
    {
      errorCode, lineWithError := Ok, -1;
      iniData, isOpened := map[], false;
    }

    /** parseMemory: parses a terminated copy of the block. */
    method ParseMemory(memory: string) returns (ok: bool)
      requires Valid() && NulFree(memory) && SafeText(memory, 0)
      modifies `iniData, `errorCode, `lineWithError, Tables()
      ensures Valid() && forall t :: t in Tables() ==> t in old(Tables()) || fresh(t)
      ensures var r := ParseText(memory, ParseState(0, 0, old(errorCode), None, old(Contents())));
              Contents() == r.data && lineWithError == r.error && errorCode == r.code && ok == (r.error == 0)
    {
      hide ParseText, SafeText;
      var tmp := TerminatedCopy(memory);
      ok := ParseHelper(tmp, |memory|);
    }

    /** openMem on a copy of the memory block. */
    method OpenMem(memory: string) returns (ok: bool)
      requires Valid() && NulFree(memory) && SafeText(memory, 0)
      modifies this
      ensures Valid() && fresh(Tables() - old(Tables()))
      ensures memory == "" ==>
                !ok && errorCode == NoFile && lineWithError == old(lineWithError) && State() == old(State())
      ensures memory != "" ==>
                var r := Parse(memory);
                && State() == Load(old(State()), r.data, r.error == 0)
                && ok == (r.error == 0) && errorCode == r.code && lineWithError == r.error
    {
      hide Parse, ParseText, SafeText;
      if memory == "" {
        errorCode := NoFile;
        return false;
      }
      Close();
      assert Contents() == map[];
      ok := ParseMemory(memory);
      ParseFromStart(memory);
      isOpened := ok;
    }

    /** open by a name that is not empty; `file` is what stands in the file, if there is one.
        An empty file opens as an empty store. */
    method OpenFile(file: Option<string>) returns (ok: bool)
      requires Valid() && (file.Some? ==> NulFree(file.value) && SafeText(file.value, 0))
      modifies this
      ensures Valid() && fresh(Tables() - old(Tables()))
      ensures file.None? ==>
                !ok && errorCode == NoFile && lineWithError == -1 && State() == Load(old(State()), map[], false)
      ensures file.Some? ==>
                var r := Parse(file.value);
                && State() == Load(old(State()), r.data, r.error == 0)
                && ok == (r.error == 0) && errorCode == r.code && lineWithError == r.error
    {
      hide Parse, ParseText, SafeText;
      Close();
      assert Contents() == map[];
      if file.None? {
        errorCode := NoFile;
        return false;
      }
      ok := ParseMemory(file.value);
      ParseFromStart(file.value);
      isOpened := ok;
    }

    method BeginGroup(groupName: string) returns (found: bool)
      requires Valid()
      modifies `currentGroup, `currentGroupName
      ensures State() == Begin(old(State()), groupName) && found == (groupName in iniData)
    {
      currentGroupName := groupName;
      if groupName !in iniData { return false; }
      currentGroup := iniData[groupName];
      found := true;
    }

    method EndGroup()
      requires Valid()
      modifies `currentGroup, `currentGroupName
      ensures State() == End(old(State()))
    {
      currentGroup, currentGroupName := null, "";
    }

    /** readHelper, and `value` built on it. */
    method Read(key: string) returns (r: Option<string>)
      requires Valid() && State().current != Dangling
      ensures r == Find(State(), key)
    {
      if !isOpened || currentGroup == null { return None; }
      var key1 := "";
      for i := 0 to |key|
        invariant key1 == Lower(key[..i])
      {
        key1 := key1 + [ToLower(key[i])];
        assert key1 == Lower(key[..i + 1]);
      }
      assert key[..|key|] == key;
      assert currentGroup.entries == Contents()[Where().section];
      if key1 in currentGroup.entries { return Some(currentGroup.entries[key1]); }
      r := None;
    }

    method WriteIniParam(key: string, value: string)
      requires Valid() && State().current != Dangling
      modifies this, Tables()
      ensures Valid() && State() == Write(old(State()), key, value)
      ensures errorCode == old(errorCode) && lineWithError == old(lineWithError)
      ensures fresh(Tables() - old(Tables()))
    {
      hide Put, Touch, Insert, Lower;
      if currentGroupName == "" { return; }
      var e := Read(key);
      if e.Some? {
        PutEntry(currentGroup, Where().section, Lower(key), value);
      } else {
        InsertNew(key, value);
      }
    }

    /** The key is not found: insert it as given, into the selected table or a new one. */
    method InsertNew(key: string, value: string)
      requires Valid() && State().current != Dangling
      modifies `iniData, `currentGroup, `isOpened, Tables()
      ensures Valid() && fresh(Tables() - old(Tables()))
      ensures var s := old(State());
              var (data, section) := if s.current == Null then (Touch(s.data, s.name), s.name)
                                     else (s.data, s.current.section);
              section in data &&
              State() == s.(isOpened := true, current := At(section),
                            data := data[section := Insert(data[section], key, value)])
    {
      hide Touch, Insert;
      SelectTable();
      InsertEntry(currentGroup, Where().section, key, value);
      isOpened := true;
    }

    /** Gives the current name a table when nothing is selected. */
    method SelectTable()
      requires Valid() && State().current != Dangling
      modifies `iniData, `currentGroup
      ensures Valid() && fresh(Tables() - old(Tables()))
      ensures var s := old(State());
              State() == if s.current == Null
                         then s.(data := Touch(s.data, s.name), current := At(s.name)) else s
      ensures Where().At? && currentGroup == iniData[Where().section]
    {
      hide Touch;
      if currentGroup == null {
        currentGroup := Section(currentGroupName);
      }
    }

    method InsertEntry(keys: IniKeys, ghost section: string, key: string, value: string)
      requires Valid() && section in iniData && iniData[section] == keys
      modifies keys
      ensures Valid() && Contents() ==
                old(Contents())[section := Insert(old(Contents())[section], key, value)]
    {
      if key !in keys.entries {
        keys.entries := keys.entries[key := value];
      }
      assert Contents().Keys == old(Contents()).Keys;
    }

    ghost predicate PointsTo(keys: IniKeys?, section: Option<string>)
      reads `iniData
    {
      if keys == null then section.None?
      else section.Some? && section.value in iniData && iniData[section.value] == keys
    }
  }

  lemma BomMatches(b: array<char>, line: nat, e: nat)
    requires CStr(b, line, e)
    ensures line + 3 < b.Length && b[line..line + 3] == Bom <==> Bom <= b[line..e]
  {
  }

  lemma TouchThenPut(data: Sections, section: string, key: string, value: string)
    ensures Put(Touch(data, section), section, key, value) == Put(data, section, key, value)
  {
  }

  lemma {:induction false} SkipThenCr(s: string)
    ensures LSkip(s + ['\r']) == if LSkip(s) == "" then "" else LSkip(s) + ['\r']
  {
    var t := s + ['\r'];
    if s == "" {
      assert t[1..] == "";
    } else {
      assert t[1..] == s[1..] + ['\r'];
      if IsSpace(s[0]) { SkipThenCr(s[1..]); }
    }
  }

  lemma StripThenCr(s: string)
    ensures RStrip(s + ['\r']) == RStrip(s)
  {
    assert (s + ['\r'])[..|s|] == s;
  }

  /** A CR before the line feed makes no difference to the line. */
  lemma BodyThenCr(line: string, lineno: nat)
    ensures Body(line + ['\r'], lineno) == Body(line, lineno)
  {
    hide RStrip, LSkip;
    var l := if lineno == 1 && Bom <= line then line[3..] else line;
    BomThenCr(line);
    SkipThenCr(l);
    StripThenCr(LSkip(l));
  }

  lemma BomThenCr(line: string)
    ensures Bom <= line + ['\r'] <==> Bom <= line
    ensures Bom <= line ==> (line + ['\r'])[3..] == line[3..] + ['\r']
  {
    assert Bom[2] != '\r' && |Bom| == 3;
    if Bom <= line + ['\r'] {
      assert (line + ['\r'])[2] == Bom[2];
      assert |line| >= 3;
      assert forall i :: 0 <= i < 3 ==> line[i] == (line + ['\r'])[i];
    }
  }

  /** One line off the front of the text, with or without the CR that was cut off it. */
  lemma LineStep(t: string, st: ParseState, line: string)
    requires t != "" && SafeText(t, st.lineno)
    requires t[..LineLength(t)] == line || t[..LineLength(t)] == line + ['\r']
    ensures ParseText(t, st) == ParseText(RestAfter(t, LineLength(t)), DoLine(line, st))
    ensures SafeBody(Body(line, st.lineno + 1))
    ensures SafeText(RestAfter(t, LineLength(t)), st.lineno + 1)
  {
    hide LineLength, Body, SafeBody, DoBody;
    BodyThenCr(line, st.lineno + 1);
  }

  /** malloc, memcpy and the terminator. */
  method TerminatedCopy(memory: string) returns (b: array<char>)
    ensures fresh(b) && b.Length == |memory| + 1 && b[..|memory|] == memory && b[|memory|] == NUL
  {
    var size := |memory|;
    b := new char[size + 1](i requires 0 <= i <= size => if i < size then memory[i] else NUL);
  }

  lemma ParseFromStart(t: string)
    ensures Parse(t) == ParseText(t, ParseState(0, 0, Ok, None, map[]))
  {
  }
}
