/** The INI parser's operations on a dictionary (iniparser.c), as loops over its slots. */
module IniParser {
  import opened Options
  import opened CStrings
  import opened IniLine
  import opened Dictionary
  import opened IniFile
  import opened IniRoundTrip

  // ------------------------------------------------------------ sections as a partition

  /** The full keys of a section's entries, in slot order. */
  function SectionKeys(keys: Slots, s: string): seq<string> {
    if keys == [] then []
    else
      var front, last := SectionKeys(keys[..|keys| - 1], s), keys[|keys| - 1];
      if InSection(last, s) then front + [last.value] else front
  }

  lemma {:induction false} SectionKeysAre(keys: Slots, s: string)
    ensures forall k :: k in SectionKeys(keys, s) <==> Some(k) in keys && InSection(Some(k), s)
  {
    hide InSection;
    if keys != [] {
      var n := |keys| - 1;
      SectionKeysAre(keys[..n], s);
      assert keys == keys[..n] + [keys[n]];
      assert forall k :: Some(k) in keys <==> Some(k) in keys[..n] || Some(k) == keys[n];
    }
  }

  lemma {:induction false} SectionKeysDistinct(keys: Slots, s: string)
    requires DistinctKeys(keys)
    ensures NoRepeats(SectionKeys(keys, s))
  {
    hide InSection;
    if keys != [] {
      var n := |keys| - 1;
      SectionKeysDistinct(keys[..n], s);
      SectionKeysAre(keys[..n], s);
      assert forall k | k in SectionKeys(keys[..n], s) :: Some(k) in keys[..n];
      assert forall i | 0 <= i < n :: keys[i].Some? ==> keys[i] != keys[n];
    }
  }

  /**
    The sections partition the entries: every section name is listed once, no section lists an
    entry twice, and an entry is in the listing of exactly the sections that own it, which is
    one section if its owner is in the table and none otherwise.
   */
  lemma SectionsPartitionEntries(keys: Slots, key: string)
    requires DistinctKeys(keys) && Some(key) in keys && !IsSection(key)
    ensures forall s | s in Sections(keys) :: key in SectionKeys(keys, s) <==> s == Owner(key)
    ensures Owner(key) in Sections(keys) <==> Some(Owner(key)) in keys
    ensures NoRepeats(Sections(keys)) && forall s :: NoRepeats(SectionKeys(keys, s))
  {
    forall s ensures NoRepeats(SectionKeys(keys, s)) { SectionKeysDistinct(keys, s); }
    SectionsDistinct(keys);
    hide InSection, Owner;
    SectionsInTable(keys);
    OwnerHasNoColon(key);
    forall s | s in Sections(keys) ensures key in SectionKeys(keys, s) <==> s == Owner(key) {
      SectionKeysAre(keys, s);
      OwnerIsUnique(key, s);
    }
    if Some(Owner(key)) in keys {
      var i :| 0 <= i < |keys| && keys[i] == Some(Owner(key));
    }
  }

  // ------------------------------------------------------------ the loops

  /** iniparser_getnsec */
  method Getnsec(d: Dictionary) returns (nsec: nat)
    requires d.Valid()
    ensures nsec == |Sections(d.key[..])|
  {
    nsec := 0;
    for i := 0 to d.size
      invariant nsec == |Sections(d.key[..i])|
    {
      assert d.key[..i + 1][..i] == d.key[..i];
      if d.key[i].Some? && IsSection(d.key[i].value) {
        nsec := nsec + 1;
      }
    }
    assert d.key[..d.size] == d.key[..];
  }

  /** iniparser_getsecname: non-NULL exactly for 0 <= n < getnsec. */
  method Getsecname(d: Dictionary, n: int) returns (name: Option<string>)
    requires d.Valid()
    ensures name == if 0 <= n < |Sections(d.key[..])| then Some(Sections(d.key[..])[n]) else None
  {
    if n < 0 {
      return None;
    }
    var foundsec := 0;
    var i := 0;
    while i < d.size
      invariant 0 <= i <= d.size && foundsec == |Sections(d.key[..i])| <= n
    {
      assert d.key[..i + 1][..i] == d.key[..i];
      if d.key[i].Some? && IsSection(d.key[i].value) {
        foundsec := foundsec + 1;
        if foundsec > n {
          SectionsPrefix(d.key[..], i + 1);
          return d.key[i];
        }
      }
      i := i + 1;
    }
    assert d.key[..d.size] == d.key[..];
    return None;
  }

  lemma {:induction false} SectionsPrefix(keys: Slots, n: nat)
    requires n <= |keys|
    ensures Sections(keys[..n]) <= Sections(keys)
    decreases |keys| - n
  {
    if n < |keys| {
      SectionsPrefix(keys, n + 1);
      assert keys[..n + 1][..n] == keys[..n];
    } else {
      assert keys[..n] == keys;
    }
  }

  /** iniparser_getstring, looked up in lower case */
  method Getstring(d: Dictionary, key: string) returns (r: Lookup)
    requires d.Valid()
    ensures r == if Strlwc(key) in d.Map() then Found(d.Map()[Strlwc(key)]) else Default
  {
    var lower := StrlwcLoop(key);
    r := d.Get(lower);
  }

  /** iniparser_find_entry: whether the lower-case key is there, with or without a value. */
  method FindEntry(d: Dictionary, entry: string) returns (found: bool)
    requires d.Valid()
    ensures found <==> Some(Strlwc(entry)) in d.key[..]
  {
    hide MapOf, Strlwc;
    var r := Getstring(d, entry);
    found := r != Default;
    InMapIffInTable(d.key[..], d.val[..], Strlwc(entry));
  }

  lemma InMapIffInTable(keys: Slots, vals: Slots, k: string)
    requires |keys| == |vals| && DistinctKeys(keys)
    ensures k in MapOf(keys, vals) <==> Some(k) in keys
  {
    if Some(k) in keys {
      var i :| 0 <= i < |keys| && keys[i] == Some(k);
      MapOfHit(keys, vals, i);
    } else {
      MapOfMiss(keys, vals, k);
    }
  }

  /** The section is there, and its name and a colon do not fit keym, so that sprintf overruns it. */
  predicate OverrunsKeym(keys: Slots, s: string) {
    Some(Strlwc(s)) in keys && |s| >= ASCIILINESZ
  }

  /** A name of 1024 lower-case letters does not fit, with the section of that name there; one of 1023 does. */
  lemma LongNameOverruns()
    ensures var name := seq(1024, _ => 'a');
      OverrunsKeym([Some(name)], name) && !OverrunsKeym([Some(name[1..])], name[1..])
  {
    var name := seq(1024, _ => 'a');
    assert Lower(name);
    LowerOfLower(name);
    assert [Some(name)][0] == Some(Strlwc(name));
  }

  /** iniparser_getsecnkeys; nothing is said of it where keym overruns. */
  method Getsecnkeys(d: Dictionary, s: string) returns (overrun: bool, nkeys: nat)
    requires d.Valid()
    ensures overrun == OverrunsKeym(d.key[..], s)
    ensures !overrun ==> nkeys == if Some(Strlwc(s)) in d.key[..] then |SectionKeys(d.key[..], s)| else 0
  {
    hide Strlwc;
    overrun, nkeys := false, 0;
    var found := FindEntry(d, s);
    if !found {
      return;
    }
    if |s| >= ASCIILINESZ {
      overrun := true;
      return;
    }
    for j := 0 to d.size
      invariant nkeys == |SectionKeys(d.key[..j], s)|
    {
      assert d.key[..j + 1][..j] == d.key[..j];
      if InSection(d.key[j], s) {
        nkeys := nkeys + 1;
      }
    }
    assert d.key[..d.size] == d.key[..];
  }

  /** iniparser_getseckeys: an array of exactly getsecnkeys keys, all of them filled. */
  method Getseckeys(d: Dictionary, s: string) returns (overrun: bool, keys: array?<string>)
    requires d.Valid()
    ensures overrun == OverrunsKeym(d.key[..], s)
    ensures !overrun ==> (keys == null <==> Some(Strlwc(s)) !in d.key[..])
    ensures !overrun && keys != null ==> fresh(keys) && keys[..] == SectionKeys(d.key[..], s)
  {
    hide Strlwc, InSection, SectionKeys, DistinctKeys, Count;
    overrun, keys := false, null;
    var found := FindEntry(d, s);
    if !found {
      return;
    }
    var nkeys;
    overrun, nkeys := Getsecnkeys(d, s);
    if overrun {
      return;
    }
    keys := new string[nkeys](_ => "");
    ghost var all := d.key[..];
    var i := 0;
    NoSectionKeys(all, s);
    for j := 0 to d.size
      invariant i == |SectionKeys(all[..j], s)| <= nkeys
      invariant fresh(keys) && keys.Length == nkeys && keys[..i] == SectionKeys(all[..j], s)
      invariant d.key[..] == all
    {
      SectionKeysNext(all, s, j);
      SectionKeysPrefix(all, s, j + 1);
      if InSection(d.key[j], s) {
        keys[i] := d.key[j].value;
        i := i + 1;
      }
    }
    assert all[..d.size] == all;
  }

  lemma NoSectionKeys(keys: Slots, s: string)
    ensures SectionKeys(keys[..0], s) == []
  {}

  lemma SectionKeysNext(keys: Slots, s: string, j: nat)
    requires j < |keys|
    ensures SectionKeys(keys[..j + 1], s) ==
      SectionKeys(keys[..j], s) + if InSection(keys[j], s) then [keys[j].value] else []
  {
    hide InSection;
    assert keys[..j + 1][..j] == keys[..j];
  }

  lemma {:induction false} SectionKeysPrefix(keys: Slots, s: string, n: nat)
    requires n <= |keys|
    ensures |SectionKeys(keys[..n], s)| <= |SectionKeys(keys, s)|
    decreases |keys| - n
  {
    hide InSection;
    if n < |keys| {
      SectionKeysPrefix(keys, s, n + 1);
      assert keys[..n + 1][..n] == keys[..n];
    } else {
      assert keys[..n] == keys;
    }
  }

  /** iniparser_dumpsection_ini */
  method DumpsectionIni(d: Dictionary, s: string) returns (overrun: bool, f: string)
    requires d.Valid()
    ensures overrun == OverrunsKeym(d.key[..], s)
    ensures !overrun ==> f == DumpSection(d.key[..], d.val[..], s)
  {
    hide Strlwc, EntryLine;
    overrun, f := false, "";
    var found := FindEntry(d, s);
    if !found {
      return;
    }
    if |s| >= ASCIILINESZ {
      overrun := true;
      return;
    }
    var lines := "";
    for j := 0 to d.size
      invariant lines == EntryLines(d.key[..], d.val[..], s, j)
    {
      if InSection(d.key[j], s) {
        lines := lines + EntryLine(d.key[j].value[|s| + 1..], TextOfValue(d.val[j]), KEY_WIDTH) + "\n";
      }
    }
    f := "\n[" + s + "]\n" + lines + "\n";
  }

  /** iniparser_dump_ini */
  method DumpIni(d: Dictionary) returns (overrun: bool, f: string)
    requires d.Valid()
    ensures overrun <==> exists s :: s in Sections(d.key[..]) && OverrunsKeym(d.key[..], s)
    ensures !overrun ==> f == DumpText(d.key[..], d.val[..])
  {
    hide DumpSection, OverrunsKeym, DistinctKeys, Count, Sections, EntryLine;
    var nsec := Getnsec(d);
    overrun, f := false, "";
    if nsec < 1 {
      for i := 0 to d.size
        invariant f == BareLines(d.key[..], d.val[..], i)
      {
        if d.key[i].Some? {
          f := f + EntryLine(d.key[i].value, BareText(d.val[i]), 0) + "\n";
        }
      }
      return;
    }
    ghost var names := Sections(d.key[..]);
    for i := 0 to nsec
      invariant !overrun && f == DumpSections(d.key[..], d.val[..], names[..i])
      invariant forall j | 0 <= j < i :: !OverrunsKeym(d.key[..], names[j])
    {
      var secname := Getsecname(d, i);
      var section;
      overrun, section := DumpsectionIni(d, secname.value);
      if overrun {
        return;
      }
      assert names[..i + 1][..i] == names[..i];
      f := f + section;
    }
    assert names[..nsec] == names;
    f := f + "\n";
  }

  datatype LoadStatus = Running | Ok | NullReturned | Unspecified

  /** Gets rid of the line feed and the blanks at the end of the line. */
  method CutBlanks(line: string) returns (cut: string)
    ensures cut == StripRight(line)
  {
    var len := |line|;
    assert line[..len] == line;
    while len > 0 && (line[len - 1] == '\n' || IsSpace(line[len - 1]))
      invariant 0 <= len <= |line| && StripRight(line[..len]) == StripRight(line)
    {
      assert line[..len][..len - 1] == line[..len - 1];
      len := len - 1;
    }
    cut := line[..len];
  }

  /** One turn of the loading loop: cuts the line, detects continuations, and stores what it says. */
  method LoadLine(d: Dictionary, line: string, section: string, errs: nat, carry: string)
    returns (status: LoadStatus, carry': string, section': string, errs': nat)
    requires d.Valid()
    modifies d.Repr()
    ensures d.Valid() && fresh(d.Repr() - old(d.Repr()))
    ensures match OnLine(Reader(carry, section, errs, old(d.Map())), line)
            case Continue(r) => status == Running && r == Reader(carry', section', errs', d.Map())
            case Stop(Failed) => status == NullReturned
            case Stop(_) => status == Unspecified
  {
    hide LineOf, StripRight, MapOf;
    status, carry', section', errs' := Running, carry, section, errs;
    if line == "" {
      status := Unspecified;
      return;
    }
    if |line| == 1 {
      return;
    }
    if line[|line| - 1] != '\n' {
      status := NullReturned;
      return;
    }
    var cut := CutBlanks(line);
    if cut == "" {
      status := Unspecified;
      return;
    }
    if cut[|cut| - 1] == '\\' {
      carry' := cut[..|cut| - 1];
      return;
    }
    carry' := "";
    match LineOf(cut, section) {
      case Empty =>
      case Comment =>
      case Section(name) =>
        d.Set(name, None);
        section', errs' := name, 0;
      case Value(k, v) =>
        if |section| + 1 + |k| > ASCIILINESZ {
          status := Unspecified;
          return;
        }
        d.Set(section + ":" + k, Some(v));
        errs' := 0;
      case Error =>
        errs' := errs + 1;
    }
  }

  /** iniparser_load on a file's text; the caller gets d unless NullReturned. */
  method LoadIni(text: string, hashOf: string -> bv32) returns (status: LoadStatus, d: Dictionary)
    ensures d.Valid() && fresh(d.Repr()) && d.hashOf == hashOf
    ensures match LoadText(text)
            case Loaded(entries) => status == Ok && d.Map() == entries
            case Failed => status == NullReturned
            case Undefined => status == Unspecified
  {
    hide FgetsEnd, OnLine, UpToNul, Load, DistinctKeys, Count, MapOf;
    d := new Dictionary(hashOf, 0);
    var pos, carry, section, errs: nat := 0, "", "", 0;
    while pos < |text|
      invariant pos <= |text| && |carry| < ASCIILINESZ - 1
      invariant d.Valid() && fresh(d.Repr()) && d.hashOf == hashOf
      invariant Load(text, pos, Reader(carry, section, errs, d.Map())) == LoadText(text)
      decreases |text| - pos
    {
      var end := FgetsEnd(text, pos, ASCIILINESZ - 1 - |carry|);
      var line := UpToNul(carry + text[pos..end]);
      LoadStep(text, pos, Reader(carry, section, errs, d.Map()));
      status, carry, section, errs := LoadLine(d, line, section, errs, carry);
      if status != Running {
        return;
      }
      pos := end;
    }
    LoadEnds(text, Reader(carry, section, errs, d.Map()));
    status := if errs != 0 then NullReturned else Ok;
  }

  lemma SectionsFit(keys: Slots)
    requires KnownNames(keys, Sections(keys))
    ensures forall s | s in Sections(keys) :: !OverrunsKeym(keys, s)
  {}

  /**
    Saving a dictionary and loading the file: the new dictionary denotes the same map just when
    the old one is one that survives.
   */
  method SaveAndReload(d: Dictionary) returns (reloaded: Dictionary, status: LoadStatus)
    requires d.Valid() && Dumpable(d.key[..], d.val[..])
    ensures reloaded.Valid() && fresh(reloaded.Repr())
    ensures status == Ok && reloaded.Map() == d.Map() <==> Survives(d.key[..], d.val[..])
    ensures |Sections(d.key[..])| >= 1 && NamelessFirst(Sections(d.key[..])) ==>
      status == Ok && reloaded.Map() == Reloaded(d.key[..], d.val[..])
  {
    hide LoadText, DumpText, PrintableSlot, GoodEntry, Survives, NamelessFirst, Reloaded, MapOf, Sections;
    ghost var keys, vals := d.key[..], d.val[..];
    NothingOverruns(keys, vals);
    var overrun, text := DumpIni(d);
    if |Sections(keys)| >= 1 && NamelessFirst(Sections(keys)) { DumpThenLoad(keys, vals); }
    RoundTripIff(keys, vals);
    status, reloaded := LoadIni(text, d.hashOf);
  }

  lemma NothingOverruns(keys: Slots, vals: Slots)
    requires Dumpable(keys, vals)
    ensures forall s | s in Sections(keys) :: !OverrunsKeym(keys, s)
  {
    hide PrintableSlot, GoodEntry, Sections, OverrunsKeym;
    if |Sections(keys)| >= 1 {
      SectionNamesKnown(keys, vals);
      SectionsFit(keys);
    }
  }
}
