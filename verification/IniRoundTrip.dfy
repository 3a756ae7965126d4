/**
  Saving and loading: what iniparser_load makes of what iniparser_dump_ini wrote, and which
  dictionaries come back as they were.
 */
module IniRoundTrip {
  import opened Options
  import opened CStrings
  import opened IniLine
  import opened Dictionary
  import opened IniFile

  // ------------------------------------------------------------ sections and their entries

  /** The section a "section:key" entry belongs to, and its key there. */
  function Owner(key: string): string { key[..RunLength(key, ":")] }

  function KeyInSection(key: string): string
    requires !IsSection(key)
  {
    key[RunLength(key, ":") + 1..]
  }

  lemma {:induction false} SectionsInTable(keys: Slots)
    ensures forall s | s in Sections(keys) :: Some(s) in keys && IsSection(s)
    ensures forall i | 0 <= i < |keys| && keys[i].Some? && IsSection(keys[i].value) :: keys[i].value in Sections(keys)
  {
    if keys != [] {
      var n := |keys| - 1;
      SectionsInTable(keys[..n]);
      assert keys == keys[..n] + [keys[n]];
      assert forall i | 0 <= i < n :: keys[i] == keys[..n][i];
    }
  }

  predicate NoRepeats(s: seq<string>) {
    forall i, j | 0 <= i < j < |s| :: s[i] != s[j]
  }

  lemma {:induction false} SectionsDistinct(keys: Slots)
    requires DistinctKeys(keys)
    ensures NoRepeats(Sections(keys))
  {
    if keys != [] {
      var n := |keys| - 1;
      SectionsDistinct(keys[..n]);
      SectionsInTable(keys[..n]);
      assert forall s | s in Sections(keys[..n]) :: Some(s) in keys[..n];
      assert forall i | 0 <= i < n :: keys[i].Some? ==> keys[i] != keys[n];
    }
  }

  /**
    Names and entries whose lines the parser takes one by one: section names in order, and
    entries of sections that are there with good lines.
   */
  ghost predicate Printable(keys: Slots, vals: Slots) {
    && |keys| == |vals| && DistinctKeys(keys)
    && forall i | 0 <= i < |keys| && keys[i].Some? :: PrintableSlot(keys, keys[i].value, vals[i])
  }

  ghost predicate PrintableSlot(keys: Slots, key: string, val: Option<string>) {
    if IsSection(key) then NameOrNone(key)
    else
      Some(Owner(key)) in keys ==>
        GoodEntry(KeyInSection(key), TextOfValue(val), KEY_WIDTH) && |key| <= ASCIILINESZ
  }

  /** The value a key has after saving and loading. */
  function Reread(key: string, val: Option<string>): Option<string> {
    if IsSection(key) then None else Some(ReadValue(Strstrip(TextOfValue(val))))
  }

  /** What saving and loading makes of a dictionary: entries without a section are not written. */
  ghost function Reloaded(keys: Slots, vals: Slots): Entries
    requires |keys| == |vals| && DistinctKeys(keys)
  {
    var d := MapOf(keys, vals);
    map k | k in d && (IsSection(k) || Some(Owner(k)) in keys) :: Reread(k, d[k])
  }

  /**
    The dictionaries that survive: sections with NULL values, and entries with plain values
    whose section is there.
   */
  ghost predicate Faithful(keys: Slots, vals: Slots)
    requires |keys| == |vals|
  {
    forall i | 0 <= i < |keys| && keys[i].Some? ::
      if IsSection(keys[i].value) then vals[i].None?
      else Some(Owner(keys[i].value)) in keys && vals[i].Some? && PlainValue(vals[i].value)
  }

  /** The owner is the only colon-free name with the key in its section. */
  lemma OwnerIsUnique(key: string, s: string)
    requires IsSection(s)
    ensures InSection(Some(key), s) <==> !IsSection(key) && Owner(key) == s
    ensures InSection(Some(key), s) ==> key == s + ":" + KeyInSection(key) && KeyInSection(key) == key[|s| + 1..]
  {
    var n := RunLength(key, ":");
    if InSection(Some(key), s) {
      assert key[|s|] == (s + ":")[|s|] == ':';
      assert forall i | 0 <= i < |s| :: key[i] == (s + ":")[i] == s[i];
      RunLengthIs(key, ":", |s|);
      assert key[..|s|] == s;
    }
    if !IsSection(key) && Owner(key) == s {
      assert n < |key| && key[n] == ':';
      assert s + ":" == key[..n + 1];
    }
  }

  function SectionItems(keys: Slots, vals: Slots, s: string, n: nat): seq<Item>
    requires |keys| == |vals| && n <= |keys|
  {
    if n == 0 then []
    else
      var front := SectionItems(keys, vals, s, n - 1);
      if InSection(keys[n - 1], s)
      then front + [Entry(keys[n - 1].value[|s| + 1..], TextOfValue(vals[n - 1]), KEY_WIDTH)]
      else front
  }

  function DumpItems(keys: Slots, vals: Slots, names: seq<string>): seq<Item>
    requires |keys| == |vals|
  {
    if names == [] then []
    else
      var s := names[|names| - 1];
      DumpItems(keys, vals, names[..|names| - 1]) + ([Blank, Head(s)] + SectionItems(keys, vals, s, |keys|) + [Blank])
  }

  lemma {:induction false} TextOfConcat(a: seq<Item>, b: seq<Item>)
    ensures TextOf(a + b) == TextOf(a) + TextOf(b)
    decreases |a|
  {
    if a == [] {
      assert a + b == b;
    } else {
      assert (a + b)[1..] == a[1..] + b;
      TextOfConcat(a[1..], b);
    }
  }

  lemma TextOfOne(it: Item)
    ensures TextOf([it]) == ItemLine(it) + "\n"
  {
    assert [it][1..] == [];
  }

  lemma TextOfNothing()
    ensures TextOf([]) == ""
  {}

  lemma {:induction false} EntryLinesText(keys: Slots, vals: Slots, s: string, n: nat)
    requires |keys| == |vals| && n <= |keys|
    ensures TextOf(SectionItems(keys, vals, s, n)) == EntryLines(keys, vals, s, n)
  {
    hide EntryLine, TextOf;
    TextOfNothing();
    if n > 0 {
      EntryLinesText(keys, vals, s, n - 1);
      if InSection(keys[n - 1], s) {
        var it := SlotItem(keys, vals, s, n - 1);
        TextOfConcat(SectionItems(keys, vals, s, n - 1), [it]);
        TextOfOne(it);
        assert ItemLine(it) + "\n" == EntryLine(it.key, it.value, KEY_WIDTH) + "\n";
      }
    }
  }

  /** Names of sections in the table, each in order or empty. */
  ghost predicate KnownNames(keys: Slots, names: seq<string>) {
    forall i | 0 <= i < |names| :: Some(names[i]) in keys && IsSection(names[i]) && NameOrNone(names[i])
  }

  /** No section but the first is without a name. */
  predicate NamelessFirst(names: seq<string>) {
    forall i | 0 < i < |names| :: names[i] != ""
  }

  lemma {:induction false} DumpItemsText(keys: Slots, vals: Slots, names: seq<string>)
    requires |keys| == |vals| && KnownNames(keys, names)
    ensures TextOf(DumpItems(keys, vals, names)) == DumpSections(keys, vals, names)
  {
    hide GoodName;
    if names != [] {
      var front, s := names[..|names| - 1], names[|names| - 1];
      DumpItemsText(keys, vals, front);
      NameIsFound(s);
      SectionText(keys, vals, s);
      TextOfConcat(DumpItems(keys, vals, front), [Blank, Head(s)] + SectionItems(keys, vals, s, |keys|) + [Blank]);
    }
  }

  lemma NameIsFound(s: string)
    requires NameOrNone(s)
    ensures Strlwc(s) == s
  {
    LowerOfLower(s);
  }

  lemma SectionText(keys: Slots, vals: Slots, s: string)
    requires |keys| == |vals| && Some(s) in keys && Strlwc(s) == s
    ensures TextOf([Blank, Head(s)] + SectionItems(keys, vals, s, |keys|) + [Blank]) == DumpSection(keys, vals, s)
  {
    hide Strlwc, SectionItems, EntryLines, TextOf;
    var middle := SectionItems(keys, vals, s, |keys|);
    EntryLinesText(keys, vals, s, |keys|);
    TextOfConcat([Blank, Head(s)] + middle, [Blank]);
    TextOfConcat([Blank, Head(s)], middle);
    HeadText(s);
    TextOfOne(Blank);
    assert "" + "\n" == "\n";
  }

  lemma HeadText(s: string)
    ensures TextOf([Blank, Head(s)]) == "\n[" + s + "]\n"
  {
    assert [Blank, Head(s)] == [Blank] + [Head(s)];
    TextOfConcat([Blank], [Head(s)]);
    TextOfOne(Blank);
    TextOfOne(Head(s));
    assert ("" + "\n") + ("[" + s + "]" + "\n") == "\n[" + s + "]\n";
  }

  lemma {:induction false} AfterConcat(r: Reader, a: seq<Item>, b: seq<Item>)
    ensures AfterItems(r, a + b) == AfterItems(AfterItems(r, a), b)
    ensures GoodItems(r, a) && GoodItems(AfterItems(r, a), b) ==> GoodItems(r, a + b)
    decreases |a|
  {
    hide GoodItem;
    if a == [] {
      assert a + b == b;
    } else {
      assert (a + b)[1..] == a[1..] + b;
      AfterConcat(AfterItem(r, a[0]), a[1..], b);
    }
  }

  lemma ReloadedHit(keys: Slots, vals: Slots, i: nat)
    requires |keys| == |vals| && DistinctKeys(keys) && i < |keys| && keys[i].Some?
    requires IsSection(keys[i].value) || Some(Owner(keys[i].value)) in keys
    ensures keys[i].value in Reloaded(keys, vals)
    ensures Reloaded(keys, vals)[keys[i].value] == Reread(keys[i].value, vals[i])
  {
    hide Reread, Owner;
    MapOfHit(keys, vals, i);
  }

  /** Everything in m is in d, with the same value. */
  ghost predicate Sub(m: Entries, d: Entries) {
    forall k | k in m :: k in d && m[k] == d[k]
  }

  /** Reading the entries of section s from the first n slots. */
  lemma {:induction false} SectionIsRead(keys: Slots, vals: Slots, s: string, n: nat, r: Reader)
    requires |keys| == |vals| && Printable(keys, vals) && n <= |keys| && Some(s) in keys && IsSection(s)
    requires NameOrNone(s) && r.carry == "" && r.section == s && r.errs == 0 && Sub(r.entries, Reloaded(keys, vals))
    ensures var items := SectionItems(keys, vals, s, n);
            var r' := AfterItems(r, items);
            && GoodItems(r, items)
            && r'.carry == "" && r'.section == s && r'.errs == 0 && Sub(r'.entries, Reloaded(keys, vals))
            && r.entries.Keys <= r'.entries.Keys
            && forall j | 0 <= j < n && InSection(keys[j], s) :: keys[j].value in r'.entries
  {
    hide Reloaded, GoodEntry, NameOrNone, Owner, KeyInSection, InSection;
    hide AfterItem, Printable, Reread, GoodItem;
    if n > 0 {
      SectionIsRead(keys, vals, s, n - 1, r);
      if InSection(keys[n - 1], s) {
        var front := SectionItems(keys, vals, s, n - 1);
        EntryStep(keys, vals, s, n - 1, AfterItems(r, front));
        AfterConcat(r, front, [SlotItem(keys, vals, s, n - 1)]);
      }
    }
  }

  function SlotItem(keys: Slots, vals: Slots, s: string, i: nat): Item
    requires |keys| == |vals| && i < |keys| && InSection(keys[i], s)
  {
    Entry(keys[i].value[|s| + 1..], TextOfValue(vals[i]), KEY_WIDTH)
  }

  lemma EntryStep(keys: Slots, vals: Slots, s: string, i: nat, r: Reader)
    requires Printable(keys, vals) && i < |keys| && Some(s) in keys && IsSection(s) && InSection(keys[i], s)
    requires NameOrNone(s) && r.section == s && Sub(r.entries, Reloaded(keys, vals))
    ensures var it := SlotItem(keys, vals, s, i);
            var r' := AfterItems(r, [it]);
            && GoodItems(r, [it])
            && r' == Reader("", s, 0, r.entries[keys[i].value := Reread(keys[i].value, vals[i])])
            && Sub(r'.entries, Reloaded(keys, vals))
  {
    hide GoodEntry, NameOrNone, Strstrip, ReadValue, Owner, KeyInSection, InSection, Reloaded;
    var it, key := SlotItem(keys, vals, s, i), keys[i].value;
    OwnerIsUnique(key, s);
    ReloadedHit(keys, vals, i);
    assert PrintableSlot(keys, key, vals[i]);
    assert s + ":" + it.key == key;
    assert [it][1..] == [];
    assert AfterItems(r, [it]) == AfterItems(AfterItem(r, it), []) == AfterItem(r, it);
  }

  /** Reading the sections in `names`, heads and entries. */
  lemma {:induction false} SectionsAreRead(keys: Slots, vals: Slots, names: seq<string>, r: Reader)
    requires |keys| == |vals| && Printable(keys, vals) && KnownNames(keys, names) && NamelessFirst(names)
    requires r.carry == "" && r.section == "" && r.errs == 0 && Sub(r.entries, Reloaded(keys, vals))
    ensures var items := DumpItems(keys, vals, names);
            var r' := AfterItems(r, items);
            && GoodItems(r, items) && NameOrNone(r'.section)
            && r'.carry == "" && r'.errs == 0 && Sub(r'.entries, Reloaded(keys, vals))
            && forall s | s in names ::
              s in r'.entries && forall j | 0 <= j < |keys| && InSection(keys[j], s) :: keys[j].value in r'.entries
    decreases |names|
  {
    hide Reloaded, GoodName, InSection, Printable;
    if names != [] {
      var front, s := names[..|names| - 1], names[|names| - 1];
      assert KnownNames(keys, front) && NamelessFirst(front);
      SectionsAreRead(keys, vals, front, r);
      var before := AfterItems(r, DumpItems(keys, vals, front));
      assert s == "" ==> front == [];
      WholeSectionIsRead(keys, vals, s, before);
      AfterConcat(r, DumpItems(keys, vals, front), [Blank, Head(s)] + SectionItems(keys, vals, s, |keys|) + [Blank]);
      assert forall t | t in names :: t in front || t == s;
    }
  }

  lemma WholeSectionIsRead(keys: Slots, vals: Slots, s: string, r: Reader)
    requires Printable(keys, vals) && Some(s) in keys && IsSection(s) && NameOrNone(s)
    requires NameOrNone(r.section) && (s == "" ==> r.section == "")
    requires r.carry == "" && r.errs == 0 && Sub(r.entries, Reloaded(keys, vals))
    ensures var items := [Blank, Head(s)] + SectionItems(keys, vals, s, |keys|) + [Blank];
            var r' := AfterItems(r, items);
            && GoodItems(r, items) && r'.section == s
            && r'.carry == "" && r'.errs == 0 && Sub(r'.entries, Reloaded(keys, vals))
            && r.entries.Keys <= r'.entries.Keys && s in r'.entries
            && forall j | 0 <= j < |keys| && InSection(keys[j], s) :: keys[j].value in r'.entries
  {
    hide GoodName, InSection, Reloaded;
    var head, middle := [Blank, Head(s)], SectionItems(keys, vals, s, |keys|);
    var r1 := Reader("", s, 0, r.entries[s := None]);
    HeadStep(keys, vals, s, r);
    SectionIsRead(keys, vals, s, |keys|, r1);
    AfterConcat(r, head, middle);
    AfterConcat(r, head + middle, [Blank]);
    var r2 := AfterItems(r1, middle);
    BlankStep(r2);
  }

  lemma BlankStep(r: Reader)
    requires NameOrNone(r.section)
    ensures GoodItems(r, [Blank]) && AfterItems(r, [Blank]) == r
  {
    assert [Blank][1..] == [];
  }

  lemma HeadStep(keys: Slots, vals: Slots, s: string, r: Reader)
    requires Printable(keys, vals) && Some(s) in keys && IsSection(s) && NameOrNone(s)
    requires NameOrNone(r.section) && (s == "" ==> r.section == "")
    requires r.carry == "" && r.errs == 0 && Sub(r.entries, Reloaded(keys, vals))
    ensures GoodItems(r, [Blank, Head(s)])
    ensures AfterItems(r, [Blank, Head(s)]) == Reader("", s, 0, r.entries[s := None])
    ensures Sub(r.entries[s := None], Reloaded(keys, vals))
  {
    hide GoodName;
    assert [Blank, Head(s)][1..] == [Head(s)] && [Head(s)][1..] == [];
    assert GoodItems(AfterItem(r, Head(s)), []) && GoodItems(r, [Head(s)]);
    assert AfterItems(r, [Blank, Head(s)]) == AfterItems(r, [Head(s)]) == AfterItems(AfterItem(r, Head(s)), []);
    var i :| 0 <= i < |keys| && keys[i] == Some(s);
    assert PrintableSlot(keys, s, vals[i]);
    ReloadedHit(keys, vals, i);
  }

  /**
    Loading what iniparser_dump_ini wrote gives the sections and their entries, every value
    reread, if no section behind the first is without a name.
   */
  lemma DumpThenLoad(keys: Slots, vals: Slots)
    requires Printable(keys, vals) && |Sections(keys)| >= 1 && NamelessFirst(Sections(keys))
    ensures LoadText(DumpText(keys, vals)) == Loaded(Reloaded(keys, vals))
  {
    hide Reloaded, Load, GoodItems, AfterItems, DumpItems, DumpText, Sections, NamelessFirst;
    hide GoodName, PrintableSlot, InSection;
    var names := Sections(keys);
    SectionsInTable(keys);
    SectionNamesKnown(keys, vals);
    SectionsAreRead(keys, vals, names, START);
    var items := DumpItems(keys, vals, names);
    var r := AfterItems(START, items);
    DumpTextIs(keys, vals);
    AfterConcat(START, items, [Blank]);
    BlankStep(r);
    LoadOfItems("", items + [Blank], START);
    assert "" + TextOf(items + [Blank]) == DumpText(keys, vals);
    AllRead(keys, vals, r.entries);
  }

  lemma DumpTextIs(keys: Slots, vals: Slots)
    requires Printable(keys, vals) && |Sections(keys)| >= 1
    ensures DumpText(keys, vals) == TextOf(DumpItems(keys, vals, Sections(keys)) + [Blank])
  {
    hide Sections, TextOf, DumpItems, DumpSections, PrintableSlot;
    SectionNamesKnown(keys, vals);
    DumpItemsText(keys, vals, Sections(keys));
    TextOfConcat(DumpItems(keys, vals, Sections(keys)), [Blank]);
    TextOfOne(Blank);
  }

  // ------------------------------------------------------------ a section without a name

  /** The lines of a dump, each in order. */
  lemma {:induction false} DumpItemsGood(keys: Slots, vals: Slots, names: seq<string>)
    requires Printable(keys, vals) && KnownNames(keys, names)
    ensures forall i | 0 <= i < |DumpItems(keys, vals, names)| :: GoodLine(DumpItems(keys, vals, names)[i])
    decreases |names|
  {
    hide GoodLine, Printable, SectionItems;
    if names != [] {
      var s := names[|names| - 1];
      assert KnownNames(keys, names[..|names| - 1]);
      DumpItemsGood(keys, vals, names[..|names| - 1]);
      SectionItemsGood(keys, vals, s, |keys|);
      HeadIsGood(s);
    }
  }

  lemma HeadIsGood(s: string)
    requires NameOrNone(s)
    ensures GoodLine(Blank) && GoodLine(Head(s))
  {}

  lemma {:induction false} SectionItemsGood(keys: Slots, vals: Slots, s: string, n: nat)
    requires Printable(keys, vals) && n <= |keys| && Some(s) in keys && IsSection(s)
    ensures forall i | 0 <= i < |SectionItems(keys, vals, s, n)| :: GoodLine(SectionItems(keys, vals, s, n)[i])
  {
    hide GoodEntry, InSection, Owner, KeyInSection;
    if n > 0 {
      SectionItemsGood(keys, vals, s, n - 1);
      if InSection(keys[n - 1], s) {
        OwnerIsUnique(keys[n - 1].value, s);
        assert PrintableSlot(keys, keys[n - 1].value, vals[n - 1]);
      }
    }
  }

  lemma {:induction false} DumpStarts(keys: Slots, vals: Slots, names: seq<string>)
    requires |keys| == |vals| && names != []
    ensures |DumpItems(keys, vals, names)| >= 2
    ensures DumpItems(keys, vals, names)[..2] == [Blank, Head(names[0])]
    decreases |names|
  {
    if |names| > 1 {
      DumpStarts(keys, vals, names[..|names| - 1]);
    } else {
      assert DumpItems(keys, vals, names[..0]) == [];
    }
  }

  /** Once in a section with a name, no dump leads back to the one without: its header keeps the name. */
  lemma {:induction false} NeverNameless(pre: string, items: seq<Item>, r: Reader)
    requires r.carry == "" && GoodName(r.section) && "" !in r.entries
    requires forall i | 0 <= i < |items| :: GoodLine(items[i])
    ensures var o := Load(pre + TextOf(items), |pre|, r); o.Loaded? ==> "" !in o.entries
    decreases |items|
  {
    hide Load, TextOf, GoodEntry, ItemLine;
    if items == [] {
      LoadOfNothing(pre, r);
    } else {
      LoadOfItem(pre, items, r);
      if FitsKey(items[0], r.section) {
        NeverNameless(pre + (ItemLine(items[0]) + "\n"), items[1..], AfterItem(r, items[0]));
      }
    }
  }

  /** A section without a name behind one with a name does not come back. */
  lemma NamelessIsLost(keys: Slots, vals: Slots)
    requires Printable(keys, vals) && |Sections(keys)| >= 1 && !NamelessFirst(Sections(keys))
    ensures Some("") in keys
    ensures var o := LoadText(DumpText(keys, vals)); o.Loaded? ==> "" !in o.entries
  {
    hide LoadText, TextOf, GoodName, GoodEntry, GoodNote, DumpText, DumpItems, Sections, PrintableSlot;
    var names := Sections(keys);
    var items := DumpItems(keys, vals, names) + [Blank];
    SectionsInTable(keys);
    SectionsDistinct(keys);
    SectionNamesKnown(keys, vals);
    DumpItemsGood(keys, vals, names);
    DumpTextIs(keys, vals);
    DumpStarts(keys, vals, names);
    assert items[0] == Blank && items[1] == Head(names[0]);
    FirstHead(items, names[0]);
  }

  lemma FirstHead(items: seq<Item>, name: string)
    requires |items| >= 2 && items[0] == Blank && items[1] == Head(name) && GoodName(name)
    requires forall i | 0 <= i < |items| :: GoodLine(items[i])
    ensures var o := LoadText(TextOf(items)); o.Loaded? ==> "" !in o.entries
  {
    hide Load, TextOf, GoodEntry, ItemLine;
    assert "" + TextOf(items) == TextOf(items);
    LoadOfItem("", items, START);
    var pre := "" + (ItemLine(Blank) + "\n");
    LoadOfItem(pre, items[1..], START);
    assert items[1..][1..] == items[2..];
    NeverNameless(pre + (ItemLine(Head(name)) + "\n"), items[2..], AfterItem(START, Head(name)));
  }

  // ------------------------------------------------------------ dictionaries without a section

  /** Without sections, every key is written with its value, as it is. */
  ghost predicate PrintableBare(keys: Slots, vals: Slots) {
    && |keys| == |vals| && DistinctKeys(keys)
    && forall i | 0 <= i < |keys| && keys[i].Some? :: GoodEntry(keys[i].value, BareText(vals[i]), 0)
  }

  function BareItems(keys: Slots, vals: Slots, n: nat): seq<Item>
    requires |keys| == |vals| && n <= |keys|
  {
    if n == 0 then []
    else
      var front := BareItems(keys, vals, n - 1);
      if keys[n - 1].Some? then front + [Entry(keys[n - 1].value, BareText(vals[n - 1]), 0)] else front
  }

  lemma {:induction false} BareLinesText(keys: Slots, vals: Slots, n: nat)
    requires |keys| == |vals| && n <= |keys|
    ensures TextOf(BareItems(keys, vals, n)) == BareLines(keys, vals, n)
  {
    hide EntryLine, TextOf, BareText;
    TextOfNothing();
    if n > 0 {
      BareLinesText(keys, vals, n - 1);
      if keys[n - 1].Some? {
        var it := Entry(keys[n - 1].value, BareText(vals[n - 1]), 0);
        TextOfConcat(BareItems(keys, vals, n - 1), [it]);
        TextOfOne(it);
        assert ItemLine(it) + "\n" == EntryLine(it.key, it.value, 0) + "\n";
      }
    }
  }

  /** What the value of a dictionary without sections comes back as. */
  function BareReread(val: Option<string>): Option<string> { Some(ReadValue(Strstrip(BareText(val)))) }

  /** What comes back: every key with a colon in front, in a section without a name. */
  ghost predicate ColonsInFront(keys: Slots, vals: Slots, m: Entries, n: nat)
    requires n <= |keys| == |vals|
  {
    && (forall i | 0 <= i < n && keys[i].Some? ::
         ":" + keys[i].value in m && m[":" + keys[i].value] == BareReread(vals[i]))
    && forall k | k in m :: exists i :: 0 <= i < n && keys[i].Some? && k == ":" + keys[i].value
  }

  /** The items are read one by one, and leave the first n keys with a colon in front. */
  ghost predicate BareRead(keys: Slots, vals: Slots, items: seq<Item>, n: nat)
    requires n <= |keys| == |vals|
  {
    var r := AfterItems(START, items);
    && GoodItems(START, items) && r.carry == "" && r.section == "" && r.errs == 0
    && ColonsInFront(keys, vals, r.entries, n)
  }

  lemma {:induction false} BareAreRead(keys: Slots, vals: Slots, n: nat)
    requires PrintableBare(keys, vals) && n <= |keys|
    ensures |keys| == |vals| && BareRead(keys, vals, BareItems(keys, vals, n), n)
  {
    hide BareRead, PrintableBare, BareReread, GoodLine, DistinctKeys, ReadValue, Strstrip;
    BareHasValues(keys, vals);
    if n == 0 {
      NothingBare(keys, vals);
    } else {
      BareAreRead(keys, vals, n - 1);
      BareIsGood(keys, vals, n - 1);
      BareItemsNext(keys, vals, n - 1);
      hide BareItems;
      var front := BareItems(keys, vals, n - 1);
      if keys[n - 1].Some? {
        BareReadNext(keys, vals, front, n - 1, Entry(keys[n - 1].value, BareText(vals[n - 1]), 0));
      } else {
        assert front + [] == front;
        NoMore(keys, vals, front, n - 1);
      }
    }
  }

  lemma BareReadNext(keys: Slots, vals: Slots, front: seq<Item>, n: nat, it: Item)
    requires n < |keys| == |vals| && DistinctKeys(keys) && keys[n].Some? && BareRead(keys, vals, front, n)
    requires it.Entry? && it.key == keys[n].value && GoodLine(it)
    requires BareReread(vals[n]) == Some(ReadValue(Strstrip(it.value)))
    ensures BareRead(keys, vals, front + [it], n + 1)
  {
    hide ColonsInFront, BareReread, AfterItem, AfterItems, GoodItems, GoodLine, DistinctKeys, ReadValue, Strstrip;
    var r := AfterItems(START, front);
    BareStep(r, it);
    AfterConcat(START, front, [it]);
    OneMore(keys, vals, r.entries, AfterItem(r, it).entries, n);
  }

  lemma BareItemsNext(keys: Slots, vals: Slots, i: nat)
    requires i < |keys| == |vals|
    ensures BareItems(keys, vals, i + 1) ==
      BareItems(keys, vals, i) + if keys[i].Some? then [Entry(keys[i].value, BareText(vals[i]), 0)] else []
  {
    hide BareText;
  }

  lemma NothingBare(keys: Slots, vals: Slots)
    requires |keys| == |vals|
    ensures BareItems(keys, vals, 0) == [] && BareRead(keys, vals, [], 0)
  {}

  lemma BareIsGood(keys: Slots, vals: Slots, i: nat)
    requires PrintableBare(keys, vals) && i < |keys|
    ensures |keys| == |vals| && DistinctKeys(keys)
    ensures keys[i].Some? ==> GoodLine(Entry(keys[i].value, BareText(vals[i]), 0))
    ensures BareReread(vals[i]) == Some(ReadValue(Strstrip(BareText(vals[i]))))
  {
    hide GoodEntry, BareText, ReadValue, Strstrip;
  }

  lemma NoMore(keys: Slots, vals: Slots, items: seq<Item>, n: nat)
    requires n < |keys| == |vals| && keys[n].None? && BareRead(keys, vals, items, n)
    ensures BareRead(keys, vals, items, n + 1)
  {
    hide BareReread, AfterItems, GoodItems;
    var m := AfterItems(START, items).entries;
    forall k | k in m ensures exists i :: 0 <= i < n + 1 && keys[i].Some? && k == ":" + keys[i].value {
      var i :| 0 <= i < n && keys[i].Some? && k == ":" + keys[i].value;
    }
  }

  lemma OneMore(keys: Slots, vals: Slots, m: Entries, m': Entries, n: nat)
    requires n < |keys| == |vals| && DistinctKeys(keys) && keys[n].Some? && ColonsInFront(keys, vals, m, n)
    requires m' == m[":" + keys[n].value := BareReread(vals[n])]
    ensures ColonsInFront(keys, vals, m', n + 1)
  {
    hide BareReread, DistinctKeys;
    forall i | 0 <= i < n + 1 && keys[i].Some?
      ensures ":" + keys[i].value in m' && m'[":" + keys[i].value] == BareReread(vals[i])
    {
      if i < n { ColonKeepsApart(keys, i, n); }
    }
    forall k | k in m' ensures exists i :: 0 <= i < n + 1 && keys[i].Some? && k == ":" + keys[i].value {
      if k != ":" + keys[n].value {
        var i :| 0 <= i < n && keys[i].Some? && k == ":" + keys[i].value;
      }
    }
  }

  lemma ColonKeepsApart(keys: Slots, i: nat, n: nat)
    requires i < n < |keys| && DistinctKeys(keys) && keys[i].Some? && keys[n].Some?
    ensures ":" + keys[i].value != ":" + keys[n].value
  {
    assert keys[i].value == (":" + keys[i].value)[1..] && keys[n].value == (":" + keys[n].value)[1..];
  }

  lemma BareStep(r: Reader, it: Item)
    requires it.Entry? && GoodLine(it) && r.section == ""
    ensures GoodItems(r, [it]) && AfterItems(r, [it]) == AfterItem(r, it)
    ensures AfterItem(r, it).carry == "" && AfterItem(r, it).section == "" && AfterItem(r, it).errs == 0
    ensures AfterItem(r, it).entries == r.entries[":" + it.key := Some(ReadValue(Strstrip(it.value)))]
  {
    hide Strstrip, ReadValue;
    assert [it][1..] == [];
    KeyIsOnLine(it);
    assert r.section + ":" + it.key == ":" + it.key;
    assert GoodItems(AfterItem(r, it), []);
  }

  lemma KeyIsOnLine(it: Item)
    requires it.Entry? && GoodLine(it)
    ensures 1 + |it.key| <= ASCIILINESZ
  {}

  lemma BareIsRead(keys: Slots, vals: Slots)
    requires PrintableBare(keys, vals) && |Sections(keys)| < 1
    ensures var o := LoadText(DumpText(keys, vals)); o.Loaded? && ColonsInFront(keys, vals, o.entries, |keys|)
  {
    hide Load, TextOf, GoodItems, AfterItems, BareItems, BareLines, Sections, ColonsInFront, GoodEntry;
    var items := BareItems(keys, vals, |keys|);
    var r := AfterItems(START, items);
    BareLinesText(keys, vals, |keys|);
    BareAreRead(keys, vals, |keys|);
    LoadOfItems("", items, START);
    assert "" + TextOf(items) == TextOf(items);
  }

  /** A dictionary without sections comes back only if it is empty: a longest key does not. */
  lemma SectionlessIff(keys: Slots, vals: Slots)
    requires PrintableBare(keys, vals) && |Sections(keys)| < 1
    ensures LoadText(DumpText(keys, vals)) == Loaded(MapOf(keys, vals)) <==> forall i | 0 <= i < |keys| :: keys[i].None?
  {
    hide LoadText, DumpText, Sections, ColonsInFront, GoodEntry, MapOf;
    BareIsRead(keys, vals);
    LongestIsLost(keys, vals, LoadText(DumpText(keys, vals)).entries);
  }

  /** Without sections, every key comes back with a colon in front, plain values as they were, NULL as a word. */
  lemma SectionlessComesBack(keys: Slots, vals: Slots)
    requires PrintableBare(keys, vals) && |Sections(keys)| < 1
    ensures var o := LoadText(DumpText(keys, vals));
      && o.Loaded?
      && (forall k :: k in o.entries <==> k != "" && k[0] == ':' && Some(k[1..]) in keys)
      && forall i | 0 <= i < |keys| && keys[i].Some? ::
        && ":" + keys[i].value in o.entries
        && (vals[i] == None ==> o.entries[":" + keys[i].value] == Some("(null)"))
        && (vals[i].Some? && PlainValue(vals[i].value) ==> o.entries[":" + keys[i].value] == vals[i])
  {
    hide LoadText, DumpText, Sections, PlainValue, PrintableBare;
    BareHasValues(keys, vals);
    BareIsRead(keys, vals);
    ComesBack(keys, vals, LoadText(DumpText(keys, vals)).entries);
  }

  lemma BareHasValues(keys: Slots, vals: Slots)
    requires PrintableBare(keys, vals)
    ensures |keys| == |vals|
  {}

  lemma ComesBack(keys: Slots, vals: Slots, m: Entries)
    requires |keys| == |vals| && ColonsInFront(keys, vals, m, |keys|)
    ensures forall k :: k in m <==> k != "" && k[0] == ':' && Some(k[1..]) in keys
    ensures forall i | 0 <= i < |keys| && keys[i].Some? ::
      && ":" + keys[i].value in m
      && (vals[i] == None ==> m[":" + keys[i].value] == Some("(null)"))
      && (vals[i].Some? && PlainValue(vals[i].value) ==> m[":" + keys[i].value] == vals[i])
  {
    hide PlainValue, BareReread;
    forall i | 0 <= i < |keys| && keys[i].Some?
      ensures ":" + keys[i].value in m
      ensures vals[i] == None ==> m[":" + keys[i].value] == Some("(null)")
      ensures vals[i].Some? && PlainValue(vals[i].value) ==> m[":" + keys[i].value] == vals[i]
    {
      BareRereadIs(vals[i]);
    }
    hide ColonsInFront;
    forall k ensures k in m <==> k != "" && k[0] == ':' && Some(k[1..]) in keys { ColonInFront(keys, vals, m, k); }
  }

  lemma ColonInFront(keys: Slots, vals: Slots, m: Entries, k: string)
    requires |keys| == |vals| && ColonsInFront(keys, vals, m, |keys|)
    ensures k in m <==> k != "" && k[0] == ':' && Some(k[1..]) in keys
  {
    hide BareReread;
    if k != "" && k[0] == ':' && Some(k[1..]) in keys {
      var i :| 0 <= i < |keys| && keys[i] == Some(k[1..]);
      assert k == ":" + keys[i].value;
    }
    if k in m {
      var i :| 0 <= i < |keys| && keys[i].Some? && k == ":" + keys[i].value;
      assert k[1..] == keys[i].value;
      assert keys[i] == Some(k[1..]);
    }
  }

  lemma BareRereadIs(val: Option<string>)
    ensures val == None ==> BareReread(val) == Some("(null)")
    ensures val.Some? && PlainValue(val.value) ==> BareReread(val) == val
  {
    NullIsPlain();
    hide ReadValue, Strstrip, PlainValue;
    if val.Some? { ReadValueIff(val.value); } else { ReadValueIff("(null)"); }
  }

  lemma NullIsPlain()
    ensures PlainValue("(null)")
  {}

  /** What is written for a section and an entry of it, the key padded to 30 characters. */
  lemma DumpOfOne(s: string, k: string, v: string)
    requires ':' !in s && Lower(s) && |s| <= 1024
    ensures DumpText([Some(s), Some(s + ":" + k)], [None, Some(v)]) ==
      "\n[" + s + "]\n" + (k + seq(if |k| < 30 then 30 - |k| else 0, _ => ' ') + " = " + v) + "\n\n\n"
  {
    LowerOfLower(s);
    EntryLineIs(k, v);
    KeyOfSection(s, k);
    hide DumpText, Strlwc, InSection, IsSection, Lower, EntryLine;
    NameAndEntry(s, s + ":" + k, v);
  }

  lemma KeyOfSection(s: string, k: string)
    ensures var key := s + ":" + k; InSection(Some(key), s) && !IsSection(key) && key[|s| + 1..] == k
    ensures !InSection(Some(s), s)
  {
    assert (s + ":" + k)[|s|] == ':';
  }

  lemma EntryLineIs(k: string, v: string)
    ensures EntryLine(k, v, 30) == k + seq(if |k| < 30 then 30 - |k| else 0, _ => ' ') + " = " + v
  {}

  /** And what is written for an entry where there are no sections. */
  lemma DumpOfBare(key: string, val: Option<string>)
    requires !IsSection(key)
    ensures DumpText([Some(key)], [val]) == key + " = " + (if val.Some? then val.value else "(null)") + "\n"
  {
    var keys: Slots := [Some(key)];
    assert Sections(keys) == [] by { assert keys[..0] == []; }
    assert BareLines(keys, [val], 0) == "";
  }

  lemma NameAndEntry(s: string, key: string, v: string)
    requires IsSection(s) && !IsSection(key) && InSection(Some(key), s) && !InSection(Some(s), s) && Strlwc(s) == s
    ensures DumpText([Some(s), Some(key)], [None, Some(v)]) ==
      "\n[" + s + "]\n" + EntryLine(key[|s| + 1..], v, 30) + "\n\n\n"
  {
    var keys: Slots, vals: Slots := [Some(s), Some(key)], [None, Some(v)];
    hide EntryLine, Strlwc, InSection, Sections, IsSection, EntryLines;
    OneSection(s, key);
    OneEntry(s, key, v);
    var names := [s];
    assert names[..0] == [] && names[0] == s && keys[0] == Some(s);
    assert DumpSections(keys, vals, names) == DumpSection(keys, vals, s);
  }

  lemma OneEntry(s: string, key: string, v: string)
    requires InSection(Some(key), s) && !InSection(Some(s), s)
    ensures EntryLines([Some(s), Some(key)], [None, Some(v)], s, 2) == EntryLine(key[|s| + 1..], v, 30) + "\n"
  {
    var keys: Slots, vals: Slots := [Some(s), Some(key)], [None, Some(v)];
    assert |s| + 1 <= |key|;
    hide EntryLine, EntryLines, InSection;
    EntryLinesNext(keys, vals, s, 0);
    EntryLinesNext(keys, vals, s, 1);
    assert keys[1].value == key;
    assert "" + (EntryLine(key[|s| + 1..], v, 30) + "\n") == EntryLine(key[|s| + 1..], v, 30) + "\n";
  }

  lemma EntryLinesNext(keys: Slots, vals: Slots, s: string, n: nat)
    requires n < |keys| == |vals|
    ensures EntryLines(keys, vals, s, 0) == ""
    ensures !InSection(keys[n], s) ==> EntryLines(keys, vals, s, n + 1) == EntryLines(keys, vals, s, n)
    ensures InSection(keys[n], s) ==>
      && |s| + 1 <= |keys[n].value|
      && EntryLines(keys, vals, s, n + 1) ==
         EntryLines(keys, vals, s, n) + (EntryLine(keys[n].value[|s| + 1..], TextOfValue(vals[n]), 30) + "\n")
  {
    hide EntryLine, TextOfValue;
  }

  lemma OneSection(s: string, key: string)
    requires IsSection(s) && !IsSection(key)
    ensures Sections([Some(s), Some(key)]) == [s]
  {
    var keys: Slots := [Some(s), Some(key)];
    var name: Slots := [Some(s)];
    assert Sections(name) == [s] by { assert name[..0] == []; }
    assert keys[..1] == name;
  }

  lemma LongestIsLost(keys: Slots, vals: Slots, m: Entries)
    requires |keys| == |vals| && DistinctKeys(keys) && ColonsInFront(keys, vals, m, |keys|)
    ensures m == MapOf(keys, vals) <==> forall i | 0 <= i < |keys| :: keys[i].None?
  {
    var d := MapOf(keys, vals);
    if i :| 0 <= i < |keys| && keys[i].Some? {
      var j := Longest(keys, i);
      assert ":" + keys[j].value in m;
      assert ":" + keys[j].value !in d;
    } else {
      assert m == map[] == d;
    }
  }

  /** A slot with a longest key. */
  ghost function Longest(keys: Slots, i: nat): (j: nat)
    requires i < |keys| && keys[i].Some?
    ensures j < |keys| && keys[j].Some?
    ensures forall k | 0 <= k < |keys| && keys[k].Some? :: |keys[k].value| <= |keys[j].value|
  {
    if |keys| == 1 then 0
    else
      var last := |keys| - 1;
      assert forall k | 0 <= k < last :: keys[k] == keys[..last][k];
      if i < last then
        var j := Longest(keys[..last], i);
        if keys[last].Some? && |keys[last].value| > |keys[j].value| then last else j
      else if p :| 0 <= p < last && keys[p].Some? then
        var j := Longest(keys[..last], p);
        if |keys[last].value| > |keys[j].value| then last else j
      else last
  }

  // ------------------------------------------------------------ the round trip, exactly

  /** The lines of the dump are lines the parser takes one by one. */
  ghost predicate Dumpable(keys: Slots, vals: Slots) {
    if |Sections(keys)| < 1 then PrintableBare(keys, vals) else Printable(keys, vals)
  }

  /**
    The dictionaries that survive: the empty one, and those with sections, if a section without
    a name comes first, sections have NULL values, and entries have a section and plain values.
   */
  ghost predicate Survives(keys: Slots, vals: Slots)
    requires |keys| == |vals|
  {
    if |Sections(keys)| < 1 then forall i | 0 <= i < |keys| :: keys[i].None?
    else Faithful(keys, vals) && NamelessFirst(Sections(keys))
  }

  /** The round trip, exactly: which dictionaries come back as they were. */
  lemma RoundTripIff(keys: Slots, vals: Slots)
    requires Dumpable(keys, vals)
    ensures LoadText(DumpText(keys, vals)) == Loaded(MapOf(keys, vals)) <==> Survives(keys, vals)
  {
    hide LoadText, DumpText, PrintableSlot, GoodEntry, Faithful, Sections, NamelessFirst, Reloaded;
    if |Sections(keys)| < 1 {
      SectionlessIff(keys, vals);
    } else if NamelessFirst(Sections(keys)) {
      DumpThenLoad(keys, vals);
      FaithfulIff(keys, vals);
    } else {
      NamelessIsLost(keys, vals);
      var i :| 0 <= i < |keys| && keys[i] == Some("");
      MapOfHit(keys, vals, i);
    }
  }

  /** Every entry of a section that is there comes back, one that is NULL as an empty one. */
  lemma NullComesBackEmpty(keys: Slots, vals: Slots, i: nat)
    requires Printable(keys, vals) && |Sections(keys)| >= 1 && NamelessFirst(Sections(keys))
    requires i < |keys| && keys[i].Some? && ':' in keys[i].value && Some(Owner(keys[i].value)) in keys
    ensures var o, key := LoadText(DumpText(keys, vals)), keys[i].value;
      && o.Loaded? && key in o.entries
      && (vals[i] == None ==> o.entries[key] == Some(""))
      && (vals[i].Some? && PlainValue(vals[i].value) ==> o.entries[key] == vals[i])
  {
    hide LoadText, DumpText, PrintableSlot, Sections, NamelessFirst, Reloaded, Owner, Strstrip, ReadValue, PlainValue;
    DumpThenLoad(keys, vals);
    ReloadedHit(keys, vals, i);
    NothingReads();
    if vals[i].Some? { ReadValueIff(vals[i].value); }
  }

  lemma NothingReads()
    ensures Strstrip("") == "" && ReadValue("") == ""
  {}

  lemma FaithfulIff(keys: Slots, vals: Slots)
    requires |keys| == |vals| && DistinctKeys(keys)
    ensures Reloaded(keys, vals) == MapOf(keys, vals) <==> Faithful(keys, vals)
  {
    hide PlainValue, ReadValue, Strstrip, Owner;
    var d, r := MapOf(keys, vals), Reloaded(keys, vals);
    if Faithful(keys, vals) {
      forall k | k in d ensures k in r && r[k] == d[k] {
        var i :| 0 <= i < |keys| && keys[i].Some? && keys[i].value == k;
        MapOfHit(keys, vals, i);
        if !IsSection(k) { ReadValueIff(vals[i].value); }
      }
    }
    if r == d {
      forall i | 0 <= i < |keys| && keys[i].Some?
        ensures if IsSection(keys[i].value) then vals[i].None?
                else Some(Owner(keys[i].value)) in keys && vals[i].Some? && PlainValue(vals[i].value)
      {
        MapOfHit(keys, vals, i);
        assert keys[i].value in r;
        if !IsSection(keys[i].value) && vals[i].Some? { ReadValueIff(vals[i].value); }
      }
    }
  }

  /** An entry with a NULL value comes back as an empty one. */
  lemma NullEntryIsLost()
    ensures var keys, vals := [Some("a"), Some("a:b")], [None, None];
            Dumpable(keys, vals) && LoadText(DumpText(keys, vals)) != Loaded(MapOf(keys, vals))
  {
    var keys, vals: Slots := [Some("a"), Some("a:b")], [None, None];
    assert DistinctKeys(keys);
    NullEntryPrints(keys, vals);
    SectionsInTable(keys);
    assert keys[0] == Some("a") && IsSection("a");
    hide LoadText, DumpText, Sections, Printable, NamelessFirst;
    RoundTripIff(keys, vals);
    assert !IsSection("a:b") by { assert "a:b"[1] == ':'; }
    assert keys[1] == Some("a:b");
  }

  lemma NullEntryPrints(keys: Slots, vals: Slots)
    requires keys == [Some("a"), Some("a:b")] && vals == [None, None]
    ensures PrintableSlot(keys, "a", None) && PrintableSlot(keys, "a:b", None)
  {
    hide GoodEntry, NameOrNone;
    assert "a:b"[1] == ':';
    RunLengthIs("a:b", ":", 1);
    assert KeyInSection("a:b") == "b" && Owner("a:b") == "a";
    NullEntryIsGood();
    NameAIsGood();
  }

  lemma NullEntryIsGood()
    ensures GoodEntry("b", "", KEY_WIDTH)
  {
    assert PlainKey("b");
    assert |EntryLine("b", "", KEY_WIDTH)| == 33;
  }

  lemma NameAIsGood()
    ensures NameOrNone("a")
  {}

  lemma SectionNamesKnown(keys: Slots, vals: Slots)
    requires Printable(keys, vals)
    ensures KnownNames(keys, Sections(keys))
  {
    hide NameOrNone;
    var names := Sections(keys);
    SectionsInTable(keys);
    forall i | 0 <= i < |names| ensures NameOrNone(names[i]) {
      assert names[i] in names;
      var j :| 0 <= j < |keys| && keys[j] == Some(names[i]);
      assert PrintableSlot(keys, keys[j].value, vals[j]);
    }
  }

  lemma AllRead(keys: Slots, vals: Slots, m: Entries)
    requires |keys| == |vals| && DistinctKeys(keys) && Sub(m, Reloaded(keys, vals))
    requires forall s | s in Sections(keys) ::
      s in m && forall j | 0 <= j < |keys| && InSection(keys[j], s) :: keys[j].value in m
    ensures m == Reloaded(keys, vals)
  {
    hide InSection, Owner, Reloaded, Sections;
    forall k | k in Reloaded(keys, vals) ensures k in m {
      var s := InListing(keys, vals, k);
    }
  }

  /** What is saved is a section or in a section's listing. */
  lemma InListing(keys: Slots, vals: Slots, k: string) returns (s: string)
    requires |keys| == |vals| && DistinctKeys(keys) && k in Reloaded(keys, vals)
    ensures s in Sections(keys)
    ensures k == s || exists i :: 0 <= i < |keys| && keys[i] == Some(k) && InSection(keys[i], s)
  {
    hide InSection, Owner, Reread, Sections;
    SectionsInTable(keys);
    InMapIsInTable(keys, vals, k);
    if IsSection(k) {
      s := k;
    } else {
      s := Owner(k);
      OwnerHasNoColon(k);
      OwnerIsUnique(k, s);
    }
  }

  lemma InMapIsInTable(keys: Slots, vals: Slots, k: string)
    requires |keys| == |vals| && DistinctKeys(keys) && k in MapOf(keys, vals)
    ensures exists i :: 0 <= i < |keys| && keys[i] == Some(k)
  {
    var i :| 0 <= i < |keys| && keys[i].Some? && keys[i].value == k;
  }

  lemma OwnerHasNoColon(key: string)
    ensures IsSection(Owner(key))
  {}
}
