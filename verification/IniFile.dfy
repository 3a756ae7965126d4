/**
  INI files as text: what iniparser_load makes of a text, what iniparser_dump_ini writes for
  a dictionary, and how the lines of a dump are read.
 */
module IniFile {
  import opened Options
  import opened CStrings
  import opened IniLine
  import opened Dictionary

  type Entries = map<string, Option<string>>

  // ------------------------------------------------------------ loading

  datatype Loading =
    | Loaded(entries: Entries)
    | Failed     // NULL: a line too long or without line feed, or an error after the last entry
    | Undefined  // a line that is empty or blank reads line[-1]; a long section and key overrun the key buffer

  /** What fgets takes: up to `room` characters, through the first line feed. */
  function FgetsEnd(text: string, pos: nat, room: nat): (end: nat)
    requires pos <= |text|
    ensures pos <= end <= |text| && end <= pos + room
    ensures forall i | pos <= i < end - 1 :: text[i] != '\n'
    ensures pos < |text| && room > 0 ==> pos < end
    decreases room
  {
    if pos == |text| || room == 0 then pos
    else if text[pos] == '\n' then pos + 1
    else FgetsEnd(text, pos + 1, room - 1)
  }

  /** The parser between two lines: pending continuation, current section, error count, entries so far. */
  datatype Reader = Reader(carry: string, section: string, errs: nat, entries: Entries)

  datatype LineStep = Continue(r: Reader) | Stop(result: Loading)

  /** What a whole line, blanks at its end gone, does to the reader. */
  function Parsed(r: Reader, cut: string): (s: LineStep)
    ensures s.Continue? ==> s.r.carry == ""
    ensures s.Stop? ==> s.result == Undefined
  {
    match LineOf(cut, r.section)
    case Empty => Continue(r.(carry := ""))
    case Comment => Continue(r.(carry := ""))
    case Section(name) =>
      Continue(Reader("", name, 0, r.entries[name := None]))
    case Value(k, v) =>
      if |r.section| + 1 + |k| > ASCIILINESZ then Stop(Undefined)
      else Continue(Reader("", r.section, 0, r.entries[r.section + ":" + k := Some(v)]))
    case Error => Continue(r.(carry := "", errs := r.errs + 1))
  }

  /** One turn of the loading loop on the string in the line buffer. */
  function OnLine(r: Reader, line: string): (s: LineStep)
    ensures s.Continue? ==> |s.r.carry| < |line| || s.r.carry == r.carry
    ensures s.Stop? ==> !s.result.Loaded?
  {
    if line == "" then Stop(Undefined)
    else if |line| == 1 then Continue(r)
    else if line[|line| - 1] != '\n' then Stop(Failed)
    else
      var cut := StripRight(line);
      if cut == "" then Stop(Undefined)
      else if cut[|cut| - 1] == '\\' then Continue(r.(carry := cut[..|cut| - 1]))
      else Parsed(r, cut)
  }

  function Load(text: string, pos: nat, r: Reader): Loading
    requires pos <= |text| && |r.carry| < ASCIILINESZ - 1
    decreases |text| - pos
  {
    if pos == |text| then (if r.errs != 0 then Failed else Loaded(r.entries))
    else
      var end := FgetsEnd(text, pos, ASCIILINESZ - 1 - |r.carry|);
      match OnLine(r, UpToNul(r.carry + text[pos..end]))
      case Stop(result) => result
      case Continue(r') => Load(text, end, r')
  }

  const START: Reader := Reader("", "", 0, map[])

  /** iniparser_load on the contents of a file. */
  function LoadText(text: string): Loading { Load(text, 0, START) }

  // ------------------------------------------------------------ dumping

  predicate IsSection(key: string) { ':' !in key }

  /** The section names in slot order. */
  function Sections(keys: Slots): seq<string> {
    if keys == [] then []
    else
      var front, last := Sections(keys[..|keys| - 1]), keys[|keys| - 1];
      if last.Some? && IsSection(last.value) then front + [last.value] else front
  }

  predicate InSection(key: Option<string>, s: string): (b: bool)
    ensures b ==> key.Some?
  {
    key.Some? && s + ":" <= key.value
  }

  const KEY_WIDTH: nat := 30

  function TextOfValue(val: Option<string>): string { if val.Some? then val.value else "" }

  /** The lines of the section's entries in the first n slots. */
  function EntryLines(keys: Slots, vals: Slots, s: string, n: nat): string
    requires |keys| == |vals| && n <= |keys|
  {
    if n == 0 then ""
    else
      var front := EntryLines(keys, vals, s, n - 1);
      if InSection(keys[n - 1], s)
      then front + EntryLine(keys[n - 1].value[|s| + 1..], TextOfValue(vals[n - 1]), KEY_WIDTH) + "\n"
      else front
  }

  /** iniparser_dumpsection_ini */
  function DumpSection(keys: Slots, vals: Slots, s: string): string
    requires |keys| == |vals|
  {
    if Some(Strlwc(s)) !in keys then ""
    else "\n[" + s + "]\n" + EntryLines(keys, vals, s, |keys|) + "\n"
  }

  function DumpSections(keys: Slots, vals: Slots, names: seq<string>): string
    requires |keys| == |vals|
  {
    if names == [] then ""
    else DumpSections(keys, vals, names[..|names| - 1]) + DumpSection(keys, vals, names[|names| - 1])
  }

  /** printf shows NULL as (null). */
  function BareText(val: Option<string>): string { if val.Some? then val.value else "(null)" }

  /** The lines of a dictionary without sections, in the first n slots. */
  function BareLines(keys: Slots, vals: Slots, n: nat): string
    requires |keys| == |vals| && n <= |keys|
  {
    if n == 0 then ""
    else
      var front := BareLines(keys, vals, n - 1);
      if keys[n - 1].Some?
      then front + EntryLine(keys[n - 1].value, BareText(vals[n - 1]), 0) + "\n"
      else front
  }

  /** iniparser_dump_ini */
  function DumpText(keys: Slots, vals: Slots): string
    requires |keys| == |vals|
  {
    if |Sections(keys)| < 1 then BareLines(keys, vals, |keys|)
    else DumpSections(keys, vals, Sections(keys)) + "\n"
  }

  // ------------------------------------------------------------ one line of a dumped text

  datatype Item =
    | Blank
    | Note(text: string)
    | Head(name: string)
    | Entry(key: string, value: string, width: nat)

  function ItemLine(it: Item): string {
    match it
    case Blank => ""
    case Note(text) => text
    case Head(name) => SectionLine(name)
    case Entry(k, v, w) => EntryLine(k, v, w)
  }

  function TextOf(items: seq<Item>): string
    decreases |items|
  {
    if items == [] then "" else ItemLine(items[0]) + "\n" + TextOf(items[1..])
  }

  predicate GoodName(name: string) {
    && name != "" && Trimmed(name) && Lower(name) && ']' !in name && '\n' !in name && '\0' !in name
    && |name| <= ASCIILINESZ - 4
  }

  /**
    An entry whose line is one line of the file, fits the line buffer, is not continued on the
    next one, and has a key in order: what comes back for the value is then ReadValue's.
   */
  predicate GoodEntry(k: string, v: string, w: nat) {
    && PlainKey(k) && NotHeader(k, Strstrip(v)) && Printed(k) && Printed(v)
    && (StripRight(v) != "" ==> StripRight(v)[|StripRight(v)| - 1] != '\\')
    && |EntryLine(k, v, w)| <= ASCIILINESZ - 2
  }

  /** A C string without a line feed. */
  predicate Printed(s: string) { '\n' !in s && '\0' !in s }

  /** A section name in order, or none. */
  predicate NameOrNone(name: string) { name == "" || GoodName(name) }

  /** A comment line, blanks in front of its sign allowed, that fits and is not continued on the next one. */
  predicate GoodNote(text: string) {
    && SkipSpace(text) != "" && (SkipSpace(text)[0] == '#' || SkipSpace(text)[0] == ';') && Printed(text)
    && StripRight(text) != "" && StripRight(text)[|StripRight(text)| - 1] != '\\' && |text| <= ASCIILINESZ - 2
  }

  /** A line the parser takes for what it was written as. */
  predicate GoodLine(it: Item) {
    match it
    case Blank => true
    case Note(text) => GoodNote(text)
    case Head(name) => NameOrNone(name)
    case Entry(k, v, w) => GoodEntry(k, v, w)
  }

  /** The full key of the entry fits its buffer. */
  predicate FitsKey(it: Item, section: string) {
    it.Entry? ==> |section| + 1 + |it.key| <= ASCIILINESZ
  }

  predicate GoodItem(it: Item, section: string) {
    GoodLine(it) && NameOrNone(section) && FitsKey(it, section)
  }

  /** A header without a name keeps the section buffer. */
  function AfterItem(r: Reader, it: Item): Reader {
    match it
    case Blank => r
    case Note(_) => r
    case Head(name) =>
      var s := if name == "" then r.section else name;
      Reader("", s, 0, r.entries[s := None])
    case Entry(k, v, _) =>
      Reader("", r.section, 0, r.entries[r.section + ":" + k := Some(ReadValue(Strstrip(v)))])
  }

  function AfterItems(r: Reader, items: seq<Item>): Reader
    decreases |items|
  {
    if items == [] then r else AfterItems(AfterItem(r, items[0]), items[1..])
  }

  ghost predicate GoodItems(r: Reader, items: seq<Item>)
    decreases |items|
  {
    items != [] ==> GoodItem(items[0], r.section) && GoodItems(AfterItem(r, items[0]), items[1..])
  }

  lemma {:induction false} FgetsLine(text: string, pos: nat, room: nat, line: string)
    requires pos + |line| < |text| && text[pos..pos + |line|] == line && text[pos + |line|] == '\n'
    requires '\n' !in line && |line| < room
    ensures FgetsEnd(text, pos, room) == pos + |line| + 1
    decreases |line|
  {
    if line != "" {
      assert text[pos] == line[0];
      assert text[pos + 1..pos + 1 + |line[1..]|] == line[1..];
      FgetsLine(text, pos + 1, room - 1, line[1..]);
    }
  }

  lemma ItemLineShape(it: Item)
    requires GoodLine(it)
    ensures Printed(ItemLine(it)) && |ItemLine(it)| <= ASCIILINESZ - 2
  {
    hide PlainKey, Strstrip, StripRight;
  }

  /** One good line moves the reader as its item says, if the full key fits. */
  lemma ItemIsRead(r: Reader, it: Item)
    requires r.carry == "" && GoodLine(it) && NameOrNone(r.section)
    ensures OnLine(r, ItemLine(it) + "\n") ==
      if FitsKey(it, r.section) then Continue(AfterItem(r, it)) else Stop(Undefined)
  {
    match it {
      case Blank =>
      case Note(text) => NoteIsRead(r, text);
      case Head(name) => HeadIsRead(r, name);
      case Entry(k, v, w) => EntryIsRead(r, k, v, w);
    }
  }

  lemma NoteIsRead(r: Reader, text: string)
    requires r.carry == "" && GoodNote(text)
    ensures OnLine(r, text + "\n") == Continue(r)
  {
    hide SkipSpace, StripRight, LineOf, LineRead;
    NoteEnds(text);
    LineIsRead(StripRight(text), r.section);
    NoteIsComment(text, r.section);
  }

  lemma NoteEnds(text: string)
    requires StripRight(text) != ""
    ensures StripRight(text + "\n") == StripRight(text)
  {
    hide StripRight;
    var cut := StripRight(text);
    assert text + "\n" == cut + (text[|cut|..] + "\n");
    StripRightPadded(cut, text[|cut|..] + "\n");
  }

  lemma NoteIsComment(text: string, section: string)
    requires GoodNote(text)
    ensures LineRead(StripRight(text), section) == Comment
  {
    hide StripRight, SkipSpace, Strstrip;
    StripsCommute(text);
    StripIsTrimmed(text);
    NoteStart(text);
    StripOfStripped(text);
  }

  lemma NoteStart(text: string)
    requires SkipSpace(text) != ""
    ensures Strstrip(text) != "" && Strstrip(text)[0] == SkipSpace(text)[0]
  {
    hide SkipSpace;
  }

  lemma StripOfStripped(text: string)
    ensures Strstrip(StripRight(text)) == Strstrip(text)
  {
    hide SkipSpace, StripRight;
    StripsCommute(text);
    assert SkipSpace(StripRight(text)) == Strstrip(text);
    TrimmedEnd(Strstrip(text));
  }

  lemma TrimmedEnd(s: string)
    requires s != "" ==> !IsSpace(s[|s| - 1])
    ensures StripRight(s) == s
  {}

  lemma HeadIsRead(r: Reader, name: string)
    requires r.carry == "" && NameOrNone(name) && NameOrNone(r.section)
    ensures OnLine(r, SectionLine(name) + "\n") == Continue(AfterItem(r, Head(name)))
  {
    hide LineOf;
    var line := SectionLine(name);
    StripRightPadded(line, "\n");
    if name == "" {
      assert line == "[]";
      NamelessReads(r.section);
    } else {
      SectionReads(name, r.section);
    }
  }

  lemma EntryIsRead(r: Reader, k: string, v: string, w: nat)
    requires r.carry == "" && GoodEntry(k, v, w)
    ensures var it := Entry(k, v, w);
      OnLine(r, ItemLine(it) + "\n") ==
        if FitsKey(it, r.section) then Continue(AfterItem(r, it)) else Stop(Undefined)
  {
    hide LineOf, PlainKey, Pad, StripRight, Strstrip, ReadValue;
    EntryReads(k, v, w, r.section, "\n");
    CutLineIs(k, v, w, "\n");
  }

  lemma AfterItemIsClean(r: Reader, it: Item)
    requires r.carry == "" && r.errs == 0
    ensures AfterItem(r, it).carry == "" && AfterItem(r, it).errs == 0
  {}

  /** Loading a text that begins with a good line is what the line does, then loading the rest. */
  lemma LoadOfItem(pre: string, items: seq<Item>, r: Reader)
    requires items != [] && GoodLine(items[0]) && NameOrNone(r.section) && r.carry == ""
    ensures var before := pre + (ItemLine(items[0]) + "\n");
      Load(pre + TextOf(items), |pre|, r) ==
        if FitsKey(items[0], r.section) then Load(before + TextOf(items[1..]), |before|, AfterItem(r, items[0]))
        else Undefined
  {
    hide OnLine, GoodLine, NameOrNone, FitsKey, ItemLine, Load, TextOf, AfterItem;
    var line, text := ItemLine(items[0]), pre + TextOf(items);
    ItemLineShape(items[0]);
    TextOfFirst(items);
    LineInText(pre, line, TextOf(items[1..]));
    LoadOfLine(text, |pre|, line, r);
    ItemIsRead(r, items[0]);
  }

  /** Loading goes on behind a line that fits the buffer. */
  lemma LoadOfLine(text: string, pos: nat, line: string, r: Reader)
    requires pos + |line| < |text| && text[pos..pos + |line|] == line && text[pos + |line|] == '\n'
    requires Printed(line) && |line| <= ASCIILINESZ - 2 && r.carry == ""
    ensures var s := OnLine(r, line + "\n");
      Load(text, pos, r) == if s.Stop? then s.result else Load(text, pos + |line| + 1, s.r)
  {
    hide OnLine, FgetsEnd, Load, UpToNul;
    FgetsLine(text, pos, ASCIILINESZ - 1, line);
    assert "" + text[pos..pos + |line| + 1] == line + "\n";
    assert '\0' !in line + "\n";
    LoadStep(text, pos, r);
  }

  lemma TextOfFirst(items: seq<Item>)
    requires items != []
    ensures TextOf(items) == ItemLine(items[0]) + "\n" + TextOf(items[1..])
  {}

  /** One line in a text. */
  lemma LineInText(pre: string, line: string, after: string)
    ensures var text := pre + (line + "\n" + after);
      && text == (pre + (line + "\n")) + after && |pre| + |line| < |text|
      && text[|pre|..|pre| + |line|] == line && text[|pre| + |line|] == '\n'
      && text[|pre|..|pre| + |line| + 1] == line + "\n"
  {}

  lemma LoadEnds(text: string, r: Reader)
    requires |r.carry| < ASCIILINESZ - 1
    ensures Load(text, |text|, r) == if r.errs != 0 then Failed else Loaded(r.entries)
  {}

  lemma LoadStep(text: string, pos: nat, r: Reader)
    requires pos < |text| && |r.carry| < ASCIILINESZ - 1
    ensures var end := FgetsEnd(text, pos, ASCIILINESZ - 1 - |r.carry|);
      var s := OnLine(r, UpToNul(r.carry + text[pos..end]));
      Load(text, pos, r) == if s.Stop? then s.result else Load(text, end, s.r)
  {
    hide OnLine, FgetsEnd, UpToNul;
  }

  /** Loading the text of good items is folding over the items. */
  lemma {:induction false} LoadOfItems(pre: string, items: seq<Item>, r: Reader)
    requires r.carry == "" && r.errs == 0 && GoodItems(r, items)
    ensures Load(pre + TextOf(items), |pre|, r) == Loaded(AfterItems(r, items).entries)
    decreases |items|
  {
    hide GoodLine, NameOrNone, FitsKey, AfterItem, ItemLine, Load, TextOf;
    if items != [] {
      LoadOfItem(pre, items, r);
      AfterItemIsClean(r, items[0]);
      LoadOfItems(pre + (ItemLine(items[0]) + "\n"), items[1..], AfterItem(r, items[0]));
    } else {
      LoadOfNothing(pre, r);
    }
  }

  /** The items without the comments. */
  function WithoutNotes(items: seq<Item>): seq<Item>
    decreases |items|
  {
    if items == [] then []
    else (if items[0].Note? then [] else [items[0]]) + WithoutNotes(items[1..])
  }

  /** Comment lines make no difference: a text loads as it does without them. */
  lemma LoadWithoutNotes(items: seq<Item>)
    requires GoodItems(START, items)
    ensures LoadText(TextOf(items)) == LoadText(TextOf(WithoutNotes(items)))
  {
    hide Load, GoodItems, AfterItems, TextOf, WithoutNotes;
    NotesDoNothing(START, items);
    LoadOfItems("", items, START);
    LoadOfItems("", WithoutNotes(items), START);
    assert "" + TextOf(items) == TextOf(items) && "" + TextOf(WithoutNotes(items)) == TextOf(WithoutNotes(items));
  }

  lemma {:induction false} NotesDoNothing(r: Reader, items: seq<Item>)
    requires GoodItems(r, items)
    ensures GoodItems(r, WithoutNotes(items)) && AfterItems(r, WithoutNotes(items)) == AfterItems(r, items)
    decreases |items|
  {
    hide GoodItem;
    if items != [] {
      NotesDoNothing(AfterItem(r, items[0]), items[1..]);
      var rest := WithoutNotes(items[1..]);
      if items[0].Note? {
        assert [] + rest == rest;
      } else {
        assert ([items[0]] + rest)[0] == items[0] && ([items[0]] + rest)[1..] == rest;
      }
    }
  }

  lemma LoadOfNothing(pre: string, r: Reader)
    requires r.carry == ""
    ensures Load(pre + TextOf([]), |pre|, r) == if r.errs != 0 then Failed else Loaded(r.entries)
  {
    assert pre + TextOf([]) == pre;
    LoadEnds(pre, r);
  }
}
