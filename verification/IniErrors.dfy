/**
  When iniparser_load returns NULL: its error count is overwritten at every line it stores,
  so only what comes last counts.
 */
module IniErrors {
  import opened Options
  import opened CStrings
  import opened IniLine
  import opened IniFile

  datatype Ending = Whole | TooLong | BlankLine

  datatype LogicalText = LogicalText(lines: seq<string>, ending: Ending)

  /**
    The lines the loader makes of a text, continuations joined and blanks at the end gone, up
    to the end or to a line that does not fit, has no line feed, or has nothing but blanks. A
    line is what strlen takes for it: a NUL ends it before its line feed.
   */
  function LinesOf(text: string, pos: nat, carry: string): LogicalText
    requires pos <= |text| && |carry| < ASCIILINESZ - 1
    decreases |text| - pos
  {
    if pos == |text| then LogicalText([], Whole)
    else
      var end := FgetsEnd(text, pos, ASCIILINESZ - 1 - |carry|);
      var line := UpToNul(carry + text[pos..end]);
      if line == "" then LogicalText([], BlankLine)
      else if |line| == 1 then LinesOf(text, end, carry)
      else if line[|line| - 1] != '\n' then LogicalText([], TooLong)
      else
        var cut := StripRight(line);
        if cut == "" then LogicalText([], BlankLine)
        else if cut[|cut| - 1] == '\\' then LinesOf(text, end, cut[..|cut| - 1])
        else
          var rest := LinesOf(text, end, "");
          rest.(lines := [cut] + rest.lines)
  }

  /** A section header or an entry. */
  predicate Stores(line: string) {
    var s := Strstrip(line);
    !Remark(s) && (Header(s) || HasKey(s))
  }

  /** Not blank, no comment, no header, and without an equals sign behind a key. */
  predicate Wrong(line: string) {
    var s := Strstrip(line);
    !Remark(s) && !Header(s) && !HasKey(s)
  }

  /** Some syntax error comes after everything that is stored. */
  ghost predicate ErrorAtEnd(lines: seq<string>) {
    exists i :: 0 <= i < |lines| && Wrong(lines[i]) && NothingStored(lines[i + 1..])
  }

  predicate NothingStored(lines: seq<string>) {
    forall j | 0 <= j < |lines| :: !Stores(lines[j])
  }

  /** An entry, with the section it is in, is too long for the key buffer. */
  predicate Overruns(lines: seq<string>, section: string)
    decreases |lines|
  {
    lines != [] &&
    match LineRead(lines[0], section)
    case Section(name) => Overruns(lines[1..], name)
    case Value(k, _) => |section| + 1 + |k| > ASCIILINESZ || Overruns(lines[1..], section)
    case _ => Overruns(lines[1..], section)
  }

  /** Errors are pending at the end, or were before and nothing has been stored. */
  ghost predicate LeftWrong(lines: seq<string>, pending: bool) {
    ErrorAtEnd(lines) || (pending && NothingStored(lines))
  }

  lemma LeftWrongNext(line: string, rest: seq<string>, pending: bool)
    ensures LeftWrong([line] + rest, pending) <==> LeftWrong(rest, !Stores(line) && (pending || Wrong(line)))
  {
    hide Stores, Wrong, ErrorAtEnd, NothingStored;
    NothingStoredNext(line, rest);
    WrongStoresNothing(line);
    if ErrorAtEnd(rest) { ErrorAtEndLater(line, rest); }
    if ErrorAtEnd([line] + rest) { ErrorAtEndBefore(line, rest); }
    if Wrong(line) && NothingStored(rest) { ErrorAtStart(line, rest); }
  }

  lemma NothingStoredNext(line: string, rest: seq<string>)
    ensures NothingStored([line] + rest) <==> !Stores(line) && NothingStored(rest)
  {
    hide Stores;
    var all := [line] + rest;
    assert all[0] == line && forall j | 0 <= j < |rest| :: all[j + 1] == rest[j];
    if NothingStored(all) {
      forall j | 0 <= j < |rest| ensures !Stores(rest[j]) { assert !Stores(all[j + 1]); }
    }
  }

  lemma ErrorAtEndLater(line: string, rest: seq<string>)
    requires ErrorAtEnd(rest)
    ensures ErrorAtEnd([line] + rest)
  {
    hide Wrong, NothingStored;
    var all := [line] + rest;
    var i :| 0 <= i < |rest| && Wrong(rest[i]) && NothingStored(rest[i + 1..]);
    assert all[i + 1] == rest[i] && all[i + 1 + 1..] == rest[i + 1..];
  }

  lemma ErrorAtEndBefore(line: string, rest: seq<string>)
    requires ErrorAtEnd([line] + rest)
    ensures ErrorAtEnd(rest) || (Wrong(line) && NothingStored(rest))
  {
    hide Wrong, NothingStored;
    var all := [line] + rest;
    var i :| 0 <= i < |all| && Wrong(all[i]) && NothingStored(all[i + 1..]);
    if i == 0 {
      assert all[0] == line && all[1..] == rest;
    } else {
      assert all[i] == rest[i - 1] && all[i + 1..] == rest[i - 1 + 1..];
    }
  }

  lemma ErrorAtStart(line: string, rest: seq<string>)
    requires Wrong(line) && NothingStored(rest)
    ensures ErrorAtEnd([line] + rest)
  {
    hide Wrong, NothingStored;
    var all := [line] + rest;
    assert all[0] == line && all[0 + 1..] == rest;
  }

  lemma WrongStoresNothing(line: string)
    ensures Wrong(line) ==> !Stores(line)
  {}

  /** Whether a line is a section, an entry or an error does not depend on the section it is in. */
  lemma KindOfLine(line: string, section: string)
    ensures LineOf(line, section).Section? || LineOf(line, section).Value? <==> Stores(line)
    ensures LineOf(line, section).Error? <==> Wrong(line)
  {
    hide Strstrip, LineOf, KeyOf, ReadValue;
    LineIsRead(line, section);
  }

  /** The result o is the one the lines and their ending call for. */
  ghost predicate Fits(o: Loading, l: LogicalText, section: string, pending: bool) {
    && (o.Undefined? <==> Overruns(l.lines, section) || l.ending == BlankLine)
    && (o.Failed? <==> Failing(l, section, pending))
  }

  ghost predicate Failing(l: LogicalText, section: string, pending: bool) {
    && !Overruns(l.lines, section)
    && (l.ending == TooLong || (l.ending == Whole && LeftWrong(l.lines, pending)))
  }

  lemma {:induction false} LoadIs(text: string, pos: nat, r: Reader)
    requires pos <= |text| && |r.carry| < ASCIILINESZ - 1
    ensures Fits(Load(text, pos, r), LinesOf(text, pos, r.carry), r.section, r.errs != 0)
    decreases |text| - pos
  {
    hide LineOf, StripRight, FgetsEnd, UpToNul, Fits, Parsed, Load, LinesOf;
    NoLines(r);
    if pos == |text| {
      LoadEnds(text, r);
      LinesEnd(text, r.carry);
    } else {
      var end := FgetsEnd(text, pos, ASCIILINESZ - 1 - |r.carry|);
      var line := UpToNul(r.carry + text[pos..end]);
      LoadStep(text, pos, r);
      LinesStep(text, pos, r.carry);
      if line != "" && (|line| == 1 || line[|line| - 1] == '\n') {
        var cut := StripRight(line);
        if |line| == 1 {
          LoadIs(text, end, r);
        } else if cut != "" && cut[|cut| - 1] == '\\' {
          LoadIs(text, end, r.(carry := cut[..|cut| - 1]));
        } else if cut != "" {
          LineFits(r, cut, LinesOf(text, end, ""), Load(text, pos, r));
          if Parsed(r, cut).Continue? { LoadIs(text, end, Parsed(r, cut).r); }
        }
      }
    }
  }

  lemma LinesEnd(text: string, carry: string)
    requires |carry| < ASCIILINESZ - 1
    ensures LinesOf(text, |text|, carry) == LogicalText([], Whole)
  {}

  lemma LinesStep(text: string, pos: nat, carry: string)
    requires pos < |text| && |carry| < ASCIILINESZ - 1
    ensures var end := FgetsEnd(text, pos, ASCIILINESZ - 1 - |carry|);
      var line := UpToNul(carry + text[pos..end]);
      var cut := StripRight(line);
      LinesOf(text, pos, carry) ==
        if line == "" then LogicalText([], BlankLine)
        else if |line| == 1 then LinesOf(text, end, carry)
        else if line[|line| - 1] != '\n' then LogicalText([], TooLong)
        else if cut == "" then LogicalText([], BlankLine)
        else if cut[|cut| - 1] == '\\' then LinesOf(text, end, cut[..|cut| - 1])
        else LinesOf(text, end, "").(lines := [cut] + LinesOf(text, end, "").lines)
  {
    hide StripRight, FgetsEnd, UpToNul;
  }

  lemma NoLines(r: Reader)
    ensures Fits(if r.errs != 0 then Failed else Loaded(r.entries), LogicalText([], Whole), r.section, r.errs != 0)
    ensures Fits(Failed, LogicalText([], TooLong), r.section, r.errs != 0)
    ensures Fits(Undefined, LogicalText([], BlankLine), r.section, r.errs != 0)
  {
    hide Stores, Wrong, LineOf;
    EmptyText(r);
  }

  /** A line in front of the others. */
  lemma LineFits(r: Reader, cut: string, rest: LogicalText, o: Loading)
    ensures var all, s := rest.(lines := [cut] + rest.lines), Parsed(r, cut);
      if s.Stop? then Fits(s.result, all, r.section, r.errs != 0)
      else Fits(o, rest, s.r.section, s.r.errs != 0) <==> Fits(o, all, r.section, r.errs != 0)
  {
    hide LineOf, Overruns, LeftWrong, Stores, Wrong;
    LineIs(r, cut, rest.lines);
  }

  lemma EmptyText(r: Reader)
    ensures !Overruns([], r.section) && (LeftWrong([], r.errs != 0) <==> r.errs != 0)
  {}

  /** What one line does to the section, the error count and the key buffer. */
  lemma LineIs(r: Reader, cut: string, rest: seq<string>)
    ensures var line := LineOf(cut, r.section);
      var over := line.Value? && |r.section| + 1 + |line.key| > ASCIILINESZ;
      var section := if line.Section? then line.name else r.section;
      var errs := if line.Section? || line.Value? then 0 else if line.Error? then r.errs + 1 else r.errs;
      && (Overruns([cut] + rest, r.section) <==> over || Overruns(rest, section))
      && (LeftWrong([cut] + rest, r.errs != 0) <==> LeftWrong(rest, errs != 0))
  {
    hide LineOf, LineRead, LeftWrong, Stores, Wrong;
    assert ([cut] + rest)[1..] == rest;
    LineIsRead(cut, r.section);
    KindOfLine(cut, r.section);
    WrongStoresNothing(cut);
    LeftWrongNext(cut, rest, r.errs != 0);
  }

  /**
    What iniparser_load does with any text: it is undefined just when an entry overruns the key
    buffer or a line is empty or all blanks, and returns NULL just when, before that, a line does
    not fit or has no line feed, or some syntax error comes after everything that is stored.
   */
  lemma LoadIff(text: string)
    ensures var l, o := LinesOf(text, 0, ""), LoadText(text);
      && (o.Undefined? <==> Overruns(l.lines, "") || l.ending == BlankLine)
      && (o.Failed? <==>
        !Overruns(l.lines, "") && (l.ending == TooLong || (l.ending == Whole && ErrorAtEnd(l.lines))))
  {
    hide LinesOf, Load, Overruns, ErrorAtEnd;
    LoadIs(text, 0, START);
  }

  // ------------------------------------------------------------ an error that is forgotten

  lemma LoneEqualsIsWrong(section: string)
    ensures Wrong("=") && !Stores("=") && LineRead("=", section) == Error
  {
    hide Strstrip, KeyOf, ReadValue;
    StripOfTrimmed("=");
  }

  lemma HeaderStores(section: string)
    ensures Stores("[a]") && !Wrong("[a]") && LineRead("[a]", section) == Section("a")
  {
    hide LineOf, LineRead, Strstrip;
    StripOfTrimmed("[a]");
    assert SectionLine("a") == "[a]";
    SectionReads("a", section);
    LineIsRead("[a]", section);
  }

  /** The text "=" LF "[a]" LF: its first line is an error, and the loader returns a dictionary. */
  lemma ErrorIsForgotten()
    ensures LoadText("=\n[a]\n").Loaded?
  {
    hide LinesOf, LoadText, LineRead, Wrong, Stores;
    var text, lines := "=\n[a]\n", ["=", "[a]"];
    assert lines[1..] == ["[a]"] && lines[1..][1..] == [];
    LinesOfTwo("=", "[a]");
    assert "=" + "\n" + "[a]" + "\n" == text;
    LoneEqualsIsWrong("");
    HeaderStores("");
    LoadIff(text);
    assert !NothingStored(lines[1..]) by { assert Stores(lines[1..][0]); }
  }

  /** The other way round it returns NULL. */
  lemma ErrorIsSeen()
    ensures LoadText("[a]\n=\n").Failed?
  {
    hide LinesOf, LoadText, LineRead, Wrong, Stores;
    var text, lines := "[a]\n=\n", ["[a]", "="];
    assert lines[1..] == ["="] && lines[1..][1..] == [];
    LinesOfTwo("[a]", "=");
    assert "[a]" + "\n" + "=" + "\n" == text;
    LoneEqualsIsWrong("a");
    HeaderStores("");
    LoadIff(text);
    assert Wrong(lines[1]) && NothingStored(lines[2..]);
  }

  /** A comment is no error, wherever it is: "[a]" LF "#c" LF loads. */
  lemma CommentIsNoError()
    ensures LoadText("[a]\n#c\n") == Loaded(map["a" := None])
  {
    hide LoadText, GoodItems, TextOf, AfterItems, GoodName, GoodNote;
    var items, text := [Head("a"), Note("#c")], "[a]\n#c\n";
    assert items == [Head("a")] + [Note("#c")];
    TextOfTwo();
    TwoAreRead();
    LoadOfItems("", items, START);
    assert "" + TextOf(items) == text;
    assert LoadText(text) == Load(text, 0, START) by { LoadIsFromStart(text); }
  }

  /** A NUL at the start of a line leaves an empty string, and the loader reads line[-1]. */
  lemma NulReadsBeforeLine()
    ensures LoadText("\0\n") == Undefined
  {
    hide Load, FgetsEnd, UpToNul;
    FgetsLine("\0\n", 0, ASCIILINESZ - 1, "\0");
    LoadStep("\0\n", 0, START);
    assert "" + "\0\n"[0..2] == "\0\n";
    UpToNulIs("", "\n");
  }

  /** A NUL behind the first character hides the rest of the line, and its line feed, from the loader. */
  lemma NulHidesLine()
    ensures LoadText("a\0=b\n") == Loaded(map[])
  {
    hide Load, FgetsEnd, UpToNul, StripRight, Parsed;
    var text := "a\0=b\n";
    FgetsLine(text, 0, ASCIILINESZ - 1, "a\0=b");
    LoadStep(text, 0, START);
    assert "" + text[0..5] == text;
    UpToNulIs("a", "=b\n");
    assert "a" + "\0" + "=b\n" == text;
    LoadEnds(text, START);
  }

  lemma UpToNulIs(s: string, rest: string)
    requires '\0' !in s
    ensures UpToNul(s + "\0" + rest) == s
  {
    RunLengthIs(s + "\0" + rest, "\0", |s|);
    assert (s + "\0" + rest)[..|s|] == s;
  }

  lemma LoadIsFromStart(text: string)
    ensures LoadText(text) == Load(text, 0, START)
  {}

  lemma TextOfTwo()
    ensures TextOf([Head("a"), Note("#c")]) == "[a]\n#c\n"
  {
    hide TextOf;
    TextOfFirst([Head("a"), Note("#c")]);
    assert [Head("a"), Note("#c")][1..] == [Note("#c")] && [Note("#c")][1..] == [];
    TextOfFirst([Note("#c")]);
    NoText();
    assert SectionLine("a") + "\n" + ("#c" + "\n" + "") == "[a]\n#c\n";
  }

  lemma NoText()
    ensures TextOf([]) == ""
  {}

  lemma TwoAreRead()
    ensures GoodItems(START, [Head("a"), Note("#c")])
    ensures AfterItems(START, [Head("a"), Note("#c")]).entries == map["a" := None]
  {
    hide GoodNote;
    var r := AfterItem(START, Head("a"));
    assert [Head("a"), Note("#c")][1..] == [Note("#c")] && [Note("#c")][1..] == [];
    NoteIsGood();
    assert GoodItems(r, [Note("#c")]) && AfterItems(r, [Note("#c")]) == AfterItems(r, []) == r;
  }

  lemma NoteIsGood()
    ensures GoodNote("#c")
  {
    hide SkipSpace, StripRight;
    NothingToSkip("#c");
    TrimmedEnd("#c");
  }

  /** Two plain lines are two logical lines. */
  lemma LinesOfTwo(a: string, b: string)
    requires PlainLine(a) && PlainLine(b)
    ensures LinesOf(a + "\n" + b + "\n", 0, "") == LogicalText([a, b], Whole)
  {
    hide PlainLine, LinesOf;
    TwoLineText(a, b);
    LinesOfOne("", a, b + "\n");
    LinesOfOne(a + "\n", b, "");
    LinesEnd(a + "\n" + b + "\n", "");
    assert [a] + ([b] + []) == [a, b];
  }

  lemma TwoLineText(a: string, b: string)
    ensures var text := a + "\n" + b + "\n";
      && text == "" + a + "\n" + (b + "\n") && text == (a + "\n") + b + "\n" + ""
      && |text| == |a + "\n"| + |b| + 1
  {}

  predicate PlainLine(line: string) {
    && line != "" && Printed(line) && |line| < ASCIILINESZ - 1
    && !IsSpace(line[|line| - 1]) && line[|line| - 1] != '\\'
  }

  lemma LinesOfOne(before: string, line: string, after: string)
    requires PlainLine(line)
    ensures var text, end := before + line + "\n" + after, |before| + |line| + 1;
      var rest := LinesOf(text, end, "");
      LinesOf(text, |before|, "") == rest.(lines := [line] + rest.lines)
  {
    hide StripRight, FgetsEnd, LinesOf, UpToNul;
    var text := before + line + "\n" + after;
    assert text[|before|..|before| + |line|] == line && text[|before| + |line|] == '\n';
    FgetsLine(text, |before|, ASCIILINESZ - 1, line);
    assert text[|before|..|before| + |line| + 1] == line + "\n";
    StripRightPadded(line, "\n");
    PlainStep(text, |before|, |before| + |line| + 1, line);
  }

  lemma PlainStep(text: string, pos: nat, end: nat, line: string)
    requires PlainLine(line) && pos < end <= |text| && text[pos..end] == line + "\n"
    requires FgetsEnd(text, pos, ASCIILINESZ - 1) == end && StripRight(line + "\n") == line
    ensures var rest := LinesOf(text, end, ""); LinesOf(text, pos, "") == rest.(lines := [line] + rest.lines)
  {
    hide StripRight, FgetsEnd, UpToNul, LinesOf;
    assert "" + text[pos..end] == line + "\n";
    assert '\0' !in line + "\n";
    LinesStep(text, pos, "");
  }
}
