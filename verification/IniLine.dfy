/** One line of an INI file: how iniparser_line reads it and how the dumper writes it. */
module IniLine {
  import opened CStrings

  datatype Line =
    | Empty
    | Comment
    | Section(name: string)
    | Value(key: string, value: string)
    | Error

  // the sscanf formats of iniparser_line, in the order they are tried
  const SECTION: seq<Directive> := [Lit('['), Run("]")]
  const KEY_PART: seq<Directive> := [Run("="), White, Lit('='), White]
  const QUOTED_PART: seq<Directive> := [Lit('\"'), Run("\""), Lit('\"')]
  const SINGLE_PART: seq<Directive> := [Lit('\''), Run("'"), Lit('\'')]
  const PLAIN_PART: seq<Directive> := [Run(";#")]
  const COMMENT_PART: seq<Directive> := [RunOf(";#")]
  const QUOTED: seq<Directive> := KEY_PART + QUOTED_PART
  const SINGLE_QUOTED: seq<Directive> := KEY_PART + SINGLE_PART
  const PLAIN: seq<Directive> := KEY_PART + PLAIN_PART
  const EMPTY_COMMENTED: seq<Directive> := KEY_PART + COMMENT_PART
  const EMPTY_BARE: seq<Directive> := [Run("="), White, RunOf("=")]

  function KeyOf(raw: string): string { Strlwc(Strstrip(raw)) }

  function ValueOf(raw: string): string {
    var v := Strstrip(raw);
    if v == "\"\"" || v == "''" then "" else v
  }

  /** iniparser_line; `section` is the section buffer, which an empty name leaves as it was. */
  function LineOf(input: string, section: string): Line {
    var line := Strstrip(input);
    if line == "" then Empty
    else if line[0] == '#' || line[0] == ';' then Comment
    else if line[0] == '[' && line[|line| - 1] == ']' then
      var found := Scan(SECTION, line);
      Section(KeyOf(if |found| == 1 then found[0] else section))
    else KeyValueOf(line)
  }

  function KeyValueOf(line: string): Line {
    var quoted := Scan(QUOTED, line);
    if |quoted| == 2 then Value(KeyOf(quoted[0]), ValueOf(quoted[1]))
    else
      var single := Scan(SINGLE_QUOTED, line);
      if |single| == 2 then Value(KeyOf(single[0]), ValueOf(single[1]))
      else
        var plain := Scan(PLAIN, line);
        if |plain| == 2 then Value(KeyOf(plain[0]), ValueOf(plain[1]))
        else
          var commented := Scan(EMPTY_COMMENTED, line);
          if |commented| == 2 then Value(KeyOf(commented[0]), "")
          else
            var bare := Scan(EMPTY_BARE, line);
            if |bare| == 2 then Value(KeyOf(bare[0]), "") else Error
  }

  // ------------------------------------------------------------ the same, character by character

  /** What the parser makes of the text behind the equals sign, blanks at its start gone. */
  function ReadValue(v: string): string {
    if v == "" then ""
    else if v[0] == '\"' && RunLength(v[1..], "\"") > 0 then ValueOf(v[1..][..RunLength(v[1..], "\"")])
    else if v[0] == '\'' && RunLength(v[1..], "'") > 0 then ValueOf(v[1..][..RunLength(v[1..], "'")])
    else ValueOf(v[..RunLength(v, ";#")])
  }

  predicate Remark(line: string) { line == "" || line[0] == '#' || line[0] == ';' }

  predicate Header(line: string)
    requires line != ""
  {
    line[0] == '[' && line[|line| - 1] == ']'
  }

  /** An equals sign, not at the start. */
  predicate HasKey(line: string)
    requires line != ""
  {
    '=' in line && line[0] != '='
  }

  /** A line of an INI file as its characters say, without the formats. */
  function LineRead(input: string, section: string): Line {
    var line := Strstrip(input);
    if line == "" then Empty
    else if Remark(line) then Comment
    else if Header(line) then
      var name := line[1..][..RunLength(line[1..], "]")];
      Section(KeyOf(if name == "" then section else name))
    else PairRead(line)
  }

  /** The key in front of the first equals sign, and the value behind it. */
  function PairRead(line: string): Line
    requires line != ""
  {
    if HasKey(line) then
      FirstIsKey(line);
      var n := RunLength(line, "=");
      Value(KeyOf(line[..n]), ReadValue(SkipSpace(line[n + 1..])))
    else Error
  }

  // ------------------------------------------------------------ writing

  /** %-30s for width 30, %s for width 0 */
  function Pad(s: string, width: nat): (r: string)
    ensures |r| >= width && s <= r && forall i | |s| <= i < |r| :: r[i] == ' '
    ensures |s| >= width ==> r == s
  {
    if |s| >= width then s else s + seq(width - |s|, _ => ' ')
  }

  /** The key, padded to the width, an equals sign and the value, without the line feed. */
  function EntryLine(key: string, value: string, width: nat): string { Pad(key, width) + " = " + value }

  function SectionLine(name: string): string { "[" + name + "]" }

  // ------------------------------------------------------------ when a written line reads back

  /** A key the parser gives back as it is. */
  predicate PlainKey(k: string) {
    k != "" && Trimmed(k) && Lower(k) && '=' !in k && k[0] != '#' && k[0] != ';'
  }

  /** Quoting neither starts nor is all of the value. */
  predicate Unquoted(v: string) {
    && v != "\"\"" && v != "''"
    && (|v| >= 2 && (v[0] == '\"' || v[0] == '\'') ==> v[1] == v[0])
  }

  predicate PlainValue(v: string) {
    Trimmed(v) && ';' !in v && '#' !in v && Unquoted(v)
  }

  /** The line does not look like a section header. */
  predicate NotHeader(k: string, v: string)
    requires k != ""
  {
    k[0] == '[' && v != "" ==> v[|v| - 1] != ']'
  }

  predicate ReadsBack(k: string, v: string) {
    PlainKey(k) && PlainValue(v) && NotHeader(k, v)
  }

  /** The key part every key-value format begins with. */
  lemma ScanKey(rest: seq<Directive>, raw: string, tail: string)
    requires raw != "" && '=' !in raw
    ensures Scan(KEY_PART + rest, raw + "=" + tail) == [raw] + Scan(rest, SkipSpace(tail))
  {
    hide Scan;
    var more := [White, Lit('='), White] + rest;
    assert KEY_PART + rest == [Run("=")] + more;
    assert raw + "=" + tail == raw + ("=" + tail);
    ScanRun("=", more, raw, "=" + tail);
    ScanEqualsSign(rest, tail);
  }

  lemma ScanEqualsSign(rest: seq<Directive>, tail: string)
    ensures Scan([White, Lit('='), White] + rest, "=" + tail) == Scan(rest, SkipSpace(tail))
  {
    hide Scan, SkipSpace;
    var after := [White] + rest;
    assert [White, Lit('='), White] + rest == [White] + ([Lit('=')] + after);
    ScanWhite([Lit('=')] + after, "=" + tail);
    NothingToSkip("=" + tail);
    ScanLit('=', after, tail);
    ScanWhite(rest, tail);
  }

  lemma NothingToSkip(s: string)
    requires s != "" && !IsSpace(s[0])
    ensures SkipSpace(s) == s
  {}

  lemma ScanWhite(rest: seq<Directive>, input: string)
    ensures Scan([White] + rest, input) == Scan(rest, SkipSpace(input))
  {
    assert ([White] + rest)[1..] == rest;
  }

  lemma ScanLit(c: char, rest: seq<Directive>, t: string)
    ensures Scan([Lit(c)] + rest, [c] + t) == Scan(rest, t)
  {
    assert ([Lit(c)] + rest)[1..] == rest && ([c] + t)[1..] == t;
  }

  lemma KeyOfPadded(k: string, pad: string)
    requires PlainKey(k) && |k| <= ASCIILINESZ
    requires forall i | 0 <= i < |pad| :: IsSpace(pad[i])
    ensures KeyOf(k + pad) == k
  {
    assert SkipSpace(k + pad) == k + pad;
    StripRightPadded(k, pad);
    LowerOfLower(k);
  }

  /** The written line as the parser sees it, blanks at the end gone. */
  function CutLine(k: string, v: string, w: nat): string {
    if StripRight(v) == "" then Pad(k, w) + " =" else Pad(k, w) + " = " + StripRight(v)
  }

  lemma CutLineIs(k: string, v: string, w: nat, end: string)
    requires forall i | 0 <= i < |end| :: IsSpace(end[i])
    ensures StripRight(EntryLine(k, v, w) + end) == CutLine(k, v, w)
    ensures CutLine(k, v, w) != "" && !IsSpace(CutLine(k, v, w)[|CutLine(k, v, w)| - 1])
  {
    hide Pad, StripRight, EntryLine;
    var cut := StripRight(v);
    var blanks := v[|cut|..] + end;
    EntryLineSplit(k, v, w, end, |cut|);
    if cut == "" {
      StripRightPadded(Pad(k, w) + " =", " " + blanks);
    } else {
      assert v[..|cut|] == cut;
      StripRightPadded(Pad(k, w) + " = " + cut, blanks);
    }
  }

  lemma EntryLineSplit(k: string, v: string, w: nat, end: string, n: nat)
    requires n <= |v|
    ensures EntryLine(k, v, w) + end == (Pad(k, w) + " = " + v[..n]) + (v[n..] + end)
    ensures n == 0 ==> EntryLine(k, v, w) + end == (Pad(k, w) + " =") + (" " + (v[n..] + end))
  {
    hide Pad;
    assert v == v[..n] + v[n..];
  }

  lemma {:induction false} StripsCommute(v: string)
    ensures SkipSpace(StripRight(v)) == Strstrip(v)
    ensures StripRight(v) == "" <==> Strstrip(v) == ""
    ensures StripRight(v) != "" ==>
      Strstrip(v) != "" && Strstrip(v)[|Strstrip(v)| - 1] == StripRight(v)[|StripRight(v)| - 1]
    decreases |v|
  {
    hide SkipSpace, StripRight, Strstrip;
    if v != "" && IsSpace(v[0]) {
      StripsCommute(v[1..]);
      FirstBlank(v);
    } else {
      NoFirstBlank(v);
    }
  }

  lemma NoFirstBlank(v: string)
    requires v == "" || !IsSpace(v[0])
    ensures Strstrip(v) == StripRight(v) && SkipSpace(StripRight(v)) == StripRight(v)
    ensures StripRight(v) == "" <==> v == ""
  {
    hide StripRight;
  }

  /** A blank in front makes no difference to what is left of the string. */
  lemma FirstBlank(v: string)
    requires v != "" && IsSpace(v[0])
    ensures Strstrip(v) == Strstrip(v[1..]) && SkipSpace(StripRight(v)) == SkipSpace(StripRight(v[1..]))
    ensures StripRight(v) == "" <==> StripRight(v[1..]) == ""
    ensures StripRight(v) != "" ==>
      StripRight(v)[|StripRight(v)| - 1] == StripRight(v[1..])[|StripRight(v[1..])| - 1]
  {
    hide SkipSpace, StripRight;
    var w := StripRight(v[1..]);
    SkipFirst(v);
    if w == "" {
      AllBlank(v);
    } else {
      StripRightFirst(v);
      SkipFirst([v[0]] + w);
      assert ([v[0]] + w)[1..] == w;
    }
  }

  lemma StripRightFirst(v: string)
    requires v != "" && StripRight(v[1..]) != ""
    ensures StripRight(v) == [v[0]] + StripRight(v[1..])
  {
    hide StripRight;
    var w := StripRight(v[1..]);
    assert v == ([v[0]] + w) + v[1..][|w|..];
    StripRightPadded([v[0]] + w, v[1..][|w|..]);
  }

  lemma SkipFirst(v: string)
    requires v != "" && IsSpace(v[0])
    ensures SkipSpace(v) == SkipSpace(v[1..])
  {}

  lemma AllBlank(v: string)
    requires forall i | 0 <= i < |v| :: IsSpace(v[i])
    ensures StripRight(v) == ""
  {
    assert "" + v == v;
    StripRightPadded("", v);
  }

  /** With a key in order, the value that comes back is ReadValue's, from the line as written or as cut. */
  lemma EntryReads(k: string, v: string, w: nat, section: string, end: string)
    requires PlainKey(k) && |k| <= ASCIILINESZ && NotHeader(k, Strstrip(v))
    requires forall i | 0 <= i < |end| :: IsSpace(end[i])
    ensures LineOf(StripRight(EntryLine(k, v, w) + end), section) == Value(k, ReadValue(Strstrip(v)))
  {
    CutLineIs(k, v, w, end);
    CutLineReads(k, v, w, section);
  }

  lemma CutLineReads(k: string, v: string, w: nat, section: string)
    requires PlainKey(k) && |k| <= ASCIILINESZ && NotHeader(k, Strstrip(v))
    ensures LineOf(CutLine(k, v, w), section) == Value(k, ReadValue(Strstrip(v)))
  {
    hide LineOf, KeyValueOf, ReadValue, KeyOf, Pad, Strlwc, Strstrip, StripRight, SkipSpace, Scan, KEY_PART, PlainKey;
    var pad := Pad(k, w)[|k|..] + " ";
    var raw := k + pad;
    CutLineParts(k, v, w);
    PaddedKeyHasNoEquals(k, pad);
    KeyOfPadded(k, pad);
    StripsCommute(v);
    CutLineIs(k, v, w, "");
    var line := CutLine(k, v, w);
    PlainKeyStart(k);
    assert line[0] == k[0];
    StripOfTrimmed(line);
    NotHeaderLine(k, v, w);
    LineOfKeyValue(line, section);
    if StripRight(v) == "" {
      BareReads(raw);
      EmptyReads();
    } else {
      SkipOne(StripRight(v));
      PairReads(raw, " " + StripRight(v));
    }
  }

  lemma CutLineParts(k: string, v: string, w: nat)
    ensures var raw := k + (Pad(k, w)[|k|..] + " ");
            CutLine(k, v, w) == if StripRight(v) == "" then raw + "=" else raw + "=" + (" " + StripRight(v))
    ensures forall i | 0 <= i < |Pad(k, w)[|k|..] + " "| :: IsSpace((Pad(k, w)[|k|..] + " ")[i])
  {
    hide StripRight;
    assert Pad(k, w) == k + Pad(k, w)[|k|..];
  }

  /** A trimmed line that is no comment and no header goes to the key-value formats. */
  lemma LineOfKeyValue(line: string, section: string)
    requires line != "" && Trimmed(line) && line[0] != '#' && line[0] != ';'
    requires !(line[0] == '[' && line[|line| - 1] == ']')
    ensures LineOf(line, section) == KeyValueOf(line)
  {
    hide KeyValueOf, Scan, KeyOf, Strstrip, StripRight, SkipSpace, SECTION;
    StripOfTrimmed(line);
  }

  lemma NotHeaderLine(k: string, v: string, w: nat)
    requires PlainKey(k) && NotHeader(k, Strstrip(v))
    ensures var line := CutLine(k, v, w); line != "" && !(line[0] == '[' && line[|line| - 1] == ']')
  {
    hide Pad, Strstrip, StripRight, SkipSpace;
    StripsCommute(v);
    var line := CutLine(k, v, w);
    assert line[0] == k[0];
  }

  lemma PlainKeyStart(k: string)
    requires PlainKey(k)
    ensures k != "" && !IsSpace(k[0]) && k[0] != '#' && k[0] != ';'
  {}

  lemma PaddedKeyHasNoEquals(k: string, pad: string)
    requires PlainKey(k) && forall i | 0 <= i < |pad| :: IsSpace(pad[i])
    ensures '=' !in k + pad
  {}

  lemma EmptyReads()
    ensures ReadValue("") == ""
  {}

  lemma BareReads(raw: string)
    requires raw != "" && '=' !in raw
    ensures KeyValueOf(raw + "=") == Value(KeyOf(raw), "")
  {
    hide Scan, KeyOf, ValueOf, QUOTED, SINGLE_QUOTED, PLAIN, EMPTY_COMMENTED, EMPTY_BARE;
    KeyOnly(QUOTED_PART, raw);
    KeyOnly(SINGLE_PART, raw);
    KeyOnly(PLAIN_PART, raw);
    KeyOnly(COMMENT_PART, raw);
    FormatsAre();
    BareScan(raw);
  }

  lemma FormatsAre()
    ensures QUOTED == KEY_PART + QUOTED_PART && SINGLE_QUOTED == KEY_PART + SINGLE_PART
    ensures PLAIN == KEY_PART + PLAIN_PART && EMPTY_COMMENTED == KEY_PART + COMMENT_PART
  {}

  lemma KeyOnly(part: seq<Directive>, raw: string)
    requires raw != "" && '=' !in raw && part in {QUOTED_PART, SINGLE_PART, PLAIN_PART, COMMENT_PART}
    ensures Scan(KEY_PART + part, raw + "=") == [raw]
  {
    hide Scan, KEY_PART;
    assert raw + "=" + "" == raw + "=";
    ScanKey(part, raw, "");
    NothingToStore();
  }

  lemma NothingToStore()
    ensures Scan(QUOTED_PART, "") == Scan(SINGLE_PART, "") == Scan(PLAIN_PART, "") == Scan(COMMENT_PART, "") == []
  {}

  lemma BareScan(raw: string)
    requires raw != "" && '=' !in raw
    ensures var found := Scan(EMPTY_BARE, raw + "="); |found| == 2 && found[0] == raw
  {
    var last := [RunOf("=")];
    assert EMPTY_BARE == [Run("=")] + ([White] + last);
    ScanRun("=", [White] + last, raw, "=");
    ScanEquals();
  }

  lemma ScanEquals()
    ensures |Scan([White] + [RunOf("=")], "=")| == 1
  {
    ScanWhite([RunOf("=")], "=");
    LoneEquals();
  }

  lemma LoneEquals()
    ensures SkipSpace("=") == "=" && |Scan([RunOf("=")], "=")| == 1
  {
    NothingToSkip("=");
    hide SkipSpace;
    assert [RunOf("=")][1..] == [];
    assert RunOfLength("=", "=") > 0;
  }

  /** A run stops at the first character of t. */
  lemma ScanRun(stops: string, rest: seq<Directive>, raw: string, t: string)
    requires raw != "" && (forall i | 0 <= i < |raw| :: raw[i] !in stops) && (t != "" ==> t[0] in stops)
    ensures Scan([Run(stops)] + rest, raw + t) == [raw] + Scan(rest, t)
  {
    var fmt, input := [Run(stops)] + rest, raw + t;
    assert forall i | 0 <= i < |raw| :: input[i] == raw[i];
    RunLengthIs(input, stops, |raw|);
    assert input[..|raw|] == raw && input[|raw|..] == t && fmt[1..] == rest;
  }

  /** What a quoted format stores for the value. */
  lemma ScanQuoted(v: string, q: char)
    requires v != ""
    ensures var found := Scan([Lit(q), Run([q]), Lit(q)], v);
            if v[0] == q && RunLength(v[1..], [q]) > 0
            then |found| == 1 && found[0] == v[1..][..RunLength(v[1..], [q])]
            else found == []
  {
    var fmt := [Lit(q), Run([q]), Lit(q)];
    assert fmt[1..] == [Run([q]), Lit(q)] && fmt[1..][1..] == [Lit(q)] && fmt[1..][1..][1..] == [];
    if v[0] == q {
      assert Scan(fmt, v) == Scan(fmt[1..], v[1..]);
      var n := RunLength(v[1..], [q]);
      if n > 0 {
        var t := v[1..][n..];
        assert Scan(fmt[1..][1..], t) == [];
      }
    }
  }

  lemma PairReads(raw: string, tail: string)
    requires raw != "" && '=' !in raw && SkipSpace(tail) != ""
    ensures KeyValueOf(raw + "=" + tail) == Value(KeyOf(raw), ReadValue(SkipSpace(tail)))
  {
    hide Scan, RunLength, KeyOf, ValueOf, SkipSpace;
    hide KEY_PART, EMPTY_BARE, QUOTED_PART, SINGLE_PART, PLAIN_PART, COMMENT_PART;
    var v := SkipSpace(tail);
    ScanKey(QUOTED_PART, raw, tail);
    ScanKey(SINGLE_PART, raw, tail);
    ScanKey(PLAIN_PART, raw, tail);
    ScanKey(COMMENT_PART, raw, tail);
    QuotedScans(v);
    PlainScan(v);
  }

  lemma SkipOne(v: string)
    ensures SkipSpace(" " + v) == SkipSpace(v)
  {
    assert (" " + v)[1..] == v;
  }

  lemma QuotedScans(v: string)
    requires v != ""
    ensures var found, n := Scan(QUOTED_PART, v), RunLength(v[1..], "\"");
            if v[0] == '\"' && n > 0 then |found| == 1 && found[0] == v[1..][..n] else found == []
    ensures var found, n := Scan(SINGLE_PART, v), RunLength(v[1..], "'");
            if v[0] == '\'' && n > 0 then |found| == 1 && found[0] == v[1..][..n] else found == []
  {
    ScanQuoted(v, '\"');
    ScanQuoted(v, '\'');
  }

  lemma PlainScan(v: string)
    requires v != ""
    ensures var n := RunLength(v, ";#");
            if n > 0 then Scan(PLAIN_PART, v) == [v[..n]]
            else Scan(PLAIN_PART, v) == [] && |Scan(COMMENT_PART, v)| == 1
    ensures RunLength(v, ";#") == 0 ==> ValueOf(v[..RunLength(v, ";#")]) == ""
  {
    assert PLAIN_PART[1..] == [] && COMMENT_PART[1..] == [];
    var n := RunLength(v, ";#");
    if n == 0 {
      assert v[0] in ";#";
      assert RunOfLength(v, ";#") > 0;
    }
  }

  /** A value is read as it is just when it is trimmed and has no comment sign and no quoting. */
  lemma ReadValueIff(v: string)
    ensures ReadValue(Strstrip(v)) == v <==> PlainValue(v)
  {
    if Trimmed(v) {
      StripOfTrimmed(v);
      TrimmedValueIff(v);
    } else {
      ReadIsTrimmed(Strstrip(v));
    }
  }

  lemma ReadIsTrimmed(v: string)
    ensures Trimmed(ReadValue(v))
  {
    hide RunLength, ValueOf;
    forall raw: string ensures Trimmed(ValueOf(raw)) { ValueIsTrimmed(raw); }
  }

  lemma TrimmedValueIff(v: string)
    requires Trimmed(v)
    ensures ReadValue(v) == v <==> PlainValue(v)
  {
    hide RunLength, ValueOf, Unquoted;
    if v == "" {
      EmptyIsUnquoted();
    } else if v[0] == '\"' && RunLength(v[1..], "\"") > 0 {
      QuotedDiffers(v, '\"');
    } else if v[0] == '\'' && RunLength(v[1..], "'") > 0 {
      QuotedDiffers(v, '\'');
    } else if ';' in v || '#' in v {
      CommentedDiffers(v);
    } else {
      PlainIff(v);
    }
  }

  lemma EmptyIsUnquoted()
    ensures Unquoted("")
  {}

  /** A comment sign, and what is behind it, is not part of the value. */
  lemma CommentedDiffers(v: string)
    requires ';' in v || '#' in v
    ensures ValueOf(v[..RunLength(v, ";#")]) != v
  {
    hide ValueOf;
    var n := RunLength(v, ";#");
    if n == |v| {
      forall i | 0 <= i < |v| ensures v[i] != ';' && v[i] != '#' { assert v[i] !in ";#"; }
    }
    ShorterValue(v[..n]);
  }

  /** Without comment signs, and not begun by a quote with something behind it. */
  lemma PlainIff(v: string)
    requires Trimmed(v) && v != "" && ';' !in v && '#' !in v
    requires v[0] == '\"' ==> RunLength(v[1..], "\"") == 0
    requires v[0] == '\'' ==> RunLength(v[1..], "'") == 0
    ensures ValueOf(v[..RunLength(v, ";#")]) == v <==> Unquoted(v)
  {
    RunLengthIs(v, ";#", |v|);
    assert v[..|v|] == v;
    StripOfTrimmed(v);
    hide Strstrip, Trimmed;
    if v[0] == '\"' && |v| >= 2 { NoRun(v[1..], "\""); }
    if v[0] == '\'' && |v| >= 2 { NoRun(v[1..], "'"); }
  }

  lemma NoRun(s: string, stop: string)
    requires s != "" && |stop| == 1 && RunLength(s, stop) == 0
    ensures s[0] == stop[0]
  {
    assert s[0] in stop;
  }

  lemma ShorterValue(s: string)
    ensures |ValueOf(s)| <= |s|
  {}

  /** The quoted value is shorter than the text it was in, and that text counts as quoted. */
  lemma QuotedDiffers(v: string, q: char)
    requires v != "" && v[0] == q && (q == '\"' || q == '\'') && RunLength(v[1..], [q]) > 0
    ensures ValueOf(v[1..][..RunLength(v[1..], [q])]) != v && !Unquoted(v)
  {
    ShorterValue(v[1..][..RunLength(v[1..], [q])]);
    assert v[1..][0] == v[1] && v[1] !in [q];
  }

  // ------------------------------------------------------------ whatever the line

  /** The sscanf formats of iniparser_line read every line as its characters say. */
  lemma LineIsRead(input: string, section: string)
    ensures LineOf(input, section) == LineRead(input, section)
  {
    hide Scan, Strstrip, KeyValueOf, PairRead, KeyOf, SECTION, SkipSpace, RunLength;
    var line := Strstrip(input);
    StripIsTrimmed(input);
    if line == "" || Remark(line) {
    } else if Header(line) {
      NameScan(line);
    } else {
      PairIsRead(line);
    }
  }

  lemma NameScan(line: string)
    requires |line| >= 2 || line == "["
    requires line[0] == '['
    ensures var n := RunLength(line[1..], "]");
      Scan(SECTION, line) == if n == 0 then [] else [line[1..][..n]]
  {
    assert SECTION[1..] == [Run("]")] && SECTION[1..][1..] == [];
    assert Scan(SECTION, line) == Scan(SECTION[1..], line[1..]);
  }

  lemma PairIsRead(line: string)
    requires line != "" && Trimmed(line)
    ensures KeyValueOf(line) == PairRead(line)
  {
    hide KeyValueOf, KeyOf, ReadValue, SkipSpace, RunLength;
    if HasKey(line) {
      SplitAtEquals(line);
      var n := RunLength(line, "=");
      var raw, tail := line[..n], line[n + 1..];
      if tail == "" {
        assert line == raw + "=";
        BareReads(raw);
        EmptyReads();
      } else {
        SomethingLeft(tail);
        PairReads(raw, tail);
      }
    } else {
      NoPair(line);
    }
  }

  lemma SplitAtEquals(line: string)
    requires line != "" && Trimmed(line) && HasKey(line)
    ensures var n := RunLength(line, "=");
      && 0 < n < |line| && '=' !in line[..n] && line == line[..n] + "=" + line[n + 1..]
      && (line[n + 1..] != "" ==> !IsSpace(line[n + 1..][|line[n + 1..]| - 1]))
      && SkipSpace("") == ""
  {
    FirstIsKey(line);
    var n := RunLength(line, "=");
    assert line[n] == '=';
    if n + 1 < |line| { assert line[n + 1..][|line[n + 1..]| - 1] == line[|line| - 1]; }
  }

  lemma SomethingLeft(s: string)
    requires s != "" && !IsSpace(s[|s| - 1])
    ensures SkipSpace(s) != ""
  {}

  /** Without an equals sign, or with one at the start, no format finds a key and a value. */
  lemma NoPair(line: string)
    requires line != "" && !HasKey(line)
    ensures KeyValueOf(line) == Error
  {
    hide Scan, KeyOf, ValueOf, QUOTED, SINGLE_QUOTED, PLAIN, EMPTY_COMMENTED, EMPTY_BARE;
    FormatsBegin();
    OnlyKey(QUOTED, line);
    OnlyKey(SINGLE_QUOTED, line);
    OnlyKey(PLAIN, line);
    OnlyKey(EMPTY_COMMENTED, line);
    OnlyKey(EMPTY_BARE, line);
  }

  /** A run up to an equals sign, blanks, and something that begins with an equals sign. */
  predicate BeginsWithKey(fmt: seq<Directive>) {
    |fmt| >= 3 && fmt[0] == Run("=") && fmt[1] == White && (fmt[2] == Lit('=') || fmt[2] == RunOf("="))
  }

  lemma FormatsBegin()
    ensures BeginsWithKey(QUOTED) && BeginsWithKey(SINGLE_QUOTED) && BeginsWithKey(PLAIN)
    ensures BeginsWithKey(EMPTY_COMMENTED) && BeginsWithKey(EMPTY_BARE)
  {}

  lemma OnlyKey(fmt: seq<Directive>, line: string)
    requires BeginsWithKey(fmt) && line != "" && !HasKey(line)
    ensures |Scan(fmt, line)| <= 1
  {
    hide Scan;
    if line[0] == '=' {
      RunLengthIs(line, "=", 0);
      if |Scan(fmt, line)| > 0 { FirstIsRun(fmt, line); }
    } else {
      assert fmt == [Run("=")] + fmt[1..] && line + "" == line;
      ScanRun("=", fmt[1..], line, "");
      assert fmt[1..] == [White] + fmt[2..];
      ScanWhite(fmt[2..], "");
      NothingLeft(fmt[2..]);
    }
  }

  lemma NothingLeft(fmt: seq<Directive>)
    requires fmt != [] && (fmt[0] == Lit('=') || fmt[0] == RunOf("="))
    ensures SkipSpace("") == "" && Scan(fmt, "") == []
  {}

  /** A quoted value ends at its closing quote, whatever is behind it and whatever signs are in it. */
  lemma QuotedReads(q: char, s: string, rest: string)
    requires (q == '\"' || q == '\'') && s != "" && q !in s
    ensures ReadValue([q] + s + [q] + rest) == if Strstrip(s) in ["\"\"", "''"] then "" else Strstrip(s)
  {
    hide Strstrip;
    var v := [q] + s + [q] + rest;
    assert v[0] == q && v[1..] == s + [q] + rest;
    RunLengthIs(v[1..], [q], |s|);
    assert v[1..][..|s|] == s;
    assert [q] == if q == '\"' then "\"" else "'";
  }

  /** An unquoted value ends at a comment sign, or with the line. */
  lemma UnquotedReads(v: string, rest: string)
    requires ';' !in v && '#' !in v && (v != "" ==> !IsSpace(v[0]) && v[0] != '\"' && v[0] != '\'')
    requires rest != "" ==> rest[0] == ';' || rest[0] == '#'
    ensures ReadValue(v + rest) == Strstrip(v)
  {
    hide Strstrip;
    var line := v + rest;
    forall i | 0 <= i < |v| ensures line[i] !in ";#" { assert v[i] != ';' && v[i] != '#'; }
    RunLengthIs(line, ";#", |v|);
    assert line[..|v|] == v;
    NotAllQuotes(v);
    EmptyStrips();
  }

  lemma EmptyStrips()
    ensures Strstrip("") == ""
  {}

  lemma NotAllQuotes(v: string)
    requires v != "" ==> !IsSpace(v[0]) && v[0] != '\"' && v[0] != '\''
    ensures Strstrip(v) != "\"\"" && Strstrip(v) != "''"
  {
    hide Strstrip;
    EmptyStrips();
    if v != "" {
      StripKeepsStart(v);
      assert Strstrip(v)[0] == v[0];
    }
  }


  lemma FirstIsRun(fmt: seq<Directive>, line: string)
    requires fmt != [] && fmt[0] == Run("=") && |Scan(fmt, line)| > 0
    ensures var n := RunLength(line, "="); n > 0 && Scan(fmt, line)[0] == line[..n]
  {}

  /**
    Every key the parser ever returns is in order and without capitals, every value trimmed,
    and every section name trimmed and without capitals.
   */
  lemma ReadsAreInOrder(input: string, section: string)
    requires |input| <= ASCIILINESZ
    ensures match LineOf(input, section)
            case Value(k, v) => PlainKey(k) && NoCapitals(k) && Trimmed(v)
            case Section(name) => |section| <= ASCIILINESZ ==> NoCapitals(name) && Trimmed(name)
            case _ => true
  {
    hide RunLength, Strlwc, Strstrip, ReadValue, PlainKey, NoCapitals;
    var line := Strstrip(input);
    StripIsTrimmed(input);
    StripIsShorter(input);
    LineIsRead(input, section);
    match LineOf(input, section) {
      case Value(k, v) =>
        FirstIsKey(line);
        RawKeyInOrder(line);
        PlainHasNoCapitals(k);
        ReadIsTrimmed(SkipSpace(line[RunLength(line, "=") + 1..]));
      case Section(name) =>
        var inside := line[1..][..RunLength(line[1..], "]")];
        if |section| <= ASCIILINESZ { KeyIsLower(if inside == "" then section else inside); }
      case _ =>
    }
  }

  lemma FirstIsKey(line: string)
    requires line != "" && HasKey(line)
    ensures 0 < RunLength(line, "=") < |line|
  {
    var i :| 0 <= i < |line| && line[i] == '=';
    assert line[i] in "=";
    assert line[0] !in "=";
  }

  lemma PlainHasNoCapitals(k: string)
    requires PlainKey(k)
    ensures NoCapitals(k)
  {
    forall i | 0 <= i < |k| ensures !('A' <= k[i] <= 'Z') { assert ToLower(k[i]) == k[i]; }
  }

  lemma KeyIsLower(raw: string)
    requires |raw| <= ASCIILINESZ
    ensures NoCapitals(KeyOf(raw)) && Trimmed(KeyOf(raw))
  {
    hide Strstrip;
    StripIsTrimmed(raw);
    StripIsShorter(raw);
    var s := Strstrip(raw);
    if s != "" {
      LowerChar(s[0]);
      LowerChar(s[|s| - 1]);
    }
  }

  lemma StripIsShorter(s: string)
    ensures |Strstrip(s)| <= |s|
  {}

  lemma ValueIsTrimmed(raw: string)
    ensures Trimmed(ValueOf(raw))
  {
    StripIsTrimmed(raw);
  }

  lemma RawKeyInOrder(line: string)
    requires line != "" && Trimmed(line) && line[0] != '#' && line[0] != ';' && RunLength(line, "=") > 0
    requires |line| <= ASCIILINESZ
    ensures PlainKey(KeyOf(line[..RunLength(line, "=")]))
  {
    hide RunLength, Strstrip, Strlwc, PlainKey;
    var raw := line[..RunLength(line, "=")];
    StripKeepsStart(raw);
    StripIsTrimmed(raw);
    assert '=' !in Strstrip(raw);
    LowerKeepsOrder(Strstrip(raw));
  }

  lemma StripKeepsStart(s: string)
    requires s != "" && !IsSpace(s[0])
    ensures Strstrip(s) != "" && Strstrip(s) <= s
  {
    hide StripRight, SkipSpace;
    NothingToSkip(s);
  }

  /** Lower-casing changes nothing the parser looks at. */
  lemma LowerKeepsOrder(s: string)
    requires s != "" && |s| <= ASCIILINESZ && Trimmed(s) && '=' !in s && s[0] != '#' && s[0] != ';'
    ensures PlainKey(Strlwc(s))
  {
    var r := Strlwc(s);
    forall i | 0 <= i < |r| ensures ToLower(r[i]) == r[i] && r[i] != '=' && (IsSpace(r[i]) <==> IsSpace(s[i])) {
      LowerChar(s[i]);
    }
    LowerChar(s[0]);
  }

  lemma LowerChar(c: char)
    ensures ToLower(ToLower(c)) == ToLower(c) && (IsSpace(ToLower(c)) <==> IsSpace(c))
    ensures forall d | d in "=#;" :: ToLower(c) == d <==> c == d
  {}

  // ------------------------------------------------------------ exactly when

  /**
    A written entry reads back as the same key and value just when the key is in order
    (non-empty, trimmed, lower case, no '=', no comment sign in front), the value is plain
    (trimmed, no comment sign, no quoting), and the line does not look like a section header.
   */
  lemma EntryReadsBackIff(k: string, v: string, w: nat, section: string)
    requires |EntryLine(k, v, w)| <= ASCIILINESZ
    ensures LineOf(EntryLine(k, v, w), section) == Value(k, v) <==> ReadsBack(k, v)
  {
    hide LineOf, ReadValue, PlainValue, PlainKey, StripRight, Strstrip;
    ReadsAreInOrder(EntryLine(k, v, w), section);
    if PlainKey(k) {
      PlainKeyStart(k);
      PlainValueTrimmed(v);
      StripRightOfLine(k, v, w, section);
      if NotHeader(k, Strstrip(v)) {
        EntryReads(k, v, w, section, "");
        ReadValueIff(v);
      } else {
        HeaderLikeEntry(k, v, w, section);
      }
    }
  }

  lemma PlainValueTrimmed(v: string)
    ensures PlainValue(v) ==> Strstrip(v) == v
  {
    if PlainValue(v) {
      StripOfTrimmed(v);
    }
  }

  /** Blanks at the end of a written line make no difference to the parser. */
  lemma StripRightOfLine(k: string, v: string, w: nat, section: string)
    requires PlainKey(k)
    ensures LineOf(StripRight(EntryLine(k, v, w) + ""), section) == LineOf(EntryLine(k, v, w), section)
    ensures Strstrip(EntryLine(k, v, w)) == CutLine(k, v, w)
  {
    hide KeyValueOf, Pad, Scan, Strlwc, PlainKey, StripRight, SkipSpace;
    var line := EntryLine(k, v, w);
    assert line + "" == line;
    CutLineIs(k, v, w, "");
    PlainKeyStart(k);
    assert line[0] == k[0];
    NothingToSkip(line);
    assert CutLine(k, v, w)[0] == k[0];
    StripOfTrimmed(CutLine(k, v, w));
  }

  lemma HeaderLikeEntry(k: string, v: string, w: nat, section: string)
    requires PlainKey(k) && !NotHeader(k, Strstrip(v))
    ensures LineOf(EntryLine(k, v, w), section).Section?
  {
    hide Strstrip, StripRight, LineOf, PlainKey, EntryLine;
    PlainKeyStart(k);
    StripRightOfLine(k, v, w, section);
    CutLineEnds(k, v, w);
    HeaderIsSection(EntryLine(k, v, w), section);
  }

  lemma CutLineEnds(k: string, v: string, w: nat)
    requires k != "" && Strstrip(v) != ""
    ensures var line := CutLine(k, v, w);
      line != "" && line[0] == k[0] && line[|line| - 1] == Strstrip(v)[|Strstrip(v)| - 1]
  {
    hide Pad, Strstrip, StripRight;
    StripsCommute(v);
  }

  lemma HeaderIsSection(input: string, section: string)
    requires var line := Strstrip(input); line != "" && line[0] == '[' && line[|line| - 1] == ']'
    ensures LineOf(input, section).Section?
  {}

  /** A header without a name leaves the section as it was. */
  lemma NamelessReads(section: string)
    requires section == "" || (Trimmed(section) && Lower(section) && |section| <= ASCIILINESZ)
    ensures LineOf("[]", section) == Section(section)
  {
    hide Strstrip, Strlwc;
    StripOfTrimmed("[]");
    StripOfTrimmed(section);
    LowerOfLower(section);
    assert SECTION[1..][0] == Run("]") && "[]"[1..] == "]";
    assert Scan(SECTION, "[]") == Scan(SECTION[1..], "]");
    assert Scan(SECTION[1..], "]") == [];
  }

  /** A section header reads back as its name. */
  lemma SectionReads(name: string, section: string)
    requires name != "" && Trimmed(name) && Lower(name) && ']' !in name && |name| <= ASCIILINESZ
    ensures LineOf(SectionLine(name), section) == Section(name)
  {
    hide Scan, SECTION, Strstrip, Strlwc;
    var line := SectionLine(name);
    StripOfTrimmed(line);
    HeaderScan(name);
    StripOfTrimmed(name);
    LowerOfLower(name);
  }

  lemma HeaderScan(name: string)
    requires name != "" && ']' !in name
    ensures Scan(SECTION, SectionLine(name)) == [name]
  {
    var line := SectionLine(name);
    assert line[1..] == name + "]" && SECTION[1..] == [Run("]")] && SECTION[1..][1..] == [];
    RunLengthIs(name + "]", "]", |name|);
    assert (name + "]")[..|name|] == name;
    assert Scan(SECTION, line) == Scan(SECTION[1..], line[1..]);
  }
}
