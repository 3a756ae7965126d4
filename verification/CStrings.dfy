/** The C string routines the INI parser leans on. Strings are sequences without a NUL. */
module CStrings {

  const ASCIILINESZ: nat := 1024

  predicate IsSpace(c: char) { c == ' ' || '\t' <= c <= '\r' }

  function ToLower(c: char): char {
    if 'A' <= c <= 'Z' then c - 'A' + 'a' else c
  }

  // ------------------------------------------------------------ strlwc and strstrip

  function LowerAll(s: string): (r: string)
    ensures |r| == |s| && forall i | 0 <= i < |s| :: r[i] == ToLower(s[i])
  {
    seq(|s|, i requires 0 <= i < |s| => ToLower(s[i]))
  }

  /** strlwc: in lower case, cut at the size of its static buffer. */
  function Strlwc(s: string): string {
    LowerAll(if |s| <= ASCIILINESZ then s else s[..ASCIILINESZ])
  }

  function SkipSpace(s: string): (r: string)
    ensures |r| <= |s| && r == s[|s| - |r|..]
    ensures r != "" ==> !IsSpace(r[0])
    ensures forall i | 0 <= i < |s| - |r| :: IsSpace(s[i])
  {
    if s != "" && IsSpace(s[0]) then SkipSpace(s[1..]) else s
  }

  function StripRight(s: string): (r: string)
    ensures r <= s
    ensures r != "" ==> !IsSpace(r[|r| - 1])
    ensures forall i | |r| <= i < |s| :: IsSpace(s[i])
  {
    if s != "" && IsSpace(s[|s| - 1]) then StripRight(s[..|s| - 1]) else s
  }

  function Strstrip(s: string): string { StripRight(SkipSpace(s)) }

  /** No blank at either end. */
  predicate Trimmed(s: string) {
    s != "" ==> !IsSpace(s[0]) && !IsSpace(s[|s| - 1])
  }

  predicate Lower(s: string) {
    forall i | 0 <= i < |s| :: ToLower(s[i]) == s[i]
  }

  lemma StripIsTrimmed(s: string)
    ensures Trimmed(Strstrip(s))
  {}

  lemma StripOfTrimmed(s: string)
    requires Trimmed(s)
    ensures Strstrip(s) == s
  {}

  lemma {:induction false} StripRightPadded(s: string, pad: string)
    requires s != "" ==> !IsSpace(s[|s| - 1])
    requires forall i | 0 <= i < |pad| :: IsSpace(pad[i])
    ensures StripRight(s + pad) == s
    decreases |pad|
  {
    if pad == "" {
      assert s + pad == s;
    } else {
      assert (s + pad)[..|s + pad| - 1] == s + pad[..|pad| - 1];
      StripRightPadded(s, pad[..|pad| - 1]);
    }
  }

  predicate NoCapitals(s: string) {
    forall i | 0 <= i < |s| :: !('A' <= s[i] <= 'Z')
  }

  /** strlwc, by the codes of the characters: at most 1024 of them, 'A' to 'Z' 32 higher, the others as they were. */
  lemma StrlwcIs(s: string, i: nat)
    requires i < |s| && i < 1024
    ensures |Strlwc(s)| == (if |s| < 1024 then |s| else 1024)
    ensures Strlwc(s)[i] as int == s[i] as int + if 65 <= s[i] as int <= 90 then 32 else 0
    ensures NoCapitals(Strlwc(s))
  {}

  /** The blanks are those of isspace (section 7.4.1.10 of ISO C11). */
  lemma BlanksAre(c: char)
    ensures IsSpace(c) <==> c in " \t\n\U{B}\U{C}\r"
  {}

  lemma LowerOfLower(s: string)
    requires Lower(s) && |s| <= ASCIILINESZ
    ensures Strlwc(s) == s
  {}

  /** strlwc's loop over its buffer. */
  method StrlwcLoop(s: string) returns (l: string)
    ensures l == Strlwc(s)
  {
    l := "";
    var i := 0;
    while i < |s| && i < ASCIILINESZ
      invariant 0 <= i <= |s| && i <= ASCIILINESZ && l == LowerAll(s[..i])
    {
      l := l + [ToLower(s[i])];
      i := i + 1;
    }
    assert |s| <= ASCIILINESZ ==> s[..i] == s;
  }

  /** strstrip: a loop from the front, then one from the end of the copy. */
  method StrstripLoop(s: string) returns (l: string)
    ensures l == Strstrip(s)
  {
    var from := SkipLoop(s);
    var last := LastLoop(s[from..]);
    l := s[from..][..last];
  }

  method LastLoop(l: string) returns (last: nat)
    ensures last <= |l| && l[..last] == StripRight(l)
  {
    last := |l|;
    assert l[..last] == l;
    while last > 0 && IsSpace(l[last - 1])
      invariant 0 <= last <= |l|
      invariant StripRight(l[..last]) == StripRight(l)
    {
      assert l[..last][..last - 1] == l[..last - 1];
      last := last - 1;
    }
  }

  method SkipLoop(s: string) returns (from: nat)
    ensures from <= |s| && s[from..] == SkipSpace(s)
  {
    from := 0;
    while from < |s| && IsSpace(s[from])
      invariant 0 <= from <= |s|
      invariant SkipSpace(s[from..]) == SkipSpace(s)
    {
      assert s[from..][1..] == s[from + 1..];
      from := from + 1;
    }
  }

  // ------------------------------------------------------------ sscanf

  /**
    The directives of the sscanf formats in use (section 7.21.6.2 of ISO C11): white space
    skips any amount of blanks, an ordinary character must match, and a scan set takes the
    longest non-empty run of characters in the set, or not in it, and stores it.
   */
  datatype Directive = White | Lit(c: char) | Run(stops: string) | RunOf(chars: string)

  function RunLength(input: string, stops: string): (n: nat)
    ensures n <= |input| && (n < |input| ==> input[n] in stops)
    ensures forall i | 0 <= i < n :: input[i] !in stops
  {
    if input == "" || input[0] in stops then 0
    else
      var n := RunLength(input[1..], stops);
      assert forall i | 1 <= i < n + 1 :: input[i] == input[1..][i - 1];
      n + 1
  }

  function RunOfLength(input: string, chars: string): (n: nat)
    ensures n <= |input| && (n < |input| ==> input[n] !in chars)
    ensures forall i | 0 <= i < n :: input[i] in chars
  {
    if input == "" || input[0] !in chars then 0
    else
      var n := RunOfLength(input[1..], chars);
      assert forall i | 1 <= i < n + 1 :: input[i] == input[1..][i - 1];
      n + 1
  }

  /** The strings stored by sscanf, in order, up to the first directive that fails. */
  function Scan(fmt: seq<Directive>, input: string): seq<string>
    decreases |fmt|
  {
    if fmt == [] then []
    else
      match fmt[0]
      case White => Scan(fmt[1..], SkipSpace(input))
      case Lit(c) => if input != "" && input[0] == c then Scan(fmt[1..], input[1..]) else []
      case Run(stops) =>
        var n := RunLength(input, stops);
        if n == 0 then [] else [input[..n]] + Scan(fmt[1..], input[n..])
      case RunOf(chars) =>
        var n := RunOfLength(input, chars);
        if n == 0 then [] else [input[..n]] + Scan(fmt[1..], input[n..])
  }

  /** The C string in a buffer: what is in front of the first NUL. */
  function UpToNul(s: string): (r: string)
    ensures r <= s && '\0' !in r
    ensures '\0' !in s ==> r == s
  {
    s[..RunLength(s, "\0")]
  }

  lemma RunLengthIs(input: string, stops: string, n: nat)
    requires n <= |input| && (forall i | 0 <= i < n :: input[i] !in stops)
    requires n < |input| ==> input[n] in stops
    ensures RunLength(input, stops) == n
  {}
}
