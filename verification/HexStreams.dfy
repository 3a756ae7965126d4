/**
  What any stream at all does to the HEX loader, read off the stream: where records begin,
  which of them the loader gets through, and which makes it spin, overwrite its own
  variables, wait for input or return.
 */
module HexStreams {
  import opened MachineWords
  import opened CodeMemory
  import opened Options
  import opened HexFile
  import opened HexText

  // ------------------------------------------------------------ one record

  /** What becomes of the loader within a record; after Next it looks for a record from pos on. */
  datatype Fate = Hangs | Escapes | Ends(at: nat) | Starves | Next(pos: nat)

  datatype Got = Byte(val: byte, end: nat) | Other(fate: Fate)

  /** A byte of the header or of a segment; a colon in its place begins a record. */
  function HeaderByte(u: seq<byte>, pos: nat): (g: Got)
    requires pos <= |u|
    ensures g.Byte? ==> pos < g.end <= |u|
    ensures g.Other? && g.fate.Next? ==> pos <= g.fate.pos <= |u|
  {
    match TokenAt(u, pos, None)
    case Digits(v, q) => Byte(v, q)
    case LineFeed(_) => Other(Hangs)
    case Escape(q) => Other(Ends(q))
    case Colon(q) => Other(Next(q - 1))
    case Nothing => Other(Starves)
  }

  /** A checksum is whatever is found there. */
  function ChecksumFate(u: seq<byte>, pos: nat): (f: Fate)
    requires pos <= |u|
    ensures f.Next? ==> pos <= f.pos <= |u|
  {
    var t := TokenAt(u, pos, None);
    if t.Nothing? then Starves else Next(t.end)
  }

  /** So is a data byte: `left` of them go to addr and on, a u16. */
  function DataFate(u: seq<byte>, pos: nat, addr: nat, left: nat): (f: Fate)
    requires pos <= |u|
    ensures f.Next? ==> pos <= f.pos <= |u|
    decreases left
  {
    if left == 0 then ChecksumFate(u, pos)
    else
      var t := TokenAt(u, pos, None);
      if t.Nothing? then Starves
      else if addr < COMMONADDR_L then Escapes
      else DataFate(u, t.end, Inc16(addr), left - 1)
  }

  /** A length byte of 0 makes the loader's u8 count 256 data bytes. */
  function DataBytes(len: byte): nat { if len == 0 then 256 else ToNat(len) }

  function SegmentFate(u: seq<byte>, pos: nat): (f: Fate)
    requires pos <= |u|
    ensures f.Next? ==> pos <= f.pos <= |u|
  {
    match HeaderByte(u, pos)
    case Other(f) => f
    case Byte(_, q) =>
      match HeaderByte(u, q)
      case Other(f) => f
      case Byte(_, r) => ChecksumFate(u, r)
  }

  function EofFate(u: seq<byte>, pos: nat): (f: Fate)
    requires pos <= |u|
    ensures f.Next? ==> pos <= f.pos <= |u|
  {
    var t := TokenAt(u, pos, None);
    if t.Nothing? then Starves else Ends(t.end)
  }

  function BodyFate(u: seq<byte>, pos: nat, len: byte, addr: nat, recType: byte): (f: Fate)
    requires pos <= |u|
    ensures f.Next? ==> pos <= f.pos <= |u|
  {
    if recType == 0 then DataFate(u, pos, addr, DataBytes(len))
    else if recType == 1 then EofFate(u, pos)
    else if recType == 4 then SegmentFate(u, pos)
    else if recType == 5 then Hangs
    else Next(pos)
  }

  /** The record whose colon is just before pos. */
  function RecordFate(u: seq<byte>, pos: nat): (f: Fate)
    requires pos <= |u|
    ensures f.Next? ==> pos <= f.pos <= |u|
  {
    match HeaderByte(u, pos)
    case Other(f) => f
    case Byte(len, a) =>
      match HeaderByte(u, a)
      case Other(f) => f
      case Byte(high, b) =>
        match HeaderByte(u, b)
        case Other(f) => f
        case Byte(low, c) =>
          match HeaderByte(u, c)
          case Other(f) => f
          case Byte(recType, d) => BodyFate(u, d, len, Address(high, low), recType)
  }

  // ------------------------------------------------------------ what a record leaves behind

  /** Memory, high-water mark, and how often every counter but the junk's has been raised. */
  datatype Account = Account(mem: seq<byte>, top: nat, colons: nat, types: nat, sums: nat, segments: nat) {
    predicate Valid() { |mem| == COM_BANK0_LEN && top <= 0xFFFF }
  }

  /** A colon found within a record is counted. */
  function Seen(a: Account, t: Token): Account { if t.Colon? then a.(colons := a.colons + 1) else a }

  /** The checksum counter is raised unless digits are found that make the sum zero, and the length was right. */
  function ChecksumAccount(u: seq<byte>, pos: nat, sum: byte, short: bool, a: Account): Account
    requires pos <= |u|
  {
    var t := TokenAt(u, pos, None);
    if t.Nothing? || (t.Digits? && Add8(sum, t.val) == 0 && !short) then a
    else Seen(a, t).(sums := a.sums + 1)
  }

  /** Where digits are missing the byte before is stored again, and not summed. */
  function DataAccount(u: seq<byte>, pos: nat, addr: nat, left: nat, last: byte, sum: byte, a: Account): (b: Account)
    requires pos <= |u| && a.Valid() && addr <= 0xFFFF
    decreases left
  {
    if left == 0 then ChecksumAccount(u, pos, sum, false, a)
    else
      var t := TokenAt(u, pos, None);
      if t.Nothing? || addr < 0x2000 then a
      else
        var v := if t.Digits? then t.val else last;
        var sum' := if t.Digits? then Add8(sum, v) else sum;
        DataAccount(u, t.end, Inc16(addr), left - 1, v, sum', Stores(Seen(a, t), addr, v))
  }

  function Stores(a: Account, addr: nat, v: byte): (b: Account)
    requires a.Valid() && 0x2000 <= addr <= 0xFFFF
    ensures b.Valid()
  {
    a.(mem := a.mem[addr - 0x2000 := v], top := if addr > a.top then addr else a.top)
  }

  /** A segment that is not mapped, and a length that is not two, are counted. */
  function SegmentAccount(u: seq<byte>, pos: nat, sum: byte, short: bool, a: Account): Account
    requires pos <= |u|
  {
    match HeaderByte(u, pos)
    case Other(_) => Seen(a, TokenAt(u, pos, None))
    case Byte(high, q) =>
      match HeaderByte(u, q)
      case Other(_) => Seen(a, TokenAt(u, q, None))
      case Byte(low, r) =>
        var b := if 0xFB <= Address(high, low) <= 0xFE then a else a.(segments := a.segments + 1);
        ChecksumAccount(u, r, Add8(Add8(sum, high), low), short, b)
  }

  /** Types 02, 03 and above 5 are only counted. */
  function BodyAccount(
      u: seq<byte>, pos: nat, len: byte, high: byte, low: byte, recType: byte, a: Account): Account
    requires pos <= |u| && a.Valid()
  {
    var sum := Add8(Add8(Add8(Add8(0, len), high), low), recType);
    if recType == 0 then
      AddressFits(high, low);
      DataAccount(u, pos, Address(high, low), DataBytes(len), low, sum, a)
    else if recType == 1 then Seen(a, TokenAt(u, pos, None))
    else if recType == 4 then SegmentAccount(u, pos, sum, len != 2, a)
    else if recType == 5 then a
    else a.(types := a.types + 1)
  }

  /** What the record whose colon is just before pos makes of an account. */
  function RecordAccount(u: seq<byte>, pos: nat, a: Account): Account
    requires pos <= |u| && a.Valid()
  {
    match HeaderByte(u, pos)
    case Other(_) => Seen(a, TokenAt(u, pos, None))
    case Byte(len, b) =>
      match HeaderByte(u, b)
      case Other(_) => Seen(a, TokenAt(u, b, None))
      case Byte(high, c) =>
        match HeaderByte(u, c)
        case Other(_) => Seen(a, TokenAt(u, c, None))
        case Byte(low, d) =>
          match HeaderByte(u, d)
          case Other(_) => Seen(a, TokenAt(u, d, None))
          case Byte(recType, e) => BodyAccount(u, e, len, high, low, recType, a)
  }

  // ------------------------------------------------------------ the loader in one record

  /** The counters, memory and mark are those of the account, the counters modulo 2^16. */
  ghost predicate Tells(errs: seq<nat>, mem: seq<byte>, top: nat, a: Account) {
    && mem == a.mem && top == a.top && |errs| == 8
    && errs[0] == a.colons % 0x1_0000 && errs[1] == a.types % 0x1_0000 && errs[3] == 0
    && errs[4] == a.sums % 0x1_0000 && errs[5] == a.segments % 0x1_0000
  }

  ghost predicate Shows(p: Parser, a: Account) { Tells(p.errs, p.mem, p.top, a) }

  /** From p at pos the loader meets fate f, with account a; after Next it is r, looking for a record. */
  ghost predicate Meets(p: Parser, u: seq<byte>, pos: nat, f: Fate, r: Parser, a: Account)
    requires p.Valid() && pos <= |u|
  {
    match f
    case Hangs => Run(p, u, pos).Spinning?
    case Escapes => Run(p, u, pos).Escaped?
    case Ends(e) => var o := Run(p, u, pos); o.Finished? && o.pos == e && Tells(o.errs, o.mem, o.top, a)
    case Starves => Run(p, u, pos).Waiting?
    case Next(q) => q <= |u| && r.Valid() && r.state == StartRec && Run(p, u, pos) == Run(r, u, q) && Shows(r, a)
  }

  lemma MeetsLater(p: Parser, u: seq<byte>, pos: nat, p': Parser, pos': nat, f: Fate, r: Parser, a: Account)
    requires p.Valid() && pos <= |u| && p'.Valid() && pos' <= |u|
    requires Run(p, u, pos) == Run(p', u, pos') && Meets(p', u, pos', f, r, a)
    ensures Meets(p, u, pos, f, r, a)
  {
    hide Run, Shows, Tells;
  }

  lemma StopsAt(p: Parser, u: seq<byte>, pos: nat, o: Outcome)
    requires p.Valid() && pos <= |u| && Step(p, u, pos) == Stop(o)
    ensures Run(p, u, pos) == o
  {
    hide Step;
  }

  /** Each counter raised once more. */
  lemma RaisedTells(errs: seq<nat>, mem: seq<byte>, top: nat, a: Account)
    requires Tells(errs, mem, top, a)
    ensures |errs| == 8
    ensures Tells(Bump(errs, ERR_REC_TYPE), mem, top, a.(types := a.types + 1))
    ensures Tells(Bump(errs, ERR_CHK_SUME), mem, top, a.(sums := a.sums + 1))
    ensures Tells(Bump(errs, ERR_SEGMENT), mem, top, a.(segments := a.segments + 1))
  {}

  /** A read, and what it leaves of the loader. */
  lemma ReadIs(p: Parser, u: seq<byte>, pos: nat, a: Account)
    requires p.Valid() && pos <= |u| && Shows(p, a)
    ensures var t, n := TokenAt(u, pos, None), ReadHex(p, u, pos);
      && (t.Nothing? ==> n == Stop(Waiting))
      && (!t.Nothing? ==> n.Go? && n.pos == t.end && Shows(n.p, Seen(a, t)))
      && (!t.Nothing? ==> n.p == p.(err := RetOf(t), errs := n.p.errs, hex := n.p.hex, chk := n.p.chk))
      && (!t.Nothing? ==> n.p.hex == if t.Digits? then t.val else p.hex)
      && (!t.Nothing? ==> n.p.chk == if t.Digits? then Add8(p.chk, t.val) else p.chk)
  {
    hide ReadHex, TokenAt, Add8;
    ReadsToken(p, u, pos);
    ReadCounts(p, u, pos);
    if ReadHex(p, u, pos).Go? {
      var errs := ReadHex(p, u, pos).p.errs;
      assert errs[3] == errs[3..][0] && errs[4] == errs[3..][1] && errs[5] == errs[3..][2];
    }
  }

  /** A header or segment byte that is missing, once the loader is in HANDLE_ERROR. */
  lemma CutShort(p: Parser, u: seq<byte>, pos: nat, s: Parser, at: nat, a: Account) returns (r: Parser)
    requires p.Valid() && pos <= |u| && s.Valid() && at <= |u|
    requires HeaderByte(u, at).Other? && !TokenAt(u, at, None).Nothing?
    requires Step(p, u, pos) == Go(s, TokenAt(u, at, None).end)
    requires s.state == HandleError && s.err == RetOf(TokenAt(u, at, None)) && Shows(s, a)
    ensures Meets(p, u, pos, HeaderByte(u, at).fate, r, a)
  {
    hide Run, TokenAt, Step, Meets, Shows;
    var q := TokenAt(u, at, None).end;
    RunStep(p, u, pos, s, q);
    r := ErrorMeets(s, u, at, a);
    MeetsLater(p, u, pos, s, q, HeaderByte(u, at).fate, r, a);
  }

  /** HANDLE_ERROR, after a read that found no byte at pos. */
  lemma ErrorMeets(p: Parser, u: seq<byte>, pos: nat, a: Account) returns (r: Parser)
    requires p.Valid() && pos <= |u| && HeaderByte(u, pos).Other? && !TokenAt(u, pos, None).Nothing?
    requires p.state == HandleError && p.err == RetOf(TokenAt(u, pos, None)) && Shows(p, a)
    ensures Meets(p, u, TokenAt(u, pos, None).end, HeaderByte(u, pos).fate, r, a)
  {
    hide Run, TokenAt;
    var t := TokenAt(u, pos, None);
    r := p;
    match t {
      case LineFeed(q) => StopsAt(p, u, q, Spinning);
      case Escape(q) => EscapeFinishes(p, u, q);
      case Colon(q) => r := ColonAgain(p, u, q);
    }
  }

  /** The colon that cut a record short begins the next one. */
  lemma ColonAgain(p: Parser, u: seq<byte>, q: nat) returns (r: Parser)
    requires p.Valid() && p.state == HandleError && p.err == ExtraRecord
    requires 0 < q <= |u| && u[q - 1] == COLON
    ensures r.Valid() && r.state == StartRec && Run(p, u, q) == Run(r, u, q - 1)
    ensures r.errs == p.errs && r.mem == p.mem && r.top == p.top
  {
    hide Run;
    var again := p.(chk := 0, state := GetRecLen);
    RunStep(p, u, q, again, q);
    r := p.(state := StartRec);
    ColonRuns(r, u, q - 1);
  }

  lemma EscapeFinishes(p: Parser, u: seq<byte>, pos: nat)
    requires p.Valid() && pos <= |u| && p.state == HandleError && p.err == ExitRet
    ensures Run(p, u, pos) == Finished(p.errs, p.mem, p.top, pos)
  {
    hide Run;
    var stopped := p.(state := EndDownload);
    RunStep(p, u, pos, stopped, pos);
    EndFinishes(stopped, u, pos);
  }

  lemma EndFinishes(p: Parser, u: seq<byte>, pos: nat)
    requires p.Valid() && pos <= |u| && p.state == EndDownload
    ensures Run(p, u, pos) == Finished(p.errs, p.mem, p.top, pos)
  {}

  lemma WaitingStarves(p: Parser, u: seq<byte>, pos: nat, r: Parser, a: Account)
    requires p.Valid() && pos <= |u| && Step(p, u, pos) == Stop(Waiting)
    ensures Meets(p, u, pos, Starves, r, a)
  {
    hide Step;
  }

  lemma RecLenMeets(p: Parser, u: seq<byte>, pos: nat, a: Account) returns (r: Parser)
    requires p.Valid() && pos <= |u| && p.state == GetRecLen && Shows(p, a)
    ensures var g := HeaderByte(u, pos);
      && (g.Other? ==> Meets(p, u, pos, g.fate, r, Seen(a, TokenAt(u, pos, None))))
      && (g.Byte? ==> r.Valid() && r.state == GetOffset && r.recLen == ToNat(g.val) && Shows(r, a))
      && (g.Byte? ==> r.chk == Add8(p.chk, g.val) && Run(p, u, pos) == Run(r, u, g.end))
  {
    hide Run, TokenAt, ToNat, Meets, Step, Add8;
    LengthIsRead(p, u, pos, a);
    r := p;
    if TokenAt(u, pos, None).Nothing? {
      WaitingStarves(p, u, pos, r, Seen(a, TokenAt(u, pos, None)));
    } else {
      var Go(s, q) := Step(p, u, pos);
      if s.state == HandleError {
        r := CutShort(p, u, pos, s, pos, Seen(a, TokenAt(u, pos, None)));
      } else {
        RunStep(p, u, pos, s, q);
        r := s;
      }
    }
  }

  lemma LengthIsRead(p: Parser, u: seq<byte>, pos: nat, a: Account)
    requires p.Valid() && pos <= |u| && p.state == GetRecLen && Shows(p, a)
    ensures var t, n := TokenAt(u, pos, None), Step(p, u, pos);
      && (t.Nothing? ==> n == Stop(Waiting))
      && (!t.Nothing? ==> n.Go? && n.pos == t.end && n.p.Valid() && n.p.err == RetOf(t) && Shows(n.p, Seen(a, t)))
      && (!t.Nothing? ==> n.p.state == if t.Digits? then GetOffset else HandleError)
      && (t.Digits? ==> n.p.recLen == ToNat(t.val) && n.p.chk == Add8(p.chk, t.val))
  {
    hide ReadHex, TokenAt, ToNat, Add8;
    ReadIs(p, u, pos, a);
  }

  lemma OffsetMeets(p: Parser, u: seq<byte>, pos: nat, a: Account) returns (r: Parser)
    requires p.Valid() && pos <= |u| && p.state == GetOffset && Shows(p, a)
    ensures HeaderByte(u, pos).Other? ==>
      Meets(p, u, pos, HeaderByte(u, pos).fate, r, Seen(a, TokenAt(u, pos, None)))
    ensures HeaderByte(u, pos).Byte? ==>
      var Byte(high, q) := HeaderByte(u, pos);
      var g := HeaderByte(u, q);
      && (g.Other? ==> Meets(p, u, pos, g.fate, r, Seen(a, TokenAt(u, q, None))))
      && (g.Byte? ==> r.Valid() && r.state == GetRecType && r.recLen == p.recLen && Shows(r, a))
      && (g.Byte? ==> r.hex == g.val && r.chk == Add8(Add8(p.chk, high), g.val))
      && (g.Byte? ==> r.addr == Address(high, g.val) && Run(p, u, pos) == Run(r, u, g.end))
  {
    hide Run, TokenAt, Meets, Step, Add8, Address;
    r := p;
    var t := TokenAt(u, pos, None);
    HighIsRead(p, u, pos, a);
    if t.Nothing? {
      WaitingStarves(p, u, pos, r, Seen(a, t));
    } else if !t.Digits? {
      r := CutShort(p, u, pos, Step(p, u, pos).p, pos, Seen(a, t));
    } else {
      var t2 := TokenAt(u, t.end, None);
      LowIsRead(p, u, pos, a);
      if t2.Nothing? {
        WaitingStarves(p, u, pos, r, Seen(a, t2));
      } else if !t2.Digits? {
        r := CutShort(p, u, pos, Step(p, u, pos).p, t.end, Seen(a, t2));
      } else {
        r := Step(p, u, pos).p;
        RunStep(p, u, pos, r, t2.end);
      }
    }
  }

  lemma HighIsRead(p: Parser, u: seq<byte>, pos: nat, a: Account)
    requires p.Valid() && pos <= |u| && p.state == GetOffset && Shows(p, a)
    ensures var t, n := TokenAt(u, pos, None), Step(p, u, pos);
      && (t.Nothing? ==> n == Stop(Waiting))
      && (!t.Nothing? && !t.Digits? ==>
        n.Go? && n.pos == t.end && n.p.state == HandleError && n.p.err == RetOf(t) && Shows(n.p, Seen(a, t)))
  {
    hide ReadHex, TokenAt, ToNat, OffsetStep, Add8;
    OffsetIsStep(p, u, pos);
    OffsetStepIs(p, u, pos);
    ReadIs(p, u, pos, a);
  }

  lemma LowIsRead(p: Parser, u: seq<byte>, pos: nat, a: Account)
    requires p.Valid() && pos <= |u| && p.state == GetOffset && Shows(p, a) && TokenAt(u, pos, None).Digits?
    ensures var Digits(high, q) := TokenAt(u, pos, None);
      var t, n := TokenAt(u, q, None), Step(p, u, pos);
      && (t.Nothing? ==> n == Stop(Waiting))
      && (!t.Nothing? ==> n.Go? && n.pos == t.end && n.p.err == RetOf(t) && Shows(n.p, Seen(a, t)))
      && (!t.Nothing? ==> n.p.state == if t.Digits? then GetRecType else HandleError)
      && (t.Digits? ==> n.p.recLen == p.recLen && n.p.addr == Address(high, t.val) && n.p.hex == t.val)
      && (t.Digits? ==> n.p.chk == Add8(Add8(p.chk, high), t.val))
  {
    hide ReadHex, TokenAt, ToNat, HighByte, OffsetStep, Add8;
    OffsetIsStep(p, u, pos);
    OffsetStepIs(p, u, pos);
    ReadIs(p, u, pos, a);
    var first := ReadHex(p, u, pos);
    ReadIs(first.p, u, first.pos, a);
  }

  lemma RecTypeMeets(p: Parser, u: seq<byte>, pos: nat, a: Account) returns (r: Parser)
    requires p.Valid() && pos <= |u| && p.state == GetRecType && Shows(p, a)
    ensures var g := HeaderByte(u, pos);
      && (g.Other? ==> Meets(p, u, pos, g.fate, r, Seen(a, TokenAt(u, pos, None))))
      && (g.Byte? ==> r.Valid() && r.state == (if g.val > 5 then UnknownRec else StateOfType(g.val)))
      && (g.Byte? ==> r.recLen == p.recLen && r.addr == p.addr && (g.val <= 5 ==> r.i == 0))
      && (g.Byte? ==> r.hex == p.hex && r.chk == Add8(p.chk, g.val) && Shows(r, a))
      && (g.Byte? ==> Run(p, u, pos) == Run(r, u, g.end))
  {
    hide Run, TokenAt, Meets, Step, Add8;
    TypeIsRead(p, u, pos, a);
    r := p;
    if TokenAt(u, pos, None).Nothing? {
      WaitingStarves(p, u, pos, r, Seen(a, TokenAt(u, pos, None)));
    } else {
      var Go(s, q) := Step(p, u, pos);
      if s.state == HandleError {
        r := CutShort(p, u, pos, s, pos, Seen(a, TokenAt(u, pos, None)));
      } else {
        RunStep(p, u, pos, s, q);
        r := s;
      }
    }
  }

  lemma TypeIsRead(p: Parser, u: seq<byte>, pos: nat, a: Account)
    requires p.Valid() && pos <= |u| && p.state == GetRecType && Shows(p, a)
    ensures var t, n := TokenAt(u, pos, None), Step(p, u, pos);
      && (t.Nothing? ==> n == Stop(Waiting))
      && (!t.Nothing? ==> n.Go? && n.pos == t.end && n.p.Valid() && n.p.err == RetOf(t) && Shows(n.p, Seen(a, t)))
      && (!t.Nothing? && !t.Digits? ==> n.p.state == HandleError)
      && (t.Digits? ==> n.p.state == (if t.val > 5 then UnknownRec else StateOfType(t.val)))
      && (t.Digits? ==> n.p.recLen == p.recLen && n.p.addr == p.addr && (t.val <= 5 ==> n.p.i == 0))
      && (t.Digits? ==> n.p.hex == p.hex && n.p.chk == Add8(p.chk, t.val))
  {
    hide ReadHex, TokenAt, StateOfType, Add8;
    ReadIs(p, u, pos, a);
  }

  lemma ChecksumMeets(p: Parser, u: seq<byte>, pos: nat, a: Account) returns (r: Parser)
    requires p.Valid() && pos <= |u| && p.state == GetChkSume && Shows(p, a)
    ensures Meets(p, u, pos, ChecksumFate(u, pos), r, ChecksumAccount(u, pos, p.chk, p.recLen != 0, a))
  {
    hide Run, TokenAt, Step, Add8;
    SumIsRead(p, u, pos, a);
    r := p;
    if TokenAt(u, pos, None).Nothing? {
      WaitingStarves(p, u, pos, r, a);
    } else {
      var Go(s, q) := Step(p, u, pos);
      RunStep(p, u, pos, s, q);
      r := s;
    }
  }

  lemma SumIsRead(p: Parser, u: seq<byte>, pos: nat, a: Account)
    requires p.Valid() && pos <= |u| && p.state == GetChkSume && Shows(p, a)
    ensures var t, n := TokenAt(u, pos, None), Step(p, u, pos);
      && (t.Nothing? ==> n == Stop(Waiting))
      && (!t.Nothing? ==> n.Go? && n.pos == t.end && n.p.Valid() && n.p.state == StartRec)
      && (!t.Nothing? ==> Shows(n.p, ChecksumAccount(u, pos, p.chk, p.recLen != 0, a)))
  {
    hide ReadHex, TokenAt, Add8, Bump, Tells;
    ReadIs(p, u, pos, a);
    var n := ReadHex(p, u, pos);
    if n.Go? { RaisedTells(n.p.errs, n.p.mem, n.p.top, Seen(a, TokenAt(u, pos, None))); }
  }

  lemma {:induction false} DataMeets(p: Parser, u: seq<byte>, pos: nat, left: nat, a: Account) returns (r: Parser)
    requires p.Valid() && pos <= |u| && p.state == GetRecData && 1 <= left <= 256 && p.recLen == left % 256
    requires a.Valid() && p.addr <= 0xFFFF && Shows(p, a)
    ensures Meets(p, u, pos, DataFate(u, pos, p.addr, left), r, DataAccount(u, pos, p.addr, left, p.hex, p.chk, a))
    decreases left
  {
    hide Run, ReadHex, TokenAt, Meets, ChecksumFate, ChecksumAccount, Inc16, Shows, Stores, Add8, Step;
    r := p;
    var t := TokenAt(u, pos, None);
    DataIsRead(p, u, pos, left, a);
    if t.Nothing? {
      WaitingStarves(p, u, pos, r, a);
    } else if p.addr < COMMONADDR_L {
      StopsAt(p, u, pos, Escaped);
      EscapedEscapes(p, u, pos, r, a);
    } else {
      var s := Step(p, u, pos).p;
      var v := if t.Digits? then t.val else p.hex;
      var b := Stores(Seen(a, t), p.addr, v);
      RunStep(p, u, pos, s, t.end);
      if left == 1 {
        r := ChecksumMeets(s, u, t.end, b);
        assert DataFate(u, t.end, Inc16(p.addr), 0) == ChecksumFate(u, t.end);
        assert DataAccount(u, t.end, Inc16(p.addr), 0, s.hex, s.chk, b) == ChecksumAccount(u, t.end, s.chk, false, b);
      } else {
        r := DataMeets(s, u, t.end, left - 1, b);
      }
      MeetsLater(p, u, pos, s, t.end, DataFate(u, t.end, Inc16(p.addr), left - 1), r,
        DataAccount(u, t.end, Inc16(p.addr), left - 1, s.hex, s.chk, b));
    }
  }

  lemma DataIsRead(p: Parser, u: seq<byte>, pos: nat, left: nat, a: Account)
    requires p.Valid() && pos <= |u| && p.state == GetRecData && 1 <= left <= 256 && p.recLen == left % 256
    requires a.Valid() && Shows(p, a)
    ensures p.addr <= 0xFFFF
    ensures var t, n := TokenAt(u, pos, None), Step(p, u, pos);
      && (t.Nothing? ==> n == Stop(Waiting))
      && (!t.Nothing? && p.addr < COMMONADDR_L ==> n == Stop(Escaped))
      && (!t.Nothing? && COMMONADDR_L <= p.addr ==>
        && n.Go? && n.pos == t.end && n.p.Valid() && n.p.addr == Inc16(p.addr) && n.p.recLen == left - 1
        && n.p.state == (if left == 1 then GetChkSume else GetRecData)
        && n.p.hex == (if t.Digits? then t.val else p.hex)
        && n.p.chk == (if t.Digits? then Add8(p.chk, t.val) else p.chk)
        && Shows(n.p, Stores(Seen(a, t), p.addr, n.p.hex)))
  {
    hide ReadHex, TokenAt, Add8, DataStep, Inc16;
    DataStepIs(p, u, pos);
    ReadIs(p, u, pos, a);
    assert Dec8(p.recLen) == left - 1;
  }

  lemma EscapedEscapes(p: Parser, u: seq<byte>, pos: nat, r: Parser, a: Account)
    requires p.Valid() && pos <= |u| && Run(p, u, pos) == Escaped
    ensures Meets(p, u, pos, Escapes, r, a)
  {}

  /** One of the two segment bytes. */
  lemma SegmentByteMeets(p: Parser, u: seq<byte>, pos: nat, a: Account) returns (r: Parser)
    requires p.Valid() && pos <= |u| && p.state == GetExtLinAddr && Shows(p, a)
    ensures var g := HeaderByte(u, pos);
      && (g.Other? ==> Meets(p, u, pos, g.fate, r, Seen(a, TokenAt(u, pos, None))))
      && (g.Byte? ==> r.Valid() && Run(p, u, pos) == Run(r, u, g.end) && r.recLen == Dec8(p.recLen))
      && (g.Byte? ==> r.chk == Add8(p.chk, g.val))
      && (g.Byte? && p.i == 0 ==> r.state == GetExtLinAddr && r.i == 1 && r.temp == HighByte(g.val) && Shows(r, a))
      && (g.Byte? && p.i != 0 ==> r.state == GetChkSume && Shows(r, SegmentSeen(a, p.temp + ToNat(g.val))))
  {
    hide Run, TokenAt, ToNat, HighByte, Meets, Dec8, Step, Add8, Shows, SegmentSeen;
    SegmentIsRead(p, u, pos, a);
    r := p;
    if TokenAt(u, pos, None).Nothing? {
      WaitingStarves(p, u, pos, r, Seen(a, TokenAt(u, pos, None)));
    } else {
      var Go(s, q) := Step(p, u, pos);
      if s.state == HandleError {
        r := CutShort(p, u, pos, s, pos, Seen(a, TokenAt(u, pos, None)));
      } else {
        RunStep(p, u, pos, s, q);
        r := s;
      }
    }
  }

  function SegmentSeen(a: Account, segment: nat): Account {
    if 0xFB <= segment <= 0xFE then a else a.(segments := a.segments + 1)
  }

  lemma SegmentIsRead(p: Parser, u: seq<byte>, pos: nat, a: Account)
    requires p.Valid() && pos <= |u| && p.state == GetExtLinAddr && Shows(p, a)
    ensures var t, n := TokenAt(u, pos, None), Step(p, u, pos);
      && (t.Nothing? ==> n == Stop(Waiting))
      && (!t.Nothing? ==> n.Go? && n.pos == t.end && n.p.Valid() && n.p.err == RetOf(t))
      && (!t.Nothing? ==> n.p.recLen == Dec8(p.recLen) && n.p.chk == if t.Digits? then Add8(p.chk, t.val) else p.chk)
      && (!t.Nothing? && !t.Digits? ==> n.p.state == HandleError && Shows(n.p, Seen(a, t)))
      && (t.Digits? && p.i == 0 ==>
        n.p.state == GetExtLinAddr && n.p.i == 1 && n.p.temp == HighByte(t.val) && Shows(n.p, a))
      && (t.Digits? && p.i != 0 ==> n.p.state == GetChkSume && Shows(n.p, SegmentSeen(a, p.temp + ToNat(t.val))))
  {
    hide ReadHex, TokenAt, ToNat, HighByte, Add8, Dec8, SegmentStep, Bump, Tells;
    SegmentStepIs(p, u, pos);
    ReadIs(p, u, pos, a);
    var n := ReadHex(p, u, pos);
    if n.Go? { RaisedTells(n.p.errs, n.p.mem, n.p.top, Seen(a, TokenAt(u, pos, None))); }
  }

  lemma SegmentMeets(p: Parser, u: seq<byte>, pos: nat, len: byte, a: Account) returns (r: Parser)
    requires p.Valid() && pos <= |u| && p.state == GetExtLinAddr && p.i == 0 && p.recLen == ToNat(len) && Shows(p, a)
    ensures Meets(p, u, pos, SegmentFate(u, pos), r, SegmentAccount(u, pos, p.chk, len != 2, a))
  {
    hide Run, HeaderByte, ChecksumFate, ChecksumAccount, Meets, Shows, Add8, ToNat, Dec8;
    hide SegmentSeen, Address, HighByte;
    r := SegmentByteMeets(p, u, pos, a);
    if HeaderByte(u, pos).Byte? {
      var s, q := r, HeaderByte(u, pos).end;
      var sum := SegmentAccount(u, pos, p.chk, len != 2, a);
      r := SegmentByteMeets(s, u, q, a);
      if HeaderByte(u, q).Byte? {
        var t, e := r, HeaderByte(u, q).end;
        TwoTaken(len);
        SegmentIs(HeaderByte(u, pos).val, HeaderByte(u, q).val, a);
        r := ChecksumMeets(t, u, e, SegmentSeen(a, Address(HeaderByte(u, pos).val, HeaderByte(u, q).val)));
        MeetsLater(s, u, q, t, e, ChecksumFate(u, e), r, sum);
      }
      MeetsLater(p, u, pos, s, q, SegmentFate(u, pos), r, sum);
    }
  }

  lemma TwoTaken(len: byte)
    ensures Dec8(Dec8(ToNat(len))) == 0 <==> len == 2
  {
    if ToNat(len) == 2 { OnlyTwo(len); }
  }

  lemma OnlyTwo(b: byte)
    requires ToNat(b) == 2
    ensures b == 2
  {}

  lemma SegmentIs(high: byte, low: byte, a: Account)
    ensures HighByte(high) + ToNat(low) == Address(high, low)
    ensures SegmentSeen(a, Address(high, low))
         == if 0xFB <= Address(high, low) <= 0xFE then a else a.(segments := a.segments + 1)
  {
    hide HighByte, ToNat;
  }

  lemma EofMeets(p: Parser, u: seq<byte>, pos: nat, r: Parser, a: Account)
    requires p.Valid() && pos <= |u| && p.state == GetRecEof && Shows(p, a)
    ensures Meets(p, u, pos, EofFate(u, pos), r, Seen(a, TokenAt(u, pos, None)))
  {
    hide Run, ReadHex, TokenAt;
    ReadIs(p, u, pos, a);
    if TokenAt(u, pos, None).Nothing? {
      WaitingStarves(p, u, pos, r, a);
    } else {
      var Go(s, q) := Step(p, u, pos);
      RunStep(p, u, pos, s, q);
      EndFinishes(s, u, q);
    }
  }

  lemma UnknownMeets(p: Parser, u: seq<byte>, pos: nat, a: Account) returns (r: Parser)
    requires p.Valid() && pos <= |u| && p.state in {UnknownRec, GetExtSegAddr, GetStartSegAddr} && Shows(p, a)
    ensures Meets(p, u, pos, Next(pos), r, a.(types := a.types + 1))
  {
    hide Run, Bump, Tells;
    RaisedTells(p.errs, p.mem, p.top, a);
    var s := p;
    if p.state != UnknownRec {
      s := p.(state := UnknownRec);
      RunStep(p, u, pos, s, pos);
    }
    r := Step(s, u, pos).p;
    RunStep(s, u, pos, r, pos);
  }

  lemma BodyMeets(p: Parser, u: seq<byte>, pos: nat, len: byte, high: byte, recType: byte, a: Account)
    returns (r: Parser)
    requires p.Valid() && pos <= |u| && p.recLen == ToNat(len) && (recType <= 5 ==> p.i == 0)
    requires p.state == if recType > 5 then UnknownRec else StateOfType(recType)
    requires p.addr == Address(high, p.hex) && a.Valid() && Shows(p, a)
    requires p.chk == Add8(Add8(Add8(Add8(0, len), high), p.hex), recType)
    ensures Meets(p, u, pos, BodyFate(u, pos, len, p.addr, recType), r,
      BodyAccount(u, pos, len, high, p.hex, recType, a))
  {
    hide Run, DataFate, SegmentFate, EofFate, DataAccount, SegmentAccount, ToNat, TokenAt, Meets, Shows, Address, Add8;
    r := p;
    if recType == 0 {
      LengthIs(len);
      AddressFits(high, p.hex);
      r := DataMeets(p, u, pos, DataBytes(len), a);
    } else if recType == 1 {
      EofMeets(p, u, pos, r, a);
    } else if recType == 4 {
      r := SegmentMeets(p, u, pos, len, a);
    } else if recType == 5 {
      StopsAt(p, u, pos, Spinning);
      SpinningHangs(p, u, pos, r, a);
    } else {
      r := UnknownMeets(p, u, pos, a);
    }
  }

  lemma SpinningHangs(p: Parser, u: seq<byte>, pos: nat, r: Parser, a: Account)
    requires p.Valid() && pos <= |u| && Run(p, u, pos) == Spinning
    ensures Meets(p, u, pos, Hangs, r, a)
  {}

  lemma LengthIs(len: byte)
    ensures 1 <= DataBytes(len) <= 256 && ToNat(len) == DataBytes(len) % 256
  {
    hide ToNat;
    ZeroByte();
    if len != 0 {
      if ToNat(len) == 0 { OnlyZero(len); }
      SmallModulo(ToNat(len));
    }
  }

  lemma SmallModulo(n: nat)
    requires n < 256
    ensures n % 256 == n && 256 % 256 == 0
  {}

  lemma OnlyZero(b: byte)
    requires ToNat(b) == 0
    ensures b == 0
  {}

  lemma AddressFits(high: byte, low: byte)
    ensures Address(high, low) <= 0xFFFF
  {}

  lemma RecordMeets(p: Parser, u: seq<byte>, pos: nat, a: Account) returns (r: Parser)
    requires p.Valid() && pos <= |u| && p.state == GetRecLen && p.chk == 0 && a.Valid() && Shows(p, a)
    ensures Meets(p, u, pos, RecordFate(u, pos), r, RecordAccount(u, pos, a))
  {
    hide Run, HeaderByte, BodyFate, BodyAccount, Meets, Address, StateOfType, Shows, Add8;
    var f, z := RecordFate(u, pos), RecordAccount(u, pos, a);
    r := RecLenMeets(p, u, pos, a);
    if HeaderByte(u, pos).Byte? {
      var Byte(len, b) := HeaderByte(u, pos);
      var s := r;
      r := OffsetMeets(s, u, b, a);
      if HeaderByte(u, b).Byte? && HeaderByte(u, HeaderByte(u, b).end).Byte? {
        var c := HeaderByte(u, HeaderByte(u, b).end).end;
        var t := r;
        r := RecTypeMeets(t, u, c, a);
        if HeaderByte(u, c).Byte? {
          var Byte(recType, d) := HeaderByte(u, c);
          var v := r;
          r := BodyMeets(v, u, d, len, HeaderByte(u, b).val, recType, a);
          MeetsLater(t, u, c, v, d, f, r, z);
        }
        MeetsLater(s, u, b, t, c, f, r, z);
      }
      MeetsLater(p, u, pos, s, b, f, r, z);
    }
  }

  // ------------------------------------------------------------ the whole stream

  /** Where the loader, looking for a record, finds its colon, or an escape. */
  datatype Start = RecordFrom(pos: nat) | Stopped(at: nat) | Silent

  function NextStart(u: seq<byte>, pos: nat): (s: Start)
    requires pos <= |u|
    ensures s.RecordFrom? ==> pos < s.pos <= |u|
    decreases |u| - pos
  {
    if pos == |u| then Silent
    else if u[pos] == ESC then Stopped(pos + 1)
    else if u[pos] == COLON then RecordFrom(pos + 1)
    else NextStart(u, pos + 1)
  }

  /** Where the loader looks on after getting through k records, if it does. */
  function AfterRecords(u: seq<byte>, pos: nat, k: nat): (q: Option<nat>)
    requires pos <= |u|
    ensures q.Some? ==> q.value <= |u|
    decreases k
  {
    if k == 0 then Some(pos)
    else
      match NextStart(u, pos)
      case RecordFrom(q) =>
        (match RecordFate(u, q)
         case Next(r) => AfterRecords(u, r, k - 1)
         case _ => None)
      case _ => None
  }

  /** What the loader has done by then. */
  function AccountAfter(u: seq<byte>, pos: nat, k: nat, a: Account): Account
    requires pos <= |u| && a.Valid()
    decreases k
  {
    if k == 0 then a
    else
      match NextStart(u, pos)
      case RecordFrom(q) =>
        (match RecordFate(u, q)
         case Next(r) =>
           RecordKeepsSize(u, q, a);
           AccountAfter(u, r, k - 1, RecordAccount(u, q, a))
         case _ => a)
      case _ => a
  }

  /** What it has done when it has met its fate. */
  function AccountOf(u: seq<byte>, pos: nat, a: Account): Account
    requires pos <= |u| && a.Valid()
  {
    match NextStart(u, pos)
    case RecordFrom(q) => RecordAccount(u, q, a)
    case _ => a
  }

  lemma RecordKeepsSize(u: seq<byte>, pos: nat, a: Account)
    requires pos <= |u| && a.Valid()
    ensures RecordAccount(u, pos, a).Valid()
  {
    hide TokenAt, HeaderByte, BodyAccount;
    if HeaderByte(u, pos).Byte? {
      var Byte(len, b) := HeaderByte(u, pos);
      if HeaderByte(u, b).Byte? {
        var Byte(high, c) := HeaderByte(u, b);
        if HeaderByte(u, c).Byte? {
          var Byte(low, d) := HeaderByte(u, c);
          if HeaderByte(u, d).Byte? {
            BodyKeepsSize(u, HeaderByte(u, d).end, len, high, low, HeaderByte(u, d).val, a);
          }
        }
      }
    }
  }

  lemma BodyKeepsSize(u: seq<byte>, pos: nat, len: byte, high: byte, low: byte, recType: byte, a: Account)
    requires pos <= |u| && a.Valid()
    ensures BodyAccount(u, pos, len, high, low, recType, a).Valid()
  {
    hide TokenAt, DataAccount, Address, SegmentAccount, Add8;
    var sum := Add8(Add8(Add8(Add8(0, len), high), low), recType);
    AddressFits(high, low);
    DataKeepsSize(u, pos, Address(high, low), DataBytes(len), low, sum, a);
    SegmentKeepsSize(u, pos, sum, len != 2, a);
  }

  lemma SegmentKeepsSize(u: seq<byte>, pos: nat, sum: byte, short: bool, a: Account)
    requires pos <= |u| && a.Valid()
    ensures SegmentAccount(u, pos, sum, short, a).Valid()
  {
    hide TokenAt, HeaderByte, Address, ChecksumAccount, Add8;
    if HeaderByte(u, pos).Byte? && HeaderByte(u, HeaderByte(u, pos).end).Byte? {
      var high, low := HeaderByte(u, pos).val, HeaderByte(u, HeaderByte(u, pos).end).val;
      var b := if 0xFB <= Address(high, low) <= 0xFE then a else a.(segments := a.segments + 1);
      ChecksumKeepsSize(u, HeaderByte(u, HeaderByte(u, pos).end).end, Add8(Add8(sum, high), low), short, b);
    }
  }

  lemma ChecksumKeepsSize(u: seq<byte>, pos: nat, sum: byte, short: bool, a: Account)
    requires pos <= |u| && a.Valid()
    ensures ChecksumAccount(u, pos, sum, short, a).Valid()
  {
    hide TokenAt, Add8;
  }

  lemma {:induction false} DataKeepsSize(
      u: seq<byte>, pos: nat, addr: nat, left: nat, last: byte, sum: byte, a: Account)
    requires pos <= |u| && a.Valid() && addr <= 0xFFFF
    ensures DataAccount(u, pos, addr, left, last, sum, a).Valid()
    decreases left
  {
    hide TokenAt, Add8, ChecksumAccount, Stores, Inc16;
    if left == 0 {
      ChecksumKeepsSize(u, pos, sum, false, a);
    } else {
      var t := TokenAt(u, pos, None);
      if !t.Nothing? && addr >= 0x2000 {
        var v := if t.Digits? then t.val else last;
        DataKeepsSize(u, t.end, Inc16(addr), left - 1, v, if t.Digits? then Add8(sum, v) else sum,
          Stores(Seen(a, t), addr, v));
      }
    }
  }

  /** What becomes of the loader looking for a record from pos on, unless it gets through the next one. */
  function FateFrom(u: seq<byte>, pos: nat): Fate
    requires pos <= |u|
  {
    match NextStart(u, pos)
    case RecordFrom(q) => RecordFate(u, q)
    case Stopped(e) => Ends(e)
    case Silent => Starves
  }

  /** f is what becomes of the loader once it has got through k records. */
  predicate FateAfter(u: seq<byte>, pos: nat, k: nat, f: Fate)
    requires pos <= |u|
  {
    AfterRecords(u, pos, k).Some? && FateFrom(u, AfterRecords(u, pos, k).value) == f
  }

  lemma {:induction false} StartMeets(p: Parser, u: seq<byte>, pos: nat, a: Account) returns (s: Parser)
    requires p.Valid() && pos <= |u| && p.state == StartRec && Shows(p, a)
    ensures var start := NextStart(u, pos);
      && (start.RecordFrom? ==> s.Valid() && s.state == GetRecLen && s.chk == 0 && Shows(s, a))
      && (start.RecordFrom? ==> Run(p, u, pos) == Run(s, u, start.pos))
      && (!start.RecordFrom? ==> Meets(p, u, pos, FateFrom(u, pos), s, a))
    decreases |u| - pos
  {
    hide Run, Meets;
    s := p;
    if pos == |u| {
      WaitingStarves(p, u, pos, s, a);
    } else {
      var Go(r, q) := Step(p, u, pos);
      RunStep(p, u, pos, r, q);
      if u[pos] == ESC {
        EscapeEnds(p, u, pos, r, s, a);
      } else if u[pos] == COLON {
        s := r;
      } else {
        s := StartMeets(r, u, q, a);
        if !NextStart(u, q).RecordFrom? { MeetsLater(p, u, pos, r, q, FateFrom(u, q), s, a); }
      }
    }
  }

  lemma EscapeEnds(p: Parser, u: seq<byte>, pos: nat, r: Parser, s: Parser, a: Account)
    requires p.Valid() && pos < |u| && r.Valid() && r.state == EndDownload && Shows(r, a)
    requires Run(p, u, pos) == Run(r, u, pos + 1)
    ensures Meets(p, u, pos, Ends(pos + 1), s, a)
  {
    hide Run;
    EndFinishes(r, u, pos + 1);
  }

  /** k records got through leave the loader looking for the next one. */
  lemma {:induction false} RunsThrough(p: Parser, u: seq<byte>, pos: nat, k: nat, a: Account) returns (r: Parser)
    requires p.Valid() && pos <= |u| && p.state == StartRec && AfterRecords(u, pos, k).Some? && a.Valid() && Shows(p, a)
    ensures r.Valid() && r.state == StartRec && Run(p, u, pos) == Run(r, u, AfterRecords(u, pos, k).value)
    ensures AccountAfter(u, pos, k, a).Valid() && Shows(r, AccountAfter(u, pos, k, a))
    decreases k
  {
    hide Run, RecordFate, RecordAccount, Shows;
    r := p;
    if k > 0 {
      var s := StartMeets(p, u, pos, a);
      var q := NextStart(u, pos).pos;
      r := RecordMeets(s, u, q, a);
      RecordKeepsSize(u, q, a);
      r := RunsThrough(r, u, RecordFate(u, q).pos, k - 1, RecordAccount(u, q, a));
    }
  }

  /** The outcome is that fate's, with account a. */
  ghost predicate Is(o: Outcome, f: Fate, a: Account) {
    match f
    case Hangs => o.Spinning?
    case Escapes => o.Escaped?
    case Ends(e) => o.Finished? && o.pos == e && Tells(o.errs, o.mem, o.top, a)
    case Starves => o.Waiting?
    case Next(_) => false
  }

  lemma FateMeets(p: Parser, u: seq<byte>, pos: nat, a: Account)
    requires p.Valid() && pos <= |u| && p.state == StartRec && !FateFrom(u, pos).Next? && a.Valid() && Shows(p, a)
    ensures Is(Run(p, u, pos), FateFrom(u, pos), AccountOf(u, pos, a))
  {
    hide Run, RecordFate, RecordAccount, Shows, Tells;
    var s := StartMeets(p, u, pos, a);
    if NextStart(u, pos).RecordFrom? {
      var r := RecordMeets(s, u, NextStart(u, pos).pos, a);
    }
  }

  /** Sooner or later there is a record the loader does not get through. */
  lemma {:induction false} FateIsMet(u: seq<byte>, pos: nat) returns (k: nat)
    requires pos <= |u|
    ensures AfterRecords(u, pos, k).Some? && !FateFrom(u, AfterRecords(u, pos, k).value).Next?
    decreases |u| - pos
  {
    hide RecordFate;
    k := 0;
    if FateFrom(u, pos).Next? {
      k := FateIsMet(u, FateFrom(u, pos).pos);
      k := k + 1;
    }
  }

  function NothingDone(mem: seq<byte>, top: nat): Account { Account(mem, top, 0, 0, 0, 0) }

  /**
    What the loader does with any stream: it meets the fate f just when f is what becomes of
    it in the first record it does not get through.
   */
  lemma RunIff(mem: seq<byte>, top: nat, u: seq<byte>, pos: nat, f: Fate)
    requires |mem| == COM_BANK0_LEN && top <= 0xFFFF && pos <= |u| && !f.Next?
    ensures Comes(Parse(mem, top, u, pos), f) <==> exists k: nat :: FateAfter(u, pos, k, f)
  {
    hide Run, FateFrom, AfterRecords, AccountAfter, AccountOf, Tells;
    var p, a := Initial(mem, top), NothingDone(mem, top);
    NothingShows(mem, top);
    var m := FateIsMet(u, pos);
    assert FateAfter(u, pos, m, FateFrom(u, AfterRecords(u, pos, m).value));
    var r := RunsThrough(p, u, pos, m, a);
    FateMeets(r, u, AfterRecords(u, pos, m).value, AccountAfter(u, pos, m, a));
    if k: nat :| FateAfter(u, pos, k, f) {
      var s := RunsThrough(p, u, pos, k, a);
      FateMeets(s, u, AfterRecords(u, pos, k).value, AccountAfter(u, pos, k, a));
    }
  }

  lemma NothingShows(mem: seq<byte>, top: nat)
    requires |mem| == COM_BANK0_LEN && top <= 0xFFFF
    ensures Shows(Initial(mem, top), NothingDone(mem, top))
  {
    var errs := Initial(mem, top).errs;
    assert errs == CLEAR && errs[0] == errs[1] == errs[3] == errs[4] == errs[5] == 0;
    assert 0 % 0x1_0000 == 0;
  }

  /** The outcome is that fate's. */
  ghost predicate Comes(o: Outcome, f: Fate) {
    match f
    case Hangs => o.Spinning?
    case Escapes => o.Escaped?
    case Ends(e) => o.Finished? && o.pos == e
    case Starves => o.Waiting?
    case Next(_) => false
  }

  /**
    What the loader leaves behind when it returns from any stream: memory and mark as the
    records say, in order, and every counter raised as often as they say, modulo 2^16; the
    junk counter as often as there is junk in all it read.
   */
  lemma ReturnsWith(mem: seq<byte>, top: nat, u: seq<byte>, pos: nat, k: nat, e: nat)
    requires |mem| == COM_BANK0_LEN && top <= 0xFFFF && pos <= |u| && FateAfter(u, pos, k, Ends(e))
    ensures var o, a := Parse(mem, top, u, pos), AccountAfter(u, pos, k, NothingDone(mem, top));
      && a.Valid() && o.Finished? && pos <= o.pos == e <= |u| && o.errs[2] == JunkIn(u, pos, e) % 0x1_0000
      && Tells(o.errs, o.mem, o.top, AccountOf(u, AfterRecords(u, pos, k).value, a))
  {
    hide Run, FateFrom, AfterRecords, AccountAfter, AccountOf, Tells, JunkIn;
    var p, a := Initial(mem, top), NothingDone(mem, top);
    NothingShows(mem, top);
    var r := RunsThrough(p, u, pos, k, a);
    FateMeets(r, u, AfterRecords(u, pos, k).value, AccountAfter(u, pos, k, a));
    JunkIsCounted(p, u, pos);
  }

  // ------------------------------------------------------------ read off the stream

  datatype Read = Read(vals: seq<byte>, end: nat)

  /** n bytes of two digits each, junk between the digits allowed. */
  function Bytes(u: seq<byte>, pos: nat, n: nat): (r: Option<Read>)
    requires pos <= |u|
    ensures r.Some? ==> |r.value.vals| == n && pos <= r.value.end <= |u|
    decreases n
  {
    if n == 0 then Some(Read([], pos))
    else
      match Bytes(u, pos, n - 1)
      case None => None
      case Some(r) =>
        match TokenAt(u, r.end, None)
        case Digits(v, q) => Some(Read(r.vals + [v], q))
        case _ => None
  }

  /** The end of n reads, whatever they find. */
  function ReadsEnd(u: seq<byte>, pos: nat, n: nat): (q: Option<nat>)
    requires pos <= |u|
    ensures q.Some? ==> q.value <= |u|
    decreases n
  {
    if n == 0 then Some(pos)
    else
      var t := TokenAt(u, pos, None);
      if t.Nothing? then None else ReadsEnd(u, t.end, n - 1)
  }

  /** The record whose colon is before q has n bytes, of the header or of a type 04 segment, and then t. */
  predicate HeaderThen(u: seq<byte>, q: nat, n: nat, t: Token)
    requires q <= |u|
  {
    && n < 6 && Bytes(u, q, n).Some? && TokenAt(u, Bytes(u, q, n).value.end, None) == t
    && (n >= 4 ==> Bytes(u, q, n).value.vals[3] == 4)
  }

  predicate HasType(u: seq<byte>, q: nat, recType: byte)
    requires q <= |u|
  {
    Bytes(u, q, 4).Some? && Bytes(u, q, 4).value.vals[3] == recType
  }

  /** A line feed among the first eight digits, or the first twelve of type 04; or type 05. */
  ghost predicate HangingRecord(u: seq<byte>, q: nat)
    requires q <= |u|
  {
    HasType(u, q, 5) || exists n: nat, e: nat :: HeaderThen(u, q, n, LineFeed(e))
  }

  /** The end-of-file record, or an escape where a header or segment byte is expected. */
  ghost predicate EndingRecord(u: seq<byte>, q: nat)
    requires q <= |u|
  {
    || (HasType(u, q, 1) && !TokenAt(u, Bytes(u, q, 4).value.end, None).Nothing?)
    || exists n: nat, e: nat :: HeaderThen(u, q, n, Escape(e))
  }

  /** A data byte, digits or not, is read for an address below 0x2000. */
  ghost predicate EscapingRecord(u: seq<byte>, q: nat)
    requires q <= |u|
  {
    HasType(u, q, 0) &&
    var Read(vals, end) := Bytes(u, q, 4).value;
    WritesBelow(u, end, Address(vals[1], vals[2]), DataBytes(vals[0]))
  }

  /** The j-th data byte is read, and goes below 0x2000. */
  predicate LandsBelow(u: seq<byte>, pos: nat, addr: nat, j: nat)
    requires pos <= |u|
  {
    ReadsEnd(u, pos, j + 1).Some? && (addr + j) % 0x1_0000 < COMMONADDR_L
  }

  ghost predicate WritesBelow(u: seq<byte>, pos: nat, addr: nat, left: nat)
    requires pos <= |u|
  {
    exists j: nat :: j < left && LandsBelow(u, pos, addr, j)
  }

  lemma {:induction false} DataFateIs(u: seq<byte>, pos: nat, addr: nat, left: nat)
    requires pos <= |u| && addr <= 0xFFFF
    ensures !DataFate(u, pos, addr, left).Hangs? && !DataFate(u, pos, addr, left).Ends?
    ensures DataFate(u, pos, addr, left).Escapes? <==> WritesBelow(u, pos, addr, left)
    decreases left
  {
    hide TokenAt, LandsBelow, Inc16;
    if left > 0 {
      var t := TokenAt(u, pos, None);
      FirstLands(u, pos, addr);
      if !t.Nothing? && addr >= COMMONADDR_L {
        DataFateIs(u, t.end, Inc16(addr), left - 1);
        BelowLater(u, pos, addr, left);
      } else if t.Nothing? {
        forall j: nat ensures !LandsBelow(u, pos, addr, j) { NothingLands(u, pos, addr, j); }
      }
    }
  }

  lemma FirstLands(u: seq<byte>, pos: nat, addr: nat)
    requires pos <= |u| && addr <= 0xFFFF
    ensures LandsBelow(u, pos, addr, 0) <==> !TokenAt(u, pos, None).Nothing? && addr < COMMONADDR_L
  {
    hide TokenAt;
    var t := TokenAt(u, pos, None);
    if !t.Nothing? { assert ReadsEnd(u, t.end, 0).Some?; }
  }

  lemma NothingLands(u: seq<byte>, pos: nat, addr: nat, j: nat)
    requires pos <= |u| && TokenAt(u, pos, None).Nothing?
    ensures !LandsBelow(u, pos, addr, j)
  {
    hide TokenAt;
  }

  lemma LandsLater(u: seq<byte>, pos: nat, addr: nat, j: nat)
    requires pos <= |u| && !TokenAt(u, pos, None).Nothing?
    ensures LandsBelow(u, pos, addr, j + 1) <==> LandsBelow(u, TokenAt(u, pos, None).end, Inc16(addr), j)
  {
    hide TokenAt;
    assert (addr + (j + 1)) % 0x1_0000 == (Inc16(addr) + j) % 0x1_0000;
  }

  lemma BelowLater(u: seq<byte>, pos: nat, addr: nat, left: nat)
    requires pos <= |u| && !TokenAt(u, pos, None).Nothing? && COMMONADDR_L <= addr <= 0xFFFF && left > 0
    ensures WritesBelow(u, pos, addr, left) <==>
      WritesBelow(u, TokenAt(u, pos, None).end, Inc16(addr), left - 1)
  {
    hide TokenAt, LandsBelow, Inc16;
    var q := TokenAt(u, pos, None).end;
    FirstLands(u, pos, addr);
    if WritesBelow(u, pos, addr, left) {
      var j: nat :| j < left && LandsBelow(u, pos, addr, j);
      var i: nat := j - 1;
      LandsLater(u, pos, addr, i);
      assert LandsBelow(u, q, Inc16(addr), i);
    }
    if WritesBelow(u, q, Inc16(addr), left - 1) {
      var j: nat :| j < left - 1 && LandsBelow(u, q, Inc16(addr), j);
      LandsLater(u, pos, addr, j);
      assert LandsBelow(u, pos, addr, j + 1);
    }
  }

  // ------------------------------------------------------------ the three ways out of a record

  /** The header bytes one by one. */
  lemma HeaderIs(u: seq<byte>, q: nat, n: nat)
    requires q <= |u| && Bytes(u, q, n).Some?
    ensures var r := Bytes(u, q, n).value;
      match HeaderByte(u, r.end)
      case Byte(v, e) => Bytes(u, q, n + 1) == Some(Read(r.vals + [v], e)) && TokenAt(u, r.end, None) == Digits(v, e)
      case Other(f) =>
        && Bytes(u, q, n + 1).None? && !f.Escapes?
        && (f.Hangs? <==> TokenAt(u, r.end, None).LineFeed?) && (f.Ends? <==> TokenAt(u, r.end, None).Escape?)
  {
    hide TokenAt;
  }

  lemma {:induction false} BytesStop(u: seq<byte>, q: nat, m: nat, n: nat)
    requires q <= |u| && m <= n && Bytes(u, q, m).None?
    ensures Bytes(u, q, n).None?
    decreases n
  {
    hide TokenAt;
    if m < n { BytesStop(u, q, m, n - 1); }
  }

  /** The header stops the record after n < 4 bytes, at fate f. */
  ghost predicate StopsAfter(u: seq<byte>, q: nat, n: nat, f: Fate)
    requires q <= |u|
  {
    Bytes(u, q, n).Some? && HeaderByte(u, Bytes(u, q, n).value.end) == Other(f)
  }

  /** Either the header stops the record, or its four bytes are there. */
  lemma HeaderOrBody(u: seq<byte>, q: nat) returns (n: nat)
    requires q <= |u|
    ensures n <= 4 && (n < 4 <==> Bytes(u, q, 4).None?)
    ensures n < 4 ==> StopsAfter(u, q, n, RecordFate(u, q))
    ensures n == 4 ==>
      var Read(v, d) := Bytes(u, q, 4).value;
      RecordFate(u, q) == BodyFate(u, d, v[0], Address(v[1], v[2]), v[3])
  {
    hide TokenAt, HeaderByte, BodyFate, Address, Bytes;
    NoBytes(u, q);
    HeaderIs(u, q, 0);
    n := 0;
    if Bytes(u, q, 1).Some? {
      n := 1;
      HeaderIs(u, q, 1);
      if Bytes(u, q, 2).Some? {
        n := 2;
        HeaderIs(u, q, 2);
        if Bytes(u, q, 3).Some? {
          n := 3;
          HeaderIs(u, q, 3);
          if Bytes(u, q, 4).Some? { n := 4; }
        }
      }
    }
    if n < 4 { BytesStop(u, q, n + 1, 4); }
  }

  lemma {:induction false} BytesBefore(u: seq<byte>, q: nat, m: nat, n: nat)
    requires q <= |u| && m <= n && Bytes(u, q, n).Some?
    ensures Bytes(u, q, m).Some? && Bytes(u, q, m).value.vals <= Bytes(u, q, n).value.vals
    decreases n
  {
    hide TokenAt;
    if m < n { BytesBefore(u, q, m, n - 1); }
  }

  /** At most one number of bytes stops a record. */
  lemma OneStop(u: seq<byte>, q: nat, m: nat, n: nat)
    requires q <= |u| && Bytes(u, q, m).Some? && Bytes(u, q, n).Some?
    requires Bytes(u, q, m + 1).None? && Bytes(u, q, n + 1).None?
    ensures m == n
  {
    hide Bytes;
    if m < n { BytesStop(u, q, m + 1, n); }
    if n < m { BytesStop(u, q, n + 1, m); }
  }

  /** The segment bytes of a type 04 record. */
  lemma SegmentFateIs(u: seq<byte>, q: nat) returns (n: nat)
    requires q <= |u| && Bytes(u, q, 4).Some?
    ensures var f := SegmentFate(u, Bytes(u, q, 4).value.end);
      && 4 <= n <= 6 && (n < 6 ==> StopsAfter(u, q, n, f) && Bytes(u, q, n + 1).None?)
      && (n == 6 ==> Bytes(u, q, 6).Some? && !f.Hangs? && !f.Ends? && !f.Escapes?)
  {
    hide TokenAt, HeaderByte, Bytes;
    n := 4;
    HeaderIs(u, q, 4);
    if Bytes(u, q, 5).Some? {
      n := 5;
      HeaderIs(u, q, 5);
      if Bytes(u, q, 6).Some? { n := 6; }
    }
  }

  /** What the header, or a segment, stopping after n bytes says of the three ways out. */
  lemma StoppedIs(u: seq<byte>, q: nat, n: nat, f: Fate)
    requires q <= |u| && n < 6 && StopsAfter(u, q, n, f)
    requires if n < 4 then Bytes(u, q, 4).None? else HasType(u, q, 4)
    ensures !f.Escapes? && !EscapingRecord(u, q)
    ensures f.Hangs? <==> HangingRecord(u, q)
    ensures f.Ends? <==> EndingRecord(u, q)
  {
    hide TokenAt, HeaderByte, Bytes;
    HeaderIs(u, q, n);
    if n >= 4 { BytesBefore(u, q, 4, n); }
    var t := TokenAt(u, Bytes(u, q, n).value.end, None);
    assert HeaderThen(u, q, n, t);
    forall m: nat, t' | HeaderThen(u, q, m, t') && (t'.LineFeed? || t'.Escape?) ensures m == n && t' == t {
      HeaderIs(u, q, m);
      OneStop(u, q, m, n);
    }
    assert t.LineFeed? ==> HeaderThen(u, q, n, LineFeed(t.end));
    assert t.Escape? ==> HeaderThen(u, q, n, Escape(t.end));
  }

  /** A record of another type, its header complete, is not stopped by its header. */
  lemma NotStopped(u: seq<byte>, q: nat, n: nat, t: Token)
    requires q <= |u| && Bytes(u, q, 4).Some? && (t.LineFeed? || t.Escape?)
    requires !HasType(u, q, 4) || Bytes(u, q, 6).Some?
    ensures !HeaderThen(u, q, n, t)
  {
    hide TokenAt, HeaderByte, Bytes;
    if HeaderThen(u, q, n, t) {
      HeaderIs(u, q, n);
      if n < 4 {
        BytesStop(u, q, n + 1, 4);
      } else {
        BytesBefore(u, q, 4, n);
        if n < 6 { BytesStop(u, q, n + 1, 6); }
      }
    }
  }

  /** The record at q hangs the loader, makes it write below 0x2000, or ends the text, exactly when its bytes say so. */
  lemma RecordFateIs(u: seq<byte>, q: nat)
    requires q <= |u|
    ensures RecordFate(u, q).Hangs? <==> HangingRecord(u, q)
    ensures RecordFate(u, q).Escapes? <==> EscapingRecord(u, q)
    ensures RecordFate(u, q).Ends? <==> EndingRecord(u, q)
  {
    hide TokenAt, HeaderByte, Bytes, RecordFate, Address, DataFate, WritesBelow, SegmentFate;
    var n := HeaderOrBody(u, q);
    if n < 4 {
      StoppedIs(u, q, n, RecordFate(u, q));
    } else {
      var Read(v, d) := Bytes(u, q, 4).value;
      if v[3] == 4 {
        var m := SegmentFateIs(u, q);
        if m < 6 {
          StoppedIs(u, q, m, RecordFate(u, q));
        } else {
          forall i: nat, t: Token | t.LineFeed? || t.Escape? ensures !HeaderThen(u, q, i, t) { NotStopped(u, q, i, t); }
        }
      } else {
        forall i: nat, t: Token | t.LineFeed? || t.Escape? ensures !HeaderThen(u, q, i, t) { NotStopped(u, q, i, t); }
        AddressFits(v[1], v[2]);
        DataFateIs(u, d, Address(v[1], v[2]), DataBytes(v[0]));
      }
    }
  }

  lemma NoBytes(u: seq<byte>, q: nat)
    requires q <= |u|
    ensures Bytes(u, q, 0) == Some(Read([], q))
  {}

  // ------------------------------------------------------------ when the parser returns

  /** The loader gets through k records and begins the one whose colon is before q. */
  predicate Reaches(u: seq<byte>, pos: nat, k: nat, q: nat)
    requires pos <= |u|
  {
    q <= |u| && AfterRecords(u, pos, k).Some? && NextStart(u, AfterRecords(u, pos, k).value) == RecordFrom(q)
  }

  /** ParseHexRecord hangs just when it begins a record that hangs it. */
  lemma SpinsIff(mem: seq<byte>, top: nat, u: seq<byte>, pos: nat)
    requires |mem| == COM_BANK0_LEN && top <= 0xFFFF && pos <= |u|
    ensures Parse(mem, top, u, pos).Spinning? <==>
      exists k: nat, q: nat :: Reaches(u, pos, k, q) && HangingRecord(u, q)
  {
    hide Run, RecordFate, AfterRecords, NextStart, HangingRecord;
    RunIff(mem, top, u, pos, Hangs);
    if k: nat :| FateAfter(u, pos, k, Hangs) {
      var q := NextStart(u, AfterRecords(u, pos, k).value).pos;
      RecordFateIs(u, q);
      assert Reaches(u, pos, k, q);
    }
    if k: nat, q: nat :| Reaches(u, pos, k, q) && HangingRecord(u, q) {
      RecordFateIs(u, q);
      assert FateAfter(u, pos, k, Hangs);
    }
  }

  /** It writes below 0x2000 just when it begins a record that makes it. */
  lemma EscapesIff(mem: seq<byte>, top: nat, u: seq<byte>, pos: nat)
    requires |mem| == COM_BANK0_LEN && top <= 0xFFFF && pos <= |u|
    ensures Parse(mem, top, u, pos).Escaped? <==>
      exists k: nat, q: nat :: Reaches(u, pos, k, q) && EscapingRecord(u, q)
  {
    hide Run, RecordFate, AfterRecords, NextStart, EscapingRecord;
    RunIff(mem, top, u, pos, Escapes);
    if k: nat :| FateAfter(u, pos, k, Escapes) {
      var q := NextStart(u, AfterRecords(u, pos, k).value).pos;
      RecordFateIs(u, q);
      assert Reaches(u, pos, k, q);
    }
    if k: nat, q: nat :| Reaches(u, pos, k, q) && EscapingRecord(u, q) {
      RecordFateIs(u, q);
      assert FateAfter(u, pos, k, Escapes);
    }
  }

  /** An escape is found where the loader, k records behind it, looks for the next one. */
  predicate EscapeBetween(u: seq<byte>, pos: nat, k: nat)
    requires pos <= |u|
  {
    AfterRecords(u, pos, k).Some? && NextStart(u, AfterRecords(u, pos, k).value).Stopped?
  }

  /** It returns just when it begins a record that ends the text, or finds an escape between records. */
  lemma ReturnsIff(mem: seq<byte>, top: nat, u: seq<byte>, pos: nat)
    requires |mem| == COM_BANK0_LEN && top <= 0xFFFF && pos <= |u|
    ensures Parse(mem, top, u, pos).Finished? <==>
      || (exists k: nat, q: nat :: Reaches(u, pos, k, q) && EndingRecord(u, q))
      || exists k: nat :: EscapeBetween(u, pos, k)
  {
    hide Run, Parse, RecordFate, AfterRecords, NextStart, EndingRecord;
    var o := Parse(mem, top, u, pos);
    if o.Finished? {
      RunIff(mem, top, u, pos, Ends(o.pos));
      var k: nat :| FateAfter(u, pos, k, Ends(o.pos));
      var start := NextStart(u, AfterRecords(u, pos, k).value);
      if start.RecordFrom? {
        RecordFateIs(u, start.pos);
        assert Reaches(u, pos, k, start.pos);
      } else {
        assert EscapeBetween(u, pos, k);
      }
    }
    if k: nat, q: nat :| Reaches(u, pos, k, q) && EndingRecord(u, q) {
      RecordFateIs(u, q);
      assert FateAfter(u, pos, k, RecordFate(u, q));
      RunIff(mem, top, u, pos, RecordFate(u, q));
    }
    if k: nat :| EscapeBetween(u, pos, k) {
      var f := FateFrom(u, AfterRecords(u, pos, k).value);
      assert FateAfter(u, pos, k, f);
      RunIff(mem, top, u, pos, f);
    }
  }

  // ------------------------------------------------------------ inputs that do not return

  lemma {:induction false} SpelledBytes(u: seq<byte>, pos: nat, bs: seq<byte>)
    requires SpellsAt(u, pos, bs)
    ensures Bytes(u, pos, |bs|) == Some(Read(bs, pos + 2 * |bs|))
    decreases |bs|
  {
    hide SpellsAt, TokenAt;
    if bs != [] {
      var n := |bs| - 1;
      assert bs[..n] + [bs[n]] == bs;
      SpellsSplit(u, pos, bs[..n], [bs[n]]);
      SpelledBytes(u, pos, bs[..n]);
      SpelledToken(u, pos + 2 * n, bs[n]);
    } else {
      SpelledInside(u, pos);
      NoBytes(u, pos);
    }
  }

  lemma SpelledInside(u: seq<byte>, pos: nat)
    requires SpellsAt(u, pos, [])
    ensures pos <= |u|
  {}

  lemma SpelledToken(u: seq<byte>, pos: nat, b: byte)
    requires SpellsAt(u, pos, [b])
    ensures pos <= |u| && TokenAt(u, pos, None) == Digits(b, pos + 2)
  {
    hide ByteOf, IsXDigit, TokenAt;
    assert [b][0] == b;
    DigitIsNoControl(u[pos]);
    DigitIsNoControl(u[pos + 1]);
    TokenUnfolds(u, pos, None);
    TokenUnfolds(u, pos + 1, Some(u[pos]));
  }

  /** A stream that begins with a colon and a record's first bytes. */
  function Opening(bs: seq<byte>, rest: seq<byte>): seq<byte> { [COLON] + HexPairs(bs) + rest }

  lemma OpeningIs(bs: seq<byte>, rest: seq<byte>)
    ensures var u := Opening(bs, rest);
      Reaches(u, 0, 0, 1) && Bytes(u, 1, |bs|) == Some(Read(bs, 1 + 2 * |bs|)) && u[1 + 2 * |bs|..] == rest
  {
    hide SpellsAt, Bytes, HexPairs, Opening, Reaches;
    OpeningParts(bs, rest);
    SpellsHere([COLON], bs, rest);
    SpelledBytes(Opening(bs, rest), 1, bs);
    ColonReaches(Opening(bs, rest));
  }

  lemma OpeningParts(bs: seq<byte>, rest: seq<byte>)
    ensures var u := Opening(bs, rest);
      |u| >= 1 + 2 * |bs| && u[0] == COLON && u == [COLON] + HexPairs(bs) + rest && u[1 + 2 * |bs|..] == rest
  {
    hide HexPairs;
  }

  lemma ColonReaches(u: seq<byte>)
    requires u != [] && u[0] == COLON
    ensures Reaches(u, 0, 0, 1)
  {
    hide RecordFate;
    assert AfterRecords(u, 0, 0) == Some(0);
    assert NextStart(u, 0) == RecordFrom(1);
  }

  /** A line feed behind the first header digit: ":0" and LF. */
  lemma HalfByteSpins(mem: seq<byte>, top: nat)
    requires |mem| == COM_BANK0_LEN && top <= 0xFFFF
    ensures Parse(mem, top, [COLON, 48, LF], 0).Spinning?
  {
    hide Parse, TokenAt;
    var u: seq<byte> := [COLON, 48, LF];
    OpeningIs([], [48, LF]);
    assert Opening([], [48, LF]) == u;
    TokenUnfolds(u, 1, None);
    TokenUnfolds(u, 2, Some(u[1]));
    assert HeaderThen(u, 1, 0, LineFeed(3));
    SpinsIff(mem, top, u, 0);
  }

  /** A line feed in place of a segment byte of a type 04 record. */
  lemma SegmentLineFeedSpins(mem: seq<byte>, top: nat)
    requires |mem| == COM_BANK0_LEN && top <= 0xFFFF
    ensures Parse(mem, top, Opening([2, 0, 0, 4], [LF]), 0).Spinning?
  {
    hide Parse, Opening, Bytes, HangingRecord, TokenAt;
    var bs: seq<byte> := [2, 0, 0, 4];
    var u := Opening(bs, [LF]);
    OpeningIs(bs, [LF]);
    assert u[9..][0] == LF && |u| == 10;
    TokenUnfolds(u, 9, None);
    HangsHere(u, 1, 4, 10);
    SpinsIff(mem, top, u, 0);
  }

  lemma HangsHere(u: seq<byte>, q: nat, n: nat, e: nat)
    requires q <= |u| && HeaderThen(u, q, n, LineFeed(e))
    ensures HangingRecord(u, q)
  {}

  /** One data byte for address 0. */
  lemma DataAtZeroEscapes(mem: seq<byte>, top: nat, data: byte)
    requires |mem| == COM_BANK0_LEN && top <= 0xFFFF
    ensures Parse(mem, top, Opening([1, 0, 0, 0], HexPair(data)), 0).Escaped?
  {
    hide Parse, Opening, Bytes, HexPair, SpellsAt;
    var bs: seq<byte> := [1, 0, 0, 0];
    var u := Opening(bs, HexPair(data));
    OpeningIs(bs, HexPair(data));
    DataIsThere(u, data);
    AddressOfZero();
    FirstLands(u, 9, Address(0, 0));
    assert WritesBelow(u, 9, Address(0, 0), DataBytes(1));
    EscapesIff(mem, top, u, 0);
  }

  lemma DataIsThere(u: seq<byte>, data: byte)
    requires |u| >= 9 && u[9..] == HexPair(data)
    ensures !TokenAt(u, 9, None).Nothing?
  {
    PairSpells(data);
    assert u[9] == HexPair(data)[0] && u[10] == HexPair(data)[1];
    assert [data][0] == data;
    assert SpellsAt(u, 9, [data]);
    SpelledToken(u, 9, data);
  }

  lemma AddressOfZero()
    ensures Address(0, 0) == 0 && DataBytes(1) == 1
  {
    ZeroByte();
  }
}
