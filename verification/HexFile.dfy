/**
  The Intel HEX loader of hex_file_hdl.c: a character-driven state machine that writes
  records into code RAM. `Run` is the machine over an input position; the class below is
  the imperative loader, proved to do exactly what `Run` says on every input whatsoever.
 */
module HexFile {
  import opened MachineWords
  import opened CodeMemory
  import opened Options

  const ERR_LINE_BEGIN := 0
  const ERR_REC_TYPE := 1
  const ERR_NON_ASC_DIGIT := 2
  const ERR_WR_CRAM := 3
  const ERR_CHK_SUME := 4
  const ERR_SEGMENT := 5

  const ESC: byte := 27
  const COLON: byte := 58
  const LF: byte := 10

  /** Return codes of GetAscii and GetAsc2Hex. */
  datatype Ret = Good | ExitRet | ExtraRecord | NonAscDigit | Enter

  datatype State =
    | StartRec | GetRecLen | GetOffset | GetRecType
    | GetRecData | GetRecEof | GetExtSegAddr | GetStartSegAddr | GetExtLinAddr | GetStartLinAddr
    | GetChkSume | HandleError | UnknownRec | EndDownload | ExitDownload

  /** The loader's variables; u16 quantities are naturals below 0x10000. */
  datatype Parser = Parser(
    state: State, chk: byte, hex: byte, recLen: nat, err: Ret, addr: nat, temp: nat, i: nat,
    errs: seq<nat>, mem: seq<byte>, top: nat)
  {
    ghost predicate Valid() {
      && |errs| == 8 && |mem| == COM_BANK0_LEN
      && recLen < 256 && addr <= 0xFFFF && temp <= 0xFFFF && top <= 0xFFFF
      // while the second segment byte is awaited, temp holds the first one in its high half
      && (state == GetExtLinAddr && i != 0 ==> temp % 256 == 0)
    }
  }

  datatype Outcome =
    | Finished(errs: seq<nat>, mem: seq<byte>, top: nat, pos: nat)
    | Waiting   // the input ended: _get1char never returns
    | Spinning  // a state that neither reads nor changes
    | Escaped   // a data byte below 0x2000: the loader overwrites its own variables or registers

  // ------------------------------------------------------------ characters

  predicate IsXDigit(c: byte) {
    48 <= c <= 57 || 65 <= c <= 70 || 97 <= c <= 102
  }

  function ToUpper(c: byte): byte {
    if 97 <= c <= 122 then c - 32 else c
  }

  function Asc2Hex(c: byte): byte {
    var d := ToUpper(c);
    if d <= 57 then d - 48 else d - 55
  }

  function ByteOf(high: byte, low: byte): byte {
    (Asc2Hex(high) << 4) | Asc2Hex(low)
  }

  /** A u16 counter. */
  function Bump(errs: seq<nat>, k: nat): (r: seq<nat>)
    requires k < |errs|
    ensures |r| == |errs|
  {
    errs[k := (errs[k] + 1) % 0x1_0000]
  }

  datatype Ascii = Ascii(err: Ret, errs: seq<nat>)

  function Classify(c: byte, errs: seq<nat>): (a: Ascii)
    requires |errs| == 8
    ensures |a.errs| == 8
  {
    if c == ESC then Ascii(ExitRet, errs)
    else if c == COLON then Ascii(ExtraRecord, Bump(errs, ERR_LINE_BEGIN))
    else if IsXDigit(c) then Ascii(Good, errs)
    else if c == LF then Ascii(Enter, errs)
    else Ascii(NonAscDigit, Bump(errs, ERR_NON_ASC_DIGIT))
  }

  datatype Fetch = Fetch(err: Ret, val: byte, pos: nat, errs: seq<nat>) | NoInput

  /** GetAsc2Hex from a position: two hex digits with junk in between skipped and counted. */
  function FetchHex(u: seq<byte>, pos: nat, first: Option<byte>, errs: seq<nat>): (f: Fetch)
    requires pos <= |u| && |errs| == 8
    ensures f.Fetch? ==> pos < f.pos <= |u| && |f.errs| == 8 && f.err != NonAscDigit
    ensures f.Fetch? && f.err.ExtraRecord? ==> u[f.pos - 1] == COLON
    decreases |u| - pos
  {
    if pos == |u| then NoInput
    else
      var a := Classify(u[pos], errs);
      match a.err
      case Good =>
        if first.None? then FetchHex(u, pos + 1, Some(u[pos]), a.errs)
        else Fetch(Good, ByteOf(first.value, u[pos]), pos + 1, a.errs)
      case NonAscDigit => FetchHex(u, pos + 1, first, a.errs)
      case e => Fetch(e, 0, pos + 1, a.errs)
  }

  // ------------------------------------------------------------ the state machine

  datatype Next = Go(p: Parser, pos: nat) | Stop(outcome: Outcome)

  /** GetAsc2Hex(&HexVal, &ChkSume, ErrCnt): HexVal and ChkSume change only on success. */
  function ReadHex(p: Parser, u: seq<byte>, pos: nat): (n: Next)
    requires p.Valid() && pos <= |u|
    ensures n.Go? ==> pos < n.pos <= |u| && n.p.Valid() && n.p.state == p.state
    ensures n.Stop? ==> n.outcome.Waiting?
  {
    match FetchHex(u, pos, None, p.errs)
    case NoInput => Stop(Waiting)
    case Fetch(Good, v, q, errs) => Go(p.(err := Good, errs := errs, hex := v, chk := Add8(p.chk, v)), q)
    case Fetch(e, _, q, errs) => Go(p.(err := e, errs := errs), q)
  }

  lemma ReadHexIs(p: Parser, u: seq<byte>, pos: nat)
    requires p.Valid() && pos <= |u|
    ensures ReadHex(p, u, pos) ==
      match FetchHex(u, pos, None, p.errs)
      case NoInput => Stop(Waiting)
      case Fetch(Good, v, q, errs) => Go(p.(err := Good, errs := errs, hex := v, chk := Add8(p.chk, v)), q)
      case Fetch(e, _, q, errs) => Go(p.(err := e, errs := errs), q)
  {
    hide FetchHex, Add8;
  }

  lemma KeepsValid(p: Parser, errs: seq<nat>)
    requires p.Valid() && |errs| == 8
    ensures p.(errs := errs).Valid()
  {}

  function StateOfType(recType: byte): State
    requires recType <= 5
  {
    if recType == 0 then GetRecData
    else if recType == 1 then GetRecEof
    else if recType == 2 then GetExtSegAddr
    else if recType == 3 then GetStartSegAddr
    else if recType == 4 then GetExtLinAddr
    else GetStartLinAddr
  }

  /** Addition in a u8. */
  function Add8(a: byte, b: byte): byte { a + b }

  /** RecLen-- in a u8. */
  function Dec8(n: nat): (r: nat)
    ensures r < 256
  {
    (n + 255) % 256
  }

  /** CRamAddr++ in a u16. */
  function Inc16(n: nat): (r: nat)
    ensures r <= 0xFFFF
  {
    (n + 1) % 0x1_0000
  }

  predicate SegmentMapped(temp: nat) { 0xFB <= temp <= 0xFE }

  function StartStep(p: Parser, u: seq<byte>, pos: nat): (n: Next)
    requires p.Valid() && pos <= |u| && p.state == StartRec
    ensures n.Go? ==> n.p.Valid() && pos < n.pos <= |u|
    ensures n.Stop? ==> n.outcome.Waiting?
  {
    if pos == |u| then Stop(Waiting)
    else if u[pos] == ESC then Go(p.(state := EndDownload), pos + 1)
    else if u[pos] == COLON then Go(p.(chk := 0, state := GetRecLen), pos + 1)
    else if !IsXDigit(u[pos]) && u[pos] != LF then Go(p.(errs := Bump(p.errs, ERR_NON_ASC_DIGIT)), pos + 1)
    else Go(p, pos + 1)
  }

  function RecLenStep(p: Parser, u: seq<byte>, pos: nat): (n: Next)
    requires p.Valid() && pos <= |u|
    ensures n.Go? ==> n.p.Valid() && pos < n.pos <= |u|
    ensures n.Stop? ==> n.outcome.Waiting?
  {
    match ReadHex(p, u, pos)
    case Stop(o) => Stop(o)
    case Go(r, q) =>
      if r.err.Good? then Go(r.(recLen := ToNat(r.hex), state := GetOffset), q)
      else Go(r.(state := HandleError), q)
  }

  function OffsetStep(p: Parser, u: seq<byte>, pos: nat): (n: Next)
    requires p.Valid() && pos <= |u| && p.state == GetOffset
    ensures n.Go? ==> n.p.Valid() && pos < n.pos <= |u|
    ensures n.Stop? ==> n.outcome.Waiting?
  {
    match ReadHex(p, u, pos)
    case Stop(o) => Stop(o)
    case Go(r, q) =>
      if !r.err.Good? then Go(OffsetFails(r, r.hex), q)
      else
        match ReadHex(r, u, q)
        case Stop(o) => Stop(o)
        case Go(r2, q2) => Go(if r2.err.Good? then OffsetRead(r2, r.hex) else OffsetFails(r2, r.hex), q2)
  }

  function OffsetFails(r: Parser, high: byte): (n: Parser)
    requires r.Valid()
    ensures n.Valid()
  {
    r.(temp := ToNat(high), state := HandleError)
  }

  function OffsetRead(r: Parser, high: byte): (n: Parser)
    requires r.Valid()
    ensures n.Valid()
  {
    var offset := HighByte(high) + ToNat(r.hex);
    r.(temp := offset, addr := offset, state := GetRecType)
  }

  lemma OffsetStepIs(p: Parser, u: seq<byte>, pos: nat)
    requires p.Valid() && pos <= |u| && p.state == GetOffset
    ensures var n := ReadHex(p, u, pos);
      OffsetStep(p, u, pos) ==
      if n.Stop? then n
      else if !n.p.err.Good? then Go(OffsetFails(n.p, n.p.hex), n.pos)
      else
        var n2 := ReadHex(n.p, u, n.pos);
        if n2.Stop? then n2
        else Go(if n2.p.err.Good? then OffsetRead(n2.p, n.p.hex) else OffsetFails(n2.p, n.p.hex), n2.pos)
  {
    hide ReadHex, OffsetFails, OffsetRead;
  }

  function RecTypeStep(p: Parser, u: seq<byte>, pos: nat): (n: Next)
    requires p.Valid() && pos <= |u|
    ensures n.Go? ==> n.p.Valid() && pos < n.pos <= |u|
    ensures n.Stop? ==> n.outcome.Waiting?
  {
    match ReadHex(p, u, pos)
    case Stop(o) => Stop(o)
    case Go(r, q) =>
      // the type goes to RecType; HexVal keeps the low offset byte
      if !r.err.Good? then Go(r.(hex := p.hex, state := HandleError), q)
      else if r.hex > 5 then Go(r.(hex := p.hex, state := UnknownRec), q)
      else Go(r.(hex := p.hex, state := StateOfType(r.hex), i := 0), q)
  }

  /** The error of the read is ignored: after one, HexVal still holds the previous byte. */
  function DataStep(p: Parser, u: seq<byte>, pos: nat): (n: Next)
    requires p.Valid() && pos <= |u| && p.state == GetRecData
    ensures n.Go? ==> n.p.Valid() && pos < n.pos <= |u|
    ensures n.Stop? ==> n.outcome.Waiting? || n.outcome.Escaped?
  {
    match ReadHex(p, u, pos)
    case Stop(o) => Stop(o)
    case Go(r, q) =>
      if r.addr < COMMONADDR_L then Stop(Escaped)
      else
        Go(Stored(r), q)
  }

  /** HexVal stored at the load address. */
  function Stored(r: Parser): (s: Parser)
    requires r.Valid() && COMMONADDR_L <= r.addr && r.state == GetRecData
    ensures s.Valid()
  {
    var left := Dec8(r.recLen);
    r.(err := Good, recLen := left,
       top := if r.addr > r.top then r.addr else r.top,
       mem := r.mem[r.addr - COMMONADDR_L := r.hex],
       addr := Inc16(r.addr),
       state := if left == 0 then GetChkSume else GetRecData)
  }

  lemma AddressInRange(p: Parser)
    requires p.Valid()
    ensures p.addr <= 0xFFFF
  {}

  lemma DataStepIs(p: Parser, u: seq<byte>, pos: nat)
    requires p.Valid() && pos <= |u| && p.state == GetRecData
    ensures var n := ReadHex(p, u, pos);
      DataStep(p, u, pos) ==
      if n.Stop? then n else if n.p.addr < COMMONADDR_L then Stop(Escaped) else Go(Stored(n.p), n.pos)
  {
    hide ReadHex, Stored;
  }

  /** The byte shifted left by 8 in a u16. */
  function HighByte(b: byte): (n: nat)
    ensures n % 256 == 0 && n <= 0xFF00
  {
    ToNat(b) * 256
  }

  function SegmentStep(p: Parser, u: seq<byte>, pos: nat): (n: Next)
    requires p.Valid() && pos <= |u| && p.state == GetExtLinAddr
    ensures n.Go? ==> n.p.Valid() && pos < n.pos <= |u|
    ensures n.Stop? ==> n.outcome.Waiting?
  {
    match ReadHex(p, u, pos)
    case Stop(o) => Stop(o)
    case Go(r, q) => Go(if p.i == 0 then SegmentHigh(r) else SegmentLow(r), q)
  }

  lemma SegmentStepIs(p: Parser, u: seq<byte>, pos: nat)
    requires p.Valid() && pos <= |u| && p.state == GetExtLinAddr
    ensures var n := ReadHex(p, u, pos);
      SegmentStep(p, u, pos) ==
      if n.Stop? then n else Go(if p.i == 0 then SegmentHigh(n.p) else SegmentLow(n.p), n.pos)
    ensures var n := ReadHex(p, u, pos); n.Go? ==> n.p.i == p.i
  {
    hide SegmentHigh, SegmentLow;
  }

  lemma EightCounters(p: Parser)
    requires p.Valid()
    ensures |p.errs| == 8
  {}

  function SegmentHigh(r: Parser): (n: Parser)
    requires r.Valid()
    ensures n.Valid()
  {
    var left := Dec8(r.recLen);
    if r.err.Good? then r.(recLen := left, temp := HighByte(r.hex), i := 1)
    else r.(recLen := left, temp := 0, i := 1, state := HandleError)
  }

  /** The 16-bit shift by 16 leaves nothing of the segment, and the next offset replaces CRamAddr. */
  function SegmentLow(r: Parser): (n: Parser)
    requires r.Valid()
    ensures n.Valid()
  {
    var left := Dec8(r.recLen);
    if !r.err.Good? then r.(recLen := left, state := HandleError)
    else
      var errs := if SegmentMapped(r.temp + ToNat(r.hex)) then r.errs else Bump(r.errs, ERR_SEGMENT);
      r.(recLen := left, errs := errs, temp := 0, addr := 0, state := GetChkSume)
  }

  function ChkSumeStep(p: Parser, u: seq<byte>, pos: nat): (n: Next)
    requires p.Valid() && pos <= |u|
    ensures n.Go? ==> n.p.Valid() && pos < n.pos <= |u|
    ensures n.Stop? ==> n.outcome.Waiting?
  {
    match ReadHex(p, u, pos)
    case Stop(o) => Stop(o)
    case Go(r, q) =>
      if r.err.Good? && r.chk == 0 && r.recLen == 0 then Go(r.(state := StartRec), q)
      else Go(r.(errs := Bump(r.errs, ERR_CHK_SUME), state := StartRec), q)
  }

  function ErrorStep(p: Parser, pos: nat): (n: Next)
    requires p.Valid()
    ensures n.Go? ==> n.p.Valid() && n.pos == pos && Rank(n.p.state) < 2
    ensures n.Stop? ==> n.outcome.Spinning?
  {
    match p.err
    case ExitRet => Go(p.(state := EndDownload), pos)
    case NonAscDigit => Go(p.(state := StartRec), pos)
    case ExtraRecord => Go(p.(chk := 0, state := GetRecLen), pos)
    case _ => Stop(Spinning)
  }

  /** One iteration of the loader's loop. */
  function Step(p: Parser, u: seq<byte>, pos: nat): (n: Next)
    requires p.Valid() && pos <= |u|
    ensures n.Go? ==> n.p.Valid() && pos <= n.pos <= |u| && (n.pos == pos ==> Rank(n.p.state) < Rank(p.state))
    ensures n.Stop? ==> !n.outcome.Finished?
  {
    match p.state
    case StartRec => StartStep(p, u, pos)
    case GetRecLen => RecLenStep(p, u, pos)
    case GetOffset => OffsetStep(p, u, pos)
    case GetRecType => RecTypeStep(p, u, pos)
    case GetRecData => DataStep(p, u, pos)
    case GetRecEof =>
      (match ReadHex(p, u, pos)
       case Stop(o) => Stop(o)
       case Go(r, q) => Go(r.(state := EndDownload), q))
    case GetExtSegAddr => Go(p.(state := UnknownRec), pos)
    case GetStartSegAddr => Go(p.(state := UnknownRec), pos)
    case GetExtLinAddr => SegmentStep(p, u, pos)
    case GetStartLinAddr => Stop(Spinning)
    case GetChkSume => ChkSumeStep(p, u, pos)
    case HandleError => ErrorStep(p, pos)
    case UnknownRec => Go(p.(errs := Bump(p.errs, ERR_REC_TYPE), state := StartRec), pos)
    case EndDownload => Go(p.(state := ExitDownload), pos)
    case ExitDownload => Stop(Spinning)
  }

  function Rank(s: State): nat {
    match s
    case GetExtSegAddr | GetStartSegAddr | HandleError => 2
    case UnknownRec | EndDownload => 1
    case _ => 0
  }

  function Run(p: Parser, u: seq<byte>, pos: nat): (o: Outcome)
    requires p.Valid() && pos <= |u|
    ensures o.Finished? ==> |o.errs| == 8 && |o.mem| == COM_BANK0_LEN && o.top <= 0xFFFF && pos <= o.pos <= |u|
    decreases |u| - pos, Rank(p.state)
  {
    match Step(p, u, pos)
    case Stop(o) => o
    case Go(r, q) => if r.state.ExitDownload? then Finished(r.errs, r.mem, r.top, q) else Run(r, u, q)
  }

  const CLEAR: seq<nat> := [0, 0, 0, 0, 0, 0, 0, 0]

  function Initial(mem: seq<byte>, top: nat): Parser {
    Parser(StartRec, 0, 0, 0, Good, 0, 0, 0, CLEAR, mem, top)
  }

  lemma InitialIs(mem: seq<byte>, top: nat, p: Parser)
    requires p.Valid() && mem == p.mem && top == p.top
    ensures Initial(mem, top) == Parser(StartRec, 0, 0, 0, Good, 0, 0, 0, CLEAR, mem, top)
    ensures Initial(mem, top).Valid()
  {}

  /** ParseHexRecord on memory `mem` with Uart2EramAddr == top, reading u from pos. */
  function Parse(mem: seq<byte>, top: nat, u: seq<byte>, pos: nat): (o: Outcome)
    requires |mem| == COM_BANK0_LEN && top <= 0xFFFF && pos <= |u|
    ensures o.Finished? ==> |o.errs| == 8 && |o.mem| == COM_BANK0_LEN && o.top <= 0xFFFF && pos <= o.pos <= |u|
  {
    Run(Initial(mem, top), u, pos)
  }

  // ------------------------------------------------------------ the imperative loader

  datatype Status = Done | Blocked(why: Outcome)

  class HexLoader {
    const uart: Uart
    const cram: CodeRam
    /** Uart2EramAddr: the highest address written. */
    var eramTop: nat
    /** ErrCnt, with the two slots past its end that the clearing loop also touches. */
    var errCnt: seq<nat>

    // ParseHexRecord's locals, kept here so that each case of its switch can be a method
    var state: State
    var chkSume: byte
    var hexVal: byte
    var recLen: nat
    var err: Ret
    var cramAddr: nat
    var temp: nat
    var i: nat

    /** The loader's variables and the memory it sees, as a value. */
    ghost function Vars(): Parser
      requires cram.Valid()
      reads this, cram
    {
      Parser(state, chkSume, hexVal, recLen, err, cramAddr, temp, i, errCnt, cram.View(), eramTop)
    }

    ghost predicate Valid()
      reads this, uart, cram
    {
      uart.Valid() && cram.Valid() && Vars().Valid()
    }

    /** The loader now is what one step of the machine gives, or is blocked where the machine stops. */
    ghost predicate Follows(n: Next, status: Status)
      requires cram.Valid()
      reads this, uart, cram
    {
      match n
      case Stop(o) => status == Blocked(o)
      case Go(p, q) => status == Done && Vars() == p && uart.pos == q
    }

    constructor (uart: Uart, cram: CodeRam)
      requires uart.Valid() && cram.Valid()
      ensures Valid() && this.uart == uart && this.cram == cram
    {
      this.uart, this.cram := uart, cram;
      eramTop, errCnt, state, err := 0, CLEAR, StartRec, Good;
      chkSume, hexVal, recLen, cramAddr, temp, i := 0, 0, 0, 0, 0, 0;
    }

    method GetAscii() returns (got: bool, err: Ret, c: byte)
      requires uart.Valid() && |errCnt| == 8
      modifies this`errCnt, uart
      ensures uart.Valid() && got == (old(uart.pos) < |uart.data|)
      ensures !got ==> errCnt == old(errCnt)
      ensures got ==>
        && uart.pos == old(uart.pos) + 1 && c == uart.data[old(uart.pos)]
        && Ascii(err, errCnt) == Classify(c, old(errCnt))
    {
      got, c := uart.Get1char();
      err := Good;
      if got {
        if c == ESC {
          err := ExitRet;
        } else if c == COLON {
          errCnt := Bump(errCnt, ERR_LINE_BEGIN);
          err := ExtraRecord;
        } else if IsXDigit(c) {
          err := Good;
        } else if c == LF {
          err := Enter;
        } else {
          errCnt := Bump(errCnt, ERR_NON_ASC_DIGIT);
          err := NonAscDigit;
        }
      }
    }

    /** Reads a byte of two hex digits into HexVal; on an error HexVal and ChkSume stay as they were. */
    method GetAsc2Hex() returns (status: Status)
      requires Valid()
      modifies this`errCnt, this`err, this`hexVal, this`chkSume, uart
      ensures Valid() && Follows(ReadHex(old(Vars()), uart.data, old(uart.pos)), status)
    {
      hide Add8, ByteOf, Classify, ReadHex, Ram.View, Parser.Valid;
      ghost var p, at := Vars(), uart.pos;
      EightCounters(p);
      ReadHexIs(p, uart.data, at);
      var first: Option<byte> := None;
      while true
        invariant uart.Valid() && |errCnt| == 8
        invariant Vars() == p.(errs := errCnt)
        invariant FetchHex(uart.data, uart.pos, first, errCnt) == FetchHex(uart.data, at, None, p.errs)
        decreases |uart.data| - uart.pos
      {
        var got, code, c := GetAscii();
        if !got {
          KeepsValid(p, errCnt);
          return Blocked(Waiting);
        }
        match code {
          case Good =>
            if first.None? {
              first := Some(c);
            } else {
              hexVal := ByteOf(first.value, c);
              chkSume := Add8(chkSume, hexVal);
              err := Good;
              assert Vars() == p.(err := Good, errs := errCnt, hex := hexVal, chk := chkSume);
              return Done;
            }
          case NonAscDigit =>
          case _ =>
            err := code;
            assert Vars() == p.(err := code, errs := errCnt);
            return Done;
        }
      }
    }

    /** Writes the byte and reads it back. */
    method Wr2CRam(data: byte, addr: nat) returns (failed: bool)
      requires cram.Valid() && COMMONADDR_L <= addr <= 0xFFFF
      modifies cram`ram
      ensures cram.Valid() && !failed
      ensures cram.View() == old(cram.View())[addr - COMMONADDR_L := data]
      ensures cram.ram == old(cram.ram).WithView(cram.bank, cram.View())
    {
      cram.Write(addr, data);
      var back := cram.Read(addr);
      failed := back != data;
    }

    method OnStartRec() returns (status: Status)
      requires Valid() && state == StartRec
      modifies this, uart
      ensures Valid() && Follows(StartStep(old(Vars()), uart.data, old(uart.pos)), status)
    {
      var got, c := uart.Get1char();
      if !got {
        return Blocked(Waiting);
      }
      if c == ESC {
        state := EndDownload;
      } else if c == COLON {
        chkSume := 0;
        state := GetRecLen;
      } else if !IsXDigit(c) && c != LF {
        errCnt := Bump(errCnt, ERR_NON_ASC_DIGIT);
      }
      return Done;
    }

    method OnRecLen() returns (status: Status)
      requires Valid() && state == GetRecLen
      modifies this, uart
      ensures Valid() && Follows(RecLenStep(old(Vars()), uart.data, old(uart.pos)), status)
    {
      hide Add8;
      status := GetAsc2Hex();
      if status == Done {
        if err.Good? {
          recLen := ToNat(hexVal);
          state := GetOffset;
        } else {
          state := HandleError;
        }
      }
    }

    method OnOffset() returns (status: Status)
      requires Valid() && state == GetOffset
      modifies this, uart
      ensures Valid() && Follows(OffsetStep(old(Vars()), uart.data, old(uart.pos)), status)
    {
      hide ReadHex, OffsetStep, ToNat, HighByte, Ram.View, Parser.Valid;
      OffsetStepIs(Vars(), uart.data, uart.pos);
      status := GetAsc2Hex();
      if status != Done { return; }
      ghost var r := Vars();
      var high := hexVal;
      if !err.Good? {
        temp := ToNat(high);
        state := HandleError;
        assert Vars() == OffsetFails(r, high);
        return;
      }
      status := GetAsc2Hex();
      if status != Done { return; }
      ghost var r2 := Vars();
      if !err.Good? {
        temp := ToNat(high);
        state := HandleError;
        assert Vars() == OffsetFails(r2, high);
        return;
      }
      temp := HighByte(high) + ToNat(hexVal);
      cramAddr := temp;
      state := GetRecType;
      assert Vars() == OffsetRead(r2, high);
    }

    method OnRecType() returns (status: Status)
      requires Valid() && state == GetRecType
      modifies this, uart
      ensures Valid() && Follows(RecTypeStep(old(Vars()), uart.data, old(uart.pos)), status)
    {
      hide Add8;
      var kept := hexVal;
      status := GetAsc2Hex();
      if status != Done { return; }
      var recType := hexVal;
      hexVal := kept;
      if !err.Good? {
        state := HandleError;
      } else if recType > 5 {
        state := UnknownRec;
      } else {
        state := StateOfType(recType);
        i := 0;
      }
    }

    /** The data byte just read goes to its address, and the record has one byte less to come. */
    method StoreByte()
      requires Valid() && state == GetRecData && cramAddr >= COMMONADDR_L
      modifies this, cram`ram
      ensures Valid() && Vars() == Stored(old(Vars()))
      ensures cram.ram == old(cram.ram).WithView(cram.bank, cram.View())
    {
      hide Dec8, Inc16, Ram.View, Ram.WithView, Parser.Valid;
      ghost var r := Vars();
      AddressInRange(r);
      recLen := Dec8(recLen);
      if cramAddr > eramTop {
        eramTop := cramAddr;
      }
      // code RAM holds what is written to it, so ErrWrCRam never counts
      var failed := Wr2CRam(hexVal, cramAddr);
      err := if failed then err else Good;
      cramAddr := Inc16(cramAddr);
      if recLen == 0 {
        state := GetChkSume;
      }
      assert Vars() == Stored(r);
    }

    method OnRecData() returns (status: Status)
      requires Valid() && state == GetRecData
      modifies this, uart, cram`ram
      ensures Valid() && Follows(DataStep(old(Vars()), uart.data, old(uart.pos)), status)
      ensures cram.ram == old(cram.ram).WithView(cram.bank, cram.View())
    {
      hide ReadHex, DataStep, Stored, Ram.View, Ram.WithView, Parser.Valid;
      WithOwnView(cram.ram, cram.bank);
      DataStepIs(Vars(), uart.data, uart.pos);
      status := GetAsc2Hex();
      if status != Done { return; }
      if cramAddr < COMMONADDR_L {
        return Blocked(Escaped);
      }
      StoreByte();
    }

    method OnExtLinAddr() returns (status: Status)
      requires Valid() && state == GetExtLinAddr
      modifies this, uart
      ensures Valid() && Follows(SegmentStep(old(Vars()), uart.data, old(uart.pos)), status)
    {
      hide ReadHex, SegmentStep, Dec8, ToNat, HighByte, Bump, SegmentMapped, Ram.View, Parser.Valid;
      SegmentStepIs(Vars(), uart.data, uart.pos);
      status := GetAsc2Hex();
      if status != Done { return; }
      ghost var r := Vars();
      EightCounters(r);
      recLen := Dec8(recLen);
      if i == 0 {
        if err.Good? {
          temp := HighByte(hexVal);
        } else {
          temp := 0;
          state := HandleError;
        }
        i := 1;
        assert Vars() == SegmentHigh(r);
      } else {
        if err.Good? {
          if !SegmentMapped(temp + ToNat(hexVal)) {
            errCnt := Bump(errCnt, ERR_SEGMENT);
          }
          temp, cramAddr := 0, 0;
          state := GetChkSume;
        } else {
          state := HandleError;
        }
        assert Vars() == SegmentLow(r);
      }
      return Done;
    }

    method OnChkSume() returns (status: Status)
      requires Valid() && state == GetChkSume
      modifies this, uart
      ensures Valid() && Follows(ChkSumeStep(old(Vars()), uart.data, old(uart.pos)), status)
    {
      hide Add8;
      status := GetAsc2Hex();
      if status != Done { return; }
      if !(err.Good? && chkSume == 0 && recLen == 0) {
        errCnt := Bump(errCnt, ERR_CHK_SUME);
      }
      state := StartRec;
    }

    method OnError() returns (status: Status)
      requires Valid() && state == HandleError
      modifies this
      ensures Valid() && Follows(ErrorStep(old(Vars()), uart.pos), status)
    {
      match err {
        case ExitRet => state := EndDownload;
        case NonAscDigit => state := StartRec;
        case ExtraRecord =>
          chkSume := 0;
          state := GetRecLen;
        case _ => return Blocked(Spinning);
      }
      return Done;
    }

    /** One pass through the switch. */
    method Dispatch() returns (status: Status)
      requires Valid() && state != ExitDownload
      modifies this, uart, cram`ram
      ensures Valid() && Follows(Step(old(Vars()), uart.data, old(uart.pos)), status)
      ensures cram.ram == old(cram.ram).WithView(cram.bank, cram.View())
    {
      hide Add8, StartStep, RecLenStep, OffsetStep, RecTypeStep, DataStep, SegmentStep, ChkSumeStep, ErrorStep;
      WithOwnView(cram.ram, cram.bank);
      status := Done;
      match state {
        case StartRec => status := OnStartRec();
        case GetRecLen => status := OnRecLen();
        case GetOffset => status := OnOffset();
        case GetRecType => status := OnRecType();
        case GetRecData => status := OnRecData();
        case GetRecEof =>
          status := GetAsc2Hex();
          if status == Done {
            state := EndDownload;
          }
        case GetExtSegAddr => state := UnknownRec;
        case GetStartSegAddr => state := UnknownRec;
        case GetExtLinAddr => status := OnExtLinAddr();
        case GetStartLinAddr => status := Blocked(Spinning);
        case GetChkSume => status := OnChkSume();
        case HandleError => status := OnError();
        case UnknownRec =>
          errCnt := Bump(errCnt, ERR_REC_TYPE);
          state := StartRec;
        case EndDownload => state := ExitDownload;
      }
    }

    /** The declarations at the head of ParseHexRecord, and the loop that clears the counters. */
    method Clear()
      requires Valid()
      modifies this
      ensures Valid() && state == StartRec && eramTop == old(eramTop)
      ensures Vars() == Initial(cram.View(), eramTop)
    {
      hide Ram.View, Ram.Valid, Uart.Valid, Parser.Valid, Initial;
      InitialIs(cram.View(), eramTop, Vars());
      errCnt, state, err := CLEAR, StartRec, Good;
      chkSume, hexVal, recLen, cramAddr, temp, i := 0, 0, 0, 0, 0, 0;
    }

    /** A turn of the loop: what the parser is going to end in stays, and the end gets nearer. */
    method Turn(ghost goal: Outcome) returns (status: Status)
      requires Valid() && state != ExitDownload && goal == Run(Vars(), uart.data, uart.pos)
      modifies this, uart, cram`ram
      ensures Valid() && Arrives(status, goal)
      ensures status == Done ==> old(uart.pos) <= uart.pos
      ensures status == Done && uart.pos == old(uart.pos) ==> Rank(state) < old(Rank(state))
      ensures cram.ram == old(cram.ram).WithView(cram.bank, cram.View())
    {
      hide Step, Run, Parser.Valid;
      RunOnce(Vars(), uart.data, uart.pos);
      status := Dispatch();
    }

    /** The parser is in its last state, with the outcome `goal`, or on its way there. */
    ghost predicate Arrives(status: Status, goal: Outcome)
      requires Valid()
      reads this, uart, cram
    {
      match status
      case Blocked(o) => goal == o && !o.Finished?
      case Done =>
        goal == if state == ExitDownload then Finished(errCnt, cram.View(), eramTop, uart.pos)
                else Run(Vars(), uart.data, uart.pos)
    }

    /** Loads one HEX text into the selected bank, whatever the text is. */
    method ParseHexRecord() returns (status: Status)
      requires Valid()
      modifies this, uart, cram`ram
      ensures Valid()
      ensures cram.ram == old(cram.ram).WithView(cram.bank, cram.View())
      ensures match Parse(old(cram.View()), old(eramTop), uart.data, old(uart.pos))
              case Finished(errs, mem, top, pos) =>
                status == Done && errCnt == errs && cram.View() == mem && eramTop == top && uart.pos == pos
              case o => status == Blocked(o)
    {
      hide Step, Run, Ram.View, Ram.WithView;
      WithOwnView(cram.ram, cram.bank);
      ghost var goal := Parse(cram.View(), eramTop, uart.data, uart.pos);
      Clear();
      status := Done;
      while state != ExitDownload
        invariant Valid() && status == Done && Arrives(status, goal)
        invariant cram.ram == old(cram.ram).WithView(cram.bank, cram.View())
        decreases |uart.data| - uart.pos, Rank(state), state != ExitDownload
      {
        ghost var view := cram.View();
        status := Turn(goal);
        WithViewTwice(old(cram.ram), cram.bank, view, cram.View());
        if status != Done {
          return;
        }
      }
    }
  }

  lemma RunOnce(p: Parser, u: seq<byte>, pos: nat)
    requires p.Valid() && pos <= |u|
    ensures Run(p, u, pos) == match Step(p, u, pos)
      case Stop(o) => o
      case Go(r, q) => if r.state.ExitDownload? then Finished(r.errs, r.mem, r.top, q) else Run(r, u, q)
  {
    hide Step;
  }
}
