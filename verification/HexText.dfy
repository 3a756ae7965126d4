/**
  Intel HEX texts and what the loader makes of them: any text that spells a list of
  records is consumed exactly, the records are loaded in order, and the checksum counter
  counts exactly the records whose bytes do not sum to zero.
 */
module HexText {
  import opened MachineWords
  import opened Buffers
  import opened CodeMemory
  import opened HexFile
  import opened Options

  /** A record before the end-of-file record; `chk` is its last byte, right or wrong. */
  datatype Record =
    | Data(high: byte, low: byte, data: seq<byte>, chk: byte)
    | Segment(high: byte, low: byte, chk: byte)

  function Address(high: byte, low: byte): nat { HighByte(high) + ToNat(low) }

  /** Length 1 to 255, inside code memory, not running past 0xFFFF. */
  predicate Loadable(r: Record) {
    r.Data? ==> 1 <= |r.data| <= 255 && COMMONADDR_L <= Address(r.high, r.low) <= 0x1_0000 - |r.data|
  }

  predicate AllLoadable(rs: seq<Record>) {
    forall k | 0 <= k < |rs| :: Loadable(rs[k])
  }

  function RecordBytes(r: Record): seq<byte>
    requires Loadable(r)
  {
    match r
    case Data(high, low, data, chk) => [FromNat(|data|), high, low, 0] + data + [chk]
    case Segment(high, low, chk) => [2, 0, 0, 4, high, low, chk]
  }

  const EOF_BYTES: seq<byte> := [0, 0, 0, 1, 0xFF]

  function Sum(start: byte, bs: seq<byte>): byte
    decreases |bs|
  {
    if bs == [] then start else Sum(Add8(start, bs[0]), bs[1..])
  }

  predicate GoodChecksum(r: Record)
    requires Loadable(r)
  {
    Sum(0, RecordBytes(r)) == 0
  }

  // ------------------------------------------------------------ what the records denote

  function Loaded(mem: seq<byte>, r: Record): (m: seq<byte>)
    requires |mem| == COM_BANK0_LEN && Loadable(r)
    ensures |m| == COM_BANK0_LEN
  {
    if r.Data? then Splice(mem, Address(r.high, r.low) - COMMONADDR_L, r.data) else mem
  }

  /** The memory after loading the records in order. */
  function LoadedAll(mem: seq<byte>, rs: seq<Record>): (m: seq<byte>)
    requires |mem| == COM_BANK0_LEN && AllLoadable(rs)
    ensures |m| == COM_BANK0_LEN
    decreases |rs|
  {
    if rs == [] then mem else LoadedAll(Loaded(mem, rs[0]), rs[1..])
  }

  function Max(a: nat, b: nat): nat { if a > b then a else b }

  function Highest(top: nat, rs: seq<Record>): (t: nat)
    requires top <= 0xFFFF && AllLoadable(rs)
    ensures top <= t <= 0xFFFF
    decreases |rs|
  {
    if rs == [] then top
    else if rs[0].Data? then Highest(Max(top, Address(rs[0].high, rs[0].low) + |rs[0].data| - 1), rs[1..])
    else Highest(top, rs[1..])
  }

  /** The error counters after the records: bad checksums and unmapped segments, modulo 2^16. */
  function Counted(errs: seq<nat>, r: Record): (e: seq<nat>)
    requires |errs| == 8 && Loadable(r)
    ensures |e| == 8
  {
    var e := if r.Segment? && !SegmentMapped(Address(r.high, r.low)) then Bump(errs, ERR_SEGMENT) else errs;
    if GoodChecksum(r) then e else Bump(e, ERR_CHK_SUME)
  }

  function CountedAll(errs: seq<nat>, rs: seq<Record>): (e: seq<nat>)
    requires |errs| == 8 && AllLoadable(rs)
    ensures |e| == 8
    decreases |rs|
  {
    if rs == [] then errs else CountedAll(Counted(errs, rs[0]), rs[1..])
  }

  function BadCount(rs: seq<Record>): nat
    requires AllLoadable(rs)
  {
    if rs == [] then 0 else (if GoodChecksum(rs[0]) then 0 else 1) + BadCount(rs[1..])
  }

  // ------------------------------------------------------------ texts

  /** Two hex digits per byte, in either case, spelling bs at position p of u. */
  predicate SpellsAt(u: seq<byte>, p: nat, bs: seq<byte>) {
    && p + 2 * |bs| <= |u|
    && forall k | 0 <= k < |bs| ::
      IsXDigit(u[p + 2 * k]) && IsXDigit(u[p + 2 * k + 1]) && ByteOf(u[p + 2 * k], u[p + 2 * k + 1]) == bs[k]
  }

  /**
    u[p..q) spells the records and the end-of-file record; before each colon may stand anything
    but a colon or an escape, the ends of lines among it.
   */
  predicate TextAt(u: seq<byte>, p: nat, rs: seq<Record>, q: nat)
    requires AllLoadable(rs)
    decreases |u| - p
  {
    p < |u| &&
    if u[p] != COLON then u[p] != ESC && TextAt(u, p + 1, rs, q)
    else if rs == [] then SpellsAt(u, p + 1, EOF_BYTES) && q == p + 11
    else
      var bs := RecordBytes(rs[0]);
      SpellsAt(u, p + 1, bs) && TextAt(u, p + 1 + 2 * |bs|, rs[1..], q)
  }

  /** Neither a hex digit nor a line feed, a colon or an escape. */
  predicate IsJunk(c: byte) {
    !(48 <= c <= 57 || 65 <= c <= 70 || 97 <= c <= 102) && c != 10 && c != 58 && c != 27
  }

  /** The number of junk characters in a stretch of the stream. */
  function JunkIn(u: seq<byte>, lo: nat, hi: nat): nat
    requires lo <= hi <= |u|
    decreases hi - lo
  {
    if lo == hi then 0 else (if IsJunk(u[lo]) then 1 else 0) + JunkIn(u, lo + 1, hi)
  }

  lemma {:induction false} JunkSplit(u: seq<byte>, a: nat, b: nat, c: nat)
    requires a <= b <= c <= |u|
    ensures JunkIn(u, a, c) == JunkIn(u, a, b) + JunkIn(u, b, c)
    decreases b - a
  {
    hide IsJunk;
    if a < b { JunkSplit(u, a + 1, b, c); }
  }

  lemma {:induction false} NoJunk(u: seq<byte>, a: nat, b: nat)
    requires a <= b <= |u| && forall k | a <= k < b :: !IsJunk(u[k])
    ensures JunkIn(u, a, b) == 0
    decreases b - a
  {
    hide IsJunk;
    if a < b { NoJunk(u, a + 1, b); }
  }

  /** What is spelled, and the colon in front of it, is not junk. */
  lemma SpelledIsNoJunk(u: seq<byte>, p: nat, bs: seq<byte>)
    requires p < |u| && u[p] == COLON && SpellsAt(u, p + 1, bs)
    ensures p + 1 + 2 * |bs| <= |u| && JunkIn(u, p, p + 1 + 2 * |bs|) == 0
  {
    hide ByteOf;
    var end := p + 1 + 2 * |bs|;
    forall k | p <= k < end ensures !IsJunk(u[k]) {
      if k > p {
        var j := (k - p - 1) / 2;
        assert IsXDigit(u[p + 1 + 2 * j]) && IsXDigit(u[p + 1 + 2 * j + 1]);
      }
    }
    hide SpellsAt, IsJunk;
    NoJunk(u, p, end);
  }

  lemma {:induction false} TextFits(u: seq<byte>, p: nat, rs: seq<Record>, q: nat)
    requires AllLoadable(rs) && TextAt(u, p, rs, q)
    ensures p < q <= |u|
    decreases |u| - p
  {
    hide RecordBytes;
    if u[p] != COLON {
      TextFits(u, p + 1, rs, q);
    } else if rs != [] {
      TextFits(u, p + 1 + 2 * |RecordBytes(rs[0])|, rs[1..], q);
    }
  }

  /** The digits, upper and lower case, by their codes. */
  function DigitOf(c: byte): byte {
    if c <= 57 then c - 48 else if c <= 70 then c - 55 else c - 87
  }

  lemma DigitsAre(c: byte, d: byte)
    ensures IsXDigit(c) <==> 48 <= c <= 57 || 65 <= c <= 70 || 97 <= c <= 102
    ensures IsXDigit(c) && IsXDigit(d) ==> ByteOf(c, d) == (DigitOf(c) << 4) | DigitOf(d)
  {}

  lemma SpelledFits(u: seq<byte>, p: nat, bs: seq<byte>)
    requires SpellsAt(u, p, bs)
    ensures p + 2 * |bs| <= |u|
  {}

  lemma SpellsSplit(u: seq<byte>, p: nat, a: seq<byte>, b: seq<byte>)
    requires SpellsAt(u, p, a + b)
    ensures SpellsAt(u, p, a) && SpellsAt(u, p + 2 * |a|, b)
  {
    forall k | 0 <= k < |a| ensures a[k] == (a + b)[k] {}
    forall k | 0 <= k < |b|
      ensures IsXDigit(u[p + 2 * |a| + 2 * k]) && IsXDigit(u[p + 2 * |a| + 2 * k + 1])
      ensures ByteOf(u[p + 2 * |a| + 2 * k], u[p + 2 * |a| + 2 * k + 1]) == b[k]
    {
      var j := |a| + k;
      assert (a + b)[j] == b[k];
      assert IsXDigit(u[p + 2 * j]) && ByteOf(u[p + 2 * j], u[p + 2 * j + 1]) == (a + b)[j];
    }
  }

  /** One spelled byte is read as that byte and nothing is counted. */
  lemma ReadsSpelled(p: Parser, u: seq<byte>, pos: nat, bs: seq<byte>)
    requires p.Valid() && bs != [] && SpellsAt(u, pos, bs)
    ensures ReadHex(p, u, pos) == Go(p.(err := Good, hex := bs[0], chk := Add8(p.chk, bs[0])), pos + 2)
    ensures SpellsAt(u, pos + 2, bs[1..])
  {
    hide Add8, ByteOf;
    var c, d := u[pos], u[pos + 1];
    assert u[pos + 2 * 0] == c && u[pos + 2 * 0 + 1] == d;
    DigitIsNoControl(c);
    DigitIsNoControl(d);
    assert FetchHex(u, pos, None, p.errs) == FetchHex(u, pos + 1, Some(c), p.errs);
    assert bs == [bs[0]] + bs[1..];
    SpellsSplit(u, pos, [bs[0]], bs[1..]);
  }

  lemma DigitIsNoControl(c: byte)
    requires IsXDigit(c)
    ensures c != ESC && c != COLON && c != LF
  {}

  lemma {:induction false} SumConcat(start: byte, a: seq<byte>, b: seq<byte>)
    ensures Sum(start, a + b) == Sum(Sum(start, a), b)
    decreases |a|
  {
    if a == [] {
      assert a + b == b;
    } else {
      assert (a + b)[1..] == a[1..] + b;
      SumConcat(Add8(start, a[0]), a[1..], b);
    }
  }

  // ------------------------------------------------------------ one record

  lemma RunStep(p: Parser, u: seq<byte>, pos: nat, r: Parser, q: nat)
    requires p.Valid() && pos <= |u| && Step(p, u, pos) == Go(r, q) && r.state != ExitDownload
    ensures q <= |u| && r.Valid() && Run(p, u, pos) == Run(r, u, q)
  {
    hide Step;
  }

  lemma ColonRuns(p: Parser, u: seq<byte>, pos: nat)
    requires p.Valid() && p.state == StartRec && pos < |u| && u[pos] == COLON
    ensures var r := p.(chk := 0, state := GetRecLen); r.Valid() && Run(p, u, pos) == Run(r, u, pos + 1)
  {
    hide Run;
    var r := p.(chk := 0, state := GetRecLen);
    assert Step(p, u, pos) == Go(r, pos + 1);
    RunStep(p, u, pos, r, pos + 1);
  }

  lemma LengthRuns(p: Parser, u: seq<byte>, pos: nat, bs: seq<byte>) returns (r: Parser)
    requires p.Valid() && p.state == GetRecLen && bs != [] && SpellsAt(u, pos, bs)
    ensures r == p.(err := Good, hex := bs[0], chk := Add8(p.chk, bs[0]), recLen := ToNat(bs[0]), state := GetOffset)
    ensures r.Valid() && Run(p, u, pos) == Run(r, u, pos + 2) && SpellsAt(u, pos + 2, bs[1..])
  {
    hide Add8, ToNat, SpellsAt, ReadHex, Run;
    ReadsSpelled(p, u, pos, bs);
    r := p.(err := Good, hex := bs[0], chk := Add8(p.chk, bs[0]), recLen := ToNat(bs[0]), state := GetOffset);
    assert Step(p, u, pos) == Go(r, pos + 2);
    RunStep(p, u, pos, r, pos + 2);
  }

  lemma OffsetRuns(p: Parser, u: seq<byte>, pos: nat, high: byte, low: byte, rest: seq<byte>) returns (r: Parser)
    requires p.Valid() && p.state == GetOffset && SpellsAt(u, pos, [high, low] + rest)
    ensures r.Valid() && r.state == GetRecType && r.addr == Address(high, low) && r.recLen == p.recLen
    ensures r.chk == Add8(Add8(p.chk, high), low) && r.errs == p.errs && r.mem == p.mem && r.top == p.top
    ensures Run(p, u, pos) == Run(r, u, pos + 4) && SpellsAt(u, pos + 4, rest)
  {
    hide Add8, ToNat, HighByte, SpellsAt, ReadHex, Run, Step, OffsetStep;
    ReadsSpelled(p, u, pos, [high, low] + rest);
    assert ([high, low] + rest)[1..] == [low] + rest && ([low] + rest)[1..] == rest;
    var q := p.(err := Good, hex := high, chk := Add8(p.chk, high));
    ReadsSpelled(q, u, pos + 2, [low] + rest);
    OffsetIsStep(p, u, pos);
    OffsetStepIs(p, u, pos);
    r := OffsetRead(q.(hex := low, chk := Add8(q.chk, low)), high);
    RunStep(p, u, pos, r, pos + 4);
  }

  lemma OffsetIsStep(p: Parser, u: seq<byte>, pos: nat)
    requires p.Valid() && pos <= |u| && p.state == GetOffset
    ensures Step(p, u, pos) == OffsetStep(p, u, pos)
  {
    hide OffsetStep;
  }

  lemma TypeRuns(p: Parser, u: seq<byte>, pos: nat, recType: byte) returns (r: Parser)
    requires p.Valid() && p.state == GetRecType && recType <= 5 && SpellsAt(u, pos, [recType])
    ensures r == p.(err := Good, chk := Add8(p.chk, recType), state := StateOfType(recType), i := 0)
    ensures r.Valid() && Run(p, u, pos) == Run(r, u, pos + 2)
  {
    hide Add8, SpellsAt, ReadHex, Run;
    ReadsSpelled(p, u, pos, [recType]);
    r := p.(err := Good, chk := Add8(p.chk, recType), state := StateOfType(recType), i := 0);
    assert Step(p, u, pos) == Go(r, pos + 2);
    RunStep(p, u, pos, r, pos + 2);
  }

  /** From the colon through the record type. */
  lemma HeaderRuns(p: Parser, u: seq<byte>, pos: nat, len: byte, high: byte, low: byte, recType: byte)
    returns (r: Parser)
    requires p.Valid() && p.state == StartRec && recType <= 5
    requires pos < |u| && u[pos] == COLON && SpellsAt(u, pos + 1, [len, high, low, recType])
    ensures r.Valid() && r.state == StateOfType(recType) && r.recLen == ToNat(len) && r.i == 0
    ensures r.addr == Address(high, low) && r.chk == Sum(0, [len, high, low, recType])
    ensures r.errs == p.errs && r.mem == p.mem && r.top == p.top
    ensures Run(p, u, pos) == Run(r, u, pos + 9)
  {
    hide Add8, ToNat, SpellsAt, Run, StateOfType, Address, Sum;
    ColonRuns(p, u, pos);
    r := LengthRuns(p.(chk := 0, state := GetRecLen), u, pos + 1, [len, high, low, recType]);
    assert [len, high, low, recType][1..] == [high, low] + [recType];
    r := OffsetRuns(r, u, pos + 3, high, low, [recType]);
    r := TypeRuns(r, u, pos + 7, recType);
    FourSummed(len, high, low, recType);
  }

  lemma FourSummed(a: byte, b: byte, c: byte, d: byte)
    ensures Sum(0, [a, b, c, d]) == Add8(Add8(Add8(Add8(0, a), b), c), d)
  {
    hide Add8;
    assert [a, b, c, d][1..] == [b, c, d] && [b, c, d][1..] == [c, d] && [c, d][1..] == [d] && [d][1..] == [];
    var x := Add8(0, a);
    assert Sum(0, [a, b, c, d]) == Sum(x, [b, c, d]) == Sum(Add8(x, b), [c, d]);
    assert Sum(Add8(x, b), [c, d]) == Sum(Add8(Add8(x, b), c), [d]) == Add8(Add8(Add8(x, b), c), d);
  }

  /** One data byte is stored at the load address. */
  lemma DataByteRuns(p: Parser, u: seq<byte>, pos: nat, data: seq<byte>) returns (q: Parser)
    requires p.Valid() && p.state == GetRecData && 1 <= |data| == p.recLen
    requires COMMONADDR_L <= p.addr && SpellsAt(u, pos, data)
    ensures q.Valid() && q.state == (if |data| == 1 then GetChkSume else GetRecData) && q.recLen == |data| - 1
    ensures q.chk == Add8(p.chk, data[0]) && q.errs == p.errs && q.top == Max(p.top, p.addr)
    ensures q.mem == p.mem[p.addr - COMMONADDR_L := data[0]]
    ensures p.addr < 0xFFFF ==> q.addr == p.addr + 1
    ensures SpellsAt(u, pos + 2, data[1..]) && Run(p, u, pos) == Run(q, u, pos + 2)
  {
    hide Add8, SpellsAt, ReadHex, Run;
    ReadsSpelled(p, u, pos, data);
    q := p.(err := Good, hex := data[0], chk := Add8(p.chk, data[0]), recLen := |data| - 1,
            top := Max(p.top, p.addr), mem := p.mem[p.addr - COMMONADDR_L := data[0]],
            addr := Inc16(p.addr),
            state := if |data| == 1 then GetChkSume else GetRecData);
    assert Dec8(p.recLen) == |data| - 1;
    assert Step(p, u, pos) == Go(q, pos + 2);
    RunStep(p, u, pos, q, pos + 2);
  }

  /** The data bytes of a record. */
  lemma {:induction false} DataRuns(p: Parser, u: seq<byte>, pos: nat, data: seq<byte>)
    returns (r: Parser)
    requires p.Valid() && p.state == GetRecData && 1 <= |data| == p.recLen
    requires COMMONADDR_L <= p.addr <= 0x1_0000 - |data| && SpellsAt(u, pos, data)
    ensures r.Valid() && r.state == GetChkSume && r.recLen == 0
    ensures r.chk == Sum(p.chk, data) && r.errs == p.errs
    ensures r.mem == Splice(p.mem, p.addr - COMMONADDR_L, data)
    ensures r.top == Max(p.top, p.addr + |data| - 1)
    ensures Run(p, u, pos) == Run(r, u, pos + 2 * |data|)
    decreases |data|
  {
    hide Add8, SpellsAt, Run, Splice;
    var q := DataByteRuns(p, u, pos, data);
    SpliceFirst(p.mem, p.addr - COMMONADDR_L, data);
    if |data| == 1 {
      r := q;
      SumOne(p.chk, data[0]);
      assert data == [data[0]];
    } else {
      r := DataRuns(q, u, pos + 2, data[1..]);
    }
  }

  lemma SpliceFirst(mem: seq<byte>, at: nat, data: seq<byte>)
    requires data != [] && at + |data| <= |mem|
    ensures Splice(mem, at, data) == Splice(mem[at := data[0]], at + 1, data[1..])
    ensures |data| == 1 ==> Splice(mem, at, data) == mem[at := data[0]]
  {}

  /** The checksum byte, right or wrong. */
  lemma ChecksumRuns(p: Parser, u: seq<byte>, pos: nat, chk: byte) returns (r: Parser)
    requires p.Valid() && p.state == GetChkSume && p.recLen == 0 && SpellsAt(u, pos, [chk])
    ensures r.Valid() && r.state == StartRec && r.mem == p.mem && r.top == p.top
    ensures r.errs == if Add8(p.chk, chk) == 0 then p.errs else Bump(p.errs, ERR_CHK_SUME)
    ensures Run(p, u, pos) == Run(r, u, pos + 2)
  {
    hide Add8, SpellsAt, ReadHex, Run;
    ReadsSpelled(p, u, pos, [chk]);
    var sum := Add8(p.chk, chk);
    r := p.(err := Good, hex := chk, chk := sum, state := StartRec,
            errs := if sum == 0 then p.errs else Bump(p.errs, ERR_CHK_SUME));
    assert Step(p, u, pos) == Go(r, pos + 2);
    RunStep(p, u, pos, r, pos + 2);
  }

  lemma DataRecordRuns(p: Parser, u: seq<byte>, pos: nat, rec: Record) returns (r: Parser)
    requires p.Valid() && p.state == StartRec && Loadable(rec) && rec.Data?
    requires pos < |u| && u[pos] == COLON && SpellsAt(u, pos + 1, RecordBytes(rec))
    ensures r.Valid() && r.state == StartRec && r.errs == Counted(p.errs, rec)
    ensures r.mem == Loaded(p.mem, rec) && r.top == Max(p.top, Address(rec.high, rec.low) + |rec.data| - 1)
    ensures Run(p, u, pos) == Run(r, u, pos + 1 + 2 * |RecordBytes(rec)|)
  {
    hide Add8, SpellsAt, ToNat, HighByte, FromNat, Run, Bump, Splice, Sum, Address, StateOfType;
    var Data(high, low, data, chk) := rec;
    var header := [FromNat(|data|), high, low, 0];
    assert StateOfType(0) == GetRecData by { TypesOfRecords(); }
    SpellsThree(u, pos + 1, header, data, chk);
    var p1 := HeaderRuns(p, u, pos, header[0], high, low, 0);
    var p2 := DataRuns(p1, u, pos + 9, data);
    r := ChecksumRuns(p2, u, pos + 9 + 2 * |data|, chk);
    SumThree(header, data, chk);
  }

  lemma TypesOfRecords()
    ensures StateOfType(0) == GetRecData && StateOfType(4) == GetExtLinAddr && ToNat(2) == 2
  {}

  lemma SpellsThree(u: seq<byte>, p: nat, a: seq<byte>, b: seq<byte>, chk: byte)
    requires SpellsAt(u, p, a + b + [chk])
    ensures SpellsAt(u, p, a) && SpellsAt(u, p + 2 * |a|, b) && SpellsAt(u, p + 2 * |a| + 2 * |b|, [chk])
  {
    hide SpellsAt;
    SpellsSplit(u, p, a + b, [chk]);
    SpellsSplit(u, p, a, b);
  }

  lemma SegmentRecordRuns(p: Parser, u: seq<byte>, pos: nat, rec: Record) returns (r: Parser)
    requires p.Valid() && p.state == StartRec && rec.Segment?
    requires pos < |u| && u[pos] == COLON && SpellsAt(u, pos + 1, RecordBytes(rec))
    ensures r.Valid() && r.state == StartRec && r.errs == Counted(p.errs, rec)
    ensures r.mem == p.mem && r.top == p.top
    ensures Run(p, u, pos) == Run(r, u, pos + 1 + 2 * |RecordBytes(rec)|)
  {
    hide Add8, SpellsAt, ToNat, HighByte, Run, Bump, Sum, Address, StateOfType, SegmentMapped;
    var Segment(high, low, chk) := rec;
    var header, bytes := [2 as byte, 0, 0, 4], [high, low];
    assert RecordBytes(rec) == header + bytes + [chk];
    TypesOfRecords();
    SpellsThree(u, pos + 1, header, bytes, chk);
    var p1 := HeaderRuns(p, u, pos, 2, 0, 0, 4);
    var p2 := SegmentRuns(p1, u, pos + 9, high, low);
    r := ChecksumRuns(p2, u, pos + 13, chk);
    SumThree(header, bytes, chk);
  }

  lemma SumThree(a: seq<byte>, b: seq<byte>, chk: byte)
    ensures Sum(0, a + b + [chk]) == Add8(Sum(Sum(0, a), b), chk)
  {
    hide Add8;
    SumConcat(0, a + b, [chk]);
    SumConcat(0, a, b);
    SumOne(Sum(0, a + b), chk);
  }

  lemma SumOne(start: byte, b: byte)
    ensures Sum(start, [b]) == Add8(start, b)
  {
    assert [b][1..] == [];
  }

  lemma SegmentRuns(p: Parser, u: seq<byte>, pos: nat, high: byte, low: byte) returns (r: Parser)
    requires p.Valid() && p.state == GetExtLinAddr && p.i == 0 && p.recLen == 2
    requires SpellsAt(u, pos, [high, low])
    ensures r.Valid() && r.state == GetChkSume && r.recLen == 0 && r.mem == p.mem && r.top == p.top
    ensures r.chk == Sum(p.chk, [high, low])
    ensures r.errs == if SegmentMapped(Address(high, low)) then p.errs else Bump(p.errs, ERR_SEGMENT)
    ensures Run(p, u, pos) == Run(r, u, pos + 4)
  {
    hide Add8, SpellsAt, ToNat, HighByte, Run, Bump, SegmentMapped, SegmentHigh, SegmentLow;
    var q := SegmentByteRuns(p, u, pos, [high, low]);
    assert [high, low][1..] == [low];
    HighIs(p.(err := Good, hex := high, chk := Add8(p.chk, high)));
    r := SegmentByteRuns(q, u, pos + 2, [low]);
    LowIs(q.(err := Good, hex := low, chk := Add8(q.chk, low)), high);
    assert Sum(p.chk, [high, low]) == Sum(q.chk, [low]);
    SumOne(q.chk, low);
  }

  lemma SegmentByteRuns(p: Parser, u: seq<byte>, pos: nat, bs: seq<byte>) returns (r: Parser)
    requires p.Valid() && p.state == GetExtLinAddr && bs != [] && SpellsAt(u, pos, bs)
    ensures var q := p.(err := Good, hex := bs[0], chk := Add8(p.chk, bs[0]));
      q.Valid() && r == if p.i == 0 then SegmentHigh(q) else SegmentLow(q)
    ensures r.Valid() && Run(p, u, pos) == Run(r, u, pos + 2) && SpellsAt(u, pos + 2, bs[1..])
  {
    hide Add8, SpellsAt, ReadHex, Run, SegmentStep;
    ReadsSpelled(p, u, pos, bs);
    SegmentStepIs(p, u, pos);
    var q := p.(err := Good, hex := bs[0], chk := Add8(p.chk, bs[0]));
    r := if p.i == 0 then SegmentHigh(q) else SegmentLow(q);
    assert Step(p, u, pos) == Go(r, pos + 2);
    RunStep(p, u, pos, r, pos + 2);
  }

  lemma HighIs(r: Parser)
    requires r.Valid() && r.err == Good && r.recLen == 2
    ensures SegmentHigh(r) == r.(recLen := 1, temp := HighByte(r.hex), i := 1)
  {
    hide HighByte;
  }

  lemma LowIs(r: Parser, high: byte)
    requires r.Valid() && r.err == Good && r.recLen == 1 && r.temp == HighByte(high)
    ensures SegmentLow(r) == r.(
      recLen := 0, temp := 0, addr := 0, state := GetChkSume,
      errs := if SegmentMapped(Address(high, r.hex)) then r.errs else Bump(r.errs, ERR_SEGMENT))
  {
    hide HighByte, ToNat, SegmentMapped, Bump;
  }

  // ------------------------------------------------------------ whole texts

  /** The counters after n junk characters. */
  function Junked(errs: seq<nat>, n: nat): (e: seq<nat>)
    requires |errs| == 8
    ensures |e| == 8
  {
    errs[2 := (errs[2] + n) % 0x1_0000]
  }

  /** A character between records is passed over, and counted if it is junk. */
  lemma BetweenRuns(p: Parser, u: seq<byte>, pos: nat)
    requires p.Valid() && p.state == StartRec && pos < |u| && u[pos] != COLON && u[pos] != ESC && p.errs[2] < 0x1_0000
    ensures var r := p.(errs := Junked(p.errs, JunkIn(u, pos, pos + 1)));
      r.Valid() && Run(p, u, pos) == Run(r, u, pos + 1)
  {
    hide Run;
    var r := p.(errs := Junked(p.errs, JunkIn(u, pos, pos + 1)));
    assert JunkIn(u, pos + 1, pos + 1) == 0;
    assert p.errs[2 := p.errs[2]] == p.errs;
    assert Step(p, u, pos) == Go(r, pos + 1);
    RunStep(p, u, pos, r, pos + 1);
  }

  /** Junk and records are counted apart. */
  lemma {:induction false} JunkedApart(errs: seq<nat>, rs: seq<Record>, n: nat)
    requires |errs| == 8 && AllLoadable(rs)
    ensures CountedAll(Junked(errs, n), rs) == Junked(CountedAll(errs, rs), n)
    decreases |rs|
  {
    hide Counted, Junked;
    if rs != [] {
      JunkedFirst(errs, rs[0], n);
      JunkedApart(Counted(errs, rs[0]), rs[1..], n);
    }
  }

  lemma JunkedFirst(errs: seq<nat>, r: Record, n: nat)
    requires |errs| == 8 && Loadable(r)
    ensures Counted(Junked(errs, n), r) == Junked(Counted(errs, r), n)
  {
    hide GoodChecksum, SegmentMapped, Address;
  }

  lemma JunkedTwice(errs: seq<nat>, m: nat, n: nat)
    requires |errs| == 8
    ensures Junked(Junked(errs, m), n) == Junked(errs, m + n)
  {
    assert ((errs[2] + m) % 0x1_0000 + n) % 0x1_0000 == (errs[2] + (m + n)) % 0x1_0000;
  }

  lemma JunkedNot(errs: seq<nat>)
    requires |errs| == 8 && errs[2] < 0x1_0000
    ensures Junked(errs, 0) == errs
  {}

  lemma CountsNoJunk(errs: seq<nat>, r: Record)
    requires |errs| == 8 && Loadable(r)
    ensures Counted(errs, r)[2] == errs[2]
  {
    hide GoodChecksum, SegmentMapped, Address;
  }

  /**
    The end-of-file record ends the download whatever its length, offset and checksum bytes
    are: its checksum is read but never counted, right or wrong.
   */
  lemma EofRuns(p: Parser, u: seq<byte>, pos: nat, len: byte, high: byte, low: byte, chk: byte)
    requires p.Valid() && p.state == StartRec
    requires pos < |u| && u[pos] == COLON && SpellsAt(u, pos + 1, [len, high, low, 1, chk])
    ensures Run(p, u, pos) == Finished(p.errs, p.mem, p.top, pos + 11)
  {
    hide Add8, SpellsAt, Run, ToNat, StateOfType, Sum, Address;
    assert [len, high, low, 1, chk] == [len, high, low, 1] + [chk];
    SpellsSplit(u, pos + 1, [len, high, low, 1], [chk]);
    assert StateOfType(1) == GetRecEof by { EofType(); }
    var p1 := HeaderRuns(p, u, pos, len, high, low, 1);
    EofByteRuns(p1, u, pos + 9, chk);
  }

  lemma EofType()
    ensures StateOfType(1) == GetRecEof
  {}

  /** Whatever byte it has for a checksum. */
  lemma EofByteRuns(p: Parser, u: seq<byte>, pos: nat, chk: byte)
    requires p.Valid() && p.state == GetRecEof && SpellsAt(u, pos, [chk])
    ensures Run(p, u, pos) == Finished(p.errs, p.mem, p.top, pos + 2)
  {
    hide Add8, SpellsAt, ReadHex;
    ReadsSpelled(p, u, pos, [chk]);
    var r := p.(err := Good, hex := chk, chk := Add8(p.chk, chk), state := EndDownload);
    assert Step(p, u, pos) == Go(r, pos + 2);
    assert Step(r, u, pos + 2) == Go(r.(state := ExitDownload), pos + 2);
  }

  // ------------------------------------------------------------ one read

  /** What a read of two digits finds, junk skipped, and the position behind it. */
  datatype Token =
    | Digits(val: byte, end: nat) | LineFeed(end: nat) | Colon(end: nat) | Escape(end: nat) | Nothing

  function TokenOf(f: Fetch): Token
    requires f.Fetch? ==> f.err != NonAscDigit
  {
    match f
    case NoInput => Nothing
    case Fetch(Good, v, q, _) => Digits(v, q)
    case Fetch(Enter, _, q, _) => LineFeed(q)
    case Fetch(ExtraRecord, _, q, _) => Colon(q)
    case Fetch(ExitRet, _, q, _) => Escape(q)
  }

  /** What GetAsc2Hex finds, whatever it counts on the way. */
  function TokenAt(u: seq<byte>, pos: nat, first: Option<byte>): (t: Token)
    requires pos <= |u|
    ensures !t.Nothing? ==> pos < t.end <= |u|
    ensures t.Colon? ==> u[t.end - 1] == COLON
  {
    TokenOf(FetchHex(u, pos, first, CLEAR))
  }

  function RetOf(t: Token): Ret {
    match t
    case Digits(_, _) => Good
    case LineFeed(_) => Enter
    case Colon(_) => ExtraRecord
    case Escape(_) => ExitRet
    case Nothing => Good
  }

  /** The counters make no difference to what is found. */
  lemma {:induction false} SameToken(u: seq<byte>, pos: nat, first: Option<byte>, errs: seq<nat>, errs': seq<nat>)
    requires pos <= |u| && |errs| == |errs'| == 8
    ensures TokenOf(FetchHex(u, pos, first, errs)) == TokenOf(FetchHex(u, pos, first, errs'))
    decreases |u| - pos
  {
    hide ByteOf, Bump;
    if pos < |u| {
      var a, a' := Classify(u[pos], errs), Classify(u[pos], errs');
      match a.err {
        case Good => if first.None? { SameToken(u, pos + 1, Some(u[pos]), a.errs, a'.errs); }
        case NonAscDigit => SameToken(u, pos + 1, first, a.errs, a'.errs);
        case _ =>
      }
    }
  }

  /** The read one character on. */
  lemma TokenUnfolds(u: seq<byte>, pos: nat, first: Option<byte>)
    requires pos <= |u|
    ensures TokenAt(u, pos, first) ==
      if pos == |u| then Nothing
      else if u[pos] == ESC then Escape(pos + 1)
      else if u[pos] == COLON then Colon(pos + 1)
      else if !IsXDigit(u[pos]) && u[pos] == LF then LineFeed(pos + 1)
      else if !IsXDigit(u[pos]) then TokenAt(u, pos + 1, first)
      else if first.None? then TokenAt(u, pos + 1, Some(u[pos]))
      else Digits(ByteOf(first.value, u[pos]), pos + 1)
  {
    hide ByteOf, Bump;
    if pos < |u| {
      var a := Classify(u[pos], CLEAR);
      if a.err == Good && first.None? {
        SameToken(u, pos + 1, Some(u[pos]), a.errs, CLEAR);
      } else if a.err == NonAscDigit {
        SameToken(u, pos + 1, first, a.errs, CLEAR);
      }
    }
  }

  /** A read changes only the error, the counters, and, on success, HexVal and ChkSume. */
  lemma ReadsToken(p: Parser, u: seq<byte>, pos: nat)
    requires p.Valid() && pos <= |u|
    ensures var t, n := TokenAt(u, pos, None), ReadHex(p, u, pos);
      && (t.Nothing? ==> n == Stop(Waiting))
      && (!t.Nothing? ==> n.Go? && n.pos == t.end)
      && (!t.Nothing? ==> n.p == p.(err := RetOf(t), errs := n.p.errs, hex := n.p.hex, chk := n.p.chk))
      && (!t.Nothing? ==> n.p.hex == if t.Digits? then t.val else p.hex)
      && (!t.Nothing? ==> n.p.chk == if t.Digits? then Add8(p.chk, t.val) else p.chk)
  {
    hide Add8, FetchHex;
    SameToken(u, pos, None, p.errs, CLEAR);
  }

  /** Of the counters, a read raises that of the junk it skips and, at a colon, that of colons in records. */
  lemma {:induction false} FetchCounts(u: seq<byte>, pos: nat, first: Option<byte>, errs: seq<nat>)
    requires pos <= |u| && |errs| == 8
    ensures var t, f := TokenAt(u, pos, first), FetchHex(u, pos, first, errs);
      f.Fetch? ==>
        && f.errs[0] == (if t.Colon? then (errs[0] + 1) % 0x1_0000 else errs[0])
        && f.errs[1] == errs[1] && f.errs[3..] == errs[3..]
    decreases |u| - pos
  {
    hide ByteOf, TokenAt;
    TokenUnfolds(u, pos, first);
    if pos < |u| {
      var a := Classify(u[pos], errs);
      match a.err {
        case Good => if first.None? { FetchCounts(u, pos + 1, Some(u[pos]), a.errs); }
        case NonAscDigit => FetchCounts(u, pos + 1, first, a.errs);
        case _ =>
      }
    }
  }

  lemma ReadCounts(p: Parser, u: seq<byte>, pos: nat)
    requires p.Valid() && pos <= |u|
    ensures var t, n := TokenAt(u, pos, None), ReadHex(p, u, pos);
      n.Go? ==>
        && n.p.errs[0] == (if t.Colon? then (p.errs[0] + 1) % 0x1_0000 else p.errs[0])
        && n.p.errs[1] == p.errs[1] && n.p.errs[3..] == p.errs[3..]
  {
    hide Add8, FetchHex, TokenAt;
    FetchCounts(u, pos, None, p.errs);
  }

  /** A line feed where a length, offset, type or segment byte is expected hangs the loader. */
  lemma LineFeedInHeaderSpins(p: Parser, u: seq<byte>, pos: nat)
    requires p.Valid() && p.state in {GetRecLen, GetOffset, GetRecType, GetExtLinAddr}
    requires pos <= |u| && TokenAt(u, pos, None).LineFeed?
    ensures Run(p, u, pos).Spinning?
  {
    hide TokenAt, ReadHex, ToNat, HighByte;
    ReadsToken(p, u, pos);
    var q := TokenAt(u, pos, None).end;
    var r := Step(p, u, pos).p;
    assert Step(r, u, q) == Stop(Spinning);
  }

  /** So does a record of type 05, right after its type byte. */
  lemma StartLinearAddressSpins(p: Parser, u: seq<byte>, pos: nat, len: byte, high: byte, low: byte)
    requires p.Valid() && p.state == StartRec
    requires pos < |u| && u[pos] == COLON && SpellsAt(u, pos + 1, [len, high, low, 5])
    ensures Run(p, u, pos).Spinning?
  {
    hide Add8, SpellsAt, Run, ToNat, StateOfType, Sum, Address, Step;
    assert StateOfType(5) == GetStartLinAddr by { StartLinearType(); }
    var p1 := HeaderRuns(p, u, pos, len, high, low, 5);
    SpelledFits(u, pos + 1, [len, high, low, 5]);
    StartLinearSpins(p1, u, pos + 9);
  }

  lemma StartLinearType()
    ensures StateOfType(5) == GetStartLinAddr
  {}

  lemma StartLinearSpins(p: Parser, u: seq<byte>, pos: nat)
    requires p.Valid() && pos <= |u| && p.state == GetStartLinAddr
    ensures Run(p, u, pos).Spinning?
  {}

  lemma {:induction false} TextRuns(p: Parser, u: seq<byte>, pos: nat, rs: seq<Record>, q: nat)
    requires p.Valid() && p.state == StartRec && AllLoadable(rs) && TextAt(u, pos, rs, q) && p.errs[2] < 0x1_0000
    ensures pos <= q <= |u|
    ensures Run(p, u, pos) ==
      Finished(Junked(CountedAll(p.errs, rs), JunkIn(u, pos, q)), LoadedAll(p.mem, rs), Highest(p.top, rs), q)
    decreases |u| - pos
  {
    hide Run, SpellsAt, Counted, Loaded, Address, Loadable, Splice, RecordBytes, Junked, JunkIn;
    TextFits(u, pos, rs, q);
    if u[pos] != COLON {
      var n := JunkIn(u, pos, pos + 1);
      BetweenRuns(p, u, pos);
      JunkedIsSmall(p.errs, n);
      TextRuns(p.(errs := Junked(p.errs, n)), u, pos + 1, rs, q);
      JunkedApart(p.errs, rs, n);
      JunkedTwice(CountedAll(p.errs, rs), n, JunkIn(u, pos + 1, q));
      JunkSplit(u, pos, pos + 1, q);
    } else if rs == [] {
      EofRuns(p, u, pos, 0, 0, 0, 0xFF);
      SpelledIsNoJunk(u, pos, EOF_BYTES);
      JunkedNot(p.errs);
    } else {
      var r: Parser;
      if rs[0].Data? {
        r := DataRecordRuns(p, u, pos, rs[0]);
      } else {
        r := SegmentRecordRuns(p, u, pos, rs[0]);
        SegmentLoadsNothing(p.mem, rs[0]);
      }
      var next := pos + 1 + 2 * |RecordBytes(rs[0])|;
      CountsNoJunk(p.errs, rs[0]);
      TextRuns(r, u, next, rs[1..], q);
      SpelledIsNoJunk(u, pos, RecordBytes(rs[0]));
      JunkSplit(u, pos, next, q);
    }
  }

  lemma JunkedIsSmall(errs: seq<nat>, n: nat)
    requires |errs| == 8
    ensures Junked(errs, n)[2] < 0x1_0000
  {}

  lemma SegmentLoadsNothing(mem: seq<byte>, r: Record)
    requires |mem| == COM_BANK0_LEN && r.Segment?
    ensures Loaded(mem, r) == mem
  {}

  /**
    The loader on a text: it terminates having consumed exactly the text, memory is the
    in-order fold of the records, the high-water mark is the highest address written (or its
    initial value), and the counters count the bad checksums, the unmapped segments and the junk.
   */
  lemma ParseOfText(mem: seq<byte>, top: nat, u: seq<byte>, pos: nat, rs: seq<Record>, q: nat)
    requires |mem| == COM_BANK0_LEN && top <= 0xFFFF && AllLoadable(rs) && TextAt(u, pos, rs, q)
    ensures pos <= q <= |u|
    ensures Parse(mem, top, u, pos) ==
      Finished(Junked(CountedAll(CLEAR, rs), JunkIn(u, pos, q)), LoadedAll(mem, rs), Highest(top, rs), q)
  {
    TextRuns(Initial(mem, top), u, pos, rs, q);
  }

  // ------------------------------------------------------------ counters

  lemma {:induction false} CountersOf(errs: seq<nat>, rs: seq<Record>)
    requires |errs| == 8 && AllLoadable(rs) && errs[ERR_CHK_SUME] < 0x1_0000
    ensures var e := CountedAll(errs, rs);
            && e[ERR_CHK_SUME] == (errs[ERR_CHK_SUME] + BadCount(rs)) % 0x1_0000
            && e[ERR_LINE_BEGIN] == errs[ERR_LINE_BEGIN] && e[ERR_REC_TYPE] == errs[ERR_REC_TYPE]
            && e[ERR_NON_ASC_DIGIT] == errs[ERR_NON_ASC_DIGIT] && e[ERR_WR_CRAM] == errs[ERR_WR_CRAM]
    decreases |rs|
  {
    hide GoodChecksum, Counted;
    if rs != [] {
      CountedIs(errs, rs[0]);
      CountersOf(Counted(errs, rs[0]), rs[1..]);
    }
  }

  lemma CountedIs(errs: seq<nat>, r: Record)
    requires |errs| == 8 && Loadable(r) && errs[ERR_CHK_SUME] < 0x1_0000
    ensures var e := Counted(errs, r);
            && e[ERR_CHK_SUME] == (errs[ERR_CHK_SUME] + if GoodChecksum(r) then 0 else 1) % 0x1_0000
            && e[ERR_LINE_BEGIN] == errs[ERR_LINE_BEGIN] && e[ERR_REC_TYPE] == errs[ERR_REC_TYPE]
            && e[ERR_NON_ASC_DIGIT] == errs[ERR_NON_ASC_DIGIT] && e[ERR_WR_CRAM] == errs[ERR_WR_CRAM]
  {
    hide GoodChecksum, SegmentMapped, Address;
  }

  predicate SegmentsMapped(rs: seq<Record>) {
    forall k | 0 <= k < |rs| && rs[k].Segment? :: SegmentMapped(Address(rs[k].high, rs[k].low))
  }

  predicate GoodChecksums(rs: seq<Record>)
    requires AllLoadable(rs)
  {
    forall k | 0 <= k < |rs| :: GoodChecksum(rs[k])
  }

  lemma {:induction false} GoodTextCountsNothing(errs: seq<nat>, rs: seq<Record>)
    requires |errs| == 8 && AllLoadable(rs) && GoodChecksums(rs) && SegmentsMapped(rs)
    ensures CountedAll(errs, rs) == errs
    decreases |rs|
  {
    if rs != [] {
      assert GoodChecksum(rs[0]);
      GoodTextCountsNothing(errs, rs[1..]);
    }
  }

  lemma {:induction false} NoBadChecksum(rs: seq<Record>)
    requires AllLoadable(rs)
    ensures BadCount(rs) == 0 <==> GoodChecksums(rs)
    decreases |rs|
  {
    hide GoodChecksum;
    if rs != [] {
      NoBadChecksum(rs[1..]);
      if GoodChecksums(rs[1..]) && GoodChecksum(rs[0]) {
        assert forall k | 0 < k < |rs| :: rs[k] == rs[1..][k - 1];
      }
    }
  }

  // ------------------------------------------------------------ corrupted records

  lemma {:induction false} SumKeepsDifference(x: byte, y: byte, bs: seq<byte>)
    requires x != y
    ensures Sum(x, bs) != Sum(y, bs)
    decreases |bs|
  {
    if bs != [] {
      Add8Cancels(x, y, bs[0]);
      SumKeepsDifference(Add8(x, bs[0]), Add8(y, bs[0]), bs[1..]);
    }
  }

  lemma Add8Cancels(x: byte, y: byte, b: byte)
    requires x != y
    ensures Add8(x, b) != Add8(y, b) && Add8(b, x) != Add8(b, y)
  {}

  /** Changing one byte of a record changes its sum. */
  lemma OneByteChangesSum(a: seq<byte>, t: seq<byte>, k: nat, b: byte)
    requires AlteredAt(a, t, k, b)
    ensures Sum(0, t) != Sum(0, a)
  {
    hide Add8;
    var front, back := a[..k], a[k + 1..];
    assert a == front + ([a[k]] + back) && t == front + ([b] + back);
    SumConcat(0, front, [a[k]] + back);
    SumConcat(0, front, [b] + back);
    var s := Sum(0, front);
    SumConcat(s, [a[k]], back);
    SumConcat(s, [b], back);
    SumOne(s, a[k]);
    SumOne(s, b);
    Add8Cancels(a[k], b, s);
    SumKeepsDifference(Add8(s, a[k]), Add8(s, b), back);
  }

  /** r2 is r1 with one byte of its offset, data, segment or checksum altered. */
  ghost predicate OneByteAltered(r1: Record, r2: Record)
    requires Loadable(r1) && Loadable(r2)
  {
    exists k: nat, b: byte :: AlteredAt(RecordBytes(r1), RecordBytes(r2), k, b)
  }

  predicate AlteredAt(s: seq<byte>, t: seq<byte>, k: nat, b: byte) {
    k < |s| && s[k] != b && t == s[k := b]
  }

  /** One altered byte in one record of a good text makes the checksum counter exactly 1. */
  lemma AlteredRecordIsCounted(rs: seq<Record>, k: nat, r: Record)
    requires AllLoadable(rs) && GoodChecksums(rs) && k < |rs| && Loadable(r) && OneByteAltered(rs[k], r)
    ensures AllLoadable(rs[k := r]) && CountedAll(CLEAR, rs[k := r])[ERR_CHK_SUME] == 1
  {
    hide GoodChecksum, RecordBytes, AlteredAt, Sum, CountedAll;
    var rs' := rs[k := r];
    var i: nat, b: byte :| AlteredAt(RecordBytes(rs[k]), RecordBytes(r), i, b);
    OneByteChangesSum(RecordBytes(rs[k]), RecordBytes(r), i, b);
    GoodIsZeroSum(rs[k]);
    GoodIsZeroSum(r);
    OneBad(rs', k);
    CountersOf(CLEAR, rs');
  }

  lemma GoodIsZeroSum(r: Record)
    requires Loadable(r)
    ensures GoodChecksum(r) <==> Sum(0, RecordBytes(r)) == 0
  {}

  lemma {:induction false} OneBad(rs: seq<Record>, k: nat)
    requires AllLoadable(rs) && k < |rs| && !GoodChecksum(rs[k])
    requires forall j | 0 <= j < |rs| && j != k :: GoodChecksum(rs[j])
    ensures BadCount(rs) == 1
    decreases |rs|
  {
    hide GoodChecksum;
    if k == 0 {
      NoBadChecksum(rs[1..]);
    } else {
      OneBad(rs[1..], k - 1);
    }
  }

  // ------------------------------------------------------------ the canonical text

  function HexDigit(n: byte): byte { if n < 10 then n + 48 else n + 55 }

  function HexPair(b: byte): (t: seq<byte>)
    ensures |t| == 2
  {
    [HexDigit(b >> 4), HexDigit(b & 0xF)]
  }

  function HexPairs(bs: seq<byte>): (t: seq<byte>)
    ensures |t| == 2 * |bs|
    decreases |bs|
  {
    if bs == [] then [] else HexPair(bs[0]) + HexPairs(bs[1..])
  }

  /** One record a line, digits in upper case, and the end-of-file record last. */
  function Print(rs: seq<Record>): seq<byte>
    requires AllLoadable(rs)
    decreases |rs|
  {
    if rs == [] then [COLON] + HexPairs(EOF_BYTES)
    else [COLON] + HexPairs(RecordBytes(rs[0])) + [LF] + Print(rs[1..])
  }

  lemma PairSpells(b: byte)
    ensures var t := HexPair(b); IsXDigit(t[0]) && IsXDigit(t[1]) && ByteOf(t[0], t[1]) == b
  {}

  lemma {:induction false} PairsSpell(bs: seq<byte>, k: nat)
    requires k < |bs|
    ensures var t := HexPairs(bs);
            IsXDigit(t[2 * k]) && IsXDigit(t[2 * k + 1]) && ByteOf(t[2 * k], t[2 * k + 1]) == bs[k]
    decreases |bs|
  {
    hide IsXDigit, ByteOf, HexPair;
    var first, rest := HexPair(bs[0]), HexPairs(bs[1..]);
    if k == 0 {
      PairSpells(bs[0]);
    } else {
      PairsSpell(bs[1..], k - 1);
      assert (first + rest)[2 * k] == rest[2 * (k - 1)];
      assert (first + rest)[2 * k + 1] == rest[2 * (k - 1) + 1];
    }
  }

  lemma SpellsHere(pre: seq<byte>, bs: seq<byte>, post: seq<byte>)
    ensures SpellsAt(pre + HexPairs(bs) + post, |pre|, bs)
  {
    hide IsXDigit, ByteOf, HexPairs;
    var u := pre + HexPairs(bs) + post;
    forall k | 0 <= k < |bs|
      ensures IsXDigit(u[|pre| + 2 * k]) && IsXDigit(u[|pre| + 2 * k + 1])
      ensures ByteOf(u[|pre| + 2 * k], u[|pre| + 2 * k + 1]) == bs[k]
    {
      PairsSpell(bs, k);
      assert u[|pre| + 2 * k] == HexPairs(bs)[2 * k] && u[|pre| + 2 * k + 1] == HexPairs(bs)[2 * k + 1];
    }
  }

  /** The canonical text spells its records, wherever it stands. */
  lemma {:induction false} PrintIsText(pre: seq<byte>, rs: seq<Record>, post: seq<byte>)
    requires AllLoadable(rs)
    ensures TextAt(pre + Print(rs) + post, |pre|, rs, |pre| + |Print(rs)|)
    decreases |rs|
  {
    hide SpellsAt, HexPairs, RecordBytes, TextAt, Print;
    PrintIs(rs);
    var u := pre + Print(rs) + post;
    if rs == [] {
      SpellsHere(pre + [COLON], EOF_BYTES, post);
      assert u == pre + [COLON] + HexPairs(EOF_BYTES) + post;
      LastRecordText(u, |pre|);
    } else {
      var bs := RecordBytes(rs[0]);
      var next := pre + [COLON] + HexPairs(bs);
      var tail := [LF] + Print(rs[1..]) + post;
      assert u == next + tail && u == (next + [LF]) + Print(rs[1..]) + post;
      SpellsHere(pre + [COLON], bs, tail);
      PrintIsText(next + [LF], rs[1..], post);
      RecordText(u, |pre|, rs, |pre| + |Print(rs)|);
    }
  }

  lemma PrintIs(rs: seq<Record>)
    requires AllLoadable(rs)
    ensures Print(rs) == [COLON] +
      if rs == [] then HexPairs(EOF_BYTES) else HexPairs(RecordBytes(rs[0])) + [LF] + Print(rs[1..])
  {
    hide HexPairs, RecordBytes;
  }

  lemma LastRecordText(u: seq<byte>, p: nat)
    requires p < |u| && u[p] == COLON && SpellsAt(u, p + 1, EOF_BYTES)
    ensures TextAt(u, p, [], p + 11)
  {
    hide SpellsAt;
  }

  /** A record and a line feed in front of a text. */
  lemma RecordText(u: seq<byte>, p: nat, rs: seq<Record>, q: nat)
    requires AllLoadable(rs) && rs != [] && p < |u| && u[p] == COLON
    requires var n := p + 1 + 2 * |RecordBytes(rs[0])|;
      SpellsAt(u, p + 1, RecordBytes(rs[0])) && n < |u| && u[n] == LF && TextAt(u, n + 1, rs[1..], q)
    ensures TextAt(u, p, rs, q)
  {
    hide SpellsAt, RecordBytes;
    var n := p + 1 + 2 * |RecordBytes(rs[0])|;
    assert TextAt(u, n, rs[1..], q);
  }

  /** Parsing what Print wrote gives the records back as memory, and stops right behind it. */
  lemma ParseOfPrint(mem: seq<byte>, top: nat, pre: seq<byte>, rs: seq<Record>, post: seq<byte>)
    requires |mem| == COM_BANK0_LEN && top <= 0xFFFF && AllLoadable(rs)
    requires GoodChecksums(rs) && SegmentsMapped(rs)
    ensures Parse(mem, top, pre + Print(rs) + post, |pre|)
         == Finished(CLEAR, LoadedAll(mem, rs), Highest(top, rs), |pre| + |Print(rs)|)
  {
    hide TextAt, Parse, GoodChecksums, SegmentsMapped, Junked, JunkIn, Print, CountedAll, LoadedAll, Highest;
    PrintIsText(pre, rs, post);
    ParseOfText(mem, top, pre + Print(rs) + post, |pre|, rs, |pre| + |Print(rs)|);
    GoodTextCountsNothing(CLEAR, rs);
    PrintedJunk(pre, rs, post);
    JunkedNot(CLEAR);
  }

  lemma PrintedJunk(pre: seq<byte>, rs: seq<Record>, post: seq<byte>)
    requires AllLoadable(rs)
    ensures JunkIn(pre + Print(rs) + post, |pre|, |pre| + |Print(rs)|) == 0
  {
    hide IsJunk, JunkIn, Print;
    var u, q := pre + Print(rs) + post, |pre| + |Print(rs)|;
    PrintHasNoJunk(rs);
    forall k | |pre| <= k < q ensures !IsJunk(u[k]) { assert u[k] == Print(rs)[k - |pre|]; }
    NoJunk(u, |pre|, q);
  }

  lemma {:induction false} PrintHasNoJunk(rs: seq<Record>)
    requires AllLoadable(rs)
    ensures forall k | 0 <= k < |Print(rs)| :: !IsJunk(Print(rs)[k])
    decreases |rs|
  {
    hide HexPairs, RecordBytes, IsJunk, Print;
    PrintIs(rs);
    SignsAreNoJunk();
    if rs == [] {
      PairsHaveNoJunk(EOF_BYTES);
    } else {
      PairsHaveNoJunk(RecordBytes(rs[0]));
      PrintHasNoJunk(rs[1..]);
    }
  }

  lemma SignsAreNoJunk()
    ensures !IsJunk(COLON) && !IsJunk(LF)
  {}

  lemma PairsHaveNoJunk(bs: seq<byte>)
    ensures forall k | 0 <= k < |HexPairs(bs)| :: !IsJunk(HexPairs(bs)[k])
  {
    hide HexPairs, ByteOf, IsXDigit, IsJunk;
    forall k | 0 <= k < |HexPairs(bs)| ensures !IsJunk(HexPairs(bs)[k]) {
      PairsSpell(bs, k / 2);
      assert k == 2 * (k / 2) || k == 2 * (k / 2) + 1;
      DigitIsNoJunk(HexPairs(bs)[k]);
    }
  }

  lemma DigitIsNoJunk(c: byte)
    requires IsXDigit(c)
    ensures !IsJunk(c)
  {}

  // ------------------------------------------------------------ every text

  lemma {:induction false} FetchCountsJunk(u: seq<byte>, pos: nat, first: Option<byte>, errs: seq<nat>)
    requires pos <= |u| && |errs| == 8 && errs[2] < 0x1_0000
    ensures var f := FetchHex(u, pos, first, errs);
      f.Fetch? ==> f.errs[2] == (errs[2] + JunkIn(u, pos, f.pos)) % 0x1_0000
    decreases |u| - pos
  {
    hide ByteOf, Classify, JunkIn, IsJunk;
    if pos < |u| {
      var a := Classify(u[pos], errs);
      OneJunk(u, pos, errs);
      OneRead(u, pos);
      if a.err == NonAscDigit || (a.err == Good && first.None?) {
        var first' := if a.err == Good then Some(u[pos]) else first;
        FetchCountsJunk(u, pos + 1, first', a.errs);
        var f := FetchHex(u, pos + 1, first', a.errs);
        if f.Fetch? {
          JunkSplit(u, pos, pos + 1, f.pos);
          SumModulo(errs[2], JunkIn(u, pos, pos + 1), JunkIn(u, pos + 1, f.pos));
        }
      }
    }
  }

  lemma OneJunk(u: seq<byte>, pos: nat, errs: seq<nat>)
    requires pos < |u| && |errs| == 8 && errs[2] < 0x1_0000
    ensures Classify(u[pos], errs).errs[2] == (errs[2] + if IsJunk(u[pos]) then 1 else 0) % 0x1_0000
  {}

  lemma ReadCountsJunk(p: Parser, u: seq<byte>, pos: nat)
    requires p.Valid() && pos <= |u| && p.errs[2] < 0x1_0000
    ensures var n := ReadHex(p, u, pos); n.Go? ==> n.p.errs[2] == (p.errs[2] + JunkIn(u, pos, n.pos)) % 0x1_0000
  {
    hide FetchHex, JunkIn, Add8;
    FetchCountsJunk(u, pos, None, p.errs);
  }

  /** The junk counter is the number of junk characters in all of the stream that was read, modulo 2^16. */
  lemma {:induction false} JunkIsCounted(p: Parser, u: seq<byte>, pos: nat)
    requires p.Valid() && pos <= |u| && p.errs[2] < 0x1_0000
    ensures var o := Run(p, u, pos); o.Finished? ==> o.errs[2] == (p.errs[2] + JunkIn(u, pos, o.pos)) % 0x1_0000
    decreases |u| - pos, Rank(p.state)
  {
    hide Step, JunkIn;
    StepCountsJunk(p, u, pos);
    match Step(p, u, pos) {
      case Stop(_) =>
      case Go(r, q) =>
        if !r.state.ExitDownload? {
          JunkIsCounted(r, u, q);
          var o := Run(r, u, q);
          if o.Finished? {
            JunkSplit(u, pos, q, o.pos);
            SumModulo(p.errs[2], JunkIn(u, pos, q), JunkIn(u, q, o.pos));
          }
        }
    }
  }

  lemma SumModulo(a: nat, m: nat, n: nat)
    ensures ((a + m) % 0x1_0000 + n) % 0x1_0000 == (a + (m + n)) % 0x1_0000
  {}

  lemma StepCountsJunk(p: Parser, u: seq<byte>, pos: nat)
    requires p.Valid() && pos <= |u| && p.errs[2] < 0x1_0000
    ensures var n := Step(p, u, pos); n.Go? ==> n.p.errs[2] == (p.errs[2] + JunkIn(u, pos, n.pos)) % 0x1_0000
  {
    hide ReadHex, ToNat, HighByte, StateOfType, JunkIn, SegmentMapped, OffsetStep, StartStep;
    ReadCountsJunk(p, u, pos);
    NothingRead(u, pos);
    if p.state == StartRec {
      StartCountsJunk(p, u, pos);
    } else if p.state == GetOffset {
      OffsetCountsJunk(p, u, pos);
    }
  }

  lemma StartCountsJunk(p: Parser, u: seq<byte>, pos: nat)
    requires p.Valid() && pos <= |u| && p.errs[2] < 0x1_0000 && p.state == StartRec
    ensures var n := StartStep(p, u, pos); n.Go? ==> n.p.errs[2] == (p.errs[2] + JunkIn(u, pos, n.pos)) % 0x1_0000
  {
    hide JunkIn;
    if pos < |u| {
      OneRead(u, pos);
    }
  }

  lemma OffsetCountsJunk(p: Parser, u: seq<byte>, pos: nat)
    requires p.Valid() && pos <= |u| && p.errs[2] < 0x1_0000 && p.state == GetOffset
    ensures var n := OffsetStep(p, u, pos);
      n.Go? ==> n.p.errs[2] == (p.errs[2] + JunkIn(u, pos, n.pos)) % 0x1_0000
  {
    hide ReadHex, ToNat, HighByte, JunkIn, OffsetStep;
    OffsetStepIs(p, u, pos);
    ReadCountsJunk(p, u, pos);
    if ReadHex(p, u, pos).Go? && ReadHex(p, u, pos).p.err.Good? {
      var Go(r, q) := ReadHex(p, u, pos);
      ReadCountsJunk(r, u, q);
      var n := ReadHex(r, u, q);
      if n.Go? {
        JunkSplit(u, pos, q, n.pos);
        SumModulo(p.errs[2], JunkIn(u, pos, q), JunkIn(u, q, n.pos));
      }
    }
  }

  lemma NothingRead(u: seq<byte>, pos: nat)
    requires pos <= |u|
    ensures JunkIn(u, pos, pos) == 0
  {}

  lemma OneRead(u: seq<byte>, pos: nat)
    requires pos < |u|
    ensures JunkIn(u, pos, pos + 1) == if IsJunk(u[pos]) then 1 else 0
  {
    assert JunkIn(u, pos + 1, pos + 1) == 0;
  }

  /** Everything above the high-water mark is blank. */
  ghost predicate BlankAbove(mem: seq<byte>, top: nat) {
    |mem| == COM_BANK0_LEN && forall k | 0x100 <= k < |mem| && top < COMMONADDR_L + k :: mem[k] == BLANK
  }

  /** No text, however malformed, leaves a written byte above the high-water mark. */
  lemma {:induction false} RunKeepsBlankAbove(p: Parser, u: seq<byte>, pos: nat)
    requires p.Valid() && pos <= |u| && BlankAbove(p.mem, p.top)
    ensures var o := Run(p, u, pos); o.Finished? ==> BlankAbove(o.mem, o.top)
    decreases |u| - pos, Rank(p.state)
  {
    StepKeepsBlankAbove(p, u, pos);
    hide Step, BlankAbove;
    match Step(p, u, pos) {
      case Stop(_) =>
      case Go(r, q) =>
        if !r.state.ExitDownload? {
          RunKeepsBlankAbove(r, u, q);
        }
    }
  }

  lemma StepKeepsBlankAbove(p: Parser, u: seq<byte>, pos: nat)
    requires p.Valid() && pos <= |u| && BlankAbove(p.mem, p.top)
    ensures var n := Step(p, u, pos); n.Go? ==> BlankAbove(n.p.mem, n.p.top)
  {
    hide ReadHex, Bump, ToNat, HighByte, StateOfType;
    ReadWritesNothing(p, u, pos);
    if p.state == GetRecData {
      hide StartStep, RecLenStep, OffsetStep, RecTypeStep, SegmentStep, ChkSumeStep, ErrorStep;
    } else {
      hide DataStep, BlankAbove;
      if p.state == GetOffset && ReadHex(p, u, pos).Go? {
        var Go(r, q) := ReadHex(p, u, pos);
        ReadWritesNothing(r, u, q);
      }
    }
  }

  lemma ReadWritesNothing(p: Parser, u: seq<byte>, pos: nat)
    requires p.Valid() && pos <= |u|
    ensures var n := ReadHex(p, u, pos); n.Go? ==> n.p.mem == p.mem && n.p.top == p.top
  {}
}
