/**
  The MAC-SAP frame codec of mac_intf_common.c: type-length-value fields written into a
  128-byte buffer and read back, on hosts of either byte order. Values are the bytes of the
  host's memory; numbers travel in little-endian order.
 */
module MacSap {
  import opened MachineWords
  import opened MacInterface
  import opened Buffers
  import opened Options

  const ADDR_LIST: byte := 0x2B
  const PIB_ATTRIBUTE_VALUE: byte := 0x16
  const MSDU_ID: byte := 0xFF

  datatype Kind = ByteKind | ShortKind | WordKind | AddressKind | SecurityKind | PanKind | ListKind | SduKind | Unknown

  /** The case of the decoder's switch a field type falls into. */
  function KindOf(t: byte): Kind {
    if t in {0x00, 0x01, 0x06, 0x07, 0x08, 0x09, 0x0A, 0x0B, 0x10, 0x11, 0x12, 0x13, 0x14, 0x17, 0x19, 0x1A,
             0x1E, 0x1F, 0x20, 0x21, 0x22, 0x25, 0x26, 0x28, 0x2A, 0x2E, 0x30, 0x33, 0x36, 0x37, 0xFE} then ByteKind
    else if t in {0x02, 0x03, 0x0C, 0x0F, 0x15} then ShortKind
    else if t in {0x18, 0x1B, 0x1C, 0x1D, 0x27, 0x31} then WordKind
    else if t in {0x04, 0x05, 0x0D, 0x0E, 0x2F} then AddressKind
    else if t in {0x23, 0x24, 0x34} then SecurityKind
    else if t == 0x29 then PanKind
    else if t == PIB_ATTRIBUTE_VALUE || t == ADDR_LIST then ListKind
    else if t == MSDU_ID then SduKind
    else Unknown
  }

  /** Bytes the decoder copies, and entries its array holds, for the kinds it copies. */
  function SizeOf(k: Kind): nat {
    match k
    case ByteKind => 1
    case ShortKind => 2
    case WordKind => 4
    case AddressKind => 8
    case SecurityKind => 4
    case _ => 0
  }

  function Capacity(k: Kind): nat { if k == ByteKind then 7 else 2 }

  predicate Copied(k: Kind) {
    k in {ByteKind, ShortKind, WordKind, AddressKind, SecurityKind}
  }

  function Reverse(s: seq<byte>): (r: seq<byte>)
    ensures |r| == |s| && forall i | 0 <= i < |s| :: r[i] == s[|s| - 1 - i]
  {
    seq(|s|, i requires 0 <= i < |s| => s[|s| - 1 - i])
  }

  lemma ReverseTwice(s: seq<byte>)
    ensures Reverse(Reverse(s)) == s
  {}

  // ------------------------------------------------------------ encoding

  datatype Field = Field(t: byte, value: seq<byte>)

  /** The value as it travels: reversed by a big-endian host, except byte streams. */
  function Wire(le: bool, t: byte, value: seq<byte>): (w: seq<byte>)
    ensures |w| == |value|
  {
    if le || t == ADDR_LIST || t == MSDU_ID then value else Reverse(value)
  }

  predicate Encodable(f: Field) { |f.value| < 256 }

  function EncodeField(le: bool, f: Field): seq<byte>
    requires Encodable(f)
  {
    [f.t, FromNat(|f.value|)] + Wire(le, f.t, f.value)
  }

  function Encode(le: bool, fs: seq<Field>): seq<byte>
    requires forall i | 0 <= i < |fs| :: Encodable(fs[i])
    decreases |fs|
  {
    if fs == [] then [] else EncodeField(le, fs[0]) + Encode(le, fs[1..])
  }

  // ------------------------------------------------------------ decoding

  /** params_t: the filled part of each array, and where the list and the SDU start. */
  datatype Params = Params(
    bytes: seq<seq<byte>>, shorts: seq<seq<byte>>, words: seq<seq<byte>>,
    addresses: seq<seq<byte>>, securities: seq<seq<byte>>,
    list: Option<nat>, listLength: nat, sdu: Option<nat>)
  {
    function Of(k: Kind): seq<seq<byte>> {
      match k
      case ByteKind => bytes
      case ShortKind => shorts
      case WordKind => words
      case AddressKind => addresses
      case SecurityKind => securities
      case _ => []
    }

    predicate Within() {
      |bytes| <= 7 && |shorts| <= 2 && |words| <= 2 && |addresses| <= 2 && |securities| <= 2
    }

    /** How many more values can be copied. */
    function Room(): (n: nat)
      requires Within()
    {
      15 - |bytes| - |shorts| - |words| - |addresses| - |securities|
    }

    predicate SameCopies(q: Params) {
      && bytes == q.bytes && shorts == q.shorts && words == q.words
      && addresses == q.addresses && securities == q.securities
    }

    function Add(k: Kind, v: seq<byte>): Params
      requires Copied(k)
    {
      match k
      case ByteKind => this.(bytes := bytes + [v])
      case ShortKind => this.(shorts := shorts + [v])
      case WordKind => this.(words := words + [v])
      case AddressKind => this.(addresses := addresses + [v])
      case SecurityKind => this.(securities := securities + [v])
    }
  }

  const NO_PARAMS: Params := Params([], [], [], [], [], None, 0, None)

  datatype Decoded =
    | Accepted(p: Params)
    | Refused
    | Astray   // past an array of params_t or past the buffer; PAN descriptors
    | Looping  // get_tlvs never returns: its u8 index wraps back to where it was

  /** What a little- or big-endian host makes of the copied bytes. */
  function FromWire(le: bool, w: seq<byte>): seq<byte> { if le then w else Reverse(w) }

  datatype Stored = Kept(p: Params) | NoSuchType | PastEnd

  function StoreField(le: bool, frm: seq<byte>, v: nat, p: Params): Stored
    requires 2 <= v <= |frm|
  {
    var k := KindOf(frm[v - 2]);
    if Copied(k) then
      if v + SizeOf(k) > |frm| || |p.Of(k)| >= Capacity(k) then PastEnd
      else Kept(p.Add(k, FromWire(le, frm[v..v + SizeOf(k)])))
    else if k == ListKind then Kept(p.(list := Some(v), listLength := ToNat(frm[v - 1])))
    else if k == SduKind then Kept(p.(sdu := Some(v)))
    else if k == PanKind then PastEnd
    else NoSuchType
  }

  /** What one turn of get_tlvs's loop leads to. */
  datatype Turned = Halt(d: Decoded) | Move(idx: nat, p: Params)

  predicate InFrame(frm: seq<byte>, frmLen: nat) { frmLen <= |frm| <= 255 }

  /** Where the index goes from the field at i: a u8, it wraps. */
  function Jump(frm: seq<byte>, i: nat): (j: nat)
    requires i + 1 < |frm|
    ensures j < 256
  {
    (i + 2 + ToNat(frm[i + 1])) % 256
  }

  function Turn(le: bool, frm: seq<byte>, frmLen: nat, idx: nat, p: Params): (t: Turned)
    requires InFrame(frm, frmLen)
    ensures t.Halt? ==> !t.d.Looping?
  {
    if idx + 2 >= frmLen then Halt(Accepted(p))
    else
      match StoreField(le, frm, idx + 2, p)
      case Kept(p') => Move(Jump(frm, idx), p')
      case NoSuchType => Halt(Refused)
      case PastEnd => Halt(Astray)
  }

  /** The loop after n turns; once it has halted it stays so. */
  function Turns(le: bool, frm: seq<byte>, frmLen: nat, idx: nat, p: Params, n: nat): (t: Turned)
    requires InFrame(frm, frmLen)
    ensures t.Halt? ==> !t.d.Looping?
    decreases n
  {
    if n == 0 then Move(idx, p)
    else
      match Turn(le, frm, frmLen, idx, p)
      case Halt(d) => Halt(d)
      case Move(i, q) => Turns(le, frm, frmLen, i, q, n - 1)
  }

  ghost predicate Returns(le: bool, frm: seq<byte>, frmLen: nat, idx: nat, p: Params)
    requires InFrame(frm, frmLen)
  {
    exists n: nat :: Turns(le, frm, frmLen, idx, p, n).Halt?
  }

  /** get_tlvs on the bytes from p_frm to the end of the buffer, from index idx on. */
  ghost function Decode(le: bool, frm: seq<byte>, frmLen: nat, idx: nat, p: Params): Decoded
    requires InFrame(frm, frmLen)
  {
    if Returns(le, frm, frmLen, idx, p)
    then var n: nat :| Turns(le, frm, frmLen, idx, p, n).Halt?; Turns(le, frm, frmLen, idx, p, n).d
    else Looping
  }

  lemma {:induction false} HaltsOnce(le: bool, frm: seq<byte>, frmLen: nat, idx: nat, p: Params, m: nat, n: nat)
    requires InFrame(frm, frmLen) && m <= n && Turns(le, frm, frmLen, idx, p, m).Halt?
    ensures Turns(le, frm, frmLen, idx, p, n) == Turns(le, frm, frmLen, idx, p, m)
    decreases m
  {
    hide Turn;
    match Turn(le, frm, frmLen, idx, p) {
      case Halt(_) =>
      case Move(i, q) => HaltsOnce(le, frm, frmLen, i, q, m - 1, n - 1);
    }
  }

  lemma DecodeIs(le: bool, frm: seq<byte>, frmLen: nat, idx: nat, p: Params, n: nat)
    requires InFrame(frm, frmLen) && Turns(le, frm, frmLen, idx, p, n).Halt?
    ensures Decode(le, frm, frmLen, idx, p) == Turns(le, frm, frmLen, idx, p, n).d
  {
    hide Turns;
    var m: nat :| Turns(le, frm, frmLen, idx, p, m).Halt?
      && Decode(le, frm, frmLen, idx, p) == Turns(le, frm, frmLen, idx, p, m).d;
    if m <= n { HaltsOnce(le, frm, frmLen, idx, p, m, n); } else { HaltsOnce(le, frm, frmLen, idx, p, n, m); }
  }

  /** Decoding goes on where a turn leads. */
  lemma DecodeTurn(le: bool, frm: seq<byte>, frmLen: nat, idx: nat, p: Params)
    requires InFrame(frm, frmLen)
    ensures Decode(le, frm, frmLen, idx, p) ==
      match Turn(le, frm, frmLen, idx, p)
      case Halt(d) => d
      case Move(i, q) => Decode(le, frm, frmLen, i, q)
  {
    hide Turn, Decode;
    match Turn(le, frm, frmLen, idx, p) {
      case Halt(d) =>
        assert Turns(le, frm, frmLen, idx, p, 1) == Halt(d);
        DecodeIs(le, frm, frmLen, idx, p, 1);
      case Move(i, q) => DecodeMoved(le, frm, frmLen, idx, p, i, q);
    }
  }

  lemma DecodeMoved(le: bool, frm: seq<byte>, frmLen: nat, idx: nat, p: Params, i: nat, q: Params)
    requires InFrame(frm, frmLen) && Turn(le, frm, frmLen, idx, p) == Move(i, q)
    ensures Decode(le, frm, frmLen, idx, p) == Decode(le, frm, frmLen, i, q)
  {
    hide Turn;
    forall n: nat ensures Turns(le, frm, frmLen, idx, p, n + 1) == Turns(le, frm, frmLen, i, q, n) {}
    if Returns(le, frm, frmLen, idx, p) {
      var n: nat :| Turns(le, frm, frmLen, idx, p, n).Halt?;
      assert Turns(le, frm, frmLen, i, q, n - 1).Halt?;
    }
    if Returns(le, frm, frmLen, i, q) {
      var n: nat :| Turns(le, frm, frmLen, i, q, n).Halt?;
      DecodeIs(le, frm, frmLen, i, q, n);
      DecodeIs(le, frm, frmLen, idx, p, n + 1);
    }
  }

  // ------------------------------------------------------------ frames that never end

  /** The index after n fields of the frame; it stays where the frame is over. */
  function Walk(frm: seq<byte>, frmLen: nat, i: nat, n: nat): nat
    requires InFrame(frm, frmLen)
  {
    if n == 0 then i
    else
      var j := Walk(frm, frmLen, i, n - 1);
      if j + 2 < frmLen then Jump(frm, j) else j
  }

  /** A list or SDU field, of which only the place is noted, stands at i. */
  predicate PointerAt(frm: seq<byte>, frmLen: nat, i: nat)
    requires InFrame(frm, frmLen)
  {
    i + 2 < frmLen && KindOf(frm[i]) in {ListKind, SduKind}
  }

  ghost predicate OnlyPointers(frm: seq<byte>, frmLen: nat, i: nat, n: nat)
    requires InFrame(frm, frmLen)
  {
    forall j: nat | j < n :: PointerAt(frm, frmLen, Walk(frm, frmLen, i, j))
  }

  /** k list and SDU fields lead from i back to i. */
  ghost predicate Cycle(frm: seq<byte>, frmLen: nat, i: nat, k: nat)
    requires InFrame(frm, frmLen)
  {
    k > 0 && Walk(frm, frmLen, i, k) == i && OnlyPointers(frm, frmLen, i, k)
  }

  predicate ReadableAt(frm: seq<byte>, frmLen: nat, i: nat)
    requires InFrame(frm, frmLen)
  {
    i + 2 < frmLen &&
    var k := KindOf(frm[i]);
    k in {ListKind, SduKind} || (Copied(k) && i + 2 + SizeOf(k) <= |frm|)
  }

  /** How many of the first n fields are of kind k. */
  function Copies(frm: seq<byte>, frmLen: nat, n: nat, k: Kind): nat
    requires InFrame(frm, frmLen)
  {
    if n == 0 then 0
    else
      var i := Walk(frm, frmLen, 0, n - 1);
      Copies(frm, frmLen, n - 1, k) + if i + 2 < frmLen && KindOf(frm[i]) == k then 1 else 0
  }

  /** The first n fields of the frame are known ones, inside the buffer and few enough of each kind. */
  ghost predicate Walks(frm: seq<byte>, frmLen: nat, n: nat)
    requires InFrame(frm, frmLen)
  {
    && (forall j: nat | j < n :: ReadableAt(frm, frmLen, Walk(frm, frmLen, 0, j)))
    && forall k | Copied(k) :: Copies(frm, frmLen, n, k) <= Capacity(k)
  }

  lemma {:induction false} TurnsLast(le: bool, frm: seq<byte>, frmLen: nat, idx: nat, p: Params, n: nat)
    requires InFrame(frm, frmLen)
    ensures Turns(le, frm, frmLen, idx, p, n + 1) ==
      match Turns(le, frm, frmLen, idx, p, n)
      case Halt(d) => Halt(d)
      case Move(i, q) => Turn(le, frm, frmLen, i, q)
    decreases n
  {
    hide Turn;
    match Turn(le, frm, frmLen, idx, p) {
      case Halt(_) =>
      case Move(i, q) => if n > 0 { TurnsLast(le, frm, frmLen, i, q, n - 1); }
    }
  }

  /** The decoder is still moving after n turns just when the frame's first n fields allow it. */
  lemma {:induction false} TurnsIff(le: bool, frm: seq<byte>, frmLen: nat, n: nat)
    requires InFrame(frm, frmLen)
    ensures var t := Turns(le, frm, frmLen, 0, NO_PARAMS, n);
      && (t.Move? <==> Walks(frm, frmLen, n))
      && (t.Move? ==> t.idx == Walk(frm, frmLen, 0, n))
      && (t.Move? ==> forall k | Copied(k) :: |t.p.Of(k)| == Copies(frm, frmLen, n, k))
    decreases n
  {
    hide KindOf, Turn, Jump;
    if n > 0 {
      TurnsIff(le, frm, frmLen, n - 1);
      TurnsLast(le, frm, frmLen, 0, NO_PARAMS, n - 1);
      WalksLess(frm, frmLen, n);
      var t := Turns(le, frm, frmLen, 0, NO_PARAMS, n - 1);
      if t.Move? { TurnMoves(le, frm, frmLen, t.idx, t.p); }
    }
  }

  lemma WalksLess(frm: seq<byte>, frmLen: nat, n: nat)
    requires InFrame(frm, frmLen) && n > 0
    ensures Walks(frm, frmLen, n) <==>
      && Walks(frm, frmLen, n - 1) && ReadableAt(frm, frmLen, Walk(frm, frmLen, 0, n - 1))
      && forall k | Copied(k) :: Copies(frm, frmLen, n, k) <= Capacity(k)
  {
    hide KindOf, ReadableAt, Walk;
    forall k | Copied(k) ensures Copies(frm, frmLen, n - 1, k) <= Copies(frm, frmLen, n, k) {}
  }

  lemma TurnMoves(le: bool, frm: seq<byte>, frmLen: nat, i: nat, p: Params)
    requires InFrame(frm, frmLen)
    ensures var t := Turn(le, frm, frmLen, i, p);
      && (t.Move? <==> ReadableAt(frm, frmLen, i) && var k := KindOf(frm[i]); Copied(k) ==> |p.Of(k)| < Capacity(k))
      && (t.Move? ==> t.idx == Jump(frm, i))
      && (t.Move? ==> forall k | Copied(k) :: |t.p.Of(k)| == |p.Of(k)| + if KindOf(frm[i]) == k then 1 else 0)
  {
    hide KindOf, Jump, FromWire;
  }

  lemma {:induction false} WalkOn(frm: seq<byte>, frmLen: nat, i: nat, m: nat, n: nat)
    requires InFrame(frm, frmLen)
    ensures Walk(frm, frmLen, i, m + n) == Walk(frm, frmLen, Walk(frm, frmLen, i, m), n)
    decreases n
  {
    if n > 0 { WalkOn(frm, frmLen, i, m, n - 1); }
  }

  lemma {:induction false} CycleGoesOn(frm: seq<byte>, frmLen: nat, i: nat, k: nat, n: nat)
    requires InFrame(frm, frmLen) && Cycle(frm, frmLen, i, k)
    ensures PointerAt(frm, frmLen, Walk(frm, frmLen, i, n))
    decreases n
  {
    hide PointerAt;
    if n >= k {
      WalkOn(frm, frmLen, i, k, n - k);
      CycleGoesOn(frm, frmLen, i, k, n - k);
    }
  }

  lemma {:induction false} PointersMove(le: bool, frm: seq<byte>, frmLen: nat, i: nat, p: Params, n: nat)
    requires InFrame(frm, frmLen) && OnlyPointers(frm, frmLen, i, n)
    ensures var t := Turns(le, frm, frmLen, i, p, n); t.Move? && t.idx == Walk(frm, frmLen, i, n)
    decreases n
  {
    hide KindOf, Turn, Jump;
    if n > 0 {
      PointersMove(le, frm, frmLen, i, p, n - 1);
      TurnsLast(le, frm, frmLen, i, p, n - 1);
      var t := Turns(le, frm, frmLen, i, p, n - 1);
      assert PointerAt(frm, frmLen, Walk(frm, frmLen, i, n - 1));
      TurnMoves(le, frm, frmLen, t.idx, t.p);
    }
  }

  lemma CycleLoops(le: bool, frm: seq<byte>, frmLen: nat, i: nat, k: nat, p: Params)
    requires InFrame(frm, frmLen) && Cycle(frm, frmLen, i, k)
    ensures Decode(le, frm, frmLen, i, p) == Looping
  {
    hide Turns, Walk, PointerAt, Cycle;
    forall n: nat ensures !Turns(le, frm, frmLen, i, p, n).Halt? {
      forall j: nat | j < n ensures PointerAt(frm, frmLen, Walk(frm, frmLen, i, j)) {
        CycleGoesOn(frm, frmLen, i, k, j);
      }
      PointersMove(le, frm, frmLen, i, p, n);
    }
  }

  /** How many of the first n fields are copied. */
  function AllCopies(frm: seq<byte>, frmLen: nat, n: nat): nat
    requires InFrame(frm, frmLen)
  {
    Copies(frm, frmLen, n, ByteKind) + Copies(frm, frmLen, n, ShortKind) + Copies(frm, frmLen, n, WordKind)
      + Copies(frm, frmLen, n, AddressKind) + Copies(frm, frmLen, n, SecurityKind)
  }

  lemma CopiesNext(frm: seq<byte>, frmLen: nat, n: nat)
    requires InFrame(frm, frmLen) && ReadableAt(frm, frmLen, Walk(frm, frmLen, 0, n))
    ensures AllCopies(frm, frmLen, n + 1) ==
      AllCopies(frm, frmLen, n) + if PointerAt(frm, frmLen, Walk(frm, frmLen, 0, n)) then 0 else 1
  {
    hide KindOf, Walk;
  }

  lemma AllCopiesBound(frm: seq<byte>, frmLen: nat, n: nat)
    requires InFrame(frm, frmLen) && Walks(frm, frmLen, n)
    ensures AllCopies(frm, frmLen, n) <= 15
  {
    hide Copies, ReadableAt;
    assert forall k | k in {ByteKind, ShortKind, WordKind, AddressKind, SecurityKind} :: Copied(k);
  }

  lemma WalkBound(frm: seq<byte>, frmLen: nat, n: nat)
    requires InFrame(frm, frmLen)
    ensures Walk(frm, frmLen, 0, n) < 256
  {
    hide Jump;
  }

  /** Numbers below b, all distinct, are at most b. */
  lemma {:induction false} DistinctBelow(s: seq<nat>, b: nat)
    requires forall i | 0 <= i < |s| :: s[i] < b
    requires forall i, j | 0 <= i < j < |s| :: s[i] != s[j]
    ensures |s| <= b
  {
    var all := set i | 0 <= i < |s| :: s[i];
    DistinctSize(s);
    BelowBound(all, b);
  }

  lemma {:induction false} DistinctSize(s: seq<nat>)
    requires forall i, j | 0 <= i < j < |s| :: s[i] != s[j]
    ensures |set i | 0 <= i < |s| :: s[i]| == |s|
  {
    if s != [] {
      var n := |s| - 1;
      DistinctSize(s[..n]);
      assert (set i | 0 <= i < |s| :: s[i]) == (set i | 0 <= i < |s[..n]| :: s[..n][i]) + {s[n]};
    }
  }

  lemma {:induction false} BelowBound(all: set<nat>, b: nat)
    requires forall i | i in all :: i < b
    ensures |all| <= b
    decreases b
  {
    if b > 0 {
      BelowBound(all - {b - 1}, b - 1);
    } else {
      assert all == {};
    }
  }

  /** Positions m to n of the walk are list and SDU fields at different places. */
  ghost predicate Stretch(frm: seq<byte>, frmLen: nat, m: nat, n: nat)
    requires InFrame(frm, frmLen)
  {
    && m <= n
    && (forall j | m <= j < n :: PointerAt(frm, frmLen, Walk(frm, frmLen, 0, j)))
    && forall i, j | m <= i < j < n :: Walk(frm, frmLen, 0, i) != Walk(frm, frmLen, 0, j)
  }

  lemma StretchBound(frm: seq<byte>, frmLen: nat, m: nat, n: nat)
    requires InFrame(frm, frmLen) && Stretch(frm, frmLen, m, n)
    ensures n - m <= 256
  {
    hide Walk, PointerAt;
    var places := seq(n - m, j requires 0 <= j < n - m => Walk(frm, frmLen, 0, m + j));
    forall j | 0 <= j < n - m ensures places[j] < 256 { WalkBound(frm, frmLen, m + j); }
    DistinctBelow(places, 256);
  }

  /** A walk that never stops comes round, as only so many values can be copied. */
  lemma {:induction false} FindCycle(frm: seq<byte>, frmLen: nat, m: nat, n: nat) returns (i: nat, k: nat)
    requires InFrame(frm, frmLen) && Stretch(frm, frmLen, m, n)
    requires forall j: nat :: Walks(frm, frmLen, j)
    requires AllCopies(frm, frmLen, n) == AllCopies(frm, frmLen, m) && m <= 257 * AllCopies(frm, frmLen, m)
    ensures Cycle(frm, frmLen, Walk(frm, frmLen, 0, i), k) && i < 4112 && k <= 256
    decreases 15 - AllCopies(frm, frmLen, n), 256 - (n - m)
  {
    hide Walk, PointerAt, ReadableAt, Copies, AllCopies, Walks;
    assert Walks(frm, frmLen, n + 1);
    ReadableHere(frm, frmLen, n);
    CopiesNext(frm, frmLen, n);
    AllCopiesBound(frm, frmLen, n + 1);
    StretchBound(frm, frmLen, m, n);
    if !PointerAt(frm, frmLen, Walk(frm, frmLen, 0, n)) {
      i, k := FindCycle(frm, frmLen, n + 1, n + 1);
    } else if j: nat :| m <= j < n && Walk(frm, frmLen, 0, j) == Walk(frm, frmLen, 0, n) {
      i, k := j, n - j;
      StretchIsCycle(frm, frmLen, m, n, j);
    } else {
      assert Stretch(frm, frmLen, m, n + 1);
      StretchBound(frm, frmLen, m, n + 1);
      i, k := FindCycle(frm, frmLen, m, n + 1);
    }
  }

  lemma NoCopiesYet(frm: seq<byte>, frmLen: nat)
    requires InFrame(frm, frmLen)
    ensures AllCopies(frm, frmLen, 0) == 0 && Stretch(frm, frmLen, 0, 0)
  {}

  lemma ReadableHere(frm: seq<byte>, frmLen: nat, n: nat)
    requires InFrame(frm, frmLen) && Walks(frm, frmLen, n + 1)
    ensures ReadableAt(frm, frmLen, Walk(frm, frmLen, 0, n))
  {}

  lemma StretchIsCycle(frm: seq<byte>, frmLen: nat, m: nat, n: nat, j: nat)
    requires InFrame(frm, frmLen) && Stretch(frm, frmLen, m, n) && m <= j < n
    requires Walk(frm, frmLen, 0, j) == Walk(frm, frmLen, 0, n)
    ensures Cycle(frm, frmLen, Walk(frm, frmLen, 0, j), n - j)
  {
    hide Walk, PointerAt;
    WalkOn(frm, frmLen, 0, j, n - j);
    forall l: nat | l < n - j
      ensures PointerAt(frm, frmLen, Walk(frm, frmLen, Walk(frm, frmLen, 0, j), l))
    {
      WalkOn(frm, frmLen, 0, j, l);
      assert m <= j + l < n;
    }
  }

  /** The first n fields can be stored and lead to a field from which the next k lead back. */
  ghost predicate ComesRound(frm: seq<byte>, frmLen: nat, n: nat, k: nat)
    requires InFrame(frm, frmLen)
  {
    && n < 4112 && k <= 256
    && Walks(frm, frmLen, n) && Cycle(frm, frmLen, Walk(frm, frmLen, 0, n), k)
  }

  /**
    get_tlvs never returns just when the frame's fields, known ones inside the buffer and few
    enough of each kind, lead to a list or SDU field from which only such fields lead back.
    The bounds are what 15 copied values and a u8 index leave room for.
   */
  lemma LoopsIff(le: bool, frm: seq<byte>, frmLen: nat)
    requires InFrame(frm, frmLen)
    ensures Decode(le, frm, frmLen, 0, NO_PARAMS) == Looping <==>
      exists n: nat, k: nat :: ComesRound(frm, frmLen, n, k)
  {
    hide Turns, Walk, Walks, Cycle, Copies;
    if !Returns(le, frm, frmLen, 0, NO_PARAMS) {
      forall n: nat ensures Walks(frm, frmLen, n) { TurnsIff(le, frm, frmLen, n); }
      NoCopiesYet(frm, frmLen);
      var i, k := FindCycle(frm, frmLen, 0, 0);
      assert ComesRound(frm, frmLen, i, k);
    }
    if n: nat, k: nat :| ComesRound(frm, frmLen, n, k) {
      TurnsIff(le, frm, frmLen, n);
      var t := Turns(le, frm, frmLen, 0, NO_PARAMS, n);
      CycleLoops(le, frm, frmLen, t.idx, k, t.p);
      DecodeAfter(le, frm, frmLen, 0, NO_PARAMS, n);
    } else {
      var n: nat :| Turns(le, frm, frmLen, 0, NO_PARAMS, n).Halt?;
      DecodeIs(le, frm, frmLen, 0, NO_PARAMS, n);
    }
  }

  lemma {:induction false} DecodeAfter(le: bool, frm: seq<byte>, frmLen: nat, idx: nat, p: Params, n: nat)
    requires InFrame(frm, frmLen) && Turns(le, frm, frmLen, idx, p, n).Move?
    ensures var t := Turns(le, frm, frmLen, idx, p, n);
      Decode(le, frm, frmLen, idx, p) == Decode(le, frm, frmLen, t.idx, t.p)
    decreases n
  {
    hide Turn, Decode;
    if n > 0 {
      var t := Turn(le, frm, frmLen, idx, p);
      DecodeTurn(le, frm, frmLen, idx, p);
      DecodeAfter(le, frm, frmLen, t.idx, t.p, n - 1);
    }
  }

  /** The field at i does not take the index past 255. */
  predicate NoWrapAt(frm: seq<byte>, frmLen: nat, i: nat)
    requires InFrame(frm, frmLen)
  {
    i + 2 < frmLen ==> i + 2 + ToNat(frm[i + 1]) <= 255
  }

  /** Where no field on the walk takes the index past 255, get_tlvs returns. */
  lemma NoWrapReturns(le: bool, frm: seq<byte>, frmLen: nat)
    requires InFrame(frm, frmLen) && forall n: nat :: NoWrapAt(frm, frmLen, Walk(frm, frmLen, 0, n))
    ensures Decode(le, frm, frmLen, 0, NO_PARAMS) != Looping
  {
    hide KindOf, Turns, Walk, NoWrapAt, Decode, Copies;
    TurnsIff(le, frm, frmLen, 128);
    WalkClimbs(frm, frmLen, 127);
    if Walks(frm, frmLen, 128) { ReadableHere(frm, frmLen, 127); }
    DecodeIs(le, frm, frmLen, 0, NO_PARAMS, 128);
  }

  lemma {:induction false} WalkClimbs(frm: seq<byte>, frmLen: nat, n: nat)
    requires InFrame(frm, frmLen) && forall n: nat :: NoWrapAt(frm, frmLen, Walk(frm, frmLen, 0, n))
    ensures var i := Walk(frm, frmLen, 0, n); i + 2 < frmLen ==> i >= 2 * n
    decreases n
  {
    hide NoWrapAt, Jump;
    if n > 0 {
      WalkClimbs(frm, frmLen, n - 1);
      JumpClimbs(frm, frmLen, Walk(frm, frmLen, 0, n - 1));
    }
  }

  lemma JumpClimbs(frm: seq<byte>, frmLen: nat, i: nat)
    requires InFrame(frm, frmLen) && NoWrapAt(frm, frmLen, i)
    ensures i + 2 < frmLen ==> Jump(frm, i) >= i + 2
  {}

  /** A frame of three bytes that get_tlvs never finishes, on either host. */
  lemma EndlessFrame(le: bool, t: byte, x: byte)
    requires t == MSDU_ID || t == ADDR_LIST
    ensures Decode(le, [t, 254, x], 3, 0, NO_PARAMS) == Looping
  {
    var frm := [t, 254, x];
    assert ToNat(254) == 254;
    assert Walk(frm, 3, 0, 0) == 0;
    assert Walk(frm, 3, 0, 1) == 0;
    assert PointerAt(frm, 3, 0);
    CycleLoops(le, frm, 3, 0, 1, NO_PARAMS);
  }

  // what get_tlvs's loop remembers

  /** List and SDU fields lead from i to idx. */
  ghost predicate LedTo(frm: seq<byte>, frmLen: nat, i: nat, idx: nat)
    requires InFrame(frm, frmLen)
  {
    exists k: nat :: k > 0 && Walk(frm, frmLen, i, k) == idx && OnlyPointers(frm, frmLen, i, k)
  }

  lemma LedAround(le: bool, frm: seq<byte>, frmLen: nat, idx: nat, p: Params)
    requires InFrame(frm, frmLen) && LedTo(frm, frmLen, idx, idx)
    ensures Decode(le, frm, frmLen, idx, p) == Looping
  {
    hide Walk, OnlyPointers, Decode;
    var k: nat :| k > 0 && Walk(frm, frmLen, idx, k) == idx && OnlyPointers(frm, frmLen, idx, k);
    CycleLoops(le, frm, frmLen, idx, k, p);
  }

  lemma LedOn(frm: seq<byte>, frmLen: nat, i: nat, idx: nat)
    requires InFrame(frm, frmLen) && (i == idx || LedTo(frm, frmLen, i, idx)) && PointerAt(frm, frmLen, idx)
    ensures LedTo(frm, frmLen, i, Jump(frm, idx))
  {
    hide Jump, PointerAt;
    var k: nat := 0;
    if i == idx {
      assert Walk(frm, frmLen, i, 0) == i;
    } else {
      k :| k > 0 && Walk(frm, frmLen, i, k) == idx && OnlyPointers(frm, frmLen, i, k);
    }
    assert idx + 2 < frmLen by { PointerIsInside(frm, frmLen, idx); }
    assert Walk(frm, frmLen, i, k + 1) == Jump(frm, idx);
    assert OnlyPointers(frm, frmLen, i, k + 1);
  }

  lemma PointerIsInside(frm: seq<byte>, frmLen: nat, i: nat)
    requires InFrame(frm, frmLen) && PointerAt(frm, frmLen, i)
    ensures i + 2 < frmLen
  {}

  /** A stored field leaves less room, or is one more place on the way round. */
  lemma StoredNext(le: bool, frm: seq<byte>, frmLen: nat, idx: nat, p: Params, p': Params, visited: set<nat>)
    requires InFrame(frm, frmLen) && idx + 2 < frmLen && p.Within()
    requires StoreField(le, frm, idx + 2, p) == Kept(p')
    requires forall i | i in visited :: LedTo(frm, frmLen, i, idx)
    ensures p'.Within()
    ensures if p'.SameCopies(p) then forall i | i in visited + {idx} :: LedTo(frm, frmLen, i, Jump(frm, idx))
            else p'.Room() < p.Room()
  {
    hide LedTo, Jump, KindOf, FromWire;
    StoredRoom(le, frm, idx, p, p');
    if p'.SameCopies(p) {
      forall i | i in visited + {idx} ensures LedTo(frm, frmLen, i, Jump(frm, idx)) {
        LedOn(frm, frmLen, i, idx);
      }
    }
  }

  lemma StoredRoom(le: bool, frm: seq<byte>, idx: nat, p: Params, p': Params)
    requires idx + 2 <= |frm| && p.Within() && StoreField(le, frm, idx + 2, p) == Kept(p')
    ensures p'.Within() && (p'.SameCopies(p) <==> KindOf(frm[idx]) in {ListKind, SduKind})
    ensures if p'.SameCopies(p) then p'.Room() == p.Room() else p'.Room() < p.Room()
  {
    hide KindOf, FromWire;
  }

  // ------------------------------------------------------------ the round trip

  /** A value of the size of its type; a big-endian host's list decoder does not undo the encoder's reversal. */
  predicate WellTyped(le: bool, f: Field) {
    var k := KindOf(f.t);
    && Encodable(f)
    && (Copied(k) ==> |f.value| == SizeOf(k))
    && (k == SduKind || (k == ListKind && (le || f.t == ADDR_LIST)) || Copied(k))
  }

  predicate AllWellTyped(le: bool, fs: seq<Field>) {
    forall i | 0 <= i < |fs| :: WellTyped(le, fs[i])
  }

  /** The values of the fields of kind k, in order. */
  function Values(fs: seq<Field>, k: Kind): seq<seq<byte>>
    decreases |fs|
  {
    if fs == [] then []
    else (if KindOf(fs[0].t) == k then [fs[0].value] else []) + Values(fs[1..], k)
  }

  predicate FitsParams(fs: seq<Field>, p: Params) {
    forall k: Kind | Copied(k) :: |p.Of(k)| + |Values(fs, k)| <= Capacity(k)
  }

  /** Where in the encoding the value of the last field of kind k starts; its length. */
  function LastAt(fs: seq<Field>, k: Kind, at: nat, before: Option<nat>): Option<nat>
    decreases |fs|
  {
    if fs == [] then before
    else LastAt(fs[1..], k, at + 2 + |fs[0].value|, if KindOf(fs[0].t) == k then Some(at + 2) else before)
  }

  /** The last field of kind k. */
  function LastOf(fs: seq<Field>, k: Kind): Option<Field>
    decreases |fs|
  {
    if fs == [] then None
    else
      var later := LastOf(fs[1..], k);
      if later.Some? then later else if KindOf(fs[0].t) == k then Some(fs[0]) else None
  }

  function LengthOfLast(fs: seq<Field>, k: Kind, before: nat): nat {
    match LastOf(fs, k)
    case Some(f) => |f.value|
    case None => before
  }

  /** The decoder's loop stops two bytes early, so a last field without a value goes unseen. */
  function Seen(fs: seq<Field>): seq<Field> {
    if fs != [] && fs[|fs| - 1].value == [] then fs[..|fs| - 1] else fs
  }

  lemma WireThenHost(le: bool, t: byte, value: seq<byte>)
    requires Copied(KindOf(t))
    ensures FromWire(le, Wire(le, t, value)) == value
  {
    CopiedIsNumber(t);
    hide KindOf;
    ReverseTwice(value);
  }

  lemma CopiedIsNumber(t: byte)
    requires Copied(KindOf(t))
    ensures t != ADDR_LIST && t != MSDU_ID
  {}

  /** One encoded field is stored as its value. */
  lemma FieldIsStored(le: bool, f: Field, frm: seq<byte>, at: nat, p: Params)
    requires WellTyped(le, f) && at + 2 + |f.value| <= |frm| && frm[at..at + 2 + |f.value|] == EncodeField(le, f)
    requires Copied(KindOf(f.t)) ==> |p.Of(KindOf(f.t))| < Capacity(KindOf(f.t))
    ensures var d := StoreField(le, frm, at + 2, p);
            d.Kept? && ToNat(frm[at + 1]) == |f.value| && StoredAs(f, at, p, d.p)
  {
    hide KindOf, FromNat, ToNat, FromWire, Wire;
    var n := |f.value|;
    var part := frm[at..at + 2 + n];
    assert frm[at] == part[0] == f.t && frm[at + 1] == part[1] == FromNat(n);
    assert frm[at + 2..at + 2 + n] == part[2..] == Wire(le, f.t, f.value);
    if Copied(KindOf(f.t)) {
      WireThenHost(le, f.t, f.value);
    }
  }

  /**
    d holds, kind by kind, what p held and then the values of fs in order, points at the last
    SDU and list, and gives the list's length.
   */
  ghost predicate Reads(d: Decoded, fs: seq<Field>, at: nat, p: Params) {
    && d.Accepted?
    && (forall k | Copied(k) :: d.p.Of(k) == p.Of(k) + Values(fs, k))
    && d.p.sdu == LastAt(fs, SduKind, at, p.sdu)
    && d.p.list == LastAt(fs, ListKind, at, p.list)
    && d.p.listLength == LengthOfLast(fs, ListKind, p.listLength)
  }

  /**
    Reading what was written: the decoder accepts and gives, kind by kind, the values in the
    order they were written, and points at the last SDU and list; a last field without a
    value is not seen.
   */
  lemma {:induction false} DecodeOfEncode(le: bool, fs: seq<Field>, frm: seq<byte>, at: nat, p: Params)
    requires AllWellTyped(le, fs) && |frm| <= 255 && FitsParams(fs, p)
    requires at + |Encode(le, fs)| <= |frm| && frm[at..at + |Encode(le, fs)|] == Encode(le, fs)
    ensures Reads(Decode(le, frm, at + |Encode(le, fs)|, at, p), Seen(fs), at, p)
    decreases |fs|
  {
    hide KindOf, EncodeField, StoreField, ToNat, Reads, FitsParams, WellTyped, Seen, Decode, Jump;
    if fs == [] {
      NothingReads(p, at);
      SeenNothing(fs);
      DecodeTurn(le, frm, at, at, p);
    } else {
      var f, rest := fs[0], fs[1..];
      var next := at + 2 + |f.value|;
      AllEncodable(le, fs);
      FieldLength(le, f);
      EncodedRest(le, fs, frm, at);
      if rest == [] && f.value == [] {
        NothingReads(p, at);
        SeenNothing(fs);
        DecodeTurn(le, frm, at + 2, at, p);
      } else {
        FieldFits(fs, p);
        FieldIsStored(le, f, frm, at, p);
        var p' := StoreField(le, frm, at + 2, p).p;
        RestFits(fs, p, p');
        var end := at + |Encode(le, fs)|;
        assert next + |Encode(le, rest)| == end;
        DecodeOfEncode(le, rest, frm, next, p');
        assert Turn(le, frm, end, at, p) == Move(next, p') by { JumpsTo(frm, at, next, |f.value|); }
        DecodeTurn(le, frm, end, at, p);
        assert Decode(le, frm, end, at, p) == Decode(le, frm, end, next, p');
        FieldThenRest(Decode(le, frm, end, next, p'), fs, at, p, p');
      }
    }
  }

  lemma JumpsTo(frm: seq<byte>, at: nat, next: nat, n: nat)
    requires at + 1 < |frm| && ToNat(frm[at + 1]) == n && next == at + 2 + n <= 255
    ensures Jump(frm, at) == next
  {}

  lemma AllEncodable(le: bool, fs: seq<Field>)
    requires AllWellTyped(le, fs)
    ensures forall i | 0 <= i < |fs| :: Encodable(fs[i])
  {}

  lemma NothingReads(p: Params, at: nat)
    ensures Reads(Accepted(p), [], at, p)
  {}

  lemma SeenNothing(fs: seq<Field>)
    requires fs == [] || (|fs| == 1 && fs[0].value == [])
    ensures Seen(fs) == []
  {}

  /** The parameters after storing f at `at`. */
  ghost predicate StoredAs(f: Field, at: nat, p: Params, p': Params) {
    var k := KindOf(f.t);
    if Copied(k) then p' == p.Add(k, f.value)
    else if k == ListKind then p' == p.(list := Some(at + 2), listLength := |f.value|)
    else k == SduKind && p' == p.(sdu := Some(at + 2))
  }

  lemma FieldThenRest(d: Decoded, fs: seq<Field>, at: nat, p: Params, p': Params)
    requires fs != [] && (|fs| > 1 || fs[0].value != []) && StoredAs(fs[0], at, p, p')
    requires Reads(d, Seen(fs[1..]), at + 2 + |fs[0].value|, p')
    ensures Reads(d, Seen(fs), at, p)
  {
    hide KindOf, Seen, StoredAs, Values, LastAt, LastOf;
    SeenRest(fs);
    AddedOnly(fs[0], at, p, p');
    ValuesRest(d, Seen(fs), at, p, p');
    LastUnfolds(Seen(fs), SduKind, at, p.sdu);
    LastUnfolds(Seen(fs), ListKind, at, p.list);
  }

  lemma ValuesRest(d: Decoded, seen: seq<Field>, at: nat, p: Params, p': Params)
    requires seen != [] && d.Accepted?
    requires forall k | Copied(k) :: d.p.Of(k) == p'.Of(k) + Values(seen[1..], k)
    requires forall k | Copied(k) :: p'.Of(k) == if k == KindOf(seen[0].t) then p.Of(k) + [seen[0].value] else p.Of(k)
    ensures forall k | Copied(k) :: d.p.Of(k) == p.Of(k) + Values(seen, k)
  {
    hide KindOf, Values;
    ValuesFirst(seen);
  }

  lemma AddedOnly(f: Field, at: nat, p: Params, p': Params)
    requires StoredAs(f, at, p, p')
    ensures forall k | Copied(k) :: p'.Of(k) == if k == KindOf(f.t) then p.Of(k) + [f.value] else p.Of(k)
    ensures p'.sdu == if KindOf(f.t) == SduKind then Some(at + 2) else p.sdu
    ensures p'.list == if KindOf(f.t) == ListKind then Some(at + 2) else p.list
    ensures p'.listLength == if KindOf(f.t) == ListKind then |f.value| else p.listLength
  {
    hide KindOf;
  }

  lemma FieldLength(le: bool, f: Field)
    requires Encodable(f)
    ensures |EncodeField(le, f)| == 2 + |f.value|
  {}

  lemma EncodedRest(le: bool, fs: seq<Field>, frm: seq<byte>, at: nat)
    requires fs != [] && forall i | 0 <= i < |fs| :: Encodable(fs[i])
    requires at + |Encode(le, fs)| <= |frm| && frm[at..at + |Encode(le, fs)|] == Encode(le, fs)
    ensures var n := |EncodeField(le, fs[0])|;
            && frm[at..at + n] == EncodeField(le, fs[0])
            && |Encode(le, fs)| == n + |Encode(le, fs[1..])|
            && frm[at + n..at + n + |Encode(le, fs[1..])|] == Encode(le, fs[1..])
            && (fs[1..] != [] ==> |Encode(le, fs[1..])| >= 2)
  {
    hide EncodeField, Encode;
    EncodeFirst(le, fs);
    if fs[1..] != [] {
      EncodeFirst(le, fs[1..]);
      FieldLength(le, fs[1]);
    }
    SliceParts(frm, at, EncodeField(le, fs[0]), Encode(le, fs[1..]));
  }

  lemma EncodeFirst(le: bool, fs: seq<Field>)
    requires fs != [] && forall i | 0 <= i < |fs| :: Encodable(fs[i])
    ensures Encode(le, fs) == EncodeField(le, fs[0]) + Encode(le, fs[1..])
  {
    hide EncodeField;
  }

  lemma SliceParts(frm: seq<byte>, at: nat, a: seq<byte>, b: seq<byte>)
    requires at + |a + b| <= |frm| && frm[at..at + |a + b|] == a + b
    ensures frm[at..at + |a|] == a && frm[at + |a|..at + |a| + |b|] == b
  {
    assert frm[at..at + |a + b|][..|a|] == frm[at..at + |a|];
    assert frm[at..at + |a + b|][|a|..] == frm[at + |a|..at + |a| + |b|];
  }

  lemma FieldFits(fs: seq<Field>, p: Params)
    requires fs != [] && FitsParams(fs, p)
    ensures Copied(KindOf(fs[0].t)) ==> |p.Of(KindOf(fs[0].t))| < Capacity(KindOf(fs[0].t))
  {
    hide KindOf;
    var k := KindOf(fs[0].t);
    assert |Values(fs, k)| >= 1;
  }

  lemma RestFits(fs: seq<Field>, p: Params, p': Params)
    requires fs != [] && FitsParams(fs, p) && exists at :: StoredAs(fs[0], at, p, p')
    ensures FitsParams(fs[1..], p')
  {
    hide KindOf;
    var at :| StoredAs(fs[0], at, p, p');
    AddedOnly(fs[0], at, p, p');
    ValuesFirst(fs);
  }

  lemma ValuesFirst(fs: seq<Field>)
    requires fs != []
    ensures forall k :: Values(fs, k) == (if KindOf(fs[0].t) == k then [fs[0].value] else []) + Values(fs[1..], k)
  {}

  lemma SeenRest(fs: seq<Field>)
    requires fs != [] && (|fs| > 1 || fs[0].value != [])
    ensures Seen(fs) != [] && Seen(fs)[0] == fs[0] && Seen(fs)[1..] == Seen(fs[1..])
  {}

  /** The pointer to the last field of kind k points at that field's bytes. */
  lemma {:induction false} PointsAtLast(
      le: bool, fs: seq<Field>, frm: seq<byte>, at: nat, k: Kind, before: Option<nat>)
    requires forall j | 0 <= j < |fs| :: Encodable(fs[j])
    requires at + |Encode(le, fs)| <= |frm| && frm[at..at + |Encode(le, fs)|] == Encode(le, fs)
    ensures var q := LastAt(fs, k, at, before);
      match LastOf(fs, k)
      case None => q == before
      case Some(f) =>
        && KindOf(f.t) == k && f in fs && q.Some? && q.value + |f.value| <= |frm|
        && frm[q.value..q.value + |f.value|] == Wire(le, f.t, f.value)
    decreases |fs|
  {
    hide KindOf, Wire, EncodeField, Encode, LastAt, LastOf;
    LastUnfolds(fs, k, at, before);
    if fs != [] {
      var f, rest := fs[0], fs[1..];
      EncodedRest(le, fs, frm, at);
      FieldLength(le, f);
      PointsAtLast(le, rest, frm, at + 2 + |f.value|, k, if KindOf(f.t) == k then Some(at + 2) else before);
      WireInFrame(le, f, frm, at);
    }
  }

  lemma LastUnfolds(fs: seq<Field>, k: Kind, at: nat, before: Option<nat>)
    ensures LastAt(fs, k, at, before) == if fs == [] then before
      else LastAt(fs[1..], k, at + 2 + |fs[0].value|, if KindOf(fs[0].t) == k then Some(at + 2) else before)
    ensures LastOf(fs, k) == if fs == [] then None
      else if LastOf(fs[1..], k).Some? then LastOf(fs[1..], k)
      else if KindOf(fs[0].t) == k then Some(fs[0]) else None
  {
    hide KindOf;
  }

  /** q points at the bytes of f's value, or nowhere if there is no f. */
  ghost predicate PointsTo(frm: seq<byte>, q: Option<nat>, f: Option<Field>) {
    if f.None? then q.None?
    else q.Some? && q.value + |f.value.value| <= |frm| && frm[q.value..q.value + |f.value.value|] == f.value.value
  }

  /** What the decoder's pointers to SDU and list point at, after reading what was written. */
  lemma SeenPointers(le: bool, fs: seq<Field>, frm: seq<byte>, k: Kind)
    requires AllWellTyped(le, fs) && k in {SduKind, ListKind}
    requires |Encode(le, fs)| <= |frm| && frm[..|Encode(le, fs)|] == Encode(le, fs)
    ensures PointsTo(frm, LastAt(Seen(fs), k, 0, None), LastOf(Seen(fs), k))
  {
    hide KindOf, EncodeField, Encode, LastAt, LastOf;
    AllEncodable(le, fs);
    var seen := Seen(fs);
    if seen != fs { EncodeLast(le, fs); }
    assert frm[0..0 + |Encode(le, seen)|] == Encode(le, seen) by {
      assert Encode(le, fs)[..|Encode(le, seen)|] == Encode(le, seen);
      assert frm[..|Encode(le, fs)|][..|Encode(le, seen)|] == frm[..|Encode(le, seen)|];
    }
    PointsAtLast(le, seen, frm, 0, k, None);
    if LastOf(seen, k).Some? {
      var f := LastOf(seen, k).value;
      assert f in fs;
      SentAsIs(le, f);
    }
  }

  lemma SentAsIs(le: bool, f: Field)
    requires WellTyped(le, f) && KindOf(f.t) in {SduKind, ListKind}
    ensures Wire(le, f.t, f.value) == f.value
  {}

  lemma {:induction false} EncodeLast(le: bool, fs: seq<Field>)
    requires fs != [] && forall i | 0 <= i < |fs| :: Encodable(fs[i])
    ensures Encode(le, fs) == Encode(le, fs[..|fs| - 1]) + EncodeField(le, fs[|fs| - 1])
    decreases |fs|
  {
    hide EncodeField, Encode;
    EncodeFirst(le, fs);
    if |fs| > 1 {
      EncodeLast(le, fs[1..]);
      EncodeFirst(le, fs[..|fs| - 1]);
      assert fs[1..][..|fs[1..]| - 1] == fs[..|fs| - 1][1..];
    } else {
      assert fs[1..] == [] && fs[..0] == [];
      EncodeNothing(le);
    }
  }

  lemma EncodeNothing(le: bool)
    ensures Encode(le, []) == []
  {}

  lemma WireInFrame(le: bool, f: Field, frm: seq<byte>, at: nat)
    requires Encodable(f) && at + 2 + |f.value| <= |frm| && frm[at..at + 2 + |f.value|] == EncodeField(le, f)
    ensures frm[at + 2..at + 2 + |f.value|] == Wire(le, f.t, f.value)
  {
    hide Wire;
    assert frm[at..at + 2 + |f.value|][2..] == frm[at + 2..at + 2 + |f.value|];
  }

  // ------------------------------------------------------------ the buffer and its methods

  datatype Status = True | False | Lost | Endless

  class HostIf {
    /** is_little_endian() */
    const le: bool
    const ufrm: array<byte>

    ghost predicate Valid()
      reads this
    {
      ufrm.Length == MAX_MAC_IF_FRAME_LENGTH
    }

    constructor (le: bool)
      ensures Valid() && this.le == le && fresh(ufrm) && ufrm.Length == 128
    {
      this.le := le;
      ufrm := new byte[MAX_MAC_IF_FRAME_LENGTH](_ => 0);
    }

    method Memcpy(at: nat, src: seq<byte>)
      requires at + |src| <= ufrm.Length
      modifies ufrm
      ensures ufrm[..] == Splice(old(ufrm[..]), at, src)
    {
      forall i | 0 <= i < |src| {
        ufrm[at + i] := src[i];
      }
      assert ufrm[at..at + |src|] == src;
    }

    /** rev_memcpy */
    method RevMemcpy(at: nat, src: seq<byte>)
      requires at + |src| <= ufrm.Length
      modifies ufrm
      ensures ufrm[..] == Splice(old(ufrm[..]), at, Reverse(src))
    {
      var count := |src|;
      for i := 0 to count
        invariant forall j | 0 <= j < i :: ufrm[at + count - 1 - j] == src[j]
        invariant forall j | 0 <= j < ufrm.Length && !(at + count - i <= j < at + count) :: ufrm[j] == old(ufrm[j])
      {
        ufrm[at + count - 1 - i] := src[i];
      }
      ReversedInto(old(ufrm[..]), ufrm[..], at, src);
    }

    /** zmac_hostIf_set_tlv; a field past the buffer's end is the caller's error, which the code does not stop. */
    method SetTlv(idx: nat, t: byte, value: seq<byte>) returns (idx': nat)
      requires Valid() && |value| < 256 && KindOf(t) != PanKind
      requires idx + 2 + |value| <= MAX_MAC_IF_FRAME_LENGTH
      modifies ufrm
      ensures Valid() && idx' == idx + 2 + |value|
      ensures ufrm[..] == Splice(old(ufrm[..]), idx, EncodeField(le, Field(t, value)))
    {
      hide KindOf, Splice, Wire, Reverse;
      ghost var was := ufrm[..];
      var length := FromNat(|value|);
      ufrm[idx] := t;
      ufrm[idx + 1] := length;
      assert ufrm[..] == was[idx := t][idx + 1 := length];
      HeaderThenValue(was, idx, t, length, Wire(le, t, value));
      WireIs(le, t, value);
      if le || t == ADDR_LIST || t == MSDU_ID {
        Memcpy(idx + 2, value);
      } else {
        RevMemcpy(idx + 2, value);
      }
      idx' := idx + 2 + |value|;
    }

    /** Any sequence of set_tlv calls writes the encoding of its fields. */
    method SetTlvs(idx: nat, fs: seq<Field>) returns (idx': nat)
      requires Valid() && forall i | 0 <= i < |fs| :: Encodable(fs[i]) && KindOf(fs[i].t) != PanKind
      requires idx + |Encode(le, fs)| <= MAX_MAC_IF_FRAME_LENGTH
      modifies ufrm
      ensures Valid() && idx' == idx + |Encode(le, fs)|
      ensures ufrm[..] == Splice(old(ufrm[..]), idx, Encode(le, fs))
      decreases |fs|
    {
      hide KindOf;
      idx' := idx;
      if fs == [] {
        SpliceNothing(ufrm[..], idx);
      } else {
        ghost var was := ufrm[..];
        FieldLength(le, fs[0]);
        idx' := SetTlv(idx, fs[0].t, fs[0].value);
        idx' := SetTlvs(idx', fs[1..]);
        SpliceTwice(was, idx, EncodeField(le, fs[0]), Encode(le, fs[1..]));
      }
    }

    /**
      zmac_hostIf_get_tlvs on ufrm from `start`. Where the loop of the source goes round for
      ever, back at an index with no value copied since it was there, the model stops.
     */
    method GetTlvs(start: nat, frmLen: nat) returns (status: Status, p: Params)
      requires Valid() && start + frmLen <= MAX_MAC_IF_FRAME_LENGTH
      ensures match Decode(le, ufrm[start..], frmLen, 0, NO_PARAMS)
              case Accepted(q) => status == True && p == q
              case Refused => status == False
              case Astray => status == Lost
              case Looping => status == Endless
    {
      hide StoreField, Decode, Jump, KindOf, LedTo;
      ghost var frm := ufrm[start..];
      var idx: nat := 0;
      p := NO_PARAMS;
      var visited: set<nat> := {};
      while idx + 2 < frmLen
        invariant idx < 256 && p.Within()
        invariant Decode(le, frm, frmLen, idx, p) == Decode(le, frm, frmLen, 0, NO_PARAMS)
        invariant forall i | i in visited :: i < 256 && LedTo(frm, frmLen, i, idx)
        decreases p.Room(), 256 - |visited|
      {
        DecodeTurn(le, frm, frmLen, idx, p);
        BelowBound(visited, 256);
        if idx in visited {
          LedAround(le, frm, frmLen, idx, p);
          return Endless, p;
        }
        match StoreField(le, ufrm[start..], idx + 2, p) {
          case Kept(p') =>
            StoredNext(le, frm, frmLen, idx, p, p', visited);
            visited := if p'.SameCopies(p) then visited + {idx} else {};
            idx := Jump(ufrm[start..], idx);
            p := p';
          case NoSuchType => return False, p;
          case PastEnd => return Lost, p;
        }
      }
      DecodeTurn(le, frm, frmLen, idx, p);
      return True, p;
    }

    /** Fields that fit, written and read on the same host. */
    method WriteAndRead(start: nat, fs: seq<Field>) returns (p: Params)
      requires Valid() && AllWellTyped(le, fs) && FitsParams(fs, NO_PARAMS)
      requires forall i | 0 <= i < |fs| :: Encodable(fs[i])
      requires start + |Encode(le, fs)| <= MAX_MAC_IF_FRAME_LENGTH
      modifies ufrm
      ensures Valid() && ufrm[..] == Splice(old(ufrm[..]), start, Encode(le, fs))
      ensures Reads(Accepted(p), Seen(fs), 0, NO_PARAMS)
      ensures PointsTo(ufrm[start..], p.sdu, LastOf(Seen(fs), SduKind))
      ensures PointsTo(ufrm[start..], p.list, LastOf(Seen(fs), ListKind))
    {
      hide KindOf, Decode, Seen, WellTyped, FitsParams, Encode, LastAt, LastOf, PointsTo;
      NoPan(le, fs);
      var end := SetTlvs(start, fs);
      ghost var frm := ufrm[start..];
      SplicedTail(old(ufrm[..]), start, Encode(le, fs));
      DecodeOfEncode(le, fs, frm, 0, NO_PARAMS);
      ReadsAccepts(Decode(le, frm, |Encode(le, fs)|, 0, NO_PARAMS), Seen(fs));
      var status;
      status, p := GetTlvs(start, end - start);
      SeenPointers(le, fs, frm, SduKind);
      SeenPointers(le, fs, frm, ListKind);
    }
  }

  lemma ReversedInto(was: seq<byte>, now: seq<byte>, at: nat, src: seq<byte>)
    requires at + |src| <= |was| == |now|
    requires forall j | 0 <= j < |src| :: now[at + |src| - 1 - j] == src[j]
    requires forall j | 0 <= j < |was| && !(at <= j < at + |src|) :: now[j] == was[j]
    ensures now == Splice(was, at, Reverse(src))
  {
    forall j | at <= j < at + |src| ensures now[j] == Reverse(src)[j - at] {
      assert now[at + |src| - 1 - (at + |src| - 1 - j)] == src[at + |src| - 1 - j];
    }
    assert now[at..at + |src|] == Reverse(src);
  }

  lemma ReadsAccepts(d: Decoded, fs: seq<Field>)
    requires Reads(d, fs, 0, NO_PARAMS)
    ensures d.Accepted?
  {}

  lemma NoPan(le: bool, fs: seq<Field>)
    requires AllWellTyped(le, fs)
    ensures forall i | 0 <= i < |fs| :: KindOf(fs[i].t) != PanKind
  {
    hide KindOf;
  }

  lemma HeaderThenValue(s: seq<byte>, at: nat, t: byte, length: byte, w: seq<byte>)
    requires at + 2 + |w| <= |s|
    ensures Splice(s[at := t][at + 1 := length], at + 2, w) == Splice(s, at, [t, length] + w)
  {}

  lemma WireIs(le: bool, t: byte, value: seq<byte>)
    ensures Wire(le, t, value) == if le || t == ADDR_LIST || t == MSDU_ID then value else Reverse(value)
  {}

  lemma SpliceTwice(s: seq<byte>, at: nat, a: seq<byte>, b: seq<byte>)
    requires at + |a| + |b| <= |s|
    ensures Splice(Splice(s, at, a), at + |a|, b) == Splice(s, at, a + b)
  {}

  lemma SplicedTail(s: seq<byte>, at: nat, data: seq<byte>)
    requires at + |data| <= |s|
    ensures Splice(s, at, data)[at..][0..0 + |data|] == data
  {}
}
