/**
  The field types of mac_intf_common.h and the primitives of mac_host_intf.c, byte by byte:
  which array of params_t each type's value arrives in, and how many there is room for.
 */
module MacPrimitives {
  import opened MachineWords
  import opened Options
  import opened MacSap

  // ------------------------------------------------------------ the types one by one

  // the parameter IDs by the C type of their values, as numbered in mac_intf_common.h
  const U8_TYPES: seq<byte> := [
    0x00, 0x01, 0x06, 0x07, 0x08, 0x09, 0x0A, 0x0B, 0x10, 0x11, 0x12, 0x13, 0x14, 0x17, 0x19, 0x1A,
    0x1E, 0x1F, 0x20, 0x21, 0x22, 0x25, 0x26, 0x28, 0x2A, 0x2E, 0x30, 0x33, 0x36, 0x37, 0xFE]
  const U16_TYPES: seq<byte> := [0x02, 0x03, 0x0C, 0x0F, 0x15]
  const U32_TYPES: seq<byte> := [0x18, 0x1B, 0x1C, 0x1D, 0x27, 0x31]
  const ADDR_TYPES: seq<byte> := [0x04, 0x05, 0x0D, 0x0E, 0x2F]
  const SEC_TYPES: seq<byte> := [0x23, 0x24, 0x34]
  const LIST_TYPES: seq<byte> := [0x16, 0x2B]
  const UNUSED_TYPES: seq<byte> := [0x2C, 0x2D, 0x32, 0x35]

  lemma BytesAre(t: byte)
    requires t in U8_TYPES
    ensures KindOf(t) == ByteKind
  {}

  lemma NumbersAre(t: byte)
    ensures t in U16_TYPES ==> KindOf(t) == ShortKind
    ensures t in U32_TYPES ==> KindOf(t) == WordKind
  {}

  lemma StructsAre(t: byte)
    ensures t in ADDR_TYPES ==> KindOf(t) == AddressKind
    ensures t in SEC_TYPES ==> KindOf(t) == SecurityKind
  {}

  lemma StreamsAre(t: byte)
    ensures t in LIST_TYPES ==> KindOf(t) == ListKind
    ensures t == 0xFF ==> KindOf(t) == SduKind
    ensures t in UNUSED_TYPES || 0x38 <= t <= 0xFD ==> KindOf(t) == Unknown
  {}

  lemma FourBytes(t: byte, n: byte, a: byte, b: byte, c: byte, d: byte)
    ensures [t, n] + [a, b, c, d] == [t, n, a, b, c, d] && Reverse([a, b, c, d]) == [d, c, b, a]
  {}

  /** A frame of one field ends behind it. */
  lemma OneField(le: bool, t: byte, value: seq<byte>)
    requires 0 < |value| <= 253
    requires var frm := [t, FromNat(|value|)] + value; StoreField(le, frm, 2, NO_PARAMS).Kept?
    ensures var frm := [t, FromNat(|value|)] + value;
      Decode(le, frm, |frm|, 0, NO_PARAMS) == Accepted(StoreField(le, frm, 2, NO_PARAMS).p)
  {
    hide StoreField, Decode, FromNat, ToNat;
    var frm := [t, FromNat(|value|)] + value;
    DecodeTurn(le, frm, |frm|, 0, NO_PARAMS);
    JumpsTo(frm, 0, |frm|, |value|);
    DecodeTurn(le, frm, |frm|, |frm|, StoreField(le, frm, 2, NO_PARAMS).p);
  }

  lemma CopiedAlone(le: bool, t: byte, value: seq<byte>)
    requires Copied(KindOf(t)) && |value| == SizeOf(KindOf(t))
    ensures var frm := [t, FromNat(|value|)] + value;
      Decode(le, frm, |frm|, 0, NO_PARAMS) == Accepted(NO_PARAMS.Add(KindOf(t), FromWire(le, value)))
  {
    hide KindOf, FromNat, Decode, FromWire;
    var frm := [t, FromNat(|value|)] + value;
    assert frm[2..2 + |value|] == value && frm[0] == t;
    OneField(le, t, value);
  }

  /**
    What is sent for a field: its type, its length, and its bytes as they are in memory, or the last
    one first on a big-endian host unless it is an address list or an MSDU.
   */
  lemma FieldIsSent(le: bool, f: Field, i: nat)
    requires Encodable(f) && i < |f.value|
    ensures var sent, n := EncodeField(le, f), |f.value|;
      && |sent| == 2 + n && sent[0] == f.t && ToNat(sent[1]) == n
      && sent[2 + i] == f.value[if le || f.t == 0x2B || f.t == 0xFF then i else n - 1 - i]
  {
    hide FromNat, ToNat;
  }

  /** A field of type u8 is one byte, and arrives in byte_data. */
  lemma ByteArrives(le: bool, t: byte, x: byte)
    requires t in U8_TYPES
    ensures Decode(le, [t, FromNat(1), x], 3, 0, NO_PARAMS) == Accepted(Params([[x]], [], [], [], [], None, 0, None))
  {
    hide KindOf, Decode, FromNat, U8_TYPES;
    BytesAre(t);
    CopiedAlone(le, t, [x]);
    assert [t, FromNat(1)] + [x] == [t, FromNat(1), x] && Reverse([x]) == [x];
  }

  /** A u16 arrives in short_data, in the host's order. */
  lemma ShortArrives(le: bool, t: byte, a: byte, b: byte)
    requires t in U16_TYPES
    ensures Decode(le, [t, FromNat(2), a, b], 4, 0, NO_PARAMS)
         == Accepted(Params([], [if le then [a, b] else [b, a]], [], [], [], None, 0, None))
  {
    hide KindOf, Decode, FromNat, U16_TYPES;
    NumbersAre(t);
    CopiedAlone(le, t, [a, b]);
    assert [t, FromNat(2)] + [a, b] == [t, FromNat(2), a, b] && Reverse([a, b]) == [b, a];
  }

  /** A u32 arrives in word_data. */
  lemma WordArrives(le: bool, t: byte, a: byte, b: byte, c: byte, d: byte)
    requires t in U32_TYPES
    ensures Decode(le, [t, FromNat(4), a, b, c, d], 6, 0, NO_PARAMS)
         == Accepted(Params([], [], [if le then [a, b, c, d] else [d, c, b, a]], [], [], None, 0, None))
  {
    hide KindOf, Decode, FromNat, U32_TYPES, Reverse;
    NumbersAre(t);
    CopiedAlone(le, t, [a, b, c, d]);
    FourBytes(t, FromNat(4), a, b, c, d);
  }

  /** A sec_t is four bytes and arrives in security_data. */
  lemma SecurityArrives(le: bool, t: byte, a: byte, b: byte, c: byte, d: byte)
    requires t in SEC_TYPES
    ensures Decode(le, [t, FromNat(4), a, b, c, d], 6, 0, NO_PARAMS)
         == Accepted(Params([], [], [], [], [if le then [a, b, c, d] else [d, c, b, a]], None, 0, None))
  {
    hide KindOf, Decode, FromNat, SEC_TYPES, Reverse;
    StructsAre(t);
    CopiedAlone(le, t, [a, b, c, d]);
    FourBytes(t, FromNat(4), a, b, c, d);
  }

  /** An addr_t is eight bytes and arrives in address_data. */
  lemma AddressArrives(le: bool, t: byte, value: seq<byte>)
    requires t in ADDR_TYPES && |value| == 8
    ensures Decode(le, [t, FromNat(8)] + value, 10, 0, NO_PARAMS)
         == Accepted(Params([], [], [], [if le then value else Reverse(value)], [], None, 0, None))
  {
    hide KindOf, Decode, FromNat, ADDR_TYPES, Reverse;
    StructsAre(t);
    CopiedAlone(le, t, value);
  }

  /** A PIB attribute value or an address list of any length is pointed at, and its length kept. */
  lemma ListArrives(le: bool, t: byte, value: seq<byte>)
    requires t in LIST_TYPES && 0 < |value| <= 253
    ensures Decode(le, [t, FromNat(|value|)] + value, 2 + |value|, 0, NO_PARAMS)
         == Accepted(Params([], [], [], [], [], Some(2), |value|, None))
  {
    hide KindOf, Decode, FromNat, ToNat, LIST_TYPES;
    StreamsAre(t);
    OneField(le, t, value);
  }

  /** An MSDU of any length is pointed at. */
  lemma SduArrives(le: bool, value: seq<byte>)
    requires 0 < |value| <= 253
    ensures Decode(le, [0xFF, FromNat(|value|)] + value, 2 + |value|, 0, NO_PARAMS)
         == Accepted(Params([], [], [], [], [], None, 0, Some(2)))
  {
    hide KindOf, Decode, FromNat, ToNat;
    StreamsAre(0xFF);
    OneField(le, 0xFF, value);
  }

  /** Any other type but the PAN descriptor's is refused, whatever follows. */
  lemma OthersRefused(le: bool, t: byte, rest: seq<byte>)
    requires (t in UNUSED_TYPES || 0x38 <= t <= 0xFD) && 2 <= |rest| <= 254
    ensures Decode(le, [t] + rest, 1 + |rest|, 0, NO_PARAMS) == Refused
  {
    hide KindOf, Decode, ToNat, UNUSED_TYPES;
    StreamsAre(t);
    var frm := [t] + rest;
    assert frm[0] == t;
    DecodeTurn(le, frm, |frm|, 0, NO_PARAMS);
  }

  // ------------------------------------------------------------ how many there is room for

  function FieldsOf(t: byte, vals: seq<seq<byte>>): (fs: seq<Field>)
    ensures |fs| == |vals| && forall i | 0 <= i < |vals| :: fs[i] == Field(t, vals[i])
  {
    seq(|vals|, i requires 0 <= i < |vals| => Field(t, vals[i]))
  }

  /** A type, the size of its values, and how many of them params_t has room for. */
  predicate HasRoom(t: byte, size: nat, room: nat) {
    || (t in U8_TYPES && size == 1 && room == 7) || (t in U16_TYPES && size == 2 && room == 2)
    || (t in U32_TYPES && size == 4 && room == 2) || (t in ADDR_TYPES && size == 8 && room == 2)
    || (t in SEC_TYPES && size == 4 && room == 2)
  }

  lemma RoomIs(t: byte, size: nat, room: nat)
    requires HasRoom(t, size, room)
    ensures Copied(KindOf(t)) && SizeOf(KindOf(t)) == size && Capacity(KindOf(t)) == room
  {
    hide KindOf, U8_TYPES, U16_TYPES, U32_TYPES, ADDR_TYPES, SEC_TYPES;
    if t in U8_TYPES { BytesAre(t); }
    NumbersAre(t);
    StructsAre(t);
  }

  /** As many fields of one type as there is room for are taken; one more is written out of bounds. */
  lemma RoomIff(le: bool, t: byte, size: nat, room: nat, vals: seq<seq<byte>>)
    requires HasRoom(t, size, room) && |vals| * (size + 2) <= 255
    requires forall i | 0 <= i < |vals| :: |vals[i]| == size
    ensures AllWellTyped(le, FieldsOf(t, vals))
    ensures var frm := EncodeTyped(le, FieldsOf(t, vals));
      |frm| <= 255 &&
      var d := Decode(le, frm, |frm|, 0, NO_PARAMS);
      (d.Accepted? <==> |vals| <= room) && (d.Astray? <==> |vals| > room)
  {
    hide KindOf, HasRoom, Decode, SizeOf, Capacity;
    RoomIs(t, size, room);
    var fs := FieldsOf(t, vals);
    AllEncodable(le, fs);
    EncodedSize(le, fs, size);
    var frm := Encode(le, fs);
    assert frm[0..0 + |frm|] == frm;
    SameKindDecodes(le, KindOf(t), fs, frm, 0, NO_PARAMS);
  }

  /** The encoding of fields whose values have the size of their types. */
  function EncodeTyped(le: bool, fs: seq<Field>): seq<byte>
    requires AllWellTyped(le, fs)
  {
    Encode(le, fs)
  }

  lemma {:induction false} EncodedSize(le: bool, fs: seq<Field>, size: nat)
    requires forall i | 0 <= i < |fs| :: Encodable(fs[i]) && |fs[i].value| == size
    ensures |Encode(le, fs)| == |fs| * (size + 2)
    decreases |fs|
  {
    hide EncodeField, Encode;
    if fs == [] {
      EncodeNothing(le);
    } else {
      EncodeFirst(le, fs);
      FieldLength(le, fs[0]);
      EncodedSize(le, fs[1..], size);
      assert |fs| * (size + 2) == (|fs| - 1) * (size + 2) + (size + 2);
    }
  }

  /** Fields of one kind are taken one after the other until there is no room. */
  lemma {:induction false} SameKindDecodes(le: bool, k: Kind, fs: seq<Field>, frm: seq<byte>, at: nat, p: Params)
    requires Copied(k) && AllWellTyped(le, fs) && |frm| <= 255 && |p.Of(k)| <= Capacity(k)
    requires forall i | 0 <= i < |fs| :: KindOf(fs[i].t) == k
    requires at + |EncodeTyped(le, fs)| <= |frm| && frm[at..at + |EncodeTyped(le, fs)|] == EncodeTyped(le, fs)
    ensures var d := Decode(le, frm, at + |EncodeTyped(le, fs)|, at, p);
      if |p.Of(k)| + |fs| <= Capacity(k) then d.Accepted? else d == Astray
    decreases |fs|
  {
    hide KindOf, EncodeField, Encode, StoreField, ToNat, Decode, Jump, Capacity, SizeOf;
    AllEncodable(le, fs);
    var end := at + |Encode(le, fs)|;
    DecodeTurn(le, frm, end, at, p);
    if fs == [] {
      EncodeNothing(le);
    } else {
      var f, rest := fs[0], fs[1..];
      FieldLength(le, f);
      EncodedRest(le, fs, frm, at);
      SizeIsPositive(le, f);
      assert frm[at] == EncodeField(le, f)[0] by { assert frm[at..at + 2 + |f.value|][0] == frm[at]; }
      TypeIsFirst(le, f);
      if |p.Of(k)| < Capacity(k) {
        FieldIsStored(le, f, frm, at, p);
        var p' := StoreField(le, frm, at + 2, p).p;
        AddedOnly(f, at, p, p');
        JumpsTo(frm, at, at + 2 + |f.value|, |f.value|);
        assert at + 2 + |f.value| + |Encode(le, rest)| == end;
        SameKindDecodes(le, k, rest, frm, at + 2 + |f.value|, p');
      } else {
        NoRoom(le, frm, at + 2, p, k);
      }
    }
  }

  lemma SizeIsPositive(le: bool, f: Field)
    requires WellTyped(le, f) && Copied(KindOf(f.t))
    ensures |f.value| > 0
  {
    hide KindOf;
  }

  lemma TypeIsFirst(le: bool, f: Field)
    requires Encodable(f)
    ensures EncodeField(le, f)[0] == f.t
  {}

  lemma NoRoom(le: bool, frm: seq<byte>, v: nat, p: Params, k: Kind)
    requires 2 <= v <= |frm| && KindOf(frm[v - 2]) == k && Copied(k) && |p.Of(k)| >= Capacity(k)
    ensures StoreField(le, frm, v, p) == PastEnd
  {
    hide KindOf;
  }
}
