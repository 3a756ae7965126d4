/**
  Frames between hosts of different byte order: what one writes and the other reads.
 */
module MacHosts {
  import opened MachineWords
  import opened Options
  import opened MacSap

  /** A number of the field's type, given by its little-endian bytes, in a host's memory. */
  function Hosted(le: bool, digits: seq<byte>): seq<byte> { if le then digits else Reverse(digits) }

  function HostedFields(le: bool, fs: seq<Field>): (hs: seq<Field>)
    ensures |hs| == |fs| && forall i | 0 <= i < |fs| :: hs[i] == Field(fs[i].t, Hosted(le, fs[i].value))
    decreases |fs|
  {
    if fs == [] then [] else [Field(fs[0].t, Hosted(le, fs[0].value))] + HostedFields(le, fs[1..])
  }

  predicate Numbers(fs: seq<Field>) {
    forall i | 0 <= i < |fs| :: Encodable(fs[i]) && KindOf(fs[i].t) in {ByteKind, ShortKind, WordKind, AddressKind}
  }

  /** Numbers travel in little-endian order whatever the host, so both kinds of host write the same frame. */
  lemma {:induction false} HostsAgree(fs: seq<Field>)
    requires Numbers(fs)
    ensures Encode(true, HostedFields(true, fs)) == Encode(false, HostedFields(false, fs))
    decreases |fs|
  {
    hide KindOf;
    if fs != [] {
      var f := fs[0];
      CopiedIsNumber(f.t);
      ReverseTwice(f.value);
      assert HostedFields(true, fs)[1..] == HostedFields(true, fs[1..]);
      assert HostedFields(false, fs)[1..] == HostedFields(false, fs[1..]);
      HostsAgree(fs[1..]);
    }
  }

  // ------------------------------------------------------------ read on the other host

  /** What the other host reads for the fields: the bytes of every copied value in reverse. */
  function Crossed(fs: seq<Field>): (cs: seq<Field>)
    ensures |cs| == |fs| && forall i | 0 <= i < |fs| :: cs[i] == CrossedField(fs[i])
    decreases |fs|
  {
    if fs == [] then [] else [CrossedField(fs[0])] + Crossed(fs[1..])
  }

  function CrossedField(f: Field): Field {
    Field(f.t, if Copied(KindOf(f.t)) then Reverse(f.value) else f.value)
  }

  lemma CrossedWellTyped(f: Field)
    requires WellTyped(false, f)
    ensures WellTyped(true, CrossedField(f)) && WellTyped(false, CrossedField(f)) && WellTyped(true, f)
    ensures EncodeField(true, f) == EncodeField(false, CrossedField(f))
    ensures EncodeField(false, f) == EncodeField(true, CrossedField(f))
  {
    hide FromNat;
    ReverseTwice(f.value);
    if Copied(KindOf(f.t)) { CopiedIsNumber(f.t); } else { SentAsIs(false, f); }
  }

  /** Writing on one host is writing the crossed fields on the other. */
  lemma {:induction false} EncodeCrossed(le: bool, fs: seq<Field>)
    requires AllWellTyped(false, fs)
    ensures AllWellTyped(!le, Crossed(fs)) && AllWellTyped(le, fs)
    ensures Encode(le, fs) == Encode(!le, Crossed(fs))
    decreases |fs|
  {
    hide WellTyped, CrossedField, EncodeField;
    forall i | 0 <= i < |fs| ensures WellTyped(!le, Crossed(fs)[i]) && WellTyped(le, fs[i]) {
      CrossedWellTyped(fs[i]);
    }
    AllEncodable(le, fs);
    AllEncodable(!le, Crossed(fs));
    if fs != [] {
      CrossedWellTyped(fs[0]);
      EncodeCrossed(le, fs[1..]);
      assert Crossed(fs)[1..] == Crossed(fs[1..]);
    }
  }

  /**
    A frame written on one host and read on the other gives, kind by kind and in order, every
    copied value with its bytes in reverse, and the pointers to the SDU and the list as sent.
   */
  lemma CrossHosts(le: bool, fs: seq<Field>, frm: seq<byte>, at: nat, p: Params)
    requires AllWellTyped(false, fs) && |frm| <= 255 && FitsParams(fs, p)
    requires at + |EncodeOn(le, fs)| <= |frm| && frm[at..at + |EncodeOn(le, fs)|] == EncodeOn(le, fs)
    ensures Reads(Decode(!le, frm, at + |EncodeOn(le, fs)|, at, p), Seen(Crossed(fs)), at, p)
  {
    hide WellTyped, Crossed, Encode, FitsParams, Reads, Seen, Decode;
    EncodeCrossed(le, fs);
    CrossedFits(fs, p);
    AllEncodable(le, fs);
    DecodeOfEncode(!le, Crossed(fs), frm, at, p);
  }

  /** The encoding of fields that either host can write. */
  function EncodeOn(le: bool, fs: seq<Field>): seq<byte>
    requires AllWellTyped(false, fs)
  {
    Encode(le, fs)
  }

  /** The values of kind k as the other host reads them. */
  function Arrived(vs: seq<seq<byte>>, k: Kind): (r: seq<seq<byte>>)
    ensures |r| == |vs| && forall i | 0 <= i < |vs| :: r[i] == if Copied(k) then Reverse(vs[i]) else vs[i]
  {
    seq(|vs|, i requires 0 <= i < |vs| => if Copied(k) then Reverse(vs[i]) else vs[i])
  }

  lemma CrossedFits(fs: seq<Field>, p: Params)
    requires FitsParams(fs, p)
    ensures FitsParams(Crossed(fs), p)
  {
    hide KindOf, Values, Arrived, Crossed;
    forall k: Kind ensures |Values(Crossed(fs), k)| == |Values(fs, k)| { CrossedValues(fs, k); }
  }

  lemma {:induction false} CrossedValues(fs: seq<Field>, k: Kind)
    ensures Values(Crossed(fs), k) == Arrived(Values(fs, k), k)
    decreases |fs|
  {
    hide KindOf, Arrived, Crossed, CrossedField, Values;
    if fs == [] {
      NoValues(Crossed(fs), k);
      NoValues(fs, k);
    } else {
      CrossedValues(fs[1..], k);
      assert Crossed(fs)[1..] == Crossed(fs[1..]);
      ValuesFirst(fs);
      ValuesFirst(Crossed(fs));
      FirstArrives(fs[0], Values(fs[1..], k), k);
    }
  }

  lemma NoValues(fs: seq<Field>, k: Kind)
    requires fs == []
    ensures Values(fs, k) == []
  {}

  lemma FirstArrives(f: Field, later: seq<seq<byte>>, k: Kind)
    ensures CrossedField(f).t == f.t
    ensures KindOf(f.t) == k ==> Arrived([f.value] + later, k) == [CrossedField(f).value] + Arrived(later, k)
  {
    hide KindOf, Reverse;
  }

  // ------------------------------------------------------------ what survives

  /** A number comes to the other host as the number it was. */
  lemma NumbersCross(le: bool, fs: seq<Field>)
    requires Numbers(fs)
    ensures Crossed(HostedFields(le, fs)) == HostedFields(!le, fs)
  {
    hide KindOf;
    forall i | 0 <= i < |fs| ensures CrossedField(HostedFields(le, fs)[i]) == HostedFields(!le, fs)[i] {
      ReverseTwice(fs[i].value);
      NumberIsCopied(fs[i].t);
    }
  }

  lemma NumberIsCopied(t: byte)
    requires KindOf(t) in {ByteKind, ShortKind, WordKind, AddressKind}
    ensures Copied(KindOf(t))
  {}

  /** A value comes to the other host with its bytes as they were. */
  predicate Survives(value: seq<byte>) { Reverse(value) == value }

  /**
    The fields sec_level, key_id_mode, key_src and key_idx survive the way to the other host just
    when the first equals the last and the second the third.
   */
  lemma SecuritySurvivesIff(value: seq<byte>)
    requires |value| == SizeOf(SecurityKind)
    ensures Survives(value) <==> value[0] == value[3] && value[1] == value[2]
  {
    var r := Reverse(value);
    if value[0] == value[3] && value[1] == value[2] {
      forall i | 0 <= i < 4 ensures r[i] == value[i] {}
    }
    if Survives(value) {
      assert r[0] == value[3] && r[1] == value[2];
    }
  }

  /** The digits, low byte first, of the short address in the first two bytes of an addr_t. */
  function ShortAddress(le: bool, value: seq<byte>): seq<byte>
    requires |value| == SizeOf(AddressKind)
  {
    Hosted(le, value[..2])
  }

  /** A short address survives just when the addr_t's last two bytes equal its first two. */
  lemma ShortAddressSurvivesIff(le: bool, value: seq<byte>)
    requires |value| == SizeOf(AddressKind)
    ensures ShortAddress(!le, Reverse(value)) == ShortAddress(le, value) <==> value[..2] == value[6..]
  {
    var r := Reverse(value);
    assert r[0] == value[7] && r[1] == value[6];
    var there, here := ShortAddress(!le, r), ShortAddress(le, value);
    assert there == if le then [value[6], value[7]] else [value[7], value[6]];
    assert here == if le then [value[0], value[1]] else [value[1], value[0]];
    assert value[..2] == [value[0], value[1]] && value[6..] == [value[6], value[7]];
  }

  /** Every security field of a frame survives the way to the other host just when each is its own reverse. */
  lemma SecurityArrivesIff(le: bool, fs: seq<Field>, frm: seq<byte>)
    requires AllWellTyped(false, fs) && |frm| <= 255 && FitsParams(fs, NO_PARAMS)
    requires |EncodeOn(le, fs)| <= |frm| && frm[..|EncodeOn(le, fs)|] == EncodeOn(le, fs)
    ensures var d := Decode(!le, frm, |EncodeOn(le, fs)|, 0, NO_PARAMS);
      && d.Accepted?
      && (d.p.securities == Values(fs, SecurityKind) <==>
          forall i | 0 <= i < |Values(fs, SecurityKind)| :: Survives(Values(fs, SecurityKind)[i]))
  {
    hide WellTyped, EncodeOn, FitsParams, Decode, KindOf, Values, Crossed, Reads, Seen, Survives;
    CrossHosts(le, fs, frm, 0, NO_PARAMS);
    CrossedValues(fs, SecurityKind);
    SeenSecurities(fs);
    SecuritiesRead(Decode(!le, frm, |EncodeOn(le, fs)|, 0, NO_PARAMS), Seen(Crossed(fs)));
    AllSurviveIff(Values(fs, SecurityKind));
  }

  lemma SecuritiesRead(d: Decoded, fs: seq<Field>)
    requires Reads(d, fs, 0, NO_PARAMS)
    ensures d.Accepted? && d.p.securities == Values(fs, SecurityKind)
  {
    hide Values;
    assert d.p.Of(SecurityKind) == NO_PARAMS.Of(SecurityKind) + Values(fs, SecurityKind);
  }

  lemma AllSurviveIff(vs: seq<seq<byte>>)
    ensures Arrived(vs, SecurityKind) == vs <==> forall i | 0 <= i < |vs| :: Survives(vs[i])
  {
    hide Reverse, Arrived;
    if Arrived(vs, SecurityKind) == vs {
      forall i | 0 <= i < |vs| ensures Survives(vs[i]) { assert Arrived(vs, SecurityKind)[i] == vs[i]; }
    } else {
      var i :| 0 <= i < |vs| && Arrived(vs, SecurityKind)[i] != vs[i];
      assert !Survives(vs[i]);
    }
  }

  /** A last field without a value is no security field. */
  lemma SeenSecurities(fs: seq<Field>)
    requires AllWellTyped(false, fs)
    ensures Values(Seen(Crossed(fs)), SecurityKind) == Values(Crossed(fs), SecurityKind)
  {
    hide KindOf, Reverse;
    if Seen(Crossed(fs)) != Crossed(fs) {
      assert WellTyped(false, fs[|fs| - 1]);
      EmptyIsNotCopied(fs[|fs| - 1]);
      ValuesLast(Crossed(fs), SecurityKind);
    }
  }

  lemma EmptyIsNotCopied(f: Field)
    requires WellTyped(false, f) && CrossedField(f).value == []
    ensures KindOf(f.t) != SecurityKind
  {
    hide KindOf;
  }

  lemma {:induction false} ValuesLast(fs: seq<Field>, k: Kind)
    requires fs != [] && KindOf(fs[|fs| - 1].t) != k
    ensures Values(fs, k) == Values(fs[..|fs| - 1], k)
    decreases |fs|
  {
    hide KindOf;
    if |fs| > 1 {
      ValuesLast(fs[1..], k);
      assert fs[1..][..|fs[1..]| - 1] == fs[..|fs| - 1][1..];
    }
  }
}
