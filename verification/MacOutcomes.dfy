/**
  What get_tlvs makes of any frame, read off the frame: the field at which its loop ends, and
  what it has stored by then.
 */
module MacOutcomes {
  import opened MachineWords
  import opened Options
  import opened MacSap

  /** The first n fields can be stored, and nothing is left of the frame behind them. */
  ghost predicate EndsAt(frm: seq<byte>, frmLen: nat, n: nat)
    requires InFrame(frm, frmLen)
  {
    Walks(frm, frmLen, n) && Walk(frm, frmLen, 0, n) + 2 >= frmLen
  }

  /** The first n fields can be stored, and one of no known type follows. */
  ghost predicate UnknownAt(frm: seq<byte>, frmLen: nat, n: nat)
    requires InFrame(frm, frmLen)
  {
    && Walks(frm, frmLen, n)
    && var i := Walk(frm, frmLen, 0, n); i + 2 < frmLen && KindOf(frm[i]) == Unknown
  }

  /** The value of the field at i lies past the end of the buffer. */
  predicate ReadsPastEnd(frm: seq<byte>, i: nat)
    requires i < |frm|
  {
    Copied(KindOf(frm[i])) && i + 2 + SizeOf(KindOf(frm[i])) > |frm|
  }

  /** As many fields of this kind as params_t has room for came before the field at i, the n-th. */
  predicate WritesPastEnd(frm: seq<byte>, frmLen: nat, n: nat, i: nat)
    requires InFrame(frm, frmLen) && i < |frm|
  {
    Copied(KindOf(frm[i])) && Copies(frm, frmLen, n, KindOf(frm[i])) >= Capacity(KindOf(frm[i]))
  }

  /** The first n fields can be stored, and the next is read or written out of bounds, or a PAN descriptor. */
  ghost predicate StraysAt(frm: seq<byte>, frmLen: nat, n: nat)
    requires InFrame(frm, frmLen)
  {
    && Walks(frm, frmLen, n)
    && var i := Walk(frm, frmLen, 0, n);
       i + 2 < frmLen && (KindOf(frm[i]) == PanKind || ReadsPastEnd(frm, i) || WritesPastEnd(frm, frmLen, n, i))
  }

  /** What a turn that ends the loop leads to. */
  lemma HaltIs(le: bool, frm: seq<byte>, frmLen: nat, i: nat, p: Params)
    requires InFrame(frm, frmLen)
    ensures var t := Turn(le, frm, frmLen, i, p);
      && (t == Halt(Accepted(p)) <==> i + 2 >= frmLen)
      && (t.Halt? && t.d.Accepted? <==> i + 2 >= frmLen)
      && (t == Halt(Refused) <==> i + 2 < frmLen && KindOf(frm[i]) == Unknown)
      && (t == Halt(Astray) <==>
          && i + 2 < frmLen
          && var k := KindOf(frm[i]);
             k == PanKind || ReadsPastEnd(frm, i) || (Copied(k) && |p.Of(k)| >= Capacity(k)))
  {
    hide KindOf, Jump, FromWire;
  }

  /** A run that ends has a last turn, at a field the ones before lead to. */
  lemma {:induction false} LastTurn(le: bool, frm: seq<byte>, frmLen: nat, m: nat) returns (n: nat)
    requires InFrame(frm, frmLen) && Turns(le, frm, frmLen, 0, NO_PARAMS, m).Halt?
    ensures Turns(le, frm, frmLen, 0, NO_PARAMS, n).Move? && Turns(le, frm, frmLen, 0, NO_PARAMS, n + 1).Halt?
    decreases m
  {
    hide Turn;
    if Turns(le, frm, frmLen, 0, NO_PARAMS, m - 1).Halt? {
      n := LastTurn(le, frm, frmLen, m - 1);
    } else {
      n := m - 1;
    }
  }

  /** The outcome at a field the ones before lead to, if it is the last one. */
  lemma OutcomeAt(le: bool, frm: seq<byte>, frmLen: nat, n: nat)
    requires InFrame(frm, frmLen) && Walks(frm, frmLen, n)
    ensures Turns(le, frm, frmLen, 0, NO_PARAMS, n).Move?
    ensures var d := Decode(le, frm, frmLen, 0, NO_PARAMS);
      && (EndsAt(frm, frmLen, n) ==> d == Accepted(Turns(le, frm, frmLen, 0, NO_PARAMS, n).p))
      && (UnknownAt(frm, frmLen, n) ==> d == Refused)
      && (StraysAt(frm, frmLen, n) ==> d == Astray)
      && (EndsAt(frm, frmLen, n) || UnknownAt(frm, frmLen, n) || StraysAt(frm, frmLen, n) <==>
          Turns(le, frm, frmLen, 0, NO_PARAMS, n + 1).Halt?)
  {
    hide KindOf, Turn, Turns, Walks, Walk, Decode, Copies, ReadsPastEnd;
    TurnsIff(le, frm, frmLen, n);
    TurnsLast(le, frm, frmLen, 0, NO_PARAMS, n);
    var t := Turns(le, frm, frmLen, 0, NO_PARAMS, n);
    HaltIs(le, frm, frmLen, t.idx, t.p);
    if Turns(le, frm, frmLen, 0, NO_PARAMS, n + 1).Halt? { DecodeIs(le, frm, frmLen, 0, NO_PARAMS, n + 1); }
  }

  /**
    What get_tlvs returns for any frame. It returns TRUE just when the fields, all storable,
    lead to the end of the frame; FALSE just when storable fields lead to one of no known type;
    and it accesses memory out of bounds, or copies a PAN descriptor, just when storable
    fields lead to such a field. (Otherwise it never returns, as LoopsIff says.)
   */
  lemma OutcomeIff(le: bool, frm: seq<byte>, frmLen: nat)
    requires InFrame(frm, frmLen)
    ensures var d := Decode(le, frm, frmLen, 0, NO_PARAMS);
      && (d.Accepted? <==> exists n: nat :: EndsAt(frm, frmLen, n))
      && (d.Refused? <==> exists n: nat :: UnknownAt(frm, frmLen, n))
      && (d.Astray? <==> exists n: nat :: StraysAt(frm, frmLen, n))
  {
    hide EndsAt, UnknownAt, StraysAt, Turns, Walks, Decode;
    forall n: nat ensures EndsAt(frm, frmLen, n) || UnknownAt(frm, frmLen, n) || StraysAt(frm, frmLen, n)
      ==> Walks(frm, frmLen, n) { WalksFirst(frm, frmLen, n); }
    forall n: nat | Walks(frm, frmLen, n)
      ensures var d := Decode(le, frm, frmLen, 0, NO_PARAMS);
        && (EndsAt(frm, frmLen, n) ==> d.Accepted?)
        && (UnknownAt(frm, frmLen, n) ==> d.Refused?)
        && (StraysAt(frm, frmLen, n) ==> d.Astray?)
    {
      OutcomeAt(le, frm, frmLen, n);
    }
    if Decode(le, frm, frmLen, 0, NO_PARAMS) != Looping {
      var m := SomeHalt(le, frm, frmLen);
      var n := LastTurn(le, frm, frmLen, m);
      TurnsIff(le, frm, frmLen, n);
      OutcomeAt(le, frm, frmLen, n);
    }
  }

  lemma WalksFirst(frm: seq<byte>, frmLen: nat, n: nat)
    requires InFrame(frm, frmLen)
    ensures EndsAt(frm, frmLen, n) || UnknownAt(frm, frmLen, n) || StraysAt(frm, frmLen, n) ==> Walks(frm, frmLen, n)
  {
    hide Walks;
  }

  lemma SomeHalt(le: bool, frm: seq<byte>, frmLen: nat) returns (m: nat)
    requires InFrame(frm, frmLen) && Decode(le, frm, frmLen, 0, NO_PARAMS) != Looping
    ensures Turns(le, frm, frmLen, 0, NO_PARAMS, m).Halt?
  {
    m :| Turns(le, frm, frmLen, 0, NO_PARAMS, m).Halt?;
  }

  // ------------------------------------------------------------ what is stored

  /** The value of the field at i, as the host holds it. */
  function ValueAt(le: bool, frm: seq<byte>, i: nat): seq<byte>
    requires i < |frm| && i + 2 + SizeOf(KindOf(frm[i])) <= |frm|
  {
    FromWire(le, frm[i + 2..i + 2 + SizeOf(KindOf(frm[i]))])
  }

  /** The values of the first n fields of kind k, in order. */
  function Collected(le: bool, frm: seq<byte>, frmLen: nat, n: nat, k: Kind): seq<seq<byte>>
    requires InFrame(frm, frmLen)
  {
    if n == 0 then []
    else
      var i := Walk(frm, frmLen, 0, n - 1);
      Collected(le, frm, frmLen, n - 1, k)
        + if ReadableAt(frm, frmLen, i) && KindOf(frm[i]) == k then [ValueAt(le, frm, i)] else []
  }

  /** The index n of the last of the first n fields of kind k. */
  function LastPlace(frm: seq<byte>, frmLen: nat, n: nat, k: Kind): Option<nat>
    requires InFrame(frm, frmLen)
  {
    if n == 0 then None
    else
      var i := Walk(frm, frmLen, 0, n - 1);
      if i + 2 < frmLen && KindOf(frm[i]) == k then Some(i) else LastPlace(frm, frmLen, n - 1, k)
  }

  /** p holds what the first n fields say. */
  ghost predicate Gathered(le: bool, frm: seq<byte>, frmLen: nat, n: nat, p: Params)
    requires InFrame(frm, frmLen)
  {
    && (forall k | Copied(k) :: p.Of(k) == Collected(le, frm, frmLen, n, k))
    && p.sdu == ValueStart(LastPlace(frm, frmLen, n, SduKind))
    && p.list == ValueStart(LastPlace(frm, frmLen, n, ListKind))
    && p.listLength == LengthAt(frm, LastPlace(frm, frmLen, n, ListKind))
  }

  function ValueStart(place: Option<nat>): Option<nat> { if place.Some? then Some(place.value + 2) else None }

  function LengthAt(frm: seq<byte>, place: Option<nat>): nat {
    if place.Some? && place.value + 1 < |frm| then ToNat(frm[place.value + 1]) else 0
  }

  lemma MoveStores(le: bool, frm: seq<byte>, frmLen: nat, i: nat, p: Params)
    requires InFrame(frm, frmLen) && Turn(le, frm, frmLen, i, p).Move?
    ensures ReadableAt(frm, frmLen, i)
    ensures var q, here := Turn(le, frm, frmLen, i, p).p, KindOf(frm[i]);
      && (forall k | Copied(k) :: q.Of(k) == p.Of(k) + if here == k then [ValueAt(le, frm, i)] else [])
      && q.sdu == (if here == SduKind then Some(i + 2) else p.sdu)
      && q.list == (if here == ListKind then Some(i + 2) else p.list)
      && q.listLength == (if here == ListKind then ToNat(frm[i + 1]) else p.listLength)
  {
    hide KindOf, Jump, FromWire;
  }

  /** What an accepted frame gives: the values of its fields, kind by kind and in order, and the last SDU and list. */
  lemma {:induction false} AcceptedGives(le: bool, frm: seq<byte>, frmLen: nat, n: nat)
    requires InFrame(frm, frmLen) && EndsAt(frm, frmLen, n)
    ensures var d := Decode(le, frm, frmLen, 0, NO_PARAMS);
      d.Accepted? && Gathered(le, frm, frmLen, n, d.p)
  {
    hide Gathered, Walk, Walks, Turns, Decode, Copies;
    OutcomeAt(le, frm, frmLen, n);
    TurnsIff(le, frm, frmLen, n);
    TurnsGather(le, frm, frmLen, n);
  }

  lemma {:induction false} TurnsGather(le: bool, frm: seq<byte>, frmLen: nat, n: nat)
    requires InFrame(frm, frmLen) && Turns(le, frm, frmLen, 0, NO_PARAMS, n).Move?
    ensures Gathered(le, frm, frmLen, n, Turns(le, frm, frmLen, 0, NO_PARAMS, n).p)
    decreases n
  {
    hide KindOf, Turn, Turns, Walk, Walks, ReadableAt, ValueAt, Copies, Gathered, Collected, LastPlace;
    if n == 0 {
      NoTurn(le, frm, frmLen);
    } else {
      TurnsLast(le, frm, frmLen, 0, NO_PARAMS, n - 1);
      TurnsGather(le, frm, frmLen, n - 1);
      TurnsIff(le, frm, frmLen, n - 1);
      var t := Turns(le, frm, frmLen, 0, NO_PARAMS, n - 1);
      MoveStores(le, frm, frmLen, t.idx, t.p);
      GatheredNext(le, frm, frmLen, n - 1, t.p, Turn(le, frm, frmLen, t.idx, t.p).p);
    }
  }

  lemma NoTurn(le: bool, frm: seq<byte>, frmLen: nat)
    requires InFrame(frm, frmLen)
    ensures Turns(le, frm, frmLen, 0, NO_PARAMS, 0) == Move(0, NO_PARAMS) && Gathered(le, frm, frmLen, 0, NO_PARAMS)
  {}

  lemma GatheredNext(le: bool, frm: seq<byte>, frmLen: nat, n: nat, p: Params, q: Params)
    requires InFrame(frm, frmLen) && Gathered(le, frm, frmLen, n, p) && ReadableAt(frm, frmLen, Walk(frm, frmLen, 0, n))
    requires var i := Walk(frm, frmLen, 0, n);
      var here := KindOf(frm[i]);
      && (forall k | Copied(k) :: q.Of(k) == p.Of(k) + if here == k then [ValueAt(le, frm, i)] else [])
      && q.sdu == (if here == SduKind then Some(i + 2) else p.sdu)
      && q.list == (if here == ListKind then Some(i + 2) else p.list)
      && q.listLength == (if here == ListKind then ToNat(frm[i + 1]) else p.listLength)
    ensures Gathered(le, frm, frmLen, n + 1, q)
  {
    hide KindOf, ValueAt, Walk, FromWire, Collected, LastPlace, ReadableAt, ToNat;
    forall k | Copied(k) ensures q.Of(k) == Collected(le, frm, frmLen, n + 1, k) {
      CollectedNext(le, frm, frmLen, n, k);
    }
    LastPlaceNext(frm, frmLen, n, SduKind);
    LastPlaceNext(frm, frmLen, n, ListKind);
  }

  lemma CollectedNext(le: bool, frm: seq<byte>, frmLen: nat, n: nat, k: Kind)
    requires InFrame(frm, frmLen) && ReadableAt(frm, frmLen, Walk(frm, frmLen, 0, n))
    ensures var i := Walk(frm, frmLen, 0, n);
      Collected(le, frm, frmLen, n + 1, k) ==
        Collected(le, frm, frmLen, n, k) + if KindOf(frm[i]) == k then [ValueAt(le, frm, i)] else []
  {
    hide KindOf, ValueAt, Walk, FromWire;
  }

  lemma LastPlaceNext(frm: seq<byte>, frmLen: nat, n: nat, k: Kind)
    requires InFrame(frm, frmLen) && ReadableAt(frm, frmLen, Walk(frm, frmLen, 0, n))
    ensures var i := Walk(frm, frmLen, 0, n);
      && i + 2 < frmLen
      && LastPlace(frm, frmLen, n + 1, k) == if KindOf(frm[i]) == k then Some(i) else LastPlace(frm, frmLen, n, k)
  {
    hide KindOf, Walk;
  }
}
