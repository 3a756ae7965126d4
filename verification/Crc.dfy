/**
  The CRC that guards every bank image. `Update` is the table-free byte step of
  spiflash.c; the reference is the bit-serial reflected CRC with polynomial 0x8408
  (section C.2 of RFC 1662, started at 0 by the callers).
 */
module Crc {
  import opened MachineWords

  function Update(crc: word, data: byte): word {
    var d := data ^ Lo8(crc);
    var e := d ^ (d << 4);
    Combine(e as word, Hi8(crc) as word, (e >> 4) as word)
  }

  function Combine(e: word, hi: word, carry: word): word {
    ((e << 8) | hi) ^ carry ^ (e << 3)
  }

  /** What the callers' loops compute: the CRC register after a whole message. */
  function Fold(crc: word, s: seq<byte>): word {
    if s == [] then crc else Update(Fold(crc, s[..|s| - 1]), s[|s| - 1])
  }

  function Of(s: seq<byte>): word { Fold(0, s) }

  // ------------------------------------------------------------ reference

  /** One clock of the shift register on one message bit. */
  function BitStep(crc: word, bit: bool): word {
    if (crc & 1 == 1) != bit then (crc >> 1) ^ 0x8408 else crc >> 1
  }

  function BitSerial(crc: word, bits: seq<bool>): word
    decreases |bits|
  {
    if bits == [] then crc else BitSerial(BitStep(crc, bits[0]), bits[1..])
  }

  /** The low n bits of a byte, least significant first, as RFC 1662 transmits them. */
  function ByteBits(d: byte, n: nat): (bits: seq<bool>)
    ensures |bits| == n
  {
    if n == 0 then [] else [d & 1 == 1] + ByteBits(d >> 1, n - 1)
  }

  function MessageBits(s: seq<byte>): seq<bool> {
    if s == [] then [] else MessageBits(s[..|s| - 1]) + ByteBits(s[|s| - 1], 8)
  }

  // ------------------------------------------------------------ byte step

  function Mix(crc: word, data: byte): word { crc ^ (data as word) }

  /** A clock with message bit 0, and its inverse. */
  function Shift(c: word): word { BitStep(c, false) }

  function Unshift(c: word): word {
    if c & 0x8000 == 0x8000 then ((c ^ 0x8408) << 1) | 1 else c << 1
  }

  function Shifts(c: word, n: nat): word
    decreases n
  {
    if n == 0 then c else Shifts(Shift(c), n - 1)
  }

  function Drop(d: byte, n: nat): byte {
    if n == 0 then d else Drop(d >> 1, n - 1)
  }

  /** A clock without a branch: 0x8408 has bits 15, 10 and 3. */
  function Spread(c: word): word {
    (c >> 1) ^ ((c & 1) << 15) ^ ((c & 1) << 10) ^ ((c & 1) << 3)
  }

  lemma ShiftSpread(c: word)
    ensures Shift(c) == Spread(c)
  {
    var low := c & 1;
    if low != 1 { assert low == 0; }
  }

  lemma SpreadXor(a: word, b: word)
    ensures Spread(Xor(a, b)) == Xor(Spread(a), Spread(b))
  {}

  lemma ShiftXor(a: word, b: word)
    ensures Shift(Xor(a, b)) == Xor(Shift(a), Shift(b))
  {
    hide *;
    ShiftSpread(a);
    ShiftSpread(b);
    ShiftSpread(Xor(a, b));
    SpreadXor(a, b);
  }

  lemma ShiftInjective(c: word, c': word)
    requires Shift(c) == Shift(c')
    ensures c == c'
  {
    assert Unshift(Shift(c)) == c;
    assert Unshift(Shift(c')) == c';
  }

  lemma {:induction false} ShiftsInjective(c: word, c': word, n: nat)
    requires Shifts(c, n) == Shifts(c', n)
    ensures c == c'
    decreases n
  {
    if n > 0 {
      ShiftsInjective(Shift(c), Shift(c'), n - 1);
      ShiftInjective(c, c');
    }
  }

  lemma {:induction false} ShiftsAdd(c: word, m: nat, n: nat)
    ensures Shifts(c, m + n) == Shifts(Shifts(c, m), n)
    decreases m
  {
    hide Shift;
    if m > 0 { ShiftsAdd(Shift(c), m - 1, n); }
  }

  /** The register is linear over xor. */
  lemma {:induction false} ShiftsXor(a: word, b: word, n: nat)
    ensures Shifts(Xor(a, b), n) == Xor(Shifts(a, n), Shifts(b, n))
    decreases n
  {
    hide Shift, Xor;
    if n > 0 {
      ShiftXor(a, b);
      ShiftsXor(Shift(a), Shift(b), n - 1);
    }
  }

  predicate Odd(w: word) { w & 1 == 1 }

  function Half(w: word): word { w >> 1 }

  lemma LowBitOfMix(c: word, d: byte)
    ensures Odd(Mix(c, d)) <==> Odd(c) != (d & 1 == 1)
  {}

  lemma HalfOfMix(c: word, d: byte)
    ensures Half(Mix(c, d)) == Mix(Half(c), d >> 1)
  {
    hide Half, Xor, Mix;
    HalfOfXor(c, d as word);
    HalfOfByte(d);
    MixIsXor(c, d);
    MixIsXor(Half(c), d >> 1);
  }

  lemma MixIsXor(c: word, d: byte)
    ensures Mix(c, d) == Xor(c, d as word)
  {}

  lemma HalfOfXor(a: word, b: word)
    ensures Half(Xor(a, b)) == Xor(Half(a), Half(b))
  {}

  lemma HalfOfByte(d: byte)
    ensures (d >> 1) as word == Half(d as word)
  {}

  lemma MixOfXor(a: word, d: byte, k: word)
    ensures Xor(Mix(a, d), k) == Mix(Xor(a, k), d)
  {
    hide Mix, Xor;
    MixIsXor(a, d);
    MixIsXor(Xor(a, k), d);
    XorSwapped(a, d as word, k);
  }

  lemma StepByHalf(c: word, bit: bool)
    ensures BitStep(c, bit) == if Odd(c) != bit then Xor(Half(c), 0x8408) else Half(c)
  {}

  lemma StepIsShift(c: word, d: byte)
    ensures Shift(Mix(c, d)) == Mix(BitStep(c, d & 1 == 1), d >> 1)
  {
    hide Mix, Odd, Half, Xor, BitStep;
    StepByHalf(Mix(c, d), false);
    StepByHalf(c, d & 1 == 1);
    LowBitOfMix(c, d);
    HalfOfMix(c, d);
    MixOfXor(Half(c), d >> 1, 0x8408);
  }

  /** Clocking in message bits one by one is xoring them in first and clocking zeros. */
  lemma {:induction false} SerialIsShifts(c: word, d: byte, n: nat)
    ensures Shifts(Mix(c, d), n) == Mix(BitSerial(c, ByteBits(d, n)), Drop(d, n))
    decreases n
  {
    hide Shift, BitStep, Mix;
    if n > 0 {
      StepIsShift(c, d);
      SerialIsShifts(BitStep(c, d & 1 == 1), d >> 1, n - 1);
      assert ByteBits(d, n)[1..] == ByteBits(d >> 1, n - 1);
    }
  }

  function Nibble(x: word): word {
    (x >> 4) ^ (x & 15) ^ ((x & 15) << 7) ^ ((x & 15) << 12)
  }

  lemma FourShifts(c: word)
    ensures Shifts(c, 4) == Nibble(c)
  {
    assert Shifts(c, 4) == Shift(Shift(Shift(Shift(c)))) by {
      hide Shift;
      var d := Shift(c);
      var e := Shift(d);
      assert Shifts(e, 2) == Shifts(Shift(e), 1) == Shift(Shift(e));
      assert Shifts(c, 4) == Shifts(d, 3) == Shifts(e, 2);
    }
    assert Shift(Shift(Shift(Shift(c)))) == Nibble(c);
  }

  function LowHalf(x: word): word { x & 0xFF }

  function HighHalf(x: word): word { x >> 8 }

  function Quarter(x: word): word { x >> 4 }

  function QuarterByte(d: byte): byte { d >> 4 }

  /** The byte with its low nibble xored into the high one; the same in the low half of a word. */
  function SpreadByte(d: byte): byte { d ^ (d << 4) }

  function SpreadWord(w: word): word { (w ^ (w << 4)) & 0xFF }

  /** Update in words only, from the register with the data byte already mixed in. */
  function UpdateMixed(x: word): word {
    var f := SpreadWord(LowHalf(x));
    Combine(f, HighHalf(x), Quarter(f))
  }

  lemma UpdateInWords(crc: word, data: byte)
    ensures Update(crc, data) == UpdateMixed(Mix(crc, data))
  {
    hide *;
    var x := Mix(crc, data);
    var d := data ^ Lo8(crc);
    UpdateIs(crc, data);
    UpdateMixedIs(x);
    HalvesOfMix(crc, data);
    SpreadInWord(d);
    QuarterInWord(SpreadByte(d));
  }

  lemma UpdateIs(crc: word, data: byte)
    ensures var e := SpreadByte(data ^ Lo8(crc));
      Update(crc, data) == Combine(e as word, Hi8(crc) as word, QuarterByte(e) as word)
  {
    hide Combine, Lo8, Hi8;
  }

  lemma UpdateMixedIs(x: word)
    ensures UpdateMixed(x) == Combine(SpreadWord(LowHalf(x)), HighHalf(x), Quarter(SpreadWord(LowHalf(x))))
  {
    hide Combine, SpreadWord, LowHalf, HighHalf, Quarter;
  }

  lemma HalvesOfMix(crc: word, data: byte)
    ensures (data ^ Lo8(crc)) as word == LowHalf(Mix(crc, data))
    ensures Hi8(crc) as word == HighHalf(Mix(crc, data))
  {}

  lemma SpreadInWord(d: byte)
    ensures SpreadByte(d) as word == SpreadWord(d as word)
  {}

  lemma QuarterInWord(d: byte)
    ensures QuarterByte(d) as word == Quarter(d as word)
  {}

  lemma MixedIsNibbles(x: word)
    ensures UpdateMixed(x) == Nibble(Nibble(x))
  {}

  lemma UpdateIsEightShifts(crc: word, data: byte)
    ensures Update(crc, data) == Shifts(Mix(crc, data), 8)
  {
    hide *;
    var x := Mix(crc, data);
    ShiftsAdd(x, 4, 4);
    FourShifts(x);
    FourShifts(Nibble(x));
    UpdateInWords(crc, data);
    MixedIsNibbles(x);
  }

  lemma UpdateIsBitSerial(crc: word, data: byte)
    ensures Update(crc, data) == BitSerial(crc, ByteBits(data, 8))
  {
    hide *;
    UpdateIsEightShifts(crc, data);
    SerialIsShifts(crc, data, 8);
    EightDropsClear(data);
    MixZero(BitSerial(crc, ByteBits(data, 8)));
  }

  lemma MixZero(w: word)
    ensures Mix(w, 0) == w
  {}

  lemma EightDropsClear(d: byte)
    ensures Drop(d, 8) == 0
  {
    DropTwo(d, 6);
    DropTwo(d >> 2, 4);
    DropTwo((d >> 2) >> 2, 2);
    DropTwo(((d >> 2) >> 2) >> 2, 0);
    assert ((((d >> 2) >> 2) >> 2) >> 2) == 0;
  }

  lemma DropTwo(d: byte, n: nat)
    ensures Drop(d, n + 2) == Drop(d >> 2, n)
  {
    assert (d >> 1) >> 1 == d >> 2;
    assert Drop(d, n + 2) == Drop(d >> 1, n + 1) == Drop((d >> 1) >> 1, n);
  }

  lemma {:induction false} BitSerialConcat(crc: word, a: seq<bool>, b: seq<bool>)
    ensures BitSerial(crc, a + b) == BitSerial(BitSerial(crc, a), b)
    decreases |a|
  {
    if a == [] {
      assert a + b == b;
    } else {
      assert (a + b)[1..] == a[1..] + b;
      BitSerialConcat(BitStep(crc, a[0]), a[1..], b);
    }
  }

  /** The fast byte-wise CRC of any message is the bit-serial CRC of its bits. */
  lemma {:induction false} FoldIsBitSerial(crc: word, s: seq<byte>)
    ensures Fold(crc, s) == BitSerial(crc, MessageBits(s))
  {
    hide Update, BitStep, ByteBits;
    if s != [] {
      var t := s[..|s| - 1];
      FoldIsBitSerial(crc, t);
      BitSerialConcat(crc, MessageBits(t), ByteBits(s[|s| - 1], 8));
      UpdateIsBitSerial(Fold(crc, t), s[|s| - 1]);
    }
  }

  // ------------------------------------------------------------ error detection

  lemma UpdateInjective(c: word, c': word, d: byte, d': byte)
    requires Update(c, d) == Update(c', d')
    ensures d == d' ==> c == c'
    ensures c == c' ==> d == d'
  {
    hide *;
    UpdateIsEightShifts(c, d);
    UpdateIsEightShifts(c', d');
    ShiftsInjective(Mix(c, d), Mix(c', d'), 8);
    MixSides(c, c', d, d');
  }

  lemma MixSides(c: word, c': word, d: byte, d': byte)
    requires Mix(c, d) == Mix(c', d')
    ensures d == d' ==> c == c'
    ensures c == c' ==> d == d'
  {}

  /** The high byte is clear. */
  predicate LowOnly(w: word) { w & 0xFF00 == 0 }

  /** A difference confined to the low byte never stays in the low byte after a byte step. */
  lemma LowByteLeaves(v: word)
    requires LowOnly(v) && LowOnly(Shifts(v, 8))
    ensures v == 0
  {
    hide *;
    ShiftsAdd(v, 4, 4);
    FourShifts(v);
    FourShifts(Nibble(v));
    LowByteNibbles(v);
  }

  lemma LowByteNibbles(v: word)
    requires LowOnly(v) && LowOnly(Nibble(Nibble(v)))
    ensures v == 0
  {}

  lemma MixDifference(y: word, y': word, b: byte, b': byte)
    requires Mix(y, b) == Mix(y', b')
    ensures LowOnly(Xor(y, y'))
  {}

  lemma MixCancels(c: word, a: byte, a': byte)
    ensures LowOnly(Xor(Mix(c, a), Mix(c, a')))
    ensures Xor(Mix(c, a), Mix(c, a')) == 0 ==> a == a'
  {}

  lemma TwoBytesInjective(c: word, a: byte, b: byte, a': byte, b': byte)
    requires Update(Update(c, a), b) == Update(Update(c, a'), b')
    ensures a == a' && b == b'
  {
    hide *;
    var x, x' := Mix(c, a), Mix(c, a');
    var y, y' := Update(c, a), Update(c, a');
    UpdateIsEightShifts(c, a);
    UpdateIsEightShifts(c, a');
    UpdateIsEightShifts(y, b);
    UpdateIsEightShifts(y', b');
    ShiftsInjective(Mix(y, b), Mix(y', b'), 8);
    MixDifference(y, y', b, b');
    ShiftsXor(x, x', 8);
    MixCancels(c, a, a');
    LowByteLeaves(Xor(x, x'));
    MixSides(y, y', b, b');
  }

  /** s and t differ at most at positions i and i + 1. */
  ghost predicate DifferWithin(s: seq<byte>, t: seq<byte>, i: nat) {
    |s| == |t| && forall k | 0 <= k < |s| && k != i && k != i + 1 :: s[k] == t[k]
  }

  /** Any change confined to two neighbouring bytes changes the CRC, whatever the length. */
  lemma {:induction false} BurstChangesCrc(crc: word, s: seq<byte>, t: seq<byte>, i: nat)
    requires DifferWithin(s, t, i) && s != t
    ensures Fold(crc, s) != Fold(crc, t)
  {
    hide Fold, DifferWithin;
    var n := |s| - 1;
    DifferInFront(s, t, i);
    FoldLast(crc, s);
    FoldLast(crc, t);
    if Fold(crc, s) == Fold(crc, t) {
      UpdateInjective(Fold(crc, s[..n]), Fold(crc, t[..n]), s[n], t[n]);
      if i + 1 < n {
        BurstChangesCrc(crc, s[..n], t[..n], i);
      } else if i + 1 == n {
        LastTwoEqual(crc, s, t);
      }
    }
  }

  lemma FoldLast(crc: word, s: seq<byte>)
    requires s != []
    ensures Fold(crc, s) == Update(Fold(crc, s[..|s| - 1]), s[|s| - 1])
  {
    hide Update;
  }

  /** How messages that differ within two neighbouring bytes differ without their last byte. */
  lemma DifferInFront(s: seq<byte>, t: seq<byte>, i: nat)
    requires DifferWithin(s, t, i) && s != t
    ensures |s| == |t| > 0
    ensures var n := |s| - 1;
      && (i + 1 < n ==> s[n] == t[n] && s[..n] != t[..n] && DifferWithin(s[..n], t[..n], i))
      && (i + 1 == n ==> s[..n - 1] == t[..n - 1])
      && (i + 1 > n ==> s[..n] == t[..n] && s[n] != t[n])
  {
    var n := |s| - 1;
    assert s == s[..n] + [s[n]] && t == t[..n] + [t[n]];
  }

  lemma LastTwoEqual(crc: word, s: seq<byte>, t: seq<byte>)
    requires |s| == |t| >= 2 && s[..|s| - 2] == t[..|s| - 2]
    requires Fold(crc, s) == Fold(crc, t)
    ensures s == t
  {
    hide Update;
    var n := |s| - 1;
    var p := s[..n - 1];
    assert s[..n][..n - 1] == p && t[..n][..n - 1] == p;
    TwoBytesInjective(Fold(crc, p), s[n - 1], s[n], t[n - 1], t[n]);
    assert s == p + [s[n - 1], s[n]] && t == p + [t[n - 1], t[n]];
  }
}
