/**
  The MAC-SAP frame checksum of mac_intf_common.c: the xor of the frame's 16-bit words as
  the host's memory holds them, a last odd byte counting as a number, appended in host order.
 */
module FrameChecksum {
  import opened MachineWords
  import opened MacInterface

  const MAC_IF_CRC_LENGTH: nat := 2

  function Zero(): word { 0 }

  /** A byte assigned to a u16. */
  function Widen(b: byte): word { b as word }

  /** memcpy of two bytes into a u16, and back. */
  function LoadWord(le: bool, b0: byte, b1: byte): word {
    if le then Join(b1, b0) else Join(b0, b1)
  }

  function StoreWord(le: bool, w: word): seq<byte> {
    if le then [Lo8(w), Hi8(w)] else [Hi8(w), Lo8(w)]
  }

  /** The xor of the first n words of the frame. */
  function Words(le: bool, s: seq<byte>, n: nat): word
    requires 2 * n <= |s|
  {
    if n == 0 then Zero() else Xor(LoadWord(le, s[2 * n - 2], s[2 * n - 1]), Words(le, s, n - 1))
  }

  function Checksum(le: bool, s: seq<byte>): word {
    var words := Words(le, s, |s| / 2);
    if |s| % 2 == 0 then words else Xor(Widen(s[|s| - 1]), words)
  }

  /** zmac_hostIf_set_crc: the frame with its checksum behind it. */
  function Sealed(le: bool, s: seq<byte>): (t: seq<byte>)
    ensures |t| == |s| + 2
  {
    s + StoreWord(le, Checksum(le, s))
  }

  /** zmac_hostIf_verify_crc */
  predicate Verifies(le: bool, t: seq<byte>)
    requires |t| >= 2
  {
    Checksum(le, t[..|t| - 2]) == LoadWord(le, t[|t| - 2], t[|t| - 1])
  }

  // ------------------------------------------------------------ word facts

  lemma XorTwice(a: word, b: word)
    ensures Xor(a, Xor(a, b)) == b
  {}

  lemma XorCancels(a: word, b: word, c: word)
    ensures Xor(a, b) == Xor(a, c) <==> b == c
    ensures Xor(b, a) == Xor(c, a) <==> b == c
  {
    hide Xor;
    XorTwice(a, b);
    XorTwice(a, c);
    XorCommutes(a, b);
    XorCommutes(a, c);
  }

  lemma WidenInjective(a: byte, b: byte)
    requires Widen(a) == Widen(b)
    ensures a == b
  {}

  lemma LoadStored(le: bool, w: word)
    ensures var s := StoreWord(le, w); |s| == 2 && LoadWord(le, s[0], s[1]) == w
  {
    JoinHalves(w, 0, 0);
  }

  lemma LoadInjective(le: bool, a: byte, b: byte, c: byte, d: byte)
    requires LoadWord(le, a, b) == LoadWord(le, c, d)
    ensures a == c && b == d
  {
    hide Join;
    JoinHalves(0, a, b);
    JoinHalves(0, b, a);
    JoinHalves(0, c, d);
    JoinHalves(0, d, c);
  }

  // ------------------------------------------------------------ what the checksum is

  /** Nothing sums to zero, and one byte to itself as a number. */
  lemma ChecksumOfFew(le: bool, b: byte)
    ensures Checksum(le, []) == 0 && Checksum(le, [b]) == b as word
  {
    assert Words(le, [b], 0) == 0;
  }

  /** Two bytes sum to the word they are in the host's memory. */
  lemma ChecksumOfWord(le: bool, b0: byte, b1: byte)
    ensures Checksum(le, [b0, b1]) == if le then ((b1 as word) << 8) | b0 as word else ((b0 as word) << 8) | b1 as word
  {
    hide Join, Xor;
    var s := [b0, b1];
    assert Words(le, s, 1) == Xor(LoadWord(le, s[0], s[1]), Words(le, s, 0));
    XorZero(LoadWord(le, b0, b1));
    JoinIs(b0, b1);
    JoinIs(b1, b0);
  }

  /** The checksum of two parts is the xor of theirs, if the first has whole words. */
  lemma ChecksumOfParts(le: bool, s: seq<byte>, t: seq<byte>)
    requires |s| % 2 == 0
    ensures Checksum(le, s + t) == Checksum(le, s) ^ Checksum(le, t)
  {
    hide Xor, Checksum;
    PartsXor(le, s, t);
    XorIs(Checksum(le, s), Checksum(le, t));
  }

  lemma PartsXor(le: bool, s: seq<byte>, t: seq<byte>)
    requires |s| % 2 == 0
    ensures Checksum(le, s + t) == Xor(Checksum(le, s), Checksum(le, t))
  {
    hide Xor, Widen, Words;
    var m, n := |s| / 2, |t| / 2;
    assert |s + t| / 2 == m + n && |s + t| % 2 == |t| % 2;
    WordsOfParts(le, s, t, n);
    if |t| % 2 == 1 {
      assert (s + t)[|s + t| - 1] == t[|t| - 1];
      XorJoins(Widen(t[|t| - 1]), Words(le, s, m), Words(le, t, n));
    }
  }

  lemma {:induction false} WordsOfParts(le: bool, s: seq<byte>, t: seq<byte>, n: nat)
    requires |s| % 2 == 0 && 2 * n <= |t|
    ensures Words(le, s + t, |s| / 2 + n) == Xor(Words(le, s, |s| / 2), Words(le, t, n))
  {
    hide Xor, LoadWord;
    var m := |s| / 2;
    if n == 0 {
      XorZero(Words(le, s, m));
      WordsOfPrefix(le, s, t, m);
    } else {
      WordsOfParts(le, s, t, n - 1);
      var w := LoadWord(le, t[2 * n - 2], t[2 * n - 1]);
      assert (s + t)[2 * (m + n) - 2] == t[2 * n - 2] && (s + t)[2 * (m + n) - 1] == t[2 * n - 1];
      XorJoins(w, Words(le, s, m), Words(le, t, n - 1));
    }
  }

  lemma {:induction false} WordsOfPrefix(le: bool, s: seq<byte>, t: seq<byte>, n: nat)
    requires 2 * n <= |s|
    ensures Words(le, s + t, n) == Words(le, s, n)
  {
    hide Xor, LoadWord;
    if n > 0 { WordsOfPrefix(le, s, t, n - 1); }
  }

  /** The words of a sealed frame of even length cancel out. */
  lemma SealedIsZero(le: bool, s: seq<byte>)
    requires |s| % 2 == 0
    ensures Checksum(le, Sealed(le, s)) == 0
  {
    hide Checksum, LoadWord, StoreWord;
    var w := Checksum(le, s);
    var c := StoreWord(le, w);
    ChecksumOfParts(le, s, c);
    LoadStored(le, w);
    assert c == [c[0], c[1]];
    WordIsLoaded(le, c[0], c[1]);
    XorZero(w);
    XorIs(w, w);
  }

  lemma WordIsLoaded(le: bool, b0: byte, b1: byte)
    ensures Checksum(le, [b0, b1]) == LoadWord(le, b0, b1)
  {
    hide Xor, Checksum, Join;
    ChecksumOfWord(le, b0, b1);
    JoinIs(b0, b1);
    JoinIs(b1, b0);
  }

  // ------------------------------------------------------------ acceptance

  /** What set_crc produced, verify_crc accepts, for frames of even and odd length. */
  lemma SealedVerifies(le: bool, s: seq<byte>)
    ensures Verifies(le, Sealed(le, s))
  {
    hide LoadWord, StoreWord, Checksum;
    LoadStored(le, Checksum(le, s));
    assert Sealed(le, s)[..|s|] == s;
  }

  // ------------------------------------------------------------ detection

  /** The words of s and t agree, except possibly word k. */
  ghost predicate AgreeBut(s: seq<byte>, t: seq<byte>, k: nat) {
    |s| == |t| && forall i | 0 <= i < |s| && i != 2 * k && i != 2 * k + 1 :: s[i] == t[i]
  }

  lemma {:induction false} WordsDiffer(le: bool, s: seq<byte>, t: seq<byte>, n: nat, k: nat)
    requires AgreeBut(s, t, k) && 2 * n <= |s|
    ensures Words(le, s, n) == Words(le, t, n) <==>
      (k < n ==> s[2 * k] == t[2 * k] && s[2 * k + 1] == t[2 * k + 1])
  {
    hide Xor, LoadWord;
    if n > 0 {
      WordsDiffer(le, s, t, n - 1, k);
      var a, b := LoadWord(le, s[2 * n - 2], s[2 * n - 1]), LoadWord(le, t[2 * n - 2], t[2 * n - 1]);
      var x, y := Words(le, s, n - 1), Words(le, t, n - 1);
      XorCancels(a, x, y);
      XorCancels(b, x, y);
      XorCancels(x, a, b);
      if a == b {
        LoadInjective(le, s[2 * n - 2], s[2 * n - 1], t[2 * n - 2], t[2 * n - 1]);
      }
    }
  }

  /** A change confined to one aligned word, or to the odd last byte, changes the checksum. */
  lemma ChecksumDiffers(le: bool, s: seq<byte>, t: seq<byte>, k: nat)
    requires AgreeBut(s, t, k) && s != t
    ensures Checksum(le, s) != Checksum(le, t)
  {
    hide Xor, LoadWord, Widen, Words;
    var n := |s| / 2;
    WordsDiffer(le, s, t, n, k);
    var x, y := Words(le, s, n), Words(le, t, n);
    if |s| % 2 == 1 {
      var a, b := Widen(s[|s| - 1]), Widen(t[|s| - 1]);
      XorCancels(a, x, y);
      XorCancels(x, a, b);
      if k < n {
        assert s[|s| - 1] == t[|s| - 1];
        assert !(s[2 * k] == t[2 * k] && s[2 * k + 1] == t[2 * k + 1]);
      } else {
        assert x == y;
        assert s[|s| - 1] != t[|s| - 1];
        if a == b { WidenInjective(s[|s| - 1], t[|s| - 1]); }
      }
    } else {
      assert k < n && !(s[2 * k] == t[2 * k] && s[2 * k + 1] == t[2 * k + 1]);
    }
  }

  /** verify_crc rejects any change confined to one aligned word of the payload. */
  lemma PayloadChangeRejected(le: bool, s: seq<byte>, t: seq<byte>, k: nat)
    requires AgreeBut(s, t, k) && s != t
    ensures !Verifies(le, t + StoreWord(le, Checksum(le, s)))
  {
    hide LoadWord, StoreWord, Checksum;
    LoadStored(le, Checksum(le, s));
    var sent := t + StoreWord(le, Checksum(le, s));
    assert sent[..|t|] == t;
    ChecksumDiffers(le, s, t, k);
  }

  /** And any change confined to the checksum. */
  lemma ChecksumChangeRejected(le: bool, s: seq<byte>, c0: byte, c1: byte)
    requires [c0, c1] != StoreWord(le, Checksum(le, s))
    ensures !Verifies(le, s + [c0, c1])
  {
    hide LoadWord, Checksum;
    var w := Checksum(le, s);
    LoadStored(le, w);
    assert (s + [c0, c1])[..|s|] == s;
    if LoadWord(le, c0, c1) == w {
      var st := StoreWord(le, w);
      LoadInjective(le, c0, c1, st[0], st[1]);
    }
  }

  // ------------------------------------------------------------ hosts of either byte order

  function Swap(w: word): word { Join(Lo8(w), Hi8(w)) }

  lemma SwapOfXor(a: word, b: word)
    ensures Swap(Xor(a, b)) == Xor(Swap(a), Swap(b))
  {}

  lemma SwapOfZero()
    ensures Swap(Zero()) == Zero()
  {}

  lemma SwapOfLoad(le: bool, x: byte, y: byte)
    ensures Swap(LoadWord(le, x, y)) == LoadWord(!le, x, y)
  {
    hide Join;
    JoinHalves(0, x, y);
    JoinHalves(0, y, x);
  }

  lemma SwapOfWiden(b: byte)
    ensures Swap(Widen(b)) == Widen(b) <==> b == 0
  {}

  lemma {:induction false} WordsSwap(le: bool, s: seq<byte>, n: nat)
    requires 2 * n <= |s|
    ensures Words(!le, s, n) == Swap(Words(le, s, n))
  {
    hide Xor, LoadWord, Swap, Zero;
    SwapOfZero();
    if n > 0 {
      WordsSwap(le, s, n - 1);
      SwapOfXor(LoadWord(le, s[2 * n - 2], s[2 * n - 1]), Words(le, s, n - 1));
      SwapOfLoad(le, s[2 * n - 2], s[2 * n - 1]);
    }
  }

  lemma LoadOther(le: bool, w: word)
    ensures var s := StoreWord(le, w); LoadWord(!le, s[0], s[1]) == Swap(w)
  {}

  /**
    A frame sealed by a host of one byte order verifies on a host of the other just when its
    length is even or its last byte is zero.
   */
  lemma OtherHostVerifiesIff(le: bool, s: seq<byte>)
    ensures Verifies(!le, Sealed(le, s)) <==> |s| % 2 == 0 || s[|s| - 1] == 0
  {
    hide Xor, LoadWord, StoreWord, Swap, Widen, Words;
    var n := |s| / 2;
    var x := Words(le, s, n);
    var t := Sealed(le, s);
    assert t[..|s|] == s;
    LoadOther(le, Checksum(le, s));
    assert t[|s|] == StoreWord(le, Checksum(le, s))[0] && t[|s| + 1] == StoreWord(le, Checksum(le, s))[1];
    WordsSwap(le, s, n);
    if |s| % 2 == 1 {
      var a := Widen(s[|s| - 1]);
      SwapOfXor(a, x);
      XorCancels(Swap(x), a, Swap(a));
      SwapOfWiden(s[|s| - 1]);
    }
  }

  // ------------------------------------------------------------ the loops

  /** zmac_hostIf_get_crc; its u8 loop index needs the frame to fit the buffer. */
  method GetCrc(le: bool, frm: seq<byte>, frmLen: nat) returns (crc: word)
    requires frmLen <= |frm| && frmLen <= MAX_MAC_IF_FRAME_LENGTH
    ensures crc == Checksum(le, frm[..frmLen])
  {
    hide Xor, LoadWord, Widen, Zero;
    ghost var s := frm[..frmLen];
    var isEven := frmLen % 2 == 0;
    var limit := if isEven then frmLen else frmLen - 1;
    var i := 0;
    crc := Zero();
    while i < limit
      invariant 0 <= i <= limit && i % 2 == 0 && crc == Words(le, s, i / 2)
    {
      var tb := LoadWord(le, frm[i], frm[i + 1]);
      assert s[i] == frm[i] && s[i + 1] == frm[i + 1];
      assert (i + 2) / 2 == i / 2 + 1 && 2 * ((i + 2) / 2) == i + 2;
      crc := Xor(tb, crc);
      i := i + 2;
    }
    if !isEven {
      var tb := Widen(frm[frmLen - 1]);
      crc := Xor(tb, crc);
    }
  }

  /** zmac_hostIf_set_crc on a frame buffer with room for the checksum. */
  method SetCrc(le: bool, buf: array<byte>, len: nat) returns (len': nat)
    requires len + MAC_IF_CRC_LENGTH <= buf.Length <= MAX_MAC_IF_FRAME_LENGTH
    modifies buf
    ensures len' == len + MAC_IF_CRC_LENGTH
    ensures buf[..len'] == Sealed(le, old(buf[..len])) && buf[len'..] == old(buf[len'..])
  {
    hide Checksum, StoreWord;
    ghost var s := buf[..len];
    var crc := GetCrc(le, buf[..len], len);
    assert buf[..len][..len] == s;
    var bytes := StoreWord(le, crc);
    LoadStored(le, crc);
    buf[len] := bytes[0];
    buf[len + 1] := bytes[1];
    len' := len + MAC_IF_CRC_LENGTH;
    assert buf[..len'] == s + bytes;
  }

  /** zmac_hostIf_verify_crc */
  method VerifyCrc(le: bool, frm: seq<byte>, frmLen: nat) returns (ok: bool)
    requires MAC_IF_CRC_LENGTH <= frmLen <= |frm| && frmLen <= MAX_MAC_IF_FRAME_LENGTH
    ensures ok <==> Verifies(le, frm[..frmLen])
  {
    hide Checksum, LoadWord;
    var crc := GetCrc(le, frm, frmLen - MAC_IF_CRC_LENGTH);
    assert frm[..frmLen][..frmLen - 2] == frm[..frmLen - 2];
    ok := crc == LoadWord(le, frm[frmLen - 2], frm[frmLen - 1]);
  }
}
