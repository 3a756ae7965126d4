/** Bytes and 16-bit words of the 8051 boot loader. */
module MachineWords {

  type byte = bv8
  type word = bv16

  const BLANK: byte := 0xFF

  function ToNat(b: byte): (n: nat)
    ensures n < 256
  {
    b as nat
  }

  /** The byte of value n, from its binary digits. */
  function FromNat(n: nat): (b: byte)
    requires n < 256
    ensures ToNat(b) == n
  {
    if n == 0 then ZeroByte(); 0
    else
      var half := FromNat(n / 2);
      TwiceByte(half);
      if n % 2 == 0 then half << 1 else (half << 1) | 1
  }

  lemma ZeroByte()
    ensures ToNat(0) == 0
  {}

  lemma TwiceByte(b: byte)
    ensures ToNat(b) < 128 ==> ToNat(b << 1) == 2 * ToNat(b) && ToNat((b << 1) | 1) == 2 * ToNat(b) + 1
  {}

  function Lo8(w: word): byte { (w & 0xFF) as byte }

  function Hi8(w: word): byte { ((w >> 8) & 0xFF) as byte }

  /** Exclusive or, named so that proofs can treat it as a symbol. */
  function Xor(a: word, b: word): word { a ^ b }

  lemma XorIs(a: word, b: word)
    ensures Xor(a, b) == a ^ b
  {}

  lemma XorCommutes(a: word, b: word)
    ensures Xor(a, b) == Xor(b, a)
  {}

  lemma XorSwapped(a: word, m: word, k: word)
    ensures Xor(Xor(a, m), k) == Xor(Xor(a, k), m)
  {}

  lemma XorJoins(a: word, b: word, c: word)
    ensures Xor(a, Xor(b, c)) == Xor(Xor(a, b), c) == Xor(b, Xor(a, c))
  {
    hide Xor;
    XorCommutes(a, Xor(b, c));
    XorCommutes(b, Xor(a, c));
    XorCommutes(a, b);
    XorSwapped(b, c, a);
    XorSwapped(a, c, b);
  }

  lemma XorZero(w: word)
    ensures Xor(w, 0) == w && Xor(0, w) == w && Xor(w, w) == 0
  {}

  /** The two halves of a word determine it. */
  lemma HalvesDetermine(v: word, w: word)
    requires Lo8(v) == Lo8(w) && Hi8(v) == Hi8(w)
    ensures v == w
  {
    JoinHalves(v, 0, 0);
    JoinHalves(w, 0, 0);
  }

  /** The word of a high and a low byte. */
  function Join(high: byte, low: byte): word { ((high as word) << 8) | (low as word) }

  lemma JoinHalves(w: word, a: byte, b: byte)
    ensures Join(Hi8(w), Lo8(w)) == w
    ensures Hi8(Join(a, b)) == a && Lo8(Join(a, b)) == b
  {}

  lemma JoinIs(high: byte, low: byte)
    ensures Join(high, low) == ((high as word) << 8) | low as word
  {}
}
