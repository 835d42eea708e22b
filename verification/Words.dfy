/** Machine words: 32-bit registers, the bytes of a buffer, and the exclusive-or
    algebra the checksum proofs are built from. */
module Words {
  type Byte = bv8
  type Word = bv32

  /** Exclusive or, named so that a proof can use its laws without its bits. */
  function Xor(a: Word, b: Word): Word { a ^ b }

  function Wide(b: Byte): Word { b as Word }

  /** Addition and multiplication modulo 2^32. */
  function Add(a: Word, b: Word): Word { a + b }

  function Mul(a: Word, b: Word): Word { a * b }

  function Bit(b: bool): Word { if b then 1 else 0 }

  lemma XorLaws(a: Word, b: Word, c: Word)
    ensures Xor(Xor(a, b), c) == Xor(a, Xor(b, c))
    ensures Xor(a, b) == Xor(b, a)
    ensures Xor(Xor(a, b), b) == a
    ensures Xor(a, 0) == a && Xor(a, a) == 0
  {}

  lemma XorZero(x: Word, y: Word)
    ensures Xor(x, y) == 0 <==> x == y
  {
    hide *;
    XorLaws(x, y, 0);
    XorLaws(0, y, 0);
    XorLaws(y, 0, 0);
    XorLaws(x, x, 0);
  }

  lemma XorSwap(a: Word, b: Word, p: Word)
    ensures Xor(Xor(a, b), p) == Xor(Xor(a, p), b)
    ensures Xor(a, Xor(b, p)) == Xor(Xor(a, b), p)
  {
    hide *;
    XorLaws(a, b, p);
    XorLaws(a, p, b);
    XorLaws(b, p, a);
  }

  /** A summand on both sides cancels. */
  lemma XorCancel(a: Word, b: Word, p: Word)
    ensures Xor(Xor(a, p), Xor(b, p)) == Xor(a, b)
  {
    hide *;
    XorSwap(a, p, Xor(b, p));
    XorSwap(Xor(a, p), b, p);
    XorSwap(a, p, b);
    XorLaws(Xor(a, b), p, p);
  }

  lemma NotAbove(v: nat)
    requires v < 256
    ensures (v as bv8) as nat <= v
  {}

  lemma NotBelow(v: nat)
    requires v < 256
    ensures (v as bv8) as nat >= v
  {}

  lemma NotAboveWord(k: nat)
    requires k < 32
    ensures (k as bv32) as nat <= k && (k as bv32) < 32
  {}

  lemma NotBelowWord(k: nat)
    requires k < 32
    ensures (k as bv32) as nat >= k
  {}

  /** A number small enough survives the round trip through a machine word. */
  lemma NarrowByte(v: nat)
    requires v < 256
    ensures (v as Byte) as nat == v
  {
    NotAbove(v);
    NotBelow(v);
  }

  lemma NarrowWord(k: nat)
    requires k < 32
    ensures (k as Word) as nat == k && (k as Word) < 32
  {
    NotAboveWord(k);
    NotBelowWord(k);
  }
}
