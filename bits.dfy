/** Machine bytes and words, on integers.  Exclusive or and and are defined one bit
    at a time, least significant bit first; the lemmas below are the algebra the
    cipher proofs rely on, each proved from those definitions. */
module Bits {

  /** An AVR register or a memory byte. */
  type byte = x: int | 0 <= x < 256
  /** An MSP430 register. */
  type word = x: int | 0 <= x < 65536

  /** Bitwise exclusive or. */
  function Xor(a: nat, b: nat): nat
    decreases a + b
  {
    if a == 0 && b == 0 then 0 else 2 * Xor(a / 2, b / 2) + Diff(a % 2, b % 2)
  }

  /** Exclusive or of two bits. */
  function Diff(p: nat, q: nat): nat
  {
    if p == q then 0 else 1
  }

  /** Bitwise and. */
  function And(a: nat, b: nat): nat
    decreases a + b
  {
    if a == 0 && b == 0 then 0
    else 2 * And(a / 2, b / 2) + (if a % 2 == 1 && b % 2 == 1 then 1 else 0)
  }

  /** Quotient and remainder by a small power of two, from a decomposition of x. */
  lemma DivMod(x: int, d: int, q: int, r: int)
    requires d == 2 || d == 4 || d == 8 || d == 16 || d == 32 || d == 64 || d == 4096 || d == 16384
    requires 0 <= r < d && x == d * q + r
    ensures x / d == q && x % d == r
  {
  }

  /** The defining step of Xor holds for every pair, zero included. */
  lemma XorStep(a: nat, b: nat)
    ensures Xor(a, b) == 2 * Xor(a / 2, b / 2) + Diff(a % 2, b % 2)
  {
  }

  lemma AndStep(a: nat, b: nat)
    ensures And(a, b) == 2 * And(a / 2, b / 2) + (if a % 2 == 1 && b % 2 == 1 then 1 else 0)
  {
  }

  /** Halving commutes with exclusive or, and the low bit is the parity of the sum. */
  lemma XorHalf(a: nat, b: nat)
    ensures Xor(a, b) / 2 == Xor(a / 2, b / 2)
    ensures Xor(a, b) % 2 == Diff(a % 2, b % 2)
  {
    XorStep(a, b);
  }

  /** And never sets a bit that either operand lacks. */
  lemma {:induction false} AndBelow(a: nat, b: nat)
    ensures And(a, b) <= a && And(a, b) <= b
    decreases a + b
  {
    if a != 0 || b != 0 {
      AndBelow(a / 2, b / 2);
    }
  }

  function XorByte(a: byte, b: byte): byte
  {
    XorSplit256(a, b);
    Xor(a, b)
  }

  function XorWord(a: word, b: word): word
  {
    XorSplit65536(a, b);
    Xor(a, b)
  }

  function AndByte(a: byte, b: byte): byte
  {
    AndBelow(a, b);
    And(a, b)
  }

  lemma {:induction false} XorZero(a: nat)
    ensures Xor(a, 0) == a && Xor(0, a) == a
  {
    if a != 0 {
      XorZero(a / 2);
    }
  }

  lemma {:induction false} XorSelf(a: nat)
    ensures Xor(a, a) == 0
  {
    if a != 0 {
      XorSelf(a / 2);
    }
  }

  lemma {:induction false} XorComm(a: nat, b: nat)
    ensures Xor(a, b) == Xor(b, a)
    decreases a + b
  {
    if a != 0 || b != 0 {
      XorComm(a / 2, b / 2);
    }
  }

  lemma {:induction false} XorAssoc(a: nat, b: nat, c: nat)
    ensures Xor(Xor(a, b), c) == Xor(a, Xor(b, c))
    decreases a + b + c
  {
    if a != 0 || b != 0 || c != 0 {
      var x, y := Xor(a, b), Xor(b, c);
      XorHalf(a, b);
      XorHalf(b, c);
      XorAssoc(a / 2, b / 2, c / 2);
      assert x / 2 == Xor(a / 2, b / 2) && y / 2 == Xor(b / 2, c / 2);
      calc {
        Xor(x, c);
        { XorStep(x, c); }
        2 * Xor(x / 2, c / 2) + Diff(x % 2, c % 2);
        2 * Xor(a / 2, y / 2) + Diff(a % 2, y % 2);
        { XorStep(a, y); }
        Xor(a, y);
      }
    }
  }

  /** Exclusive or with b twice gives back a. */
  lemma XorCancel(a: nat, b: nat)
    ensures Xor(Xor(a, b), b) == a
  {
    XorAssoc(a, b, b);
    XorSelf(b);
    XorZero(a);
  }

  /** The medial law: two exclusive ors of pairs may exchange partners. */
  lemma XorMedial(a: nat, b: nat, c: nat, d: nat)
    ensures Xor(Xor(a, b), Xor(c, d)) == Xor(Xor(a, c), Xor(b, d))
  {
    XorAssoc(a, b, Xor(c, d));
    XorAssoc(b, c, d);
    XorComm(b, c);
    XorAssoc(c, b, d);
    XorAssoc(a, c, Xor(b, d));
  }

  /** Exclusive or splits at bit 1: the low bit and the rest are computed apart. */
  lemma XorSplit2(a: nat, b: nat)
    ensures Xor(a, b) == 2 * Xor(a / 2, b / 2) + Xor(a % 2, b % 2) && Xor(a % 2, b % 2) < 2
  {
    XorStep(a, b);
    XorBit(a % 2, b % 2);
  }

  lemma XorBit(p: nat, q: nat)
    requires p < 2 && q < 2
    ensures Xor(p, q) == Diff(p, q)
  {
    XorStep(p, q);
  }

  /** ... at bit 2 ... */
  lemma XorSplit4(a: nat, b: nat)
    ensures Xor(a, b) == 4 * Xor(a / 4, b / 4) + Xor(a % 4, b % 4) && Xor(a % 4, b % 4) < 4
  {
    XorSplit2(a, b);
    XorSplit2(a / 2, b / 2);
    XorSplit2(a % 4, b % 4);
    assert a / 2 / 2 == a / 4 && b / 2 / 2 == b / 4;
    assert a % 4 / 2 == a / 2 % 2 && b % 4 / 2 == b / 2 % 2;
    assert a % 4 % 2 == a % 2 && b % 4 % 2 == b % 2;
  }

  /** ... at bit 4: the nibbles of an exclusive or ... */
  lemma XorSplit16(a: nat, b: nat)
    ensures Xor(a, b) == 16 * Xor(a / 16, b / 16) + Xor(a % 16, b % 16) && Xor(a % 16, b % 16) < 16
  {
    XorSplit4(a, b);
    XorSplit4(a / 4, b / 4);
    XorSplit4(a % 16, b % 16);
    assert a / 4 / 4 == a / 16 && b / 4 / 4 == b / 16;
    assert a % 16 / 4 == a / 4 % 4 && b % 16 / 4 == b / 4 % 4;
    assert a % 16 % 4 == a % 4 && b % 16 % 4 == b % 4;
  }

  /** ... at bit 8: the bytes of an exclusive or ... */
  lemma XorSplit256(a: nat, b: nat)
    ensures Xor(a, b) == 256 * Xor(a / 256, b / 256) + Xor(a % 256, b % 256) && Xor(a % 256, b % 256) < 256
  {
    XorSplit16(a, b);
    XorSplit16(a / 16, b / 16);
    XorSplit16(a % 256, b % 256);
    assert a / 16 / 16 == a / 256 && b / 16 / 16 == b / 256;
    assert a % 256 / 16 == a / 16 % 16 && b % 256 / 16 == b / 16 % 16;
    assert a % 256 % 16 == a % 16 && b % 256 % 16 == b % 16;
  }

  /** ... and at bit 16. */
  lemma XorSplit65536(a: nat, b: nat)
    ensures Xor(a % 65536, b % 65536) < 65536
  {
    var a', b' := a % 65536, b % 65536;
    XorSplit256(a', b');
    XorSplit256(a' / 256, b' / 256);
    assert a' / 256 / 256 == 0 && b' / 256 / 256 == 0;
  }

  /** The low and high nibble of an exclusive or are the exclusive ors of the nibbles. */
  lemma XorNibbles(a: nat, b: nat)
    ensures Xor(a, b) % 16 == Xor(a % 16, b % 16)
    ensures Xor(a, b) / 16 == Xor(a / 16, b / 16)
  {
    XorSplit16(a, b);
  }

  /** The low and high byte of an exclusive or are the exclusive ors of the bytes. */
  lemma XorBytes(a: nat, b: nat)
    ensures Xor(a, b) % 256 == Xor(a % 256, b % 256)
    ensures Xor(a, b) / 256 == Xor(a / 256, b / 256)
  {
    XorSplit256(a, b);
  }

  /** And splits at bit 1 ... */
  lemma AndSplit2(a: nat, b: nat)
    ensures And(a, b) == 2 * And(a / 2, b / 2) + And(a % 2, b % 2)
  {
    AndStep(a, b);
    AndBit(a % 2, b % 2);
  }

  lemma AndBit(p: nat, q: nat)
    requires p < 2 && q < 2
    ensures And(p, q) == (if p == 1 && q == 1 then 1 else 0)
  {
    AndStep(p, q);
  }

  /** ... at bit 2 ... */
  lemma AndSplit4(a: nat, b: nat)
    ensures And(a, b) == 4 * And(a / 4, b / 4) + And(a % 4, b % 4)
  {
    AndSplit2(a, b);
    AndSplit2(a / 2, b / 2);
    AndSplit2(a % 4, b % 4);
    assert a / 2 / 2 == a / 4 && b / 2 / 2 == b / 4;
    assert a % 4 / 2 == a / 2 % 2 && b % 4 / 2 == b / 2 % 2;
    assert a % 4 % 2 == a % 2 && b % 4 % 2 == b % 2;
  }

  /** ... and at bit 4. */
  lemma AndSplit16(a: nat, b: nat)
    ensures And(a, b) == 16 * And(a / 16, b / 16) + And(a % 16, b % 16)
  {
    AndSplit4(a, b);
    AndSplit4(a / 4, b / 4);
    AndSplit4(a % 16, b % 16);
    assert a / 4 / 4 == a / 16 && b / 4 / 4 == b / 16;
    assert a % 16 / 4 == a / 4 % 4 && b % 16 / 4 == b / 4 % 4;
    assert a % 16 % 4 == a % 4 && b % 16 % 4 == b % 4;
  }

  lemma {:induction false} AndZero(a: nat)
    ensures And(a, 0) == 0 && And(0, a) == 0
  {
    if a != 0 {
      AndZero(a / 2);
    }
  }

  /** And with 1 keeps the low bit ... */
  lemma AndOne(a: nat)
    ensures And(a, 1) == a % 2
  {
    AndStep(a, 1);
    AndZero(a / 2);
  }

  /** ... with 3 the low two bits ... */
  lemma AndThree(a: nat)
    ensures And(a, 3) == a % 4
  {
    AndStep(a, 3);
    assert And(a, 3) == 2 * And(a / 2, 1) + a % 2;
    AndOne(a / 2);
    LowBits4(a);
  }

  lemma LowBits4(a: nat)
    ensures 2 * (a / 2 % 2) + a % 2 == a % 4
  {
  }

  /** ... with 7 the low three bits ... */
  lemma AndSeven(a: nat)
    ensures And(a, 7) == a % 8
  {
    AndStep(a, 7);
    assert And(a, 7) == 2 * And(a / 2, 3) + a % 2;
    AndThree(a / 2);
    LowBits8(a);
  }

  lemma LowBits8(a: nat)
    ensures 2 * (a / 2 % 4) + a % 2 == a % 8
  {
  }

  /** ... and with 15 the low nibble. */
  lemma AndFifteen(a: nat)
    ensures And(a, 15) == a % 16
  {
    AndStep(a, 15);
    assert And(a, 15) == 2 * And(a / 2, 7) + a % 2;
    AndSeven(a / 2);
    LowBits16(a);
  }

  lemma LowBits16(a: nat)
    ensures 2 * (a / 2 % 8) + a % 2 == a % 16
  {
  }

  /** Masking with 0x30 keeps bits 4 and 5 in place. */
  lemma AndBits45(x: nat)
    ensures And(x, 0x30) == 16 * (x / 16 % 4)
  {
    AndSplit16(x, 0x30);
    AndZero(x % 16);
    AndThree(x / 16);
  }

  /** Masking with 0xf0 keeps the high nibble ... */
  lemma AndHigh(x: nat)
    requires x < 256
    ensures And(x, 0xf0) == 16 * (x / 16)
  {
    var q, m := x / 16, x % 16;
    AndSplit16(x, 0xf0);
    assert And(x, 0xf0) == 16 * And(q, 15) + And(m, 0);
    AndFifteenNibble(q);
    AndZero(m);
  }

  lemma AndFifteenNibble(y: nat)
    requires y < 16
    ensures And(y, 15) == y
  {
    AndFifteen(y);
  }

  /** ... with 14 every bit of a nibble but bit 0 ... */
  lemma AndFourteen(y: nat)
    requires y < 16
    ensures And(y, 14) == 2 * (y / 2)
  {
    AndStep(y, 14);
    AndSeven(y / 2);
  }

  /** ... with 0xee every bit of either nibble of a byte but its bit 0 ... */
  lemma AndEvenMask(x: nat)
    requires x < 256
    ensures And(x, 0xee) == 32 * (x / 32) + 2 * (x % 16 / 2)
  {
    var q, m := x / 16, x % 16;
    AndSplit16(x, 0xee);
    assert And(x, 0xee) == 16 * And(q, 14) + And(m, 14);
    AndFourteen(q);
    AndFourteen(m);
    assert q / 2 == x / 32;
  }

  /** ... and with 0x11 bit 0 of either nibble. */
  lemma AndNibbleLowBits(x: nat)
    ensures And(x, 0x11) == 16 * (x / 16 % 2) + x % 2
  {
    var q, m := x / 16, x % 16;
    AndSplit16(x, 0x11);
    assert And(x, 0x11) == 16 * And(q, 1) + And(m, 1);
    AndOne(q);
    AndOne(m);
    assert m % 2 == x % 2;
  }
}
