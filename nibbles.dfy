/** SKINNY-64 cells are four bits wide and the routines keep two of them in a byte:
    cell 2j in the low nibble of byte j and cell 2j + 1 in its high nibble.  This
    module holds that packing and how exclusive or, masks and nibble swaps act on it. */
module Nibbles {
  import opened Bits

  type nibble = x: int | 0 <= x < 16

  /** The byte holding nibble lo below nibble hi. */
  function Join(lo: nibble, hi: nibble): (b: byte)
    ensures b % 16 == lo && b / 16 == hi
  {
    lo + 16 * hi
  }

  function Lo(b: byte): nibble
  {
    b % 16
  }

  function Hi(b: byte): nibble
  {
    b / 16
  }

  /** A byte is the join of its two nibbles. */
  lemma JoinParts(b: byte)
    ensures Join(Lo(b), Hi(b)) == b
  {
  }

  /** Exclusive or of nibbles. */
  function XorNibble(a: nibble, b: nibble): nibble
  {
    XorSplit16(a, b);
    Xor(a, b)
  }

  /** Exclusive or of packed bytes acts on each nibble alone. */
  lemma XorJoin(l1: nibble, h1: nibble, l2: nibble, h2: nibble)
    ensures XorByte(Join(l1, h1), Join(l2, h2)) == Join(XorNibble(l1, l2), XorNibble(h1, h2))
  {
    XorSplit16(Join(l1, h1), Join(l2, h2));
  }

  /** The nibbles of an exclusive or of bytes. */
  lemma XorParts(a: byte, b: byte)
    ensures XorByte(a, b) == Join(XorNibble(Lo(a), Lo(b)), XorNibble(Hi(a), Hi(b)))
  {
    XorSplit16(a, b);
  }

  /** The mask 0xf0 clears the low nibble ... */
  lemma MaskHigh(b: byte)
    ensures AndByte(b, 0xf0) == Join(0, Hi(b))
  {
    AndHigh(b);
  }

  /** ... and 0x0f the high one. */
  lemma MaskLow(b: byte)
    ensures AndByte(b, 0x0f) == Join(Lo(b), 0)
  {
    AndFifteen(b);
  }

  /** A byte holding only a low nibble and one holding only a high nibble combine by
      exclusive or into the byte holding both. */
  lemma XorDisjoint(lo: nibble, hi: nibble)
    ensures XorByte(Join(lo, 0), Join(0, hi)) == Join(lo, hi)
    ensures XorByte(Join(0, hi), Join(lo, 0)) == Join(lo, hi)
  {
    XorJoin(lo, 0, 0, hi);
    XorJoin(0, hi, lo, 0);
    XorZero(lo);
    XorZero(hi);
  }

  /** Adding a ^ b to either of a and b gives the other. */
  lemma XorNibbleCancel(a: nibble, b: nibble)
    ensures XorNibble(a, XorNibble(a, b)) == b
    ensures XorNibble(b, XorNibble(a, b)) == a
  {
    XorAssoc(a, a, b);
    XorSelf(a);
    XorZero(b);
    XorComm(a, b);
    XorAssoc(b, b, a);
    XorSelf(b);
    XorZero(a);
  }

  /** The nibble exchange through the mask 0xf0: adding the high nibble of x ^ y to x
      and to y exchanges their high nibbles and keeps their low ones. */
  lemma ExchangeHigh(x: byte, y: byte)
    ensures var m := AndByte(XorByte(x, y), 0xf0);
      XorByte(x, m) == Join(Lo(x), Hi(y)) && XorByte(y, m) == Join(Lo(y), Hi(x))
  {
    var d := XorNibble(Hi(x), Hi(y));
    XorParts(x, y);
    MaskHigh(XorByte(x, y));
    assert AndByte(XorByte(x, y), 0xf0) == Join(0, d);
    JoinParts(x);
    JoinParts(y);
    XorJoin(Lo(x), Hi(x), 0, d);
    XorJoin(Lo(y), Hi(y), 0, d);
    XorZero(Lo(x));
    XorZero(Lo(y));
    XorNibbleCancel(Hi(x), Hi(y));
  }

  /** The same through the mask 0x0f exchanges the low nibbles. */
  lemma ExchangeLow(x: byte, y: byte)
    ensures var m := AndByte(XorByte(x, y), 0x0f);
      XorByte(x, m) == Join(Lo(y), Hi(x)) && XorByte(y, m) == Join(Lo(x), Hi(y))
  {
    var d := XorNibble(Lo(x), Lo(y));
    XorParts(x, y);
    MaskLow(XorByte(x, y));
    assert AndByte(XorByte(x, y), 0x0f) == Join(d, 0);
    JoinParts(x);
    JoinParts(y);
    XorJoin(Lo(x), Hi(x), d, 0);
    XorJoin(Lo(y), Hi(y), d, 0);
    XorZero(Hi(x));
    XorZero(Hi(y));
    XorNibbleCancel(Lo(x), Lo(y));
  }

  /** The sixteen cells of eight packed bytes, cell 2j the low nibble of byte j. */
  function Unpack(s: seq<byte>): (c: seq<nibble>)
    ensures |c| == 2 * |s|
  {
    seq(2 * |s|, i requires 0 <= i < 2 * |s| => if i % 2 == 0 then Lo(s[i / 2]) else Hi(s[i / 2]))
  }

  /** The two cells of byte j. */
  lemma UnpackAt(s: seq<byte>, j: nat)
    requires j < |s|
    ensures Unpack(s)[2 * j] == Lo(s[j]) && Unpack(s)[2 * j + 1] == Hi(s[j])
  {
  }

  /** Cells packed two to a byte, the even cell low. */
  function Pack(c: seq<nibble>): (s: seq<byte>)
    requires |c| % 2 == 0
    ensures |s| == |c| / 2
  {
    seq(|c| / 2, j requires 0 <= j < |c| / 2 => Join(c[2 * j], c[2 * j + 1]))
  }

  /** Packing undoes unpacking ... */
  lemma PackUnpack(s: seq<byte>)
    ensures Pack(Unpack(s)) == s
  {
    var c := Unpack(s);
    forall j | 0 <= j < |s| ensures Pack(c)[j] == s[j] {
      assert c[2 * j] == Lo(s[j]) && c[2 * j + 1] == Hi(s[j]);
      JoinParts(s[j]);
    }
  }

  /** ... and unpacking undoes packing. */
  lemma UnpackPack(c: seq<nibble>)
    requires |c| % 2 == 0
    ensures Unpack(Pack(c)) == c
  {
    forall i | 0 <= i < |c| ensures Unpack(Pack(c))[i] == c[i] {
      var j := i / 2;
      assert Pack(c)[j] == Join(c[2 * j], c[2 * j + 1]);
    }
  }

  /** Unpack and Pack of a 64-bit state, cell by cell. */
  lemma UnpackCells(s: seq<byte>)
    requires |s| == 8
    ensures Unpack(s) ==
      [Lo(s[0]), Hi(s[0]), Lo(s[1]), Hi(s[1]), Lo(s[2]), Hi(s[2]), Lo(s[3]), Hi(s[3]),
       Lo(s[4]), Hi(s[4]), Lo(s[5]), Hi(s[5]), Lo(s[6]), Hi(s[6]), Lo(s[7]), Hi(s[7])]
  {
  }

  lemma PackCells(c: seq<nibble>)
    requires |c| == 16
    ensures Pack(c) ==
      [Join(c[0], c[1]), Join(c[2], c[3]), Join(c[4], c[5]), Join(c[6], c[7]),
       Join(c[8], c[9]), Join(c[10], c[11]), Join(c[12], c[13]), Join(c[14], c[15])]
  {
  }
}
