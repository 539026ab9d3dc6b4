/** SKINNY-128-128 as the AVR routines compute it: sixteen one-byte cells numbered
    row-major, forty rounds, one tweakey word TK1.  The round constants are folded
    into the stored round keys by the key schedule, so a round adds an eight-byte
    round key to rows 0 and 1 and the constant 0x02 to cell 8.  The S-box tables
    live in data the model does not see; they are parameters of 256 bytes. */
module Skinny128 {
  import opened Bits
  import opened Grid

  /** Every cell through the 256-entry table t. */
  function SubCells(t: seq<byte>, s: seq<byte>): (r: seq<byte>)
    requires |t| == 256 && |s| == 16
    ensures |r| == 16
  {
    seq(16, i requires 0 <= i < 16 => t[s[i]])
  }

  /** The eight round-key bytes into rows 0 and 1, the constant 0x02 into cell 8. */
  function AddRoundKey(s: seq<byte>, rk: seq<byte>): (r: seq<byte>)
    requires |s| == 16 && |rk| == 8
    ensures |r| == 16
  {
    seq(16, i requires 0 <= i < 16 =>
      if i < 8 then XorByte(s[i], rk[i]) else if i == 8 then XorByte(s[8], 2) else s[i])
  }

  /** Column by column, rows (x0, x1, x2, x3) become
      (x3 ^ x2 ^ x0, x0, x1 ^ x2, x2 ^ x0). */
  function MixColumns(s: seq<byte>): (r: seq<byte>)
    requires |s| == 16
    ensures |r| == 16
  {
    seq(16, i requires 0 <= i < 16 =>
      if i < 4 then XorByte(s[i + 12], XorByte(s[i + 8], s[i]))
      else if i < 8 then s[i - 4]
      else if i < 12 then XorByte(s[i - 4], s[i])
      else XorByte(s[i - 4], s[i - 12]))
  }

  /** Column by column, rows (o0, o1, o2, o3) become
      (o1, o2 ^ o3 ^ o1, o3 ^ o1, o0 ^ o3). */
  function InvMixColumns(s: seq<byte>): (r: seq<byte>)
    requires |s| == 16
    ensures |r| == 16
  {
    seq(16, i requires 0 <= i < 16 =>
      if i < 4 then s[i + 4]
      else if i < 8 then XorByte(s[i + 4], XorByte(s[i + 8], s[i]))
      else if i < 12 then XorByte(s[i + 4], s[i - 4])
      else XorByte(s[i - 12], s[i]))
  }

  /** SubCells, AddRoundKey, MixColumns and InvMixColumns cell by cell. */
  lemma SubCellsCells(t: seq<byte>, s: seq<byte>)
    requires |t| == 256 && |s| == 16
    ensures SubCells(t, s) ==
      [t[s[0]], t[s[1]], t[s[2]], t[s[3]],
       t[s[4]], t[s[5]], t[s[6]], t[s[7]],
       t[s[8]], t[s[9]], t[s[10]], t[s[11]],
       t[s[12]], t[s[13]], t[s[14]], t[s[15]]]
  {
    Equal16(SubCells(t, s),
      [t[s[0]], t[s[1]], t[s[2]], t[s[3]], t[s[4]], t[s[5]], t[s[6]], t[s[7]],
       t[s[8]], t[s[9]], t[s[10]], t[s[11]], t[s[12]], t[s[13]], t[s[14]], t[s[15]]]);
  }

  lemma AddRoundKeyCells(s: seq<byte>, rk: seq<byte>)
    requires |s| == 16 && |rk| == 8
    ensures AddRoundKey(s, rk) ==
      [XorByte(s[0], rk[0]), XorByte(s[1], rk[1]), XorByte(s[2], rk[2]), XorByte(s[3], rk[3]),
       XorByte(s[4], rk[4]), XorByte(s[5], rk[5]), XorByte(s[6], rk[6]), XorByte(s[7], rk[7]),
       XorByte(s[8], 2), s[9], s[10], s[11],
       s[12], s[13], s[14], s[15]]
  {
    Equal16(AddRoundKey(s, rk),
      [XorByte(s[0], rk[0]), XorByte(s[1], rk[1]), XorByte(s[2], rk[2]), XorByte(s[3], rk[3]),
       XorByte(s[4], rk[4]), XorByte(s[5], rk[5]), XorByte(s[6], rk[6]), XorByte(s[7], rk[7]),
       XorByte(s[8], 2), s[9], s[10], s[11], s[12], s[13], s[14], s[15]]);
  }

  lemma MixColumnsCells(s: seq<byte>)
    requires |s| == 16
    ensures MixColumns(s) ==
      [XorByte(s[12], XorByte(s[8], s[0])), XorByte(s[13], XorByte(s[9], s[1])),
       XorByte(s[14], XorByte(s[10], s[2])), XorByte(s[15], XorByte(s[11], s[3])),
       s[0], s[1], s[2], s[3],
       XorByte(s[4], s[8]), XorByte(s[5], s[9]), XorByte(s[6], s[10]), XorByte(s[7], s[11]),
       XorByte(s[8], s[0]), XorByte(s[9], s[1]), XorByte(s[10], s[2]), XorByte(s[11], s[3])]
  {
    Equal16(MixColumns(s),
      [XorByte(s[12], XorByte(s[8], s[0])), XorByte(s[13], XorByte(s[9], s[1])),
       XorByte(s[14], XorByte(s[10], s[2])), XorByte(s[15], XorByte(s[11], s[3])),
       s[0], s[1], s[2], s[3],
       XorByte(s[4], s[8]), XorByte(s[5], s[9]), XorByte(s[6], s[10]), XorByte(s[7], s[11]),
       XorByte(s[8], s[0]), XorByte(s[9], s[1]), XorByte(s[10], s[2]), XorByte(s[11], s[3])]);
  }

  lemma InvMixColumnsCells(s: seq<byte>)
    requires |s| == 16
    ensures InvMixColumns(s) ==
      [s[4], s[5], s[6], s[7],
       XorByte(s[8], XorByte(s[12], s[4])), XorByte(s[9], XorByte(s[13], s[5])),
       XorByte(s[10], XorByte(s[14], s[6])), XorByte(s[11], XorByte(s[15], s[7])),
       XorByte(s[12], s[4]), XorByte(s[13], s[5]), XorByte(s[14], s[6]), XorByte(s[15], s[7]),
       XorByte(s[0], s[12]), XorByte(s[1], s[13]), XorByte(s[2], s[14]), XorByte(s[3], s[15])]
  {
    Equal16(InvMixColumns(s),
      [s[4], s[5], s[6], s[7],
       XorByte(s[8], XorByte(s[12], s[4])), XorByte(s[9], XorByte(s[13], s[5])),
       XorByte(s[10], XorByte(s[14], s[6])), XorByte(s[11], XorByte(s[15], s[7])),
       XorByte(s[12], s[4]), XorByte(s[13], s[5]), XorByte(s[14], s[6]), XorByte(s[15], s[7]),
       XorByte(s[0], s[12]), XorByte(s[1], s[13]), XorByte(s[2], s[14]), XorByte(s[3], s[15])]);
  }

  /** One encryption round with round key rk. */
  function EncRound(sbox: seq<byte>, s: seq<byte>, rk: seq<byte>): (r: seq<byte>)
    requires |sbox| == 256 && |s| == 16 && |rk| == 8
    ensures |r| == 16
  {
    MixColumns(ShiftRows(AddRoundKey(SubCells(sbox, s), rk)))
  }

  /** One decryption round with round key rk: the steps of EncRound undone in reverse. */
  function DecRound(inv: seq<byte>, s: seq<byte>, rk: seq<byte>): (r: seq<byte>)
    requires |inv| == 256 && |s| == 16 && |rk| == 8
    ensures |r| == 16
  {
    SubCells(inv, AddRoundKey(InvShiftRows(InvMixColumns(s)), rk))
  }

  /** inv undoes sbox on every byte. */
  predicate Inverts(inv: seq<byte>, sbox: seq<byte>)
  {
    |inv| == 256 && |sbox| == 256 && forall x :: 0 <= x < 256 ==> inv[sbox[x]] == x
  }

  /** The bytes sbox takes on inputs below n. */
  ghost function Image(sbox: seq<byte>, n: nat): set<int>
    requires n <= |sbox|
  {
    set x | 0 <= x < n :: sbox[x] as int
  }

  /** The numbers below n. */
  ghost function Below(n: nat): (r: set<int>)
    ensures forall y :: y in r <==> 0 <= y < n
  {
    if n == 0 then {} else Below(n - 1) + {n - 1}
  }

  /** There are n numbers below n. */
  lemma {:induction false} BelowSize(n: nat)
    ensures |Below(n)| == n
  {
    if n > 0 {
      BelowSize(n - 1);
    }
  }

  /** A table with a left inverse takes n distinct values on the inputs below n. */
  lemma {:induction false} ImageSize(inv: seq<byte>, sbox: seq<byte>, n: nat)
    requires Inverts(inv, sbox) && n <= 256
    ensures |Image(sbox, n)| == n
  {
    if n > 0 {
      ImageSize(inv, sbox, n - 1);
      assert Image(sbox, n) == Image(sbox, n - 1) + {sbox[n - 1] as int};
      forall x | 0 <= x < n - 1
        ensures sbox[x] != sbox[n - 1]
      {
        assert inv[sbox[x]] == x != n - 1 == inv[sbox[n - 1]];
      }
    }
  }

  /** inv undoing sbox makes sbox a permutation of the 256 bytes, so sbox also undoes
      inv. */
  lemma InvertsBothWays(inv: seq<byte>, sbox: seq<byte>)
    requires Inverts(inv, sbox)
    ensures forall y | 0 <= y < 256 :: sbox[inv[y]] == y
  {
    var image, all := Image(sbox, 256), Below(256);
    ImageSize(inv, sbox, 256);
    BelowSize(256);
    assert image <= all;
    assert all <= image by {
      assert image * all == image && image + all == all && image - all == {};
      assert |all - image| == 0;
    }
    forall y | 0 <= y < 256
      ensures sbox[inv[y]] == y
    {
      assert y in all;
      var x :| 0 <= x < 256 && sbox[x] == y;
      assert inv[y] == x;
    }
  }

  /** Round key i of a flat round-key buffer: bytes 8i .. 8i+7. */
  function RoundKeyAt(rks: seq<byte>, i: nat): (rk: seq<byte>)
    requires 8 * i + 8 <= |rks|
    ensures |rk| == 8
  {
    rks[8 * i .. 8 * i + 8]
  }

  /** n rounds, round i using round key i. */
  function EncryptRounds(sbox: seq<byte>, s: seq<byte>, rks: seq<byte>, n: nat): (r: seq<byte>)
    requires |sbox| == 256 && |s| == 16 && 8 * n <= |rks|
    ensures |r| == 16
  {
    if n == 0 then s else EncRound(sbox, EncryptRounds(sbox, s, rks, n - 1), RoundKeyAt(rks, n - 1))
  }

  /** n decryption rounds taking the round keys from the last, n - 1, down to the first. */
  function DecryptRounds(inv: seq<byte>, s: seq<byte>, rks: seq<byte>, n: nat): (r: seq<byte>)
    requires |inv| == 256 && |s| == 16 && 8 * n <= |rks|
    ensures |r| == 16
    decreases n
  {
    if n == 0 then s else DecryptRounds(inv, DecRound(inv, s, RoundKeyAt(rks, n - 1)), rks, n - 1)
  }

  lemma SubCellsInverse(inv: seq<byte>, sbox: seq<byte>, s: seq<byte>)
    requires Inverts(inv, sbox) && |s| == 16
    ensures SubCells(inv, SubCells(sbox, s)) == s
  {
    Equal16(SubCells(inv, SubCells(sbox, s)), s);
  }

  /** Adding the same round key twice changes nothing. */
  lemma AddRoundKeyInvolution(s: seq<byte>, rk: seq<byte>)
    requires |s| == 16 && |rk| == 8
    ensures AddRoundKey(AddRoundKey(s, rk), rk) == s
  {
    forall i | 0 <= i < 8 {
      XorCancel(s[i], rk[i]);
    }
    XorCancel(s[8], 2);
    Equal16(AddRoundKey(AddRoundKey(s, rk), rk), s);
  }

  /** The per-column chain of InvMixColumns undoes that of MixColumns. */
  lemma MixColumn(x0: byte, x1: byte, x2: byte, x3: byte)
    ensures XorByte(x3, XorByte(x2, x0)) == Xor(x3, Xor(x2, x0))
    ensures var o0, o1, o2, o3 := XorByte(x3, XorByte(x2, x0)), x0, XorByte(x1, x2), XorByte(x2, x0);
      o1 == x0 && XorByte(o2, XorByte(o3, o1)) == x1 && XorByte(o3, o1) == x2 && XorByte(o0, o3) == x3
  {
    XorCancel(x2, x0);
    XorAssoc(x1, x2, x2);
    XorSelf(x2);
    XorZero(x1);
    XorCancel(x3, Xor(x2, x0));
  }

  /** ... and the chain of MixColumns undoes that of InvMixColumns. */
  lemma InvMixColumn(o0: byte, o1: byte, o2: byte, o3: byte)
    ensures var x0, x1, x2, x3 := o1, XorByte(o2, XorByte(o3, o1)), XorByte(o3, o1), XorByte(o0, o3);
      XorByte(x3, XorByte(x2, x0)) == o0 && x0 == o1 && XorByte(x1, x2) == o2 && XorByte(x2, x0) == o3
  {
    XorCancel(o3, o1);
    XorCancel(o2, Xor(o3, o1));
    XorCancel(o0, o3);
  }

  /** InvMixColumns undoes MixColumns ... */
  lemma MixColumnsInverse(s: seq<byte>)
    requires |s| == 16
    ensures InvMixColumns(MixColumns(s)) == s
  {
    MixColumn(s[0], s[4], s[8], s[12]);
    MixColumn(s[1], s[5], s[9], s[13]);
    MixColumn(s[2], s[6], s[10], s[14]);
    MixColumn(s[3], s[7], s[11], s[15]);
    MixColumnsCells(s);
    InvMixColumnsCells(MixColumns(s));
    Equal16(InvMixColumns(MixColumns(s)), s);
  }

  /** ... and MixColumns undoes InvMixColumns. */
  lemma InvMixColumnsInverse(s: seq<byte>)
    requires |s| == 16
    ensures MixColumns(InvMixColumns(s)) == s
  {
    InvMixColumn(s[0], s[4], s[8], s[12]);
    InvMixColumn(s[1], s[5], s[9], s[13]);
    InvMixColumn(s[2], s[6], s[10], s[14]);
    InvMixColumn(s[3], s[7], s[11], s[15]);
    InvMixColumnsCells(s);
    MixColumnsCells(InvMixColumns(s));
    Equal16(MixColumns(InvMixColumns(s)), s);
  }

  /** Cell-wise exclusive or of two states. */
  function XorCells(a: seq<byte>, b: seq<byte>): (r: seq<byte>)
    requires |a| == 16 && |b| == 16
    ensures |r| == 16
  {
    seq(16, i requires 0 <= i < 16 => XorByte(a[i], b[i]))
  }

  /** One column of MixColumns is linear: column a ^ b maps to the exclusive or of the
      images of a and b. */
  lemma MixColumnLinear(a0: byte, a1: byte, a2: byte, a3: byte, b0: byte, b1: byte, b2: byte, b3: byte)
    ensures Xor(Xor(a3, b3), Xor(Xor(a2, b2), Xor(a0, b0)))
         == Xor(Xor(a3, Xor(a2, a0)), Xor(b3, Xor(b2, b0)))
    ensures Xor(Xor(a1, b1), Xor(a2, b2)) == Xor(Xor(a1, a2), Xor(b1, b2))
    ensures Xor(Xor(a2, b2), Xor(a0, b0)) == Xor(Xor(a2, a0), Xor(b2, b0))
  {
    XorMedial(a1, b1, a2, b2);
    XorMedial(a2, b2, a0, b0);
    XorMedial(a3, b3, Xor(a2, a0), Xor(b2, b0));
  }

  /** MixColumns is linear over exclusive or. */
  lemma MixColumnsLinear(a: seq<byte>, b: seq<byte>)
    requires |a| == 16 && |b| == 16
    ensures MixColumns(XorCells(a, b)) == XorCells(MixColumns(a), MixColumns(b))
  {
    MixColumnLinear(a[0], a[4], a[8], a[12], b[0], b[4], b[8], b[12]);
    MixColumnLinear(a[1], a[5], a[9], a[13], b[1], b[5], b[9], b[13]);
    MixColumnLinear(a[2], a[6], a[10], a[14], b[2], b[6], b[10], b[14]);
    MixColumnLinear(a[3], a[7], a[11], a[15], b[3], b[7], b[11], b[15]);
    Equal16(MixColumns(XorCells(a, b)), XorCells(MixColumns(a), MixColumns(b)));
  }

  /** A decryption round with the same round key undoes an encryption round. */
  lemma DecRoundInverts(inv: seq<byte>, sbox: seq<byte>, s: seq<byte>, rk: seq<byte>)
    requires Inverts(inv, sbox) && |s| == 16 && |rk| == 8
    ensures DecRound(inv, EncRound(sbox, s, rk), rk) == s
  {
    var t := AddRoundKey(SubCells(sbox, s), rk);
    MixColumnsInverse(ShiftRows(t));
    ShiftRowsInverse(t);
    AddRoundKeyInvolution(SubCells(sbox, s), rk);
    SubCellsInverse(inv, sbox, s);
  }

  /** Decrypting k rounds of ciphertext peels off the last encryption round. */
  lemma PeelRound(inv: seq<byte>, sbox: seq<byte>, p: seq<byte>, rks: seq<byte>, k: nat)
    requires Inverts(inv, sbox) && |p| == 16 && 0 < k && 8 * k <= |rks|
    ensures DecryptRounds(inv, EncryptRounds(sbox, p, rks, k), rks, k)
         == DecryptRounds(inv, EncryptRounds(sbox, p, rks, k - 1), rks, k - 1)
  {
    var e, rk := EncryptRounds(sbox, p, rks, k - 1), RoundKeyAt(rks, k - 1);
    DecRoundInverts(inv, sbox, e, rk);
  }

  /** Zero rounds each way change nothing. */
  lemma NoRounds(inv: seq<byte>, sbox: seq<byte>, p: seq<byte>, rks: seq<byte>)
    requires |inv| == 256 && |sbox| == 256 && |p| == 16
    ensures DecryptRounds(inv, EncryptRounds(sbox, p, rks, 0), rks, 0) == p
  {
  }

  /** Decryption with the same round keys, last to first, gives back the plaintext. */
  lemma RoundTrip(inv: seq<byte>, sbox: seq<byte>, p: seq<byte>, rks: seq<byte>, n: nat)
    requires Inverts(inv, sbox) && |p| == 16 && 8 * n <= |rks|
    ensures DecryptRounds(inv, EncryptRounds(sbox, p, rks, n), rks, n) == p
  {
    var k: nat := n;
    while k > 0
      invariant k <= n
      invariant DecryptRounds(inv, EncryptRounds(sbox, p, rks, n), rks, n)
             == DecryptRounds(inv, EncryptRounds(sbox, p, rks, k), rks, k)
    {
      PeelRound(inv, sbox, p, rks, k);
      k := k - 1;
    }
    NoRounds(inv, sbox, p, rks);
  }

  /** Round key for constant rc from tweakey word tk: rows 0 and 1 of tk, with the low
      four bits of rc added to cell 0 and bits 4 and 5 of rc to cell 4. */
  function RoundKey(rc: byte, tk: seq<byte>): (rk: seq<byte>)
    requires |tk| == 16
    ensures |rk| == 8
  {
    [XorByte(tk[0], rc % 16), tk[1], tk[2], tk[3],
     XorByte(tk[4], (rc / 16) % 4), tk[5], tk[6], tk[7]]
  }

  /** The round keys of the first n rounds, eight bytes each; round i uses constant rcs[i]
      and the key permuted i times by PT. */
  function KeySchedule(rcs: seq<byte>, key: seq<byte>, n: nat): (rks: seq<byte>)
    requires |key| == 16 && n <= |rcs|
    ensures |rks| == 8 * n
  {
    if n == 0 then [] else KeySchedule(rcs, key, n - 1) + RoundKey(rcs[n - 1], Tweakey(key, n - 1))
  }

  /** Round key i of the schedule is built from constant i and the key after i permutations;
      later rounds do not change it. */
  lemma {:induction false} KeyScheduleAt(rcs: seq<byte>, key: seq<byte>, n: nat, i: nat)
    requires |key| == 16 && n <= |rcs| && i < n
    ensures RoundKeyAt(KeySchedule(rcs, key, n), i) == RoundKey(rcs[i], Tweakey(key, i))
  {
    var prev, last := KeySchedule(rcs, key, n - 1), RoundKey(rcs[n - 1], Tweakey(key, n - 1));
    assert KeySchedule(rcs, key, n) == prev + last;
    if i < n - 1 {
      KeyScheduleAt(rcs, key, n - 1, i);
      SliceOfPrefix(prev, last, i);
    } else {
      SliceOfSuffix(prev, last, i);
    }
  }

  /** Eight bytes inside a prefix are read from the prefix ... */
  lemma SliceOfPrefix(a: seq<byte>, b: seq<byte>, i: nat)
    requires 8 * i + 8 <= |a|
    ensures (a + b)[8 * i .. 8 * i + 8] == a[8 * i .. 8 * i + 8]
  {
  }

  /** ... and the eight bytes appended follow the prefix. */
  lemma SliceOfSuffix(a: seq<byte>, b: seq<byte>, i: nat)
    requires |a| == 8 * i && |b| == 8
    ensures (a + b)[8 * i .. 8 * i + 8] == b
  {
  }

  /** The round key reads rows 0 and 1 of the tweakey word only. */
  lemma RoundKeyReadsTopRows(rc: byte, tk: seq<byte>, tk': seq<byte>)
    requires |tk| == 16 && |tk'| == 16 && tk[..8] == tk'[..8]
    ensures RoundKey(rc, tk) == RoundKey(rc, tk')
  {
    assert forall i :: 0 <= i < 8 ==> tk[i] == tk[..8][i] == tk'[i];
  }

  /** SKINNY's AddConstants: c0 = rc & 0xf into cell 0, c1 = rc >> 4 into cell 4,
      c2 = 0x2 into cell 8 (rc is a six-bit constant). */
  function AddConstants(s: seq<byte>, rc: byte): (r: seq<byte>)
    requires |s| == 16 && rc < 64
    ensures |r| == 16
  {
    s[0 := XorByte(s[0], rc % 16)][4 := XorByte(s[4], rc / 16)][8 := XorByte(s[8], 2)]
  }

  /** SKINNY's AddRoundTweakey for one tweakey word: rows 0 and 1 of tk into rows 0 and 1. */
  function AddRoundTweakey(s: seq<byte>, tk: seq<byte>): (r: seq<byte>)
    requires |s| == 16 && |tk| == 16
    ensures |r| == 16
  {
    seq(16, i requires 0 <= i < 16 => if i < 8 then XorByte(s[i], tk[i]) else s[i])
  }

  /** A round as the cipher definition states it: SubCells, AddConstants, AddRoundTweakey,
      ShiftRows, MixColumns. */
  function SkinnyRound(sbox: seq<byte>, s: seq<byte>, rc: byte, tk: seq<byte>): (r: seq<byte>)
    requires |sbox| == 256 && |s| == 16 && rc < 64 && |tk| == 16
    ensures |r| == 16
  {
    MixColumns(ShiftRows(AddRoundTweakey(AddConstants(SubCells(sbox, s), rc), tk)))
  }

  /** n rounds of the cipher definition; the tweakey word moves on by PT each round. */
  function Skinny(sbox: seq<byte>, rcs: seq<byte>, key: seq<byte>, p: seq<byte>, n: nat): (c: seq<byte>)
    requires |sbox| == 256 && |key| == 16 && |p| == 16 && n <= |rcs|
    requires forall i :: 0 <= i < |rcs| ==> rcs[i] < 64
    ensures |c| == 16
  {
    if n == 0 then p else SkinnyRound(sbox, Skinny(sbox, rcs, key, p, n - 1), rcs[n - 1], Tweakey(key, n - 1))
  }

  /** Folding a six-bit constant into the round key is the same as adding it to the state. */
  lemma RoundKeyFoldsConstants(s: seq<byte>, rc: byte, tk: seq<byte>)
    requires |s| == 16 && rc < 64 && |tk| == 16
    ensures AddRoundKey(s, RoundKey(rc, tk)) == AddRoundTweakey(AddConstants(s, rc), tk)
  {
    assert (rc / 16) % 4 == rc / 16;
    XorAssoc(s[0], tk[0], rc % 16);
    XorComm(tk[0], rc % 16);
    XorAssoc(s[0], rc % 16, tk[0]);
    XorAssoc(s[4], tk[4], rc / 16);
    XorComm(tk[4], rc / 16);
    XorAssoc(s[4], rc / 16, tk[4]);
    var a := AddRoundKey(s, RoundKey(rc, tk));
    var b := AddRoundTweakey(AddConstants(s, rc), tk);
    Equal16(a, b);
  }

  /** Encrypting with the stored key schedule is the cipher as defined: the AVR split of
      constants into the round keys changes nothing. */
  lemma ScheduleThenEncrypt(sbox: seq<byte>, rcs: seq<byte>, key: seq<byte>, p: seq<byte>, m: nat, n: nat)
    requires |sbox| == 256 && |key| == 16 && |p| == 16 && n <= m <= |rcs|
    requires forall i :: 0 <= i < |rcs| ==> rcs[i] < 64
    ensures EncryptRounds(sbox, p, KeySchedule(rcs, key, m), n) == Skinny(sbox, rcs, key, p, n)
  {
    var rks := KeySchedule(rcs, key, m);
    var i := 0;
    while i < n
      invariant i <= n
      invariant EncryptRounds(sbox, p, rks, i) == Skinny(sbox, rcs, key, p, i)
    {
      KeyScheduleAt(rcs, key, m, i);
      ScheduleRound(sbox, Skinny(sbox, rcs, key, p, i), rcs[i], Tweakey(key, i));
      i := i + 1;
    }
  }

  /** One round with the stored round key is one round of the cipher definition. */
  lemma ScheduleRound(sbox: seq<byte>, s: seq<byte>, rc: byte, tk: seq<byte>)
    requires |sbox| == 256 && |s| == 16 && rc < 64 && |tk| == 16
    ensures EncRound(sbox, s, RoundKey(rc, tk)) == SkinnyRound(sbox, s, rc, tk)
  {
    RoundKeyFoldsConstants(SubCells(sbox, s), rc, tk);
  }
}
