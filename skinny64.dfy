/** SKINNY-64-128 as the AVR and MSP430 routines compute it.  The state is eight bytes,
    row r in bytes 2r and 2r + 1, each byte holding two four-bit cells (Nibbles).  The
    S-box is a 256-byte table applied to whole bytes (a parameter); ShiftRows and PT act
    on cells and are stated through Unpack and Pack; MixColumns and the round-key
    addition are exclusive ors of whole bytes.  The round constants are folded into the
    stored four-byte round keys by the key schedule, which combines the two tweakey
    words TK1 and TK2. */
module Skinny64 {
  import opened Bits
  import opened Nibbles
  import Grid
  import Skinny128

  /** Every byte of the state through the 256-entry table t. */
  function SubBytes(t: seq<byte>, s: seq<byte>): (r: seq<byte>)
    requires |t| == 256 && |s| == 8
    ensures |r| == 8
  {
    seq(8, j requires 0 <= j < 8 => t[s[j]])
  }

  /** The four round-key bytes into rows 0 and 1, the constant 0x02 into cell 8 (the
      low nibble of byte 4). */
  function AddRoundKey(s: seq<byte>, rk: seq<byte>): (r: seq<byte>)
    requires |s| == 8 && |rk| == 4
    ensures |r| == 8
  {
    seq(8, j requires 0 <= j < 8 =>
      if j < 4 then XorByte(s[j], rk[j]) else if j == 4 then XorByte(s[4], 2) else s[j])
  }

  /** Row r of the cells rotated right by r cells: row 1 turns right by one cell
      across its two bytes, row 2 exchanges its bytes, row 3 turns left by one cell. */
  function ShiftRows(s: seq<byte>): (r: seq<byte>)
    requires |s| == 8
    ensures |r| == 8
  {
    [s[0], s[1], Join(Hi(s[3]), Lo(s[2])), Join(Hi(s[2]), Lo(s[3])),
     s[5], s[4], Join(Hi(s[6]), Lo(s[7])), Join(Hi(s[7]), Lo(s[6]))]
  }

  /** Row r of the cells rotated left by r cells: row 1 turns left by one cell, row 2
      exchanges its bytes, row 3 turns right by one cell. */
  function InvShiftRows(s: seq<byte>): (r: seq<byte>)
    requires |s| == 8
    ensures |r| == 8
  {
    [s[0], s[1], Join(Hi(s[2]), Lo(s[3])), Join(Hi(s[3]), Lo(s[2])),
     s[5], s[4], Join(Hi(s[7]), Lo(s[6])), Join(Hi(s[6]), Lo(s[7]))]
  }

  /** Rows (x0, x1, x2, x3), two bytes each, become (x3 ^ x2 ^ x0, x0, x1 ^ x2, x2 ^ x0). */
  function MixColumns(s: seq<byte>): (r: seq<byte>)
    requires |s| == 8
    ensures |r| == 8
  {
    seq(8, j requires 0 <= j < 8 =>
      if j < 2 then XorByte(s[j + 6], XorByte(s[j + 4], s[j]))
      else if j < 4 then s[j - 2]
      else if j < 6 then XorByte(s[j - 2], s[j])
      else XorByte(s[j - 2], s[j - 6]))
  }

  /** Rows (o0, o1, o2, o3) become (o1, o2 ^ o3 ^ o1, o3 ^ o1, o0 ^ o3). */
  function InvMixColumns(s: seq<byte>): (r: seq<byte>)
    requires |s| == 8
    ensures |r| == 8
  {
    seq(8, j requires 0 <= j < 8 =>
      if j < 2 then s[j + 2]
      else if j < 4 then XorByte(s[j + 2], XorByte(s[j + 4], s[j]))
      else if j < 6 then XorByte(s[j + 2], s[j - 2])
      else XorByte(s[j - 6], s[j]))
  }

  /** ShiftRows is the cell permutation of the cipher definition, on packed cells. */
  lemma ShiftRowsCells(s: seq<byte>)
    requires |s| == 8
    ensures ShiftRows(s) == Pack(Grid.ShiftRows(Unpack(s)))
  {
    UnpackCells(s);
    Grid.ShiftRowsCells(Unpack(s));
    PackCells(Grid.ShiftRows(Unpack(s)));
    JoinParts(s[0]);
    JoinParts(s[1]);
    JoinParts(s[4]);
    JoinParts(s[5]);
  }

  /** InvShiftRows is its inverse permutation, on packed cells. */
  lemma InvShiftRowsCells(s: seq<byte>)
    requires |s| == 8
    ensures InvShiftRows(s) == Pack(Grid.InvShiftRows(Unpack(s)))
  {
    UnpackCells(s);
    Grid.InvShiftRowsCells(Unpack(s));
    PackCells(Grid.InvShiftRows(Unpack(s)));
    JoinParts(s[0]);
    JoinParts(s[1]);
    JoinParts(s[4]);
    JoinParts(s[5]);
  }

  lemma ShiftRowsInverse(s: seq<byte>)
    requires |s| == 8
    ensures InvShiftRows(ShiftRows(s)) == s
    ensures ShiftRows(InvShiftRows(s)) == s
  {
    JoinParts(s[2]);
    JoinParts(s[3]);
    JoinParts(s[6]);
    JoinParts(s[7]);
  }

  /** ShiftRows and InvShiftRows differ on every state whose cells 5 and 7 differ:
      cell 4 comes from cell 7 one way and from cell 5 the other. */
  lemma ShiftRowsNotInverse(s: seq<byte>)
    requires |s| == 8 && Hi(s[3]) != Hi(s[2])
    ensures ShiftRows(s) != InvShiftRows(s)
  {
    assert ShiftRows(s)[2] != InvShiftRows(s)[2];
  }

  lemma MixColumnsInverse(s: seq<byte>)
    requires |s| == 8
    ensures InvMixColumns(MixColumns(s)) == s
  {
    Skinny128.MixColumn(s[0], s[2], s[4], s[6]);
    Skinny128.MixColumn(s[1], s[3], s[5], s[7]);
    MixColumnsCells(s);
    InvMixColumnsCells(MixColumns(s));
    Equal8(InvMixColumns(MixColumns(s)), s);
  }

  lemma InvMixColumnsInverse(s: seq<byte>)
    requires |s| == 8
    ensures MixColumns(InvMixColumns(s)) == s
  {
    Skinny128.InvMixColumn(s[0], s[2], s[4], s[6]);
    Skinny128.InvMixColumn(s[1], s[3], s[5], s[7]);
    InvMixColumnsCells(s);
    MixColumnsCells(InvMixColumns(s));
    Equal8(MixColumns(InvMixColumns(s)), s);
  }

  /** MixColumns and InvMixColumns byte by byte. */
  lemma MixColumnsCells(s: seq<byte>)
    requires |s| == 8
    ensures MixColumns(s) ==
      [XorByte(s[6], XorByte(s[4], s[0])), XorByte(s[7], XorByte(s[5], s[1])), s[0], s[1],
       XorByte(s[2], s[4]), XorByte(s[3], s[5]), XorByte(s[4], s[0]), XorByte(s[5], s[1])]
  {
    Equal8(MixColumns(s),
      [XorByte(s[6], XorByte(s[4], s[0])), XorByte(s[7], XorByte(s[5], s[1])), s[0], s[1],
       XorByte(s[2], s[4]), XorByte(s[3], s[5]), XorByte(s[4], s[0]), XorByte(s[5], s[1])]);
  }

  lemma InvMixColumnsCells(s: seq<byte>)
    requires |s| == 8
    ensures InvMixColumns(s) ==
      [s[2], s[3], XorByte(s[4], XorByte(s[6], s[2])), XorByte(s[5], XorByte(s[7], s[3])),
       XorByte(s[6], s[2]), XorByte(s[7], s[3]), XorByte(s[0], s[6]), XorByte(s[1], s[7])]
  {
    Equal8(InvMixColumns(s),
      [s[2], s[3], XorByte(s[4], XorByte(s[6], s[2])), XorByte(s[5], XorByte(s[7], s[3])),
       XorByte(s[6], s[2]), XorByte(s[7], s[3]), XorByte(s[0], s[6]), XorByte(s[1], s[7])]);
  }

  /** Two eight-byte sequences that agree byte by byte are equal. */
  lemma Equal8<T>(a: seq<T>, b: seq<T>)
    requires |a| == 8 && |b| == 8
    requires a[0] == b[0] && a[1] == b[1] && a[2] == b[2] && a[3] == b[3]
    requires a[4] == b[4] && a[5] == b[5] && a[6] == b[6] && a[7] == b[7]
    ensures a == b
  {
    forall i | 0 <= i < 8 ensures a[i] == b[i] {
    }
  }

  lemma AddRoundKeyInvolution(s: seq<byte>, rk: seq<byte>)
    requires |s| == 8 && |rk| == 4
    ensures AddRoundKey(AddRoundKey(s, rk), rk) == s
  {
    forall j | 0 <= j < 4 ensures AddRoundKey(AddRoundKey(s, rk), rk)[j] == s[j] {
      XorCancel(s[j], rk[j]);
    }
    XorCancel(s[4], 2);
  }

  lemma SubBytesInverse(inv: seq<byte>, sbox: seq<byte>, s: seq<byte>)
    requires Skinny128.Inverts(inv, sbox) && |s| == 8
    ensures SubBytes(inv, SubBytes(sbox, s)) == s
  {
  }

  /** One encryption round with round key rk. */
  function EncRound(sbox: seq<byte>, s: seq<byte>, rk: seq<byte>): (r: seq<byte>)
    requires |sbox| == 256 && |s| == 8 && |rk| == 4
    ensures |r| == 8
  {
    MixColumns(ShiftRows(AddRoundKey(SubBytes(sbox, s), rk)))
  }

  /** One decryption round with round key rk: the steps of EncRound undone in reverse. */
  function DecRound(inv: seq<byte>, s: seq<byte>, rk: seq<byte>): (r: seq<byte>)
    requires |inv| == 256 && |s| == 8 && |rk| == 4
    ensures |r| == 8
  {
    SubBytes(inv, AddRoundKey(InvShiftRows(InvMixColumns(s)), rk))
  }

  lemma DecRoundInverts(inv: seq<byte>, sbox: seq<byte>, s: seq<byte>, rk: seq<byte>)
    requires Skinny128.Inverts(inv, sbox) && |s| == 8 && |rk| == 4
    ensures DecRound(inv, EncRound(sbox, s, rk), rk) == s
  {
    var t := AddRoundKey(SubBytes(sbox, s), rk);
    MixColumnsInverse(ShiftRows(t));
    ShiftRowsInverse(t);
    AddRoundKeyInvolution(SubBytes(sbox, s), rk);
    SubBytesInverse(inv, sbox, s);
  }

  /** Round key i of a flat round-key buffer: bytes 4i .. 4i+3. */
  function RoundKeyAt(rks: seq<byte>, i: nat): (rk: seq<byte>)
    requires 4 * i + 4 <= |rks|
    ensures |rk| == 4
  {
    rks[4 * i .. 4 * i + 4]
  }

  /** n rounds, round i using round key i. */
  function EncryptRounds(sbox: seq<byte>, s: seq<byte>, rks: seq<byte>, n: nat): (r: seq<byte>)
    requires |sbox| == 256 && |s| == 8 && 4 * n <= |rks|
    ensures |r| == 8
  {
    if n == 0 then s else EncRound(sbox, EncryptRounds(sbox, s, rks, n - 1), RoundKeyAt(rks, n - 1))
  }

  /** n decryption rounds taking the round keys from the last, n - 1, down to the first. */
  function DecryptRounds(inv: seq<byte>, s: seq<byte>, rks: seq<byte>, n: nat): (r: seq<byte>)
    requires |inv| == 256 && |s| == 8 && 4 * n <= |rks|
    ensures |r| == 8
    decreases n
  {
    if n == 0 then s else DecryptRounds(inv, DecRound(inv, s, RoundKeyAt(rks, n - 1)), rks, n - 1)
  }

  /** One decryption round peeled off the front: if n = k + 1 rounds from x reach
      goal, then k rounds reach it from the round undone with round key k. */
  lemma {:induction false} DecryptRoundsStep(inv: seq<byte>, x: seq<byte>, rks: seq<byte>, n: nat, k: nat, goal: seq<byte>)
    requires |inv| == 256 && |x| == 8 && 4 * n <= |rks| && n == k + 1
    requires DecryptRounds(inv, x, rks, n) == goal
    ensures DecryptRounds(inv, DecRound(inv, x, RoundKeyAt(rks, k)), rks, k) == goal
  {
    DecryptRoundsUnfold(inv, x, rks, k);
  }

  lemma DecryptRoundsUnfold(inv: seq<byte>, x: seq<byte>, rks: seq<byte>, k: nat)
    requires |inv| == 256 && |x| == 8 && 4 * k + 4 <= |rks|
    ensures DecryptRounds(inv, x, rks, k + 1) == DecryptRounds(inv, DecRound(inv, x, RoundKeyAt(rks, k)), rks, k)
  {
  }

  /** k rounds of decryption applied to k rounds of encryption of p. */
  function Trip(inv: seq<byte>, sbox: seq<byte>, p: seq<byte>, rks: seq<byte>, k: nat): seq<byte>
    requires |inv| == 256 && |sbox| == 256 && |p| == 8 && 4 * k <= |rks|
  {
    DecryptRounds(inv, EncryptRounds(sbox, p, rks, k), rks, k)
  }

  /** Decrypting k rounds of ciphertext peels off the last encryption round. */
  lemma PeelRound(inv: seq<byte>, sbox: seq<byte>, p: seq<byte>, rks: seq<byte>, k: nat)
    requires Skinny128.Inverts(inv, sbox) && |p| == 8 && 0 < k && 4 * k <= |rks|
    ensures Trip(inv, sbox, p, rks, k) == Trip(inv, sbox, p, rks, k - 1)
  {
    var e, rk := EncryptRounds(sbox, p, rks, k - 1), RoundKeyAt(rks, k - 1);
    DecRoundInverts(inv, sbox, e, rk);
  }

  /** Decryption with the same round keys, last to first, gives back the plaintext. */
  lemma RoundTrip(inv: seq<byte>, sbox: seq<byte>, p: seq<byte>, rks: seq<byte>, n: nat)
    requires Skinny128.Inverts(inv, sbox) && |p| == 8 && 4 * n <= |rks|
    ensures DecryptRounds(inv, EncryptRounds(sbox, p, rks, n), rks, n) == p
  {
    var k: nat := n;
    while k > 0
      invariant k <= n
      invariant Trip(inv, sbox, p, rks, n) == Trip(inv, sbox, p, rks, k)
    {
      PeelRound(inv, sbox, p, rks, k);
      k := k - 1;
    }
    assert Trip(inv, sbox, p, rks, 0) == p;
  }

  /** PT on a packed tweakey word: the new rows 0 and 1 are cells (9, 15, 8, 13) and
      (10, 14, 12, 11) of the old word, whose rows 0 and 1 move down to rows 2 and 3. */
  function Permute(tk: seq<byte>): (r: seq<byte>)
    requires |tk| == 8
    ensures |r| == 8
  {
    [Join(Hi(tk[4]), Hi(tk[7])), Join(Lo(tk[4]), Hi(tk[6])),
     Join(Lo(tk[5]), Lo(tk[7])), Join(Lo(tk[6]), Hi(tk[5])),
     tk[0], tk[1], tk[2], tk[3]]
  }

  /** The inverse cell permutation. */
  function InvPermute(tk: seq<byte>): (r: seq<byte>)
    requires |tk| == 8
    ensures |r| == 8
  {
    [tk[4], tk[5], tk[6], tk[7],
     Join(Lo(tk[1]), Lo(tk[0])), Join(Lo(tk[2]), Hi(tk[3])),
     Join(Lo(tk[3]), Hi(tk[1])), Join(Hi(tk[2]), Hi(tk[0]))]
  }

  /** Permute is PT of the cipher definition, new cell i = old cell PT[i], on packed cells. */
  lemma PermuteCells(tk: seq<byte>)
    requires |tk| == 8
    ensures Permute(tk) == Pack(Grid.PassPT(Unpack(tk)))
  {
    UnpackCells(tk);
    PackCells(Grid.PassPT(Unpack(tk)));
    JoinParts(tk[0]);
    JoinParts(tk[1]);
    JoinParts(tk[2]);
    JoinParts(tk[3]);
  }

  lemma PermuteInverse(tk: seq<byte>)
    requires |tk| == 8
    ensures InvPermute(Permute(tk)) == tk
    ensures Permute(InvPermute(tk)) == tk
  {
    JoinParts(tk[0]);
    JoinParts(tk[1]);
    JoinParts(tk[2]);
    JoinParts(tk[3]);
    JoinParts(tk[4]);
    JoinParts(tk[5]);
    JoinParts(tk[6]);
    JoinParts(tk[7]);
  }

  /** Permute only rearranges cells: none is lost or duplicated. */
  lemma PermuteMultiset(tk: seq<byte>)
    requires |tk| == 8
    ensures multiset(Unpack(Permute(tk))) == multiset(Unpack(tk))
  {
    PermuteCells(tk);
    UnpackPack(Grid.PassPT(Unpack(tk)));
    Grid.PassPTMultiset(Unpack(tk));
  }

  /** The TK2 LFSR on one cell: bits (x3, x2, x1, x0) become (x2, x1, x0, x3 ^ x2), that
      is, the cell doubled, its top bit dropped, and x3 ^ x2 as the new bit 0. */
  function Lfsr(x: nibble): nibble
  {
    if x < 4 then 2 * x else if x < 8 then 2 * x + 1 else if x < 12 then 2 * x - 15 else 2 * x - 16
  }

  /** Its inverse: (y3, y2, y1, y0) becomes (y0 ^ y3, y3, y2, y1). */
  function LfsrInv(y: nibble): nibble
  {
    if y < 8 then (if y % 2 == 0 then y / 2 else y / 2 + 8)
    else (if y % 2 == 0 then y / 2 + 8 else y / 2)
  }

  /** Lfsr bit by bit: bits 2 to 0 move up one place and bit 0 is bit 3 ^ bit 2. */
  lemma LfsrBitsOf(x: nibble)
    ensures Lfsr(x) / 2 == x % 8 && Lfsr(x) % 2 == Diff(x / 8, x / 4 % 2)
  {
  }

  lemma LfsrInverse(x: nibble)
    ensures LfsrInv(Lfsr(x)) == x
    ensures Lfsr(LfsrInv(x)) == x
  {
  }

  /** The LFSR on both cells of a byte, each cell on its own. */
  function LfsrByte(b: byte): (r: byte)
    ensures Lo(r) == Lfsr(Lo(b)) && Hi(r) == Lfsr(Hi(b))
  {
    Join(Lfsr(Lo(b)), Lfsr(Hi(b)))
  }

  /** Distinct bytes stay distinct under the LFSR. */
  lemma LfsrByteInjective(a: byte, b: byte)
    requires LfsrByte(a) == LfsrByte(b)
    ensures a == b
  {
    LfsrInverse(Lo(a));
    LfsrInverse(Lo(b));
    LfsrInverse(Hi(a));
    LfsrInverse(Hi(b));
    JoinParts(a);
    JoinParts(b);
  }

  /** A cell moved down one bit where the LFSR moves it up: bits 3 and 2 of x go to bits
      2 and 1, bit 0 of the cell above (0 for the high cell of a byte) to bit 3, and
      x3 ^ x2 to bit 0. */
  function LfsrDown(x: nibble, above: nibble): nibble
  {
    8 * (above % 2) + 2 * (x / 4) + Diff(x / 8, x / 4 % 2)
  }

  /** What the LFSR code computes with `lsr` where a left shift belongs. */
  function LfsrByteAsWritten(b: byte): byte
  {
    Join(LfsrDown(Lo(b), Hi(b)), LfsrDown(Hi(b), 0))
  }

  /** As written, bit 3 of the new low cell is bit 0 of the high cell, where the LFSR of
      the low cell puts its own bit 2. */
  lemma LfsrAsWrittenLeaks(b: byte)
    ensures Lo(LfsrByteAsWritten(b)) / 8 == Hi(b) % 2
    ensures Lfsr(Lo(b)) / 8 == Lo(b) / 4 % 2
  {
    DownTop(Lo(b), Hi(b));
    LfsrTop(Lo(b));
  }

  /** The top bit of a cell shifted down is the bit brought in from above. */
  lemma DownTop(x: nibble, above: nibble)
    ensures LfsrDown(x, above) / 8 == above % 2
  {
    assert 2 * (x / 4) + Diff(x / 8, x / 4 % 2) < 8;
  }

  /** The top bit of a clocked cell is the cell's own bit 2. */
  lemma LfsrTop(x: nibble)
    ensures Lfsr(x) / 8 == x / 4 % 2
  {
  }

  /** As written, bits 0 and 1 of the low cell never reach the result, so four bytes share
      each image. */
  lemma LfsrAsWrittenLoses(b: byte)
    ensures LfsrByteAsWritten(b) == LfsrByteAsWritten(Join(Lo(b) / 4 * 4, Hi(b)))
  {
    var l := Lo(b) / 4 * 4;
    assert l / 4 == Lo(b) / 4;
  }

  /** The LFSR applied to one byte: the code as written, or as intended. */
  function Clock(b: byte, asWritten: bool): byte
  {
    if asWritten then LfsrByteAsWritten(b) else LfsrByte(b)
  }

  /** The LFSR on rows 0 and 1 (bytes 0 to 3) of a packed tweakey word. */
  function LfsrRows(tk: seq<byte>, asWritten: bool): (r: seq<byte>)
    requires |tk| == 8
    ensures |r| == 8
  {
    [Clock(tk[0], asWritten), Clock(tk[1], asWritten), Clock(tk[2], asWritten), Clock(tk[3], asWritten),
     tk[4], tk[5], tk[6], tk[7]]
  }

  /** The intended LFSR clocks every cell of rows 0 and 1 on its own and leaves rows 2
      and 3 alone. */
  lemma LfsrRowsCells(tk: seq<byte>)
    requires |tk| == 8
    ensures Unpack(LfsrRows(tk, false)) ==
      seq(16, i requires 0 <= i < 16 => if i < 8 then Lfsr(Unpack(tk)[i]) else Unpack(tk)[i])
  {
    UnpackCells(tk);
    UnpackCells(LfsrRows(tk, false));
  }

  /** TK2 from one round to the next: PT, then the LFSR on rows 0 and 1. */
  function Tk2Step(tk: seq<byte>, asWritten: bool): (r: seq<byte>)
    requires |tk| == 8
    ensures |r| == 8
  {
    LfsrRows(Permute(tk), asWritten)
  }

  /** The intended TK2 update loses nothing: distinct words stay distinct. */
  lemma Tk2StepInjective(a: seq<byte>, b: seq<byte>)
    requires |a| == 8 && |b| == 8 && Tk2Step(a, false) == Tk2Step(b, false)
    ensures a == b
  {
    var pa, pb := Permute(a), Permute(b);
    assert LfsrRows(pa, false)[0] == LfsrRows(pb, false)[0];
    assert LfsrRows(pa, false)[1] == LfsrRows(pb, false)[1];
    assert LfsrRows(pa, false)[2] == LfsrRows(pb, false)[2];
    assert LfsrRows(pa, false)[3] == LfsrRows(pb, false)[3];
    LfsrByteInjective(pa[0], pb[0]);
    LfsrByteInjective(pa[1], pb[1]);
    LfsrByteInjective(pa[2], pb[2]);
    LfsrByteInjective(pa[3], pb[3]);
    assert pa == pb;
    PermuteInverse(a);
    PermuteInverse(b);
  }

  /** The TK2 update as written merges distinct words: bits 0 and 1 of cell 8 (the low
      cell of byte 4), which PT moves to the low cell of byte 1, never reach the result. */
  lemma Tk2StepAsWrittenLoses(tk: seq<byte>)
    requires |tk| == 8
    ensures var tk' := tk[4 := Join(Lo(tk[4]) / 4 * 4, Hi(tk[4]))];
      Tk2Step(tk', true) == Tk2Step(tk, true) && (Lo(tk[4]) % 4 != 0 ==> tk' != tk)
  {
    var tk' := tk[4 := Join(Lo(tk[4]) / 4 * 4, Hi(tk[4]))];
    var p, p' := Permute(tk), Permute(tk');
    LfsrAsWrittenLoses(p[1]);
    assert LfsrByteAsWritten(p'[1]) == LfsrByteAsWritten(p[1]);
    assert p'[0] == p[0];
    var r, r' := LfsrRows(p, true), LfsrRows(p', true);
    assert r'[0] == r[0] && r'[1] == r[1] && r'[2] == r[2] && r'[3] == r[3];
    assert r'[4] == r[4] && r'[5] == r[5] && r'[6] == r[6] && r'[7] == r[7];
    if Lo(tk[4]) % 4 != 0 {
      assert Lo(tk'[4]) != Lo(tk[4]);
    }
  }

  /** TK1 after n rounds: n passes of PT. */
  function Tk1At(tk1: seq<byte>, n: nat): (r: seq<byte>)
    requires |tk1| == 8
    ensures |r| == 8
  {
    if n == 0 then tk1 else Permute(Tk1At(tk1, n - 1))
  }

  /** TK2 after n rounds. */
  function Tk2At(tk2: seq<byte>, n: nat, asWritten: bool): (r: seq<byte>)
    requires |tk2| == 8
    ensures |r| == 8
  {
    if n == 0 then tk2 else Tk2Step(Tk2At(tk2, n - 1, asWritten), asWritten)
  }

  /** TK1 after n rounds holds the cells of the tweakey word after n passes of PT. */
  lemma Tk1AtCells(tk1: seq<byte>, n: nat)
    requires |tk1| == 8
    ensures Unpack(Tk1At(tk1, n)) == Grid.Tweakey(Unpack(tk1), n)
  {
    var k := 0;
    while k < n
      invariant k <= n
      invariant Unpack(Tk1At(tk1, k)) == Grid.Tweakey(Unpack(tk1), k)
    {
      PermuteCells(Tk1At(tk1, k));
      UnpackPack(Grid.PassPT(Unpack(Tk1At(tk1, k))));
      k := k + 1;
    }
  }

  /** Every sixteen rounds TK1 is back where it started. */
  lemma Tk1Period(tk1: seq<byte>, n: nat)
    requires |tk1| == 8 && n % 16 == 0
    ensures Tk1At(tk1, n) == tk1
  {
    Tk1AtCells(tk1, n);
    Grid.TweakeyPeriod(Unpack(tk1), n);
    PackUnpack(Tk1At(tk1, n));
    PackUnpack(tk1);
  }

  /** The round key for constant rc: rows 0 and 1 of TK1 ^ TK2, with the low four bits
      of rc added to byte 0 (cell 0) and bits 4 and 5 to byte 2 (cell 4). */
  function RoundKey(rc: byte, tk1: seq<byte>, tk2: seq<byte>): (rk: seq<byte>)
    requires |tk1| == 8 && |tk2| == 8
    ensures |rk| == 4
  {
    [XorByte(XorByte(tk1[0], rc % 16), tk2[0]), XorByte(tk1[1], tk2[1]),
     XorByte(XorByte(tk1[2], rc / 16 % 4), tk2[2]), XorByte(tk1[3], tk2[3])]
  }

  /** SKINNY-64's AddConstants on the sixteen cells: c0 = rc & 0xf into cell 0,
      c1 = rc >> 4 into cell 4, c2 = 0x2 into cell 8 (rc is a six-bit constant). */
  function AddConstants(c: seq<nibble>, rc: byte): (r: seq<nibble>)
    requires |c| == 16 && rc < 64
    ensures |r| == 16
  {
    c[0 := XorNibble(c[0], rc % 16)][4 := XorNibble(c[4], rc / 16)][8 := XorNibble(c[8], 2)]
  }

  /** SKINNY-64's AddRoundTweakey with two tweakey words: rows 0 and 1 of TK1 and of TK2
      into rows 0 and 1 of the cells. */
  function AddRoundTweakey(c: seq<nibble>, t1: seq<nibble>, t2: seq<nibble>): (r: seq<nibble>)
    requires |c| == 16 && |t1| == 16 && |t2| == 16
    ensures |r| == 16
  {
    seq(16, i requires 0 <= i < 16 => if i < 8 then XorNibble(XorNibble(c[i], t1[i]), t2[i]) else c[i])
  }

  /** A constant added before the two tweakey words or inside the first of them is the
      same exclusive or. */
  lemma XorRearrange(x: nat, k: nat, a: nat, b: nat)
    ensures Xor(x, Xor(Xor(a, k), b)) == Xor(Xor(Xor(x, k), a), b)
  {
    XorComm(a, k);
    XorAssoc(k, a, b);
    XorAssoc(x, k, Xor(a, b));
    XorAssoc(Xor(x, k), a, b);
  }

  /** The two cells of a state byte after adding a round-key byte that holds the constant
      k in its low nibble. */
  lemma KeyByteCells(x: byte, k: nibble, a: byte, b: byte)
    ensures Lo(XorByte(x, XorByte(XorByte(a, k), b))) == XorNibble(XorNibble(XorNibble(Lo(x), k), Lo(a)), Lo(b))
    ensures Hi(XorByte(x, XorByte(XorByte(a, k), b))) == XorNibble(XorNibble(Hi(x), Hi(a)), Hi(b))
  {
    XorParts(a, k);
    XorParts(XorByte(a, k), b);
    XorParts(x, XorByte(XorByte(a, k), b));
    XorRearrange(Lo(x), k, Lo(a), Lo(b));
    XorZero(Hi(a));
    XorAssoc(Hi(x), Hi(a), Hi(b));
  }

  /** Folding the constants into the stored round key is the same as SKINNY-64's
      AddConstants followed by AddRoundTweakey with TK1 and TK2, cell by cell. */
  lemma RoundKeyFoldsConstants(s: seq<byte>, rc: byte, tk1: seq<byte>, tk2: seq<byte>)
    requires |s| == 8 && rc < 64 && |tk1| == 8 && |tk2| == 8
    ensures Unpack(AddRoundKey(s, RoundKey(rc, tk1, tk2)))
         == AddRoundTweakey(AddConstants(Unpack(s), rc), Unpack(tk1), Unpack(tk2))
  {
    var a := Unpack(AddRoundKey(s, RoundKey(rc, tk1, tk2)));
    var b := AddRoundTweakey(AddConstants(Unpack(s), rc), Unpack(tk1), Unpack(tk2));
    forall j | 0 <= j < 8
      ensures a[2 * j] == b[2 * j] && a[2 * j + 1] == b[2 * j + 1]
    {
      if j < 4 {
        FoldedKeyByte(s, rc, tk1, tk2, j);
      } else {
        FoldedStateByte(s, rc, tk1, tk2, j);
      }
    }
    SameCells(a, b);
  }

  /** Sixteen cells that agree byte by byte are equal. */
  lemma SameCells(a: seq<nibble>, b: seq<nibble>)
    requires |a| == 16 && |b| == 16
    requires forall j | 0 <= j < 8 :: a[2 * j] == b[2 * j] && a[2 * j + 1] == b[2 * j + 1]
    ensures a == b
  {
    forall i | 0 <= i < 16
      ensures a[i] == b[i]
    {
      var j := i / 2;
      assert i == 2 * j || i == 2 * j + 1;
    }
  }

  /** SKINNY-64's MixColumns on the sixteen cells: rows (x0, x1, x2, x3) become
      (x3 ^ x2 ^ x0, x0, x1 ^ x2, x2 ^ x0), column by column. */
  function MixCells(c: seq<nibble>): (r: seq<nibble>)
    requires |c| == 16
    ensures |r| == 16
  {
    seq(16, i requires 0 <= i < 16 =>
      if i < 4 then XorNibble(c[i + 12], XorNibble(c[i + 8], c[i]))
      else if i < 8 then c[i - 4]
      else if i < 12 then XorNibble(c[i - 4], c[i])
      else XorNibble(c[i - 4], c[i - 12]))
  }

  /** The byte-level MixColumns is MixCells on the unpacked cells. */
  lemma MixColumnsOnCells(x: seq<byte>)
    requires |x| == 8
    ensures Unpack(MixColumns(x)) == MixCells(Unpack(x))
  {
    PackUnpack(x);
    MixColumnsPacked(Unpack(x));
    UnpackPack(MixCells(Unpack(x)));
  }

  /** MixColumns on packed cells packs MixCells: each exclusive or of packed bytes is
      the exclusive or of their cells. */
  lemma MixColumnsPacked(c: seq<nibble>)
    requires |c| == 16
    ensures MixColumns(Pack(c)) == Pack(MixCells(c))
  {
    var p, m := Pack(c), MixCells(c);
    PackCells(c);
    PackCells(m);
    MixColumnsCells(p);
    XorJoin(c[8], c[9], c[0], c[1]);
    XorJoin(c[12], c[13], XorNibble(c[8], c[0]), XorNibble(c[9], c[1]));
    XorJoin(c[10], c[11], c[2], c[3]);
    XorJoin(c[14], c[15], XorNibble(c[10], c[2]), XorNibble(c[11], c[3]));
    XorJoin(c[4], c[5], c[8], c[9]);
    XorJoin(c[6], c[7], c[10], c[11]);
    Equal8(MixColumns(p), Pack(m));
  }

  /** One encryption round with a stored round key is one SKINNY-64 round on the sixteen
      cells: SubCells (the byte table substitutes both cells of a byte at once),
      AddConstants, AddRoundTweakey with TK1 and TK2, ShiftRows, MixColumns. */
  lemma ScheduleRound(sbox: seq<byte>, s: seq<byte>, rc: byte, tk1: seq<byte>, tk2: seq<byte>)
    requires |sbox| == 256 && |s| == 8 && rc < 64 && |tk1| == 8 && |tk2| == 8
    ensures Unpack(EncRound(sbox, s, RoundKey(rc, tk1, tk2)))
         == MixCells(Grid.ShiftRows(
              AddRoundTweakey(AddConstants(Unpack(SubBytes(sbox, s)), rc), Unpack(tk1), Unpack(tk2))))
  {
    var t := AddRoundKey(SubBytes(sbox, s), RoundKey(rc, tk1, tk2));
    RoundKeyFoldsConstants(SubBytes(sbox, s), rc, tk1, tk2);
    ShiftRowsCells(t);
    MixColumnsOnCells(ShiftRows(t));
    UnpackPack(Grid.ShiftRows(Unpack(t)));
  }

  /** Bytes 0 .. 3 in RoundKeyFoldsConstants: rows 0 and 1, which take the tweakey words
      and the constants c0 and c1. */
  lemma FoldedKeyByte(s: seq<byte>, rc: byte, tk1: seq<byte>, tk2: seq<byte>, j: nat)
    requires |s| == 8 && rc < 64 && |tk1| == 8 && |tk2| == 8 && j < 4
    ensures var a := Unpack(AddRoundKey(s, RoundKey(rc, tk1, tk2)));
      var b := AddRoundTweakey(AddConstants(Unpack(s), rc), Unpack(tk1), Unpack(tk2));
      a[2 * j] == b[2 * j] && a[2 * j + 1] == b[2 * j + 1]
  {
    UnpackAt(AddRoundKey(s, RoundKey(rc, tk1, tk2)), j);
    UnpackAt(tk1, j);
    UnpackAt(tk2, j);
    KeyByteConstants(s, rc, tk1, tk2, j);
  }

  /** The cells of key byte j after the round key, against the cells after AddConstants. */
  lemma KeyByteConstants(s: seq<byte>, rc: byte, tk1: seq<byte>, tk2: seq<byte>, j: nat)
    requires |s| == 8 && rc < 64 && |tk1| == 8 && |tk2| == 8 && j < 4
    ensures var y := AddRoundKey(s, RoundKey(rc, tk1, tk2))[j];
      var d := AddConstants(Unpack(s), rc);
      Lo(y) == XorNibble(XorNibble(d[2 * j], Lo(tk1[j])), Lo(tk2[j])) &&
      Hi(y) == XorNibble(XorNibble(d[2 * j + 1], Hi(tk1[j])), Hi(tk2[j]))
  {
    var rk := RoundKey(rc, tk1, tk2);
    var c := Unpack(s);
    UnpackAt(s, j);
    var d := AddConstants(c, rc);
    assert d[2 * j + 1] == Hi(s[j]);
    if j == 0 {
      assert d[0] == XorNibble(Lo(s[0]), rc % 16);
      KeyByteCells(s[0], rc % 16, tk1[0], tk2[0]);
    } else if j == 2 {
      assert rc / 16 % 4 == rc / 16;
      assert d[4] == XorNibble(Lo(s[2]), rc / 16);
      KeyByteCells(s[2], rc / 16, tk1[2], tk2[2]);
    } else {
      XorZero(tk1[j]);
      XorZero(Lo(s[j]));
      assert d[2 * j] == Lo(s[j]);
      assert rk[j] == XorByte(XorByte(tk1[j], 0), tk2[j]);
      KeyByteCells(s[j], 0, tk1[j], tk2[j]);
    }
  }

  /** Bytes 4 .. 7 in RoundKeyFoldsConstants: rows 2 and 3, which take only c2 = 0x2. */
  lemma FoldedStateByte(s: seq<byte>, rc: byte, tk1: seq<byte>, tk2: seq<byte>, j: nat)
    requires |s| == 8 && rc < 64 && |tk1| == 8 && |tk2| == 8 && 4 <= j < 8
    ensures var a := Unpack(AddRoundKey(s, RoundKey(rc, tk1, tk2)));
      var b := AddRoundTweakey(AddConstants(Unpack(s), rc), Unpack(tk1), Unpack(tk2));
      a[2 * j] == b[2 * j] && a[2 * j + 1] == b[2 * j + 1]
  {
    UnpackAt(AddRoundKey(s, RoundKey(rc, tk1, tk2)), j);
    UnpackAt(s, j);
    var d := AddConstants(Unpack(s), rc);
    var b := AddRoundTweakey(d, Unpack(tk1), Unpack(tk2));
    assert b[2 * j] == d[2 * j] && b[2 * j + 1] == d[2 * j + 1];
    assert d[2 * j + 1] == Hi(s[j]);
    if j == 4 {
      assert d[8] == XorNibble(Lo(s[4]), 2);
      XorParts(s[4], 2);
      XorZero(Hi(s[4]));
    } else {
      assert d[2 * j] == Lo(s[j]);
    }
  }

  /** The round keys of the first n rounds; round i uses constant rcs[i] and the tweakey
      words after i updates. */
  function RoundKeys(rcs: seq<byte>, tk1: seq<byte>, tk2: seq<byte>, n: nat, asWritten: bool): (ks: seq<seq<byte>>)
    requires |tk1| == 8 && |tk2| == 8 && n <= |rcs|
    ensures |ks| == n && forall k | 0 <= k < n :: |ks[k]| == 4
  {
    seq(n, i requires 0 <= i < n => RoundKey(rcs[i], Tk1At(tk1, i), Tk2At(tk2, i, asWritten)))
  }

  /** Four-byte round keys laid end to end. */
  function Flatten(ks: seq<seq<byte>>): (rks: seq<byte>)
    requires forall k | 0 <= k < |ks| :: |ks[k]| == 4
    ensures |rks| == 4 * |ks|
  {
    if ks == [] then [] else Flatten(ks[..|ks| - 1]) + ks[|ks| - 1]
  }

  /** Four bytes inside a prefix are not moved by appending to it ... */
  lemma SliceOfPrefix(a: seq<byte>, b: seq<byte>, i: nat)
    requires 4 * i + 4 <= |a|
    ensures (a + b)[4 * i .. 4 * i + 4] == a[4 * i .. 4 * i + 4]
  {
  }

  /** ... and the four bytes appended follow the prefix. */
  lemma SliceOfSuffix(a: seq<byte>, b: seq<byte>, i: nat)
    requires |a| == 4 * i && |b| == 4
    ensures (a + b)[4 * i .. 4 * i + 4] == b
  {
  }

  /** Round key i of the flattened schedule is ks[i]. */
  lemma {:induction false} FlattenAt(ks: seq<seq<byte>>, i: nat)
    requires forall k | 0 <= k < |ks| :: |ks[k]| == 4
    requires i < |ks|
    ensures RoundKeyAt(Flatten(ks), i) == ks[i]
    decreases |ks|
  {
    var init, last := ks[..|ks| - 1], ks[|ks| - 1];
    assert Flatten(ks) == Flatten(init) + last;
    if i < |ks| - 1 {
      FlattenAt(init, i);
      SliceOfPrefix(Flatten(init), last, i);
    } else {
      SliceOfSuffix(Flatten(init), last, i);
    }
  }

  /** The key schedule: n round keys of four bytes each. */
  function KeySchedule(rcs: seq<byte>, tk1: seq<byte>, tk2: seq<byte>, n: nat, asWritten: bool): (rks: seq<byte>)
    requires |tk1| == 8 && |tk2| == 8 && n <= |rcs|
    ensures |rks| == 4 * n
  {
    Flatten(RoundKeys(rcs, tk1, tk2, n, asWritten))
  }

  /** Round key i of the schedule is built from constant i and the words after i updates. */
  lemma KeyScheduleAt(rcs: seq<byte>, tk1: seq<byte>, tk2: seq<byte>, n: nat, asWritten: bool, i: nat)
    requires |tk1| == 8 && |tk2| == 8 && n <= |rcs| && i < n
    ensures RoundKeyAt(KeySchedule(rcs, tk1, tk2, n, asWritten), i)
         == RoundKey(rcs[i], Tk1At(tk1, i), Tk2At(tk2, i, asWritten))
  {
    FlattenAt(RoundKeys(rcs, tk1, tk2, n, asWritten), i);
  }
}
