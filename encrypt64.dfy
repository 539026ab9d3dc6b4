/** The AVR routine Encrypt of SKINNY-64-128: the block is loaded into r14 .. r21 (row r
    in r(14 + 2r) and r(15 + 2r)), each pass of enc_loop runs one round reading four
    round-key bytes through Y, and the registers are stored back through X.

    As written the routine differs from the cipher in three places, each modelled
    here next to the corrected routine: rows 1 and 3 turn the wrong way (the two
    `andi` masks are exchanged), r24 counts 32 rounds instead of 36, and the final
    stores start from r23 instead of r21.  ShiftRows never exchanges the bytes of
    row 2: MixColumn reads them crosswise (ShiftedView). */
module Encrypt64 {
  import opened Bits
  import opened Nibbles
  import opened Skinny64
  import opened Avr

  /** The round as the routine performs it: InvShiftRows where ShiftRows belongs. */
  function EncRoundAsWritten(sbox: seq<byte>, s: seq<byte>, rk: seq<byte>): (r: seq<byte>)
    requires |sbox| == 256 && |s| == 8 && |rk| == 4
    ensures |r| == 8
  {
    MixColumns(InvShiftRows(AddRoundKey(SubBytes(sbox, s), rk)))
  }

  /** The round as written disagrees with the cipher's round whenever, after the key
      addition, cells 5 and 7 differ. */
  lemma EncRoundAsWrittenDiffers(sbox: seq<byte>, s: seq<byte>, rk: seq<byte>)
    requires |sbox| == 256 && |s| == 8 && |rk| == 4
    requires Hi(AddRoundKey(SubBytes(sbox, s), rk)[3]) != Hi(AddRoundKey(SubBytes(sbox, s), rk)[2])
    ensures EncRoundAsWritten(sbox, s, rk) != EncRound(sbox, s, rk)
  {
    var t := AddRoundKey(SubBytes(sbox, s), rk);
    ShiftRowsNotInverse(t);
    MixColumnsInverse(ShiftRows(t));
    MixColumnsInverse(InvShiftRows(t));
  }

  /** n rounds of the routine as written, round i using round key i. */
  function EncryptRoundsAsWritten(sbox: seq<byte>, s: seq<byte>, rks: seq<byte>, n: nat): (r: seq<byte>)
    requires |sbox| == 256 && |s| == 8 && 4 * n <= |rks|
    ensures |r| == 8
  {
    if n == 0 then s else EncRoundAsWritten(sbox, EncryptRoundsAsWritten(sbox, s, rks, n - 1), RoundKeyAt(rks, n - 1))
  }

  /** Two buffers that agree on their first n round keys agree on round key k < n. */
  lemma SameRoundKey(rks: seq<byte>, rks': seq<byte>, n: nat, k: nat)
    requires 4 * n <= |rks| && 4 * n <= |rks'| && rks[..4 * n] == rks'[..4 * n] && k < n
    ensures RoundKeyAt(rks, k) == RoundKeyAt(rks', k)
  {
    assert RoundKeyAt(rks, k) == rks[..4 * n][4 * k .. 4 * k + 4];
    assert RoundKeyAt(rks', k) == rks'[..4 * n][4 * k .. 4 * k + 4];
  }

  /** n rounds as written read only the first n round keys. */
  lemma {:induction false} AsWrittenKeysUsed(sbox: seq<byte>, s: seq<byte>, rks: seq<byte>, rks': seq<byte>, n: nat)
    requires |sbox| == 256 && |s| == 8 && 4 * n <= |rks| && 4 * n <= |rks'|
    requires forall k | 0 <= k < n :: RoundKeyAt(rks, k) == RoundKeyAt(rks', k)
    ensures EncryptRoundsAsWritten(sbox, s, rks, n) == EncryptRoundsAsWritten(sbox, s, rks', n)
  {
    if n > 0 {
      AsWrittenKeysUsed(sbox, s, rks, rks', n - 1);
    }
  }

  /** n rounds of the cipher read only the first n round keys. */
  lemma {:induction false} KeysUsed(sbox: seq<byte>, s: seq<byte>, rks: seq<byte>, rks': seq<byte>, n: nat)
    requires |sbox| == 256 && |s| == 8 && 4 * n <= |rks| && 4 * n <= |rks'|
    requires forall k | 0 <= k < n :: RoundKeyAt(rks, k) == RoundKeyAt(rks', k)
    ensures EncryptRounds(sbox, s, rks, n) == EncryptRounds(sbox, s, rks', n)
  {
    if n > 0 {
      KeysUsed(sbox, s, rks, rks', n - 1);
    }
  }

  /** With r24 = 32 the ciphertext does not depend on round keys 32 .. 35, which the
      key schedule computes and decryption uses first. */
  lemma AsWrittenIgnoresLastKeys(sbox: seq<byte>, s: seq<byte>, rks: seq<byte>, rks': seq<byte>)
    requires |sbox| == 256 && |s| == 8 && |rks| >= 144 && |rks'| >= 144
    requires rks[..128] == rks'[..128]
    ensures EncryptRoundsAsWritten(sbox, s, rks, 32) == EncryptRoundsAsWritten(sbox, s, rks', 32)
  {
    forall k | 0 <= k < 32 ensures RoundKeyAt(rks, k) == RoundKeyAt(rks', k) {
      SameRoundKey(rks, rks', 32, k);
    }
    AsWrittenKeysUsed(sbox, s, rks, rks', 32);
  }

  /** Round keys that differ in any byte give different rounds: the key addition is
      undone byte by byte, and ShiftRows and MixColumns have inverses. */
  lemma RoundKeyMatters(sbox: seq<byte>, e: seq<byte>, rk: seq<byte>, rk': seq<byte>)
    requires |sbox| == 256 && |e| == 8 && |rk| == 4 && |rk'| == 4 && rk != rk'
    ensures EncRound(sbox, e, rk) != EncRound(sbox, e, rk')
  {
    var v := SubBytes(sbox, e);
    var t := AddRoundKey(v, rk);
    var t' := AddRoundKey(v, rk');
    assert exists j :: 0 <= j < 4 && rk[j] != rk'[j];
    var j :| 0 <= j < 4 && rk[j] != rk'[j];
    assert t[j] != t'[j] by {
      assert t[j] == Xor(v[j], rk[j]) && t'[j] == Xor(v[j], rk'[j]);
      XorComm(v[j], rk[j]);
      XorComm(v[j], rk'[j]);
      XorCancel(rk[j], v[j]);
      XorCancel(rk'[j], v[j]);
    }
    assert ShiftRows(t) != ShiftRows(t') by {
      ShiftRowsInverse(t);
      ShiftRowsInverse(t');
    }
    MixColumnsInverse(ShiftRows(t));
    MixColumnsInverse(ShiftRows(t'));
  }

  /** In n rounds every byte of the last round key changes the ciphertext: two buffers
      with the same first n - 1 round keys and different last ones give different
      results. */
  lemma LastKeyMatters(sbox: seq<byte>, s: seq<byte>, rks: seq<byte>, rks': seq<byte>, n: nat)
    requires |sbox| == 256 && |s| == 8 && 0 < n && 4 * n <= |rks| && 4 * n <= |rks'|
    requires forall k | 0 <= k < n - 1 :: RoundKeyAt(rks, k) == RoundKeyAt(rks', k)
    requires RoundKeyAt(rks, n - 1) != RoundKeyAt(rks', n - 1)
    ensures EncryptRounds(sbox, s, rks, n) != EncryptRounds(sbox, s, rks', n)
  {
    KeysUsed(sbox, s, rks, rks', n - 1);
    LastRoundMatters(sbox, s, rks, rks', n);
  }

  /** From equal states after n - 1 rounds, a different last round key gives different
      states after n. */
  lemma LastRoundMatters(sbox: seq<byte>, s: seq<byte>, rks: seq<byte>, rks': seq<byte>, n: nat)
    requires |sbox| == 256 && |s| == 8 && 0 < n && 4 * n <= |rks| && 4 * n <= |rks'|
    requires EncryptRounds(sbox, s, rks, n - 1) == EncryptRounds(sbox, s, rks', n - 1)
    requires RoundKeyAt(rks, n - 1) != RoundKeyAt(rks', n - 1)
    ensures EncryptRounds(sbox, s, rks, n) != EncryptRounds(sbox, s, rks', n)
  {
    var e := EncryptRounds(sbox, s, rks, n - 1);
    RoundKeyMatters(sbox, e, RoundKeyAt(rks, n - 1), RoundKeyAt(rks', n - 1));
  }

  /** What the eight `st` from r23 down store for the state m held in r14 .. r21, with
      r22, r23 still holding rows 1 of the state: bytes 2 .. 7 of m, then bytes 2, 3
      again. */
  function StoredAsWritten(m: seq<byte>): (b: seq<byte>)
    requires |m| == 8
    ensures |b| == 8 && b[..6] == m[2..] && b[6..] == m[2..4]
  {
    m[2..] + m[2..4]
  }

  /** Two states that differ only in bytes 0 and 1 (row 0) are stored as the same block. */
  lemma StoreAsWrittenLoses(m: seq<byte>, m': seq<byte>)
    requires |m| == 8 && |m'| == 8 && m[2..] == m'[2..] && m[..2] != m'[..2]
    ensures m != m' && StoredAsWritten(m) == StoredAsWritten(m')
  {
    assert m[2..4] == m[2..][..2] && m'[2..4] == m'[2..][..2];
  }

  /** The bytes the as-written stores take from r16 .. r23 while r22, r23 repeat r16, r17. */
  lemma StoreView(r: Regs)
    requires r[22] == r[16] && r[23] == r[17]
    ensures Word(r, 16) == StoredAsWritten(Word(r, 14))
  {
    var w := Word(r, 14);
    assert StoredAsWritten(w) == [w[2], w[3], w[4], w[5], w[6], w[7], w[2], w[3]];
  }

  /** The registers of the state, with row 2 read crosswise as MixColumn reads it. */
  function ShiftedView(w: seq<byte>): (u: seq<byte>)
    requires |w| == 8
    ensures |u| == 8
  {
    [w[0], w[1], w[2], w[3], w[5], w[4], w[6], w[7]]
  }

  /** The eight `ld` of the block into r14 .. r21. */
  method LoadBlock(r: Regs, block: seq<byte>) returns (r': Regs)
    requires |block| == 8
    ensures Word(r', 14) == block
    ensures forall i | 0 <= i < 32 && !(14 <= i < 22) :: r'[i] == r[i]
  {
    r' := r;
    var k := 0;
    while k < 8
      invariant 0 <= k <= 8
      invariant forall i | 0 <= i < 32 :: r'[i] == if 14 <= i < 14 + k then block[i - 14] else r[i]
    {
      r' := Ldi(r', 14 + k, block[k]);
      k := k + 1;
    }
  }

  /** SubColumn: `mov r30, rX; lpm rX, z` for each byte, the S-box on page r31. */
  method SubStep(r: Regs, m: seq<seq<byte>>, sbox: seq<byte>) returns (r': Regs)
    requires TableAt(m, r[31], sbox)
    ensures Word(r', 14) == SubBytes(sbox, Word(r, 14))
    ensures forall i | 0 <= i < 32 && !(14 <= i < 22) && i != 30 :: r'[i] == r[i]
  {
    r' := r;
    var k := 0;
    while k < 8
      invariant 0 <= k <= 8 && r'[31] == r[31]
      invariant forall i | 0 <= i < 32 && i != 30 ::
        r'[i] == if 14 <= i < 14 + k then sbox[r[i]] else r[i]
    {
      r' := Mov(r', 30, 14 + k);
      r' := Lookup(r', 14 + k, m, 31, 30);
      k := k + 1;
    }
  }

  /** AddRoundConstant and AddRoundKeys: four `ld r22, y+; eor rX, r22` into row 0 and
      row 1, and r25 = 0x02 into r18. */
  method KeyStep(r: Regs, rk: seq<byte>) returns (r': Regs)
    requires |rk| == 4 && r[25] == 2
    ensures Word(r', 14) == AddRoundKey(Word(r, 14), rk)
    ensures forall i | 0 <= i < 32 && !(14 <= i < 19) && i != 22 :: r'[i] == r[i]
  {
    r' := Ldi(r, 22, rk[0]);
    r' := Eor(r', 14, 22);
    r' := Ldi(r', 22, rk[1]);
    r' := Eor(r', 15, 22);
    r' := Ldi(r', 22, rk[2]);
    r' := Eor(r', 16, 22);
    r' := Ldi(r', 22, rk[3]);
    r' := Eor(r', 17, 22);
    r' := Eor(r', 18, 25);
  }

  /** ShiftRow: row 1 in r16, r17 and row 3 in r20, r21 each turned by one cell, row 2
      left in place.  As written (masks 0xf0 then 0x0f) the turns are InvShiftRows';
      with the masks exchanged they are ShiftRows'. */
  method ShiftStep(r: Regs, asWritten: bool) returns (r': Regs)
    ensures ShiftedView(Word(r', 14)) ==
      if asWritten then InvShiftRows(Word(r, 14)) else ShiftRows(Word(r, 14))
    ensures forall i | 0 <= i < 32 && i != 16 && i != 17 && i != 20 && i != 21 && i != 22 :: r'[i] == r[i]
  {
    var w := Word(r, 14);
    if asWritten {
      r' := RotateRow(r, 16, 17, 0xf0);
      r' := RotateRow(r', 20, 21, 0x0f);
      assert ShiftedView(Word(r', 14)) == [w[0], w[1], Join(Hi(w[2]), Lo(w[3])), Join(Hi(w[3]), Lo(w[2])),
                                           w[5], w[4], Join(Hi(w[7]), Lo(w[6])), Join(Hi(w[6]), Lo(w[7]))];
    } else {
      r' := RotateRow(r, 16, 17, 0x0f);
      r' := RotateRow(r', 20, 21, 0xf0);
      assert ShiftedView(Word(r', 14)) == [w[0], w[1], Join(Hi(w[3]), Lo(w[2])), Join(Hi(w[2]), Lo(w[3])),
                                           w[5], w[4], Join(Hi(w[6]), Lo(w[7])), Join(Hi(w[7]), Lo(w[6]))];
    }
  }

  /** MixColumn, first half: the six `eor` into r16 .. r21. */
  method MixXors(r: Regs) returns (r': Regs)
    ensures r'[16] == XorByte(r[16], r[19]) && r'[17] == XorByte(r[17], r[18])
    ensures r'[19] == XorByte(r[19], r[14]) && r'[18] == XorByte(r[18], r[15])
    ensures r'[20] == XorByte(r[20], r'[19]) && r'[21] == XorByte(r[21], r'[18])
    ensures forall i | 0 <= i < 32 && !(16 <= i < 22) :: r'[i] == r[i]
  {
    r' := Eor(r, 16, 19);
    r' := Eor(r', 19, 14);
    r' := Eor(r', 20, 19);
    r' := Eor(r', 17, 18);
    r' := Eor(r', 18, 15);
    r' := Eor(r', 21, 18);
  }

  /** MixColumn, second half: the `movw` and `mov` that put the rows in order. */
  method MixMoves(r: Regs) returns (r': Regs)
    ensures Word(r', 14) == [r[20], r[21], r[14], r[15], r[16], r[17], r[19], r[18]]
    ensures r'[22] == r[14] && r'[23] == r[15]
    ensures forall i | 0 <= i < 32 && !(14 <= i < 24) :: r'[i] == r[i]
  {
    r' := Movw(r, 22, 14);
    r' := Movw(r', 14, 20);
    r' := Mov(r', 20, 19);
    r' := Mov(r', 21, 18);
    r' := Movw(r', 18, 16);
    r' := Movw(r', 16, 22);
  }

  /** MixColumn on the shifted view, leaving the new state in r14 .. r21 and its row 1
      (the old row 0) also in r22, r23. */
  method MixStep(r: Regs) returns (r': Regs)
    ensures Word(r', 14) == MixColumns(ShiftedView(Word(r, 14)))
    ensures r'[22] == r'[16] && r'[23] == r'[17]
    ensures forall i | 0 <= i < 32 && !(14 <= i < 24) :: r'[i] == r[i]
  {
    var w := Word(r, 14);
    r' := MixXors(r);
    r' := MixMoves(r');
    MixShiftedCells(w);
  }

  /** MixColumns of the shifted view, byte by byte: the exclusive ors MixStep performs. */
  lemma MixShiftedCells(w: seq<byte>)
    requires |w| == 8
    ensures MixColumns(ShiftedView(w)) ==
      [XorByte(w[6], XorByte(w[5], w[0])), XorByte(w[7], XorByte(w[4], w[1])), w[0], w[1],
       XorByte(w[2], w[5]), XorByte(w[3], w[4]), XorByte(w[5], w[0]), XorByte(w[4], w[1])]
  {
  }

  /** n rounds, as written or as intended. */
  function Rounds(sbox: seq<byte>, s: seq<byte>, rks: seq<byte>, n: nat, asWritten: bool): (r: seq<byte>)
    requires |sbox| == 256 && |s| == 8 && 4 * n <= |rks|
    ensures |r| == 8
  {
    if asWritten then EncryptRoundsAsWritten(sbox, s, rks, n) else EncryptRounds(sbox, s, rks, n)
  }

  /** One pass of enc_loop: round i with the round key at offset y = 4i, r24 counted
      down by one. */
  method Round(r: Regs, m: seq<seq<byte>>, sbox: seq<byte>, rks: seq<byte>, y: nat, asWritten: bool,
               ghost p: seq<byte>, ghost i: nat) returns (r': Regs)
    requires TableAt(m, r[31], sbox) && r[25] == 2 && r[24] > 0
    requires |p| == 8 && y == 4 * i && y + 4 <= |rks|
    requires Word(r, 14) == Rounds(sbox, p, rks, i, asWritten)
    ensures Word(r', 14) == Rounds(sbox, p, rks, i + 1, asWritten)
    ensures r'[22] == r'[16] && r'[23] == r'[17]
    ensures r'[24] == r[24] - 1 && r'[25] == r[25] && r'[31] == r[31]
  {
    var rk := rks[y .. y + 4];
    assert rk == RoundKeyAt(rks, i);
    r' := SubStep(r, m, sbox);
    r' := KeyStep(r', rk);
    var t := Word(r', 14);
    r' := ShiftStep(r', asWritten);
    assert asWritten ==> ShiftedView(Word(r', 14)) == InvShiftRows(t);
    assert !asWritten ==> ShiftedView(Word(r', 14)) == ShiftRows(t);
    r' := MixStep(r');
    r' := Dec(r', 24);
  }

  /** enc_loop: r24 counts the rounds down, r25 holds 0x02, r31 the page of the S-box;
      y is the offset Y has reached in the round-key buffer rks. */
  method EncLoop(r: Regs, m: seq<seq<byte>>, sbox: seq<byte>, rks: seq<byte>, asWritten: bool)
    returns (r': Regs)
    requires 1 <= r[24] && r[25] == 2 && TableAt(m, r[31], sbox) && 4 * r[24] <= |rks|
    ensures Word(r', 14) == Rounds(sbox, Word(r, 14), rks, r[24], asWritten)
    ensures r'[22] == r'[16] && r'[23] == r'[17]
  {
    r' := r;
    var y := 0;
    ghost var i: nat := 0;
    while true
      invariant 1 <= r'[24] && i == r[24] - r'[24] && y == 4 * i
      invariant r'[25] == 2 && TableAt(m, r'[31], sbox)
      invariant Word(r', 14) == Rounds(sbox, Word(r, 14), rks, i, asWritten)
      decreases r'[24]
    {
      r' := Round(r', m, sbox, rks, y, asWritten, Word(r, 14), i);
      y := y + 4;
      i := i + 1;
      if r'[24] == 0 {
        break;
      }
    }
  }

  /** The eight `st` from the last byte down, from registers b + 7 .. b. */
  method StoreBlock(r: Regs, b: nat, block: array<byte>)
    requires block.Length == 8 && b + 8 <= 32
    modifies block
    ensures block[..] == Word(r, b)
  {
    var x := 7;
    while x >= 0
      invariant -1 <= x <= 7
      invariant forall i | x < i < 8 :: block[i] == Word(r, b)[i]
    {
      block[x] := r[b + x];
      x := x - 1;
    }
  }

  /** From the loaded block on: r24, r25 and r31 set, then enc_loop. */
  method Run(r: Regs, m: seq<seq<byte>>, sbox: seq<byte>, sboxPage: byte, rks: seq<byte>,
             rounds: byte, asWritten: bool) returns (r': Regs)
    requires 1 <= rounds && 4 * rounds <= |rks| && TableAt(m, sboxPage, sbox)
    ensures Word(r', 14) == Rounds(sbox, Word(r, 14), rks, rounds, asWritten)
    ensures r'[22] == r'[16] && r'[23] == r'[17]
  {
    r' := Ldi(r, 24, rounds);
    r' := Ldi(r', 25, 2);
    r' := Ldi(r', 31, sboxPage);
    assert Word(r', 14) == Word(r, 14);
    r' := EncLoop(r', m, sbox, rks, asWritten);
  }

  /** Encrypt(block, roundKeys) as written: 32 rounds of the as-written round, and the
      stores start from r23, so the block receives bytes 2 .. 7 and 2, 3 of the state. */
  method EncryptAsWritten(block: array<byte>, roundKeys: array<byte>, m: seq<seq<byte>>,
                          sbox: seq<byte>, sboxPage: byte, entry: Regs)
    requires block.Length == 8 && roundKeys.Length >= 144
    requires TableAt(m, sboxPage, sbox)
    modifies block
    ensures block[..] == StoredAsWritten(EncryptRoundsAsWritten(sbox, old(block[..]), old(roundKeys[..]), 32))
  {
    var r := LoadBlock(entry, block[..]);
    r := Run(r, m, sbox, sboxPage, roundKeys[..], 32, true);
    StoreView(r);
    StoreBlock(r, 16, block);
  }

  /** Encrypt(block, roundKeys) corrected: 36 rounds of SKINNY-64-128 with round key i
      taken from bytes 4i .. 4i + 3 of roundKeys, and the state stored from r21 down. */
  method Encrypt(block: array<byte>, roundKeys: array<byte>, m: seq<seq<byte>>,
                 sbox: seq<byte>, sboxPage: byte, entry: Regs)
    requires block.Length == 8 && roundKeys.Length >= 144
    requires TableAt(m, sboxPage, sbox)
    modifies block
    ensures block[..] == EncryptRounds(sbox, old(block[..]), old(roundKeys[..]), 36)
  {
    var r := LoadBlock(entry, block[..]);
    r := Run(r, m, sbox, sboxPage, roundKeys[..], 36, false);
    StoreBlock(r, 14, block);
  }
}
