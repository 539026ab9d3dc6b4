/** The AVR routine Decrypt of SKINNY-64-128: the block is loaded into r14 .. r21, Y
    starts at byte 140 of the round-key buffer (round key 35), and each pass of
    dec_loop undoes one round, reading the four key bytes through Y and stepping Y
    back by eight.  The inverse MixColumn leaves its rows in r16 .. r21 and r14, r15
    (MixedView); the inverse ShiftRow never exchanges the bytes of row 2 and the
    inverse SubColumn reads them crosswise (DecView) while putting the state back in
    order.

    As written, the routine loads the page of INV_SBOX into r30, the low byte of Z,
    which every lookup then overwrites: the table is read from whatever page r31
    held on entry.  DecryptAsWritten models that; Decrypt loads r31 instead. */
module Decrypt64 {
  import opened Bits
  import opened Nibbles
  import opened Skinny64
  import opened Avr
  import Encrypt64

  /** The rows left by the inverse MixColumn: x0 in r16, r17, x1 in r18, r19, x2 in
      r20, r21 and x3 in r14, r15. */
  function MixedView(r: Regs): (s: seq<byte>)
    ensures |s| == 8
  {
    [r[16], r[17], r[18], r[19], r[20], r[21], r[14], r[15]]
  }

  /** MixedView with row 2 read crosswise, as the key addition and the inverse
      SubColumn read it. */
  function DecView(r: Regs): (s: seq<byte>)
    ensures |s| == 8
  {
    [r[16], r[17], r[18], r[19], r[21], r[20], r[14], r[15]]
  }

  /** Inverse MixColumn: six `eor` on the state in r14 .. r21. */
  method InvMixStep(r: Regs) returns (r': Regs)
    ensures MixedView(r') == InvMixColumns(Word(r, 14))
    ensures forall i | 0 <= i < 32 && !(14 <= i < 22) :: r'[i] == r[i]
  {
    r' := Eor(r, 14, 20);
    r' := Eor(r', 20, 16);
    r' := Eor(r', 18, 20);
    r' := Eor(r', 15, 21);
    r' := Eor(r', 21, 17);
    r' := Eor(r', 19, 21);
  }

  /** Inverse ShiftRow: row 1 (r18, r19) turned left by one cell with mask 0xf0 and
      row 3 (r14, r15) turned right by one cell with mask 0x0f. */
  method InvShiftStep(r: Regs) returns (r': Regs)
    ensures DecView(r') == InvShiftRows(MixedView(r))
    ensures forall i | 0 <= i < 32 && i != 14 && i != 15 && i != 18 && i != 19 && i != 22 :: r'[i] == r[i]
  {
    r' := RotateRow(r, 18, 19, 0xf0);
    r' := RotateRow(r', 14, 15, 0x0f);
  }

  /** Inverse AddRoundKey and AddRoundConstant: four `ld r22, y+; eor rX, r22` into
      rows 0 and 1 and r25 = 0x02 into r21, the first byte of row 2 in DecView. */
  method KeyStep(r: Regs, rk: seq<byte>) returns (r': Regs)
    requires |rk| == 4 && r[25] == 2
    ensures DecView(r') == AddRoundKey(DecView(r), rk)
    ensures forall i | 0 <= i < 32 && !(16 <= i < 20) && i != 21 && i != 22 :: r'[i] == r[i]
  {
    r' := Ldi(r, 22, rk[0]);
    r' := Eor(r', 16, 22);
    r' := Ldi(r', 22, rk[1]);
    r' := Eor(r', 17, 22);
    r' := Ldi(r', 22, rk[2]);
    r' := Eor(r', 18, 22);
    r' := Ldi(r', 22, rk[3]);
    r' := Eor(r', 19, 22);
    r' := Eor(r', 21, 25);
  }

  /** Inverse SubColumn, first half: `movw r22, r14` and rows 0 and 1 of DecView
      through the table into r14 .. r17. */
  method InvSubLow(r: Regs, m: seq<seq<byte>>, inv: seq<byte>) returns (r': Regs)
    requires TableAt(m, r[31], inv)
    ensures r'[14] == inv[r[16]] && r'[15] == inv[r[17]] && r'[16] == inv[r[18]] && r'[17] == inv[r[19]]
    ensures r'[22] == r[14] && r'[23] == r[15]
    ensures forall i | 0 <= i < 32 && !(14 <= i < 18) && i != 22 && i != 23 && i != 30 :: r'[i] == r[i]
  {
    r' := Movw(r, 22, 14);
    r' := Mov(r', 30, 16);
    r' := Lookup(r', 14, m, 31, 30);
    r' := Mov(r', 30, 17);
    r' := Lookup(r', 15, m, 31, 30);
    r' := Mov(r', 30, 18);
    r' := Lookup(r', 16, m, 31, 30);
    r' := Mov(r', 30, 19);
    r' := Lookup(r', 17, m, 31, 30);
  }

  /** Inverse SubColumn, second half: rows 2 and 3 of DecView into r18 .. r21. */
  method InvSubHigh(r: Regs, m: seq<seq<byte>>, inv: seq<byte>) returns (r': Regs)
    requires TableAt(m, r[31], inv)
    ensures r'[18] == inv[r[21]] && r'[19] == inv[r[20]] && r'[20] == inv[r[22]] && r'[21] == inv[r[23]]
    ensures forall i | 0 <= i < 32 && !(18 <= i < 22) && i != 30 :: r'[i] == r[i]
  {
    r' := Mov(r, 30, 21);
    r' := Lookup(r', 18, m, 31, 30);
    r' := Mov(r', 30, 20);
    r' := Lookup(r', 19, m, 31, 30);
    r' := Mov(r', 30, 22);
    r' := Lookup(r', 20, m, 31, 30);
    r' := Mov(r', 30, 23);
    r' := Lookup(r', 21, m, 31, 30);
  }

  /** Inverse SubColumn: DecView through the table at page r31, back in order in
      r14 .. r21. */
  method InvSubStep(r: Regs, m: seq<seq<byte>>, inv: seq<byte>) returns (r': Regs)
    requires TableAt(m, r[31], inv)
    ensures Word(r', 14) == SubBytes(inv, DecView(r))
    ensures forall i | 0 <= i < 32 && !(14 <= i < 24) && i != 30 :: r'[i] == r[i]
  {
    r' := InvSubLow(r, m, inv);
    r' := InvSubHigh(r', m, inv);
  }

  /** The body of dec_loop: the round undone with round key k = r24 - 1, read at
      offset y = 4k, and r24 counted down by one. */
  method Round(r: Regs, m: seq<seq<byte>>, inv: seq<byte>, rks: seq<byte>, y: nat)
    returns (r': Regs)
    requires TableAt(m, r[31], inv) && r[25] == 2 && r[24] > 0
    requires y == 4 * (r[24] as int - 1) && y + 4 <= |rks|
    ensures r'[24] == r[24] - 1 && r'[25] == r[25] && r'[31] == r[31]
    ensures Word(r', 14) == DecRound(inv, Word(r, 14), RoundKeyAt(rks, r'[24]))
  {
    var rk := rks[y .. y + 4];
    r' := InvMixStep(r);
    r' := InvShiftStep(r');
    r' := KeyStep(r', rk);
    r' := InvSubStep(r', m, inv);
    r' := Dec(r', 24);
  }

  /** One pass of dec_loop as the loop sees it: the r24 rounds still to undo reach the
      same plaintext `goal` as the r24 - 1 left after it. */
  method Pass(r: Regs, m: seq<seq<byte>>, inv: seq<byte>, rks: seq<byte>, y: nat, ghost goal: seq<byte>)
    returns (r': Regs)
    requires TableAt(m, r[31], inv) && r[25] == 2 && r[24] > 0
    requires y == 4 * (r[24] as int - 1) && y + 4 <= |rks|
    requires DecryptRounds(inv, Word(r, 14), rks, r[24]) == goal
    ensures r'[24] == r[24] - 1 && r'[25] == r[25] && r'[31] == r[31]
    ensures DecryptRounds(inv, Word(r', 14), rks, r'[24]) == goal
  {
    r' := Round(r, m, inv, rks, y);
    DecryptRoundsStep(inv, Word(r, 14), rks, r[24], r'[24], goal);
  }

  /** dec_loop: r24 counts the rounds down from n, r25 holds 0x02, r31 the page of the
      table; y is the offset Y has reached, starting at round key n - 1 and stepping
      back by four (`sbiw r28, 8` after four `ld r22, y+`). */
  method DecLoop(r: Regs, m: seq<seq<byte>>, inv: seq<byte>, rks: seq<byte>) returns (r': Regs)
    requires 1 <= r[24] && r[25] == 2 && TableAt(m, r[31], inv) && 4 * r[24] <= |rks|
    ensures Word(r', 14) == DecryptRounds(inv, Word(r, 14), rks, r[24])
  {
    ghost var goal := DecryptRounds(inv, Word(r, 14), rks, r[24]);
    r' := r;
    var y: int := 4 * (r[24] as int - 1);
    while true
      invariant 1 <= r'[24] <= r[24] && y == 4 * (r'[24] as int - 1)
      invariant r'[25] == 2 && TableAt(m, r'[31], inv)
      invariant DecryptRounds(inv, Word(r', 14), rks, r'[24]) == goal
      decreases r'[24]
    {
      r' := Pass(r', m, inv, rks, y, goal);
      y := y + 4 - 8;
      if r'[24] == 0 {
        break;
      }
    }
  }

  /** From the loaded block on: r24, r25 and the table page set, then dec_loop.  As
      written `ldi r30, hi8(INV_SBOX)` leaves r31 as it was; corrected, r31 receives
      the page. */
  method Run(r: Regs, m: seq<seq<byte>>, inv: seq<byte>, invPage: byte, rks: seq<byte>, asWritten: bool)
    returns (r': Regs)
    requires 144 <= |rks| && TableAt(m, if asWritten then r[31] else invPage, inv)
    ensures Word(r', 14) == DecryptRounds(inv, Word(r, 14), rks, 36)
  {
    r' := Ldi(r, 24, 36);
    r' := Ldi(r', 25, 2);
    if asWritten {
      r' := Ldi(r', 30, invPage);
    } else {
      r' := Ldi(r', 31, invPage);
    }
    assert Word(r', 14) == Word(r, 14);
    r' := DecLoop(r', m, inv, rks);
  }

  /** Decrypt(block, roundKeys) as written: 36 rounds undone with whatever table sits
      at the page r31 held on entry; the page of INV_SBOX plays no part. */
  method DecryptAsWritten(block: array<byte>, roundKeys: array<byte>, m: seq<seq<byte>>,
                          invPage: byte, entry: Regs)
    requires block.Length == 8 && roundKeys.Length >= 144 && IsMemory(m)
    modifies block
    ensures block[..] == DecryptRounds(m[entry[31]], old(block[..]), old(roundKeys[..]), 36)
  {
    var r := Encrypt64.LoadBlock(entry, block[..]);
    r := Run(r, m, m[entry[31]], invPage, roundKeys[..], true);
    Encrypt64.StoreBlock(r, 14, block);
  }

  /** A table other than INV_SBOX changes the round: the value the last lookup of
      the round reads for byte 0 is looked up in the wrong table. */
  lemma TableMatters(inv: seq<byte>, t: seq<byte>, s: seq<byte>, rk: seq<byte>)
    requires |inv| == 256 && |t| == 256 && |s| == 8 && |rk| == 4
    requires t[AddRoundKey(InvShiftRows(InvMixColumns(s)), rk)[0]] != inv[AddRoundKey(InvShiftRows(InvMixColumns(s)), rk)[0]]
    ensures DecRound(t, s, rk) != DecRound(inv, s, rk)
  {
    assert DecRound(t, s, rk)[0] != DecRound(inv, s, rk)[0];
  }

  /** Decrypt(block, roundKeys) corrected: 36 rounds undone, round key 35 first, with
      INV_SBOX on page invPage. */
  method Decrypt(block: array<byte>, roundKeys: array<byte>, m: seq<seq<byte>>,
                 inv: seq<byte>, invPage: byte, entry: Regs)
    requires block.Length == 8 && roundKeys.Length >= 144 && TableAt(m, invPage, inv)
    modifies block
    ensures block[..] == DecryptRounds(inv, old(block[..]), old(roundKeys[..]), 36)
  {
    var r := Encrypt64.LoadBlock(entry, block[..]);
    r := Run(r, m, inv, invPage, roundKeys[..], false);
    Encrypt64.StoreBlock(r, 14, block);
  }

  /** The as-written Encrypt turns rows 1 and 3 the same way as this routine's inverse
      ShiftRow, so the two rounds do not cancel: after the key addition, whenever the
      two bytes of row 1 differ, row 1 comes back with its bytes exchanged, and the
      inverse round does not return the input. */
  lemma AsWrittenRoundTripFails(inv: seq<byte>, sbox: seq<byte>, s: seq<byte>, rk: seq<byte>)
    requires Skinny128.Inverts(inv, sbox) && |s| == 8 && |rk| == 4
    requires AddRoundKey(SubBytes(sbox, s), rk)[2] != AddRoundKey(SubBytes(sbox, s), rk)[3]
    ensures DecRound(inv, Encrypt64.EncRoundAsWritten(sbox, s, rk), rk) != s
  {
    Skinny128.InvertsBothWays(inv, sbox);
    var t := AddRoundKey(SubBytes(sbox, s), rk);
    MixColumnsInverse(InvShiftRows(t));
    var w := InvShiftRows(InvShiftRows(t));
    assert DecRound(inv, Encrypt64.EncRoundAsWritten(sbox, s, rk), rk)[2] == inv[XorByte(w[2], rk[2])];
    RowOneTurnedTwice(t);
    assert t[2] == XorByte(sbox[s[2]], rk[2]);
    XorCancel(sbox[s[2]], rk[2]);
    XorDiffers(t[3], t[2], rk[2]);
    var a, b := XorByte(t[3], rk[2]), XorByte(t[2], rk[2]);
    assert sbox[inv[a]] == a && sbox[inv[b]] == b;
  }

  /** Row 1 turned left by one cell twice has its two bytes exchanged. */
  lemma RowOneTurnedTwice(t: seq<byte>)
    requires |t| == 8
    ensures InvShiftRows(InvShiftRows(t))[2] == t[3]
  {
    JoinParts(t[3]);
  }

  /** Distinct bytes stay distinct under the same exclusive or. */
  lemma XorDiffers(a: byte, b: byte, k: byte)
    requires a != b
    ensures XorByte(a, k) != XorByte(b, k)
  {
    XorCancel(a, k);
    XorCancel(b, k);
  }

  /** With INV_SBOX the inverse of SBOX, the corrected Decrypt undoes the corrected
      Encrypt under the same round keys. */
  lemma DecryptUndoesEncrypt(inv: seq<byte>, sbox: seq<byte>, p: seq<byte>, rks: seq<byte>)
    requires Skinny128.Inverts(inv, sbox) && |p| == 8 && |rks| >= 144
    ensures DecryptRounds(inv, EncryptRounds(sbox, p, rks, 36), rks, 36) == p
  {
    RoundTrip(inv, sbox, p, rks, 36);
  }
}
