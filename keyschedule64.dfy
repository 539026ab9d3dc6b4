/** The AVR routine RunEncryptionKeySchedule of SKINNY-64-128: it loads TK1 (key bytes
    0 .. 7) into r8 .. r15 and TK2 (key bytes 8 .. 15) into r16 .. r23, then thirty-six
    times stores a four-byte round key (rows 0 and 1 of TK1 ^ TK2, with the round
    constant folded into cells 0 and 4) and, except after the last store, moves both
    tweakey words by PT and clocks the LFSR on rows 0 and 1 of TK2.

    Each register holds two cells of a tweakey word, cell 2j in the low nibble of byte
    j.  Data memory is an array of 65536 bytes and pointers are addresses into it; the
    round-constant table is a sequence read through Z with `lpm`. */
module KeySchedule64 {
  import opened Bits
  import opened Nibbles
  import opened Skinny64
  import opened Avr

  /** Bits 2 and 3 of the low cell of b, and of its high cell, read from b. */
  lemma LowCellBit2(b: byte)
    ensures b / 4 % 2 == Lo(b) / 4 % 2
  {
    var lo: int, hi: int := Lo(b), Hi(b);
    DivMod(b, 4, 4 * hi + lo / 4, lo % 4);
    DivMod(b / 4, 2, 2 * hi + lo / 8, lo / 4 % 2);
  }

  lemma LowCellBit3(b: byte)
    ensures b / 8 % 2 == Lo(b) / 8
  {
    var lo: int, hi: int := Lo(b), Hi(b);
    DivMod(b, 8, 2 * hi + lo / 8, lo % 8);
    DivMod(b / 8, 2, hi, lo / 8);
  }

  lemma HighCellBit2(b: byte)
    ensures b / 64 % 2 == Hi(b) / 4 % 2
  {
    var lo: int, hi: int := Lo(b), Hi(b);
    DivMod(b, 64, hi / 4, 16 * (hi % 4) + lo);
    DivMod(b / 64, 2, hi / 8, hi / 4 % 2);
  }

  lemma HighCellBit3(b: byte)
    ensures b / 128 % 2 == Hi(b) / 8
  {
  }

  /** b ^ (b >> 1), shifted right twice, is (b >> 2) ^ (b >> 3). */
  lemma ShiftedXor(b: byte)
    ensures Xor(b, b / 2) / 2 / 2 == Xor(b / 4, b / 8)
  {
    XorHalf(b, b / 2);
    assert b / 2 / 2 == b / 4;
    XorHalf(b / 2, b / 4);
    assert b / 4 / 2 == b / 8;
  }

  /** Bit 4 of (b >> 2) ^ (b >> 3) is bit 6 ^ bit 7 of b. */
  lemma ShiftedXorBit4(b: byte)
    ensures Xor(b / 4, b / 8) / 16 % 2 == Diff(b / 64 % 2, b / 128 % 2)
  {
    var z := Xor(b / 4, b / 8);
    XorSplit16(b / 4, b / 8);
    DivMod(z, 16, Xor(b / 4 / 16, b / 8 / 16), Xor(b / 4 % 16, b / 8 % 16));
    assert b / 4 / 16 == b / 64 && b / 8 / 16 == b / 128;
    XorHalf(b / 64, b / 128);
  }

  /** The feedback `mov r24, d; mov r25, r24; lsr r25; eor r24, r25; lsr r24; lsr r24;
      andi r24, 0x11` leaves bit 3 ^ bit 2 of each cell of b in bit 0 of that cell. */
  lemma Feedback(b: byte)
    ensures AndByte(XorByte(b, b / 2) / 2 / 2, 0x11)
         == Join(Diff(Lo(b) / 8, Lo(b) / 4 % 2), Diff(Hi(b) / 8, Hi(b) / 4 % 2))
  {
    var z := Xor(b / 4, b / 8);
    ShiftedXor(b);
    AndNibbleLowBits(z);
    XorHalf(b / 4, b / 8);
    ShiftedXorBit4(b);
    LowCellBit2(b);
    LowCellBit3(b);
    HighCellBit2(b);
    HighCellBit3(b);
  }

  /** The fields of b / 2 that `andi 0xee` keeps, in terms of the cells of b. */
  lemma HalfHigh(b: byte)
    ensures b / 2 / 32 == Hi(b) / 4
  {
    var lo: int, hi: int := Lo(b), Hi(b);
    DivMod(b, 2, 8 * hi + lo / 2, lo % 2);
    DivMod(b / 2, 32, hi / 4, 8 * (hi % 4) + lo / 2);
  }

  lemma HalfLow(b: byte)
    ensures b / 2 % 16 / 2 == 4 * (Hi(b) % 2) + Lo(b) / 4
  {
    var lo: int, hi: int, c: int := Lo(b), Hi(b), b / 2;
    DivMod(b, 4, 4 * hi + lo / 4, lo % 4);
    DivMod(b / 4, 8, hi / 2, 4 * (hi % 2) + lo / 4);
    assert c / 2 == b / 4;
    DivMod(c, 16, c / 16, c % 16);
    DivMod(c / 2, 8, c / 16, c % 16 / 2);
  }

  /** `lsr d; andi d, 0xee` as written: bit 0 of the high cell moves into bit 3 of the low
      cell, and bit 3 of each cell is lost. */
  lemma ShiftDownMasked(b: byte)
    ensures AndByte(b / 2, 0xee) == Join(8 * (Hi(b) % 2) + 2 * (Lo(b) / 4), 2 * (Hi(b) / 4))
  {
    HalfHigh(b);
    HalfLow(b);
    AndEvenMask(b / 2);
  }

  /** The byte `lsl` leaves: b doubled, the top bit dropped. */
  lemma Doubled(b: byte)
    ensures ShiftLeft(b) == 32 * (Hi(b) % 8) + 16 * (Lo(b) / 8) + 2 * (Lo(b) % 8)
  {
    var hi: int := Hi(b);
    if 8 <= hi {
      DivMod(hi, 8, 1, hi - 8);
    }
  }

  /** The fields of the doubled byte that `andi 0xee` keeps. */
  lemma DoubledFields(s: int, lo: nibble, hi: nibble)
    requires s == 32 * (hi % 8) + 16 * (lo / 8) + 2 * (lo % 8)
    ensures s / 32 == hi % 8 && s % 16 / 2 == lo % 8
  {
    DivMod(s, 32, hi % 8, 16 * (lo / 8) + 2 * (lo % 8));
    DivMod(s, 16, 2 * (hi % 8) + lo / 8, 2 * (lo % 8));
  }

  /** `lsl d; andi d, 0xee`: each cell shifted up by one within itself. */
  lemma ShiftUpMasked(b: byte)
    ensures AndByte(ShiftLeft(b), 0xee) == Join(2 * (Lo(b) % 8), 2 * (Hi(b) % 8))
  {
    var s := ShiftLeft(b);
    Doubled(b);
    DoubledFields(s, Lo(b), Hi(b));
    AndEvenMask(s);
  }

  /** Exclusive or of a bit into an even number sets that bit. */
  lemma XorEvenBit(p: nat, d: nat)
    requires p % 2 == 0 && d < 2
    ensures Xor(p, d) == p + d
  {
    XorStep(p, d);
    XorZero(p / 2);
  }

  /** Bit 0 of each cell added by exclusive or to a byte whose cells are even. */
  lemma XorLowBits(p: nibble, q: nibble, d: nibble, e: nibble)
    requires p % 2 == 0 && q % 2 == 0 && d < 2 && e < 2
    ensures XorByte(Join(p, q), Join(d, e)) == Join(p + d, q + e)
  {
    XorJoin(p, q, d, e);
    XorEvenBit(p, d);
    XorEvenBit(q, e);
  }

  /** The LFSR code on one byte as written: the feedback added to `lsr` then `andi 0xee`. */
  lemma ClockAsWritten(b: byte)
    ensures XorByte(AndByte(b / 2, 0xee), AndByte(XorByte(b, b / 2) / 2 / 2, 0x11))
         == LfsrByteAsWritten(b)
  {
    var lo: int, hi: int := Lo(b), Hi(b);
    var p: int, q: int := 8 * (hi % 2) + 2 * (lo / 4), 2 * (hi / 4);
    var d: int, e: int := Diff(lo / 8, lo / 4 % 2), Diff(hi / 8, hi / 4 % 2);
    assert AndByte(b / 2, 0xee) == Join(p, q) by { ShiftDownMasked(b); }
    assert AndByte(XorByte(b, b / 2) / 2 / 2, 0x11) == Join(d, e) by { Feedback(b); }
    DivMod(p, 2, 4 * (hi % 2) + lo / 4, 0);
    DivMod(q, 2, hi / 4, 0);
    XorLowBits(p, q, d, e);
    assert LfsrDown(lo, hi) == p + d && LfsrDown(hi, 0) == q + e;
  }

  /** The same with `lsl` in place of `lsr` clocks the LFSR of each cell. */
  lemma ClockIntended(b: byte)
    ensures XorByte(AndByte(ShiftLeft(b), 0xee),
                    AndByte(XorByte(b, b / 2) / 2 / 2, 0x11))
         == LfsrByte(b)
  {
    var lo: int, hi: int := Lo(b), Hi(b);
    var p: int, q: int := 2 * (lo % 8), 2 * (hi % 8);
    var d: int, e: int := Diff(lo / 8, lo / 4 % 2), Diff(hi / 8, hi / 4 % 2);
    assert AndByte(ShiftLeft(b), 0xee) == Join(p, q) by { ShiftUpMasked(b); }
    assert AndByte(XorByte(b, b / 2) / 2 / 2, 0x11) == Join(d, e) by { Feedback(b); }
    DivMod(p, 2, lo % 8, 0);
    DivMod(q, 2, hi % 8, 0);
    XorLowBits(p, q, d, e);
    assert Lfsr(lo) == p + d by { LfsrBitsOf(lo); DivMod(Lfsr(lo), 2, lo % 8, d); }
    assert Lfsr(hi) == q + e by { LfsrBitsOf(hi); DivMod(Lfsr(hi), 2, hi % 8, e); }
  }

  /** The feedback of the LFSR code: `mov r24, d; mov r25, r24; lsr r25; eor r24, r25;
      lsr r24; lsr r24; andi r24, 0x11` (Feedback says what it leaves in r24). */
  method FeedbackBits(r: Regs, d: nat) returns (r': Regs)
    requires 16 <= d < 20
    ensures r'[24] == AndByte(XorByte(r[d], r[d] / 2) / 2 / 2, 0x11)
    ensures forall i | 0 <= i < 32 && i != 24 && i != 25 :: r'[i] == r[i]
  {
    var b := r[d];
    r' := Mov(r, 24, d);
    r' := Mov(r', 25, 24);
    r' := Lsr(r', 25);
    r' := Eor(r', 24, 25);
    r' := Lsr(r', 24);
    r' := Lsr(r', 24);
    r' := Andi(r', 24, 0x11);
  }

  /** The LFSR code on one register d of rows 0 and 1 of TK2: the feedback bits into
      r24, then `lsr d` (as written) or `lsl d` (as intended), `andi d, 0xee` and
      `eor d, r24`. */
  method ClockByte(r: Regs, d: nat, asWritten: bool) returns (r': Regs)
    requires 16 <= d < 20
    ensures r'[d] == Clock(r[d], asWritten)
    ensures forall i | 0 <= i < 32 && i != d && i != 24 && i != 25 :: r'[i] == r[i]
  {
    var b := r[d];
    var t := FeedbackBits(r, d);
    if asWritten {
      t := Lsr(t, d);
      t := Andi(t, d, 0xee);
      ClockAsWritten(b);
    } else {
      t := Lsl(t, d);
      t := Andi(t, d, 0xee);
      ClockIntended(b);
    }
    r' := Eor(t, d, 24);
  }

  /** The LFSR code on rows 0 and 1 of TK2, registers r16 .. r19 in turn. */
  method ClockRows(r: Regs, asWritten: bool) returns (r': Regs)
    ensures Word(r', 16) == LfsrRows(Word(r, 16), asWritten)
    ensures Word(r', 8) == Word(r, 8)
    ensures forall i | 0 <= i < 32 && !(16 <= i < 20) && i != 24 && i != 25 :: r'[i] == r[i]
  {
    r' := ClockByte(r, 16, asWritten);
    r' := ClockByte(r', 17, asWritten);
    r' := ClockByte(r', 18, asWritten);
    r' := ClockByte(r', 19, asWritten);
  }

  /** The four `movw` of PT: rows 0 and 1 move down to rows 2 and 3, row 3 up to
      row 0 and row 2 to row 3, row 2 kept in r6 and r7. */
  method PermuteMoves(r: Regs, b: nat) returns (r': Regs)
    requires b == 8 || b == 16
    ensures var tk := Word(r, b);
      r'[6] == tk[4] && r'[7] == tk[5] && r'[b] == tk[6] && r'[b + 1] == tk[7] &&
      r'[b + 2] == tk[2] && r'[b + 3] == tk[3] && r'[b + 4] == tk[0] && r'[b + 5] == tk[1] &&
      r'[b + 6] == tk[2] && r'[b + 7] == tk[3]
    ensures forall i | 0 <= i < 32 && !(b <= i < b + 8) && i != 6 && i != 7 :: r'[i] == r[i]
  {
    r' := Movw(r, 6, b + 4);
    r' := Movw(r', b + 4, b);
    r' := Movw(r', b, b + 6);
    r' := Movw(r', b + 6, b + 2);
  }

  /** Bytes 2 and 3 of the permuted word from the cells of row 2 (in r7 and b + 0) and
      row 3 (in b + 1). */
  method PermuteRow1(r: Regs, b: nat) returns (r': Regs)
    requires b == 8 || b == 16
    requires r[5] == 0x0f && r[27] == 0xf0
    ensures r'[b + 2] == Join(Lo(r[7]), Lo(r[b + 1]))
    ensures r'[b + 3] == Join(Lo(r[b]), Hi(r[7]))
    ensures r'[7] == Join(0, Lo(r[b + 1]))
    ensures forall i | 0 <= i < 32 && i != b + 2 && i != b + 3 && i != 7 :: r'[i] == r[i]
  {
    var t := Mov(r, b + 3, 7);
    t := AndReg(t, b + 3, 27);
    assert t[b + 3] == Join(0, Hi(r[7])) by { MaskHigh(r[7]); }
    t := Mov(t, b + 2, b);
    t := AndReg(t, b + 2, 5);
    assert t[b + 2] == Join(Lo(r[b]), 0) by { MaskLow(r[b]); }
    t := Eor(t, b + 3, b + 2);
    assert t[b + 3] == Join(Lo(r[b]), Hi(r[7])) by { XorDisjoint(Lo(r[b]), Hi(r[7])); }
    t := Mov(t, b + 2, 7);
    t := AndReg(t, b + 2, 5);
    assert t[b + 2] == Join(Lo(r[7]), 0) by { MaskLow(r[7]); }
    t := Mov(t, 7, b + 1);
    t := AndReg(t, 7, 5);
    assert t[7] == Join(Lo(r[b + 1]), 0) by { MaskLow(r[b + 1]); }
    t := Swap(t, 7);
    assert t[7] == Join(0, Lo(r[b + 1])) by { SwapJoin(Join(Lo(r[b + 1]), 0)); }
    t := Eor(t, b + 2, 7);
    assert t[b + 2] == Join(Lo(r[7]), Lo(r[b + 1])) by { XorDisjoint(Lo(r[7]), Lo(r[b + 1])); }
    r' := t;
  }

  /** Bytes 0 and 1 of the permuted word from the cells of row 2 (in r6 and b + 0) and
      row 3 (in b + 1). */
  method PermuteRow0(r: Regs, b: nat) returns (r': Regs)
    requires b == 8 || b == 16
    requires r[5] == 0x0f && r[27] == 0xf0
    ensures r'[b] == Join(Hi(r[6]), Hi(r[b + 1]))
    ensures r'[b + 1] == Join(Lo(r[6]), Hi(r[b]))
    ensures forall i | 0 <= i < 32 && i != b && i != b + 1 && i != 6 && i != 7 :: r'[i] == r[i]
  {
    var t := Mov(r, 7, b);
    t := AndReg(t, 7, 27);
    assert t[7] == Join(0, Hi(r[b])) by { MaskHigh(r[b]); }
    t := Mov(t, b, 6);
    t := AndReg(t, 6, 5);
    assert t[6] == Join(Lo(r[6]), 0) by { MaskLow(r[6]); }
    t := Eor(t, 7, 6);
    assert t[7] == Join(Lo(r[6]), Hi(r[b])) by { XorDisjoint(Lo(r[6]), Hi(r[b])); }
    t := Swap(t, b);
    assert t[b] == Join(Hi(r[6]), Lo(r[6])) by { SwapJoin(r[6]); }
    t := AndReg(t, b, 5);
    assert t[b] == Join(Hi(r[6]), 0) by { MaskLow(Join(Hi(r[6]), Lo(r[6]))); }
    t := AndReg(t, b + 1, 27);
    assert t[b + 1] == Join(0, Hi(r[b + 1])) by { MaskHigh(r[b + 1]); }
    t := Eor(t, b, b + 1);
    assert t[b] == Join(Hi(r[6]), Hi(r[b + 1])) by { XorDisjoint(Hi(r[6]), Hi(r[b + 1])); }
    t := Mov(t, b + 1, 7);
    r' := t;
  }

  /** The twenty-five instructions that move the cells of the tweakey word in
      b .. b + 7 by PT, with r6 and r7 as temporaries, r5 holding 0x0f and r27 0xf0. */
  method PermuteWord(r: Regs, b: nat) returns (r': Regs)
    requires b == 8 || b == 16
    requires r[5] == 0x0f && r[27] == 0xf0
    ensures Word(r', b) == Permute(Word(r, b))
    ensures forall i | 0 <= i < 32 && !(b <= i < b + 8) && i != 6 && i != 7 :: r'[i] == r[i]
  {
    var tk := Word(r, b);
    var t := PermuteMoves(r, b);
    var u := PermuteRow1(t, b);
    assert u[6] == tk[4] && u[b] == tk[6] && u[b + 1] == tk[7];
    assert u[b + 2] == Join(Lo(tk[5]), Lo(tk[7])) && u[b + 3] == Join(Lo(tk[6]), Hi(tk[5]));
    assert u[b + 4] == tk[0] && u[b + 5] == tk[1] && u[b + 6] == tk[2] && u[b + 7] == tk[3];
    r' := PermuteRow0(u, b);
    PermutedWord(r', b, tk);
  }

  /** The eight registers from b hold Permute(tk) once each holds its own cell pair. */
  lemma PermutedWord(r: Regs, b: nat, tk: seq<byte>)
    requires b == 8 || b == 16
    requires |tk| == 8
    requires r[b] == Join(Hi(tk[4]), Hi(tk[7])) && r[b + 1] == Join(Lo(tk[4]), Hi(tk[6]))
    requires r[b + 2] == Join(Lo(tk[5]), Lo(tk[7])) && r[b + 3] == Join(Lo(tk[6]), Hi(tk[5]))
    requires r[b + 4] == tk[0] && r[b + 5] == tk[1] && r[b + 6] == tk[2] && r[b + 7] == tk[3]
    ensures Word(r, b) == Permute(tk)
  {
  }

  /** The sixteen `ld rX, x+`: TK1 (key bytes 0 .. 7) into r8 .. r15 and TK2 (key bytes
      8 .. 15) into r16 .. r23. */
  method LoadKey(r: Regs, key: seq<byte>) returns (r': Regs)
    requires |key| == 16
    ensures Word(r', 8) == key[..8] && Word(r', 16) == key[8..]
    ensures forall i | 0 <= i < 32 && !(8 <= i < 24) :: r'[i] == r[i]
  {
    r' := r;
    var k := 0;
    while k < 16
      invariant 0 <= k <= 16
      invariant forall i | 0 <= i < 32 :: r'[i] == if 8 <= i < 8 + k then key[i - 8] else r[i]
    {
      r' := Ldi(r', 8 + k, key[k]);
      k := k + 1;
    }
    assert Word(r', 8) == key[..8];
    assert Word(r', 16) == key[8..];
  }

  /** `lpm r24, z+; mov r25, r24; andi r25, 0x0f; mov r6, r8; eor r6, r25; eor r6, r16`:
      byte 0 of the round key in r6, with the round constant rc kept in r24. */
  method KeyByte0(r: Regs, rc: byte) returns (r': Regs)
    ensures r'[6] == RoundKey(rc, Word(r, 8), Word(r, 16))[0] && r'[24] == rc
    ensures forall i | 0 <= i < 32 && i != 6 && i != 24 && i != 25 :: r'[i] == r[i]
  {
    r' := Ldi(r, 24, rc);
    r' := Mov(r', 25, 24);
    r' := Andi(r', 25, 0x0f);
    AndFifteen(rc);
    r' := Mov(r', 6, 8);
    r' := Eor(r', 6, 25);
    r' := Eor(r', 6, 16);
  }

  /** `andi r24, 0x30; swap r24; mov r6, r10; eor r6, r24; eor r6, r18`: byte 2 of the
      round key in r6, from the round constant rc in r24. */
  method KeyByte2(r: Regs, rc: byte) returns (r': Regs)
    requires r[24] == rc
    ensures r'[6] == RoundKey(rc, Word(r, 8), Word(r, 16))[2]
    ensures forall i | 0 <= i < 32 && i != 6 && i != 24 :: r'[i] == r[i]
  {
    r' := Andi(r, 24, 0x30);
    AndBits45(rc);
    SwapDown(rc / 16 % 4);
    r' := Swap(r', 24);
    r' := Mov(r', 6, 10);
    r' := Eor(r', 6, 24);
    r' := Eor(r', 6, 18);
  }

  /** `mov r6, s; eor r6, s + 8`: byte s - 8 of the round key, where the constant adds
      nothing. */
  method KeyByteOdd(r: Regs, rc: byte, s: nat) returns (r': Regs)
    requires s == 9 || s == 11
    ensures r'[6] == RoundKey(rc, Word(r, 8), Word(r, 16))[s - 8]
    ensures forall i | 0 <= i < 32 && i != 6 :: r'[i] == r[i]
  {
    r' := Mov(r, 6, s);
    r' := Eor(r', 6, s + 8);
  }

  /** Lines XOR-ing the round constant rc (the byte `lpm` fetched) and the two tweakey
      words together: four `st y+` of r6, at y .. y + 3, of the round key. */
  method StoreRoundKey(mem: array<byte>, y: nat, r: Regs, rc: byte) returns (r': Regs)
    requires y + 4 <= mem.Length
    modifies mem
    ensures forall a | 0 <= a < mem.Length ::
      mem[a] == if y <= a < y + 4 then RoundKey(rc, Word(r, 8), Word(r, 16))[a - y] else old(mem[a])
    ensures forall i | 0 <= i < 32 && i != 6 && i != 24 && i != 25 :: r'[i] == r[i]
  {
    var rk := RoundKey(rc, Word(r, 8), Word(r, 16));
    var t := KeyByte0(r, rc);
    WordKept(r, t, 8);
    WordKept(r, t, 16);
    mem[y] := t[6];
    t := KeyByteOdd(t, rc, 9);
    mem[y + 1] := t[6];
    t := KeyByte2(t, rc);
    mem[y + 2] := t[6];
    t := KeyByteOdd(t, rc, 11);
    mem[y + 3] := t[6];
    r' := t;
  }

  /** Between two stores (from `again`): PT on TK1 and on TK2, then the LFSR on rows 0
      and 1 of TK2. */
  method UpdateTweakey(r: Regs, asWritten: bool) returns (r': Regs)
    requires r[5] == 0x0f && r[27] == 0xf0
    ensures Word(r', 8) == Permute(Word(r, 8))
    ensures Word(r', 16) == Tk2Step(Word(r, 16), asWritten)
    ensures r'[5] == r[5] && r'[26] == r[26] && r'[27] == r[27]
  {
    var r1 := PermuteWord(r, 8);
    WordKept(r, r1, 16);
    var r2 := PermuteWord(r1, 16);
    WordKept(r1, r2, 8);
    r' := ClockRows(r2, asWritten);
  }

  /** Round key i of a schedule, byte by byte. */
  lemma RoundKeyBytes(sched: seq<byte>, i: nat, rk: seq<byte>)
    requires 4 * i + 4 <= |sched| && RoundKeyAt(sched, i) == rk
    ensures forall k | 0 <= k < 4 :: sched[4 * i + k] == rk[k]
  {
    forall k | 0 <= k < 4 ensures sched[4 * i + k] == rk[k] {
      assert RoundKeyAt(sched, i)[k] == sched[4 * i + k];
    }
  }

  /** One pass of key_schedule_start up to `dec r26`: round key z of the schedule sched
      (the one the tweakey registers hold) is stored at y + 4z, after the z round keys
      already written over the original contents init. */
  method SchedulePass(mem: array<byte>, r: Regs, y: nat, z: nat, rcs: seq<byte>,
                      ghost sched: seq<byte>, ghost init: seq<byte>) returns (r': Regs)
    requires z < 36 <= |rcs| && |sched| == 144 && y + 144 <= mem.Length == |init|
    requires r[26] == 36 - z && RoundKeyAt(sched, z) == RoundKey(rcs[z], Word(r, 8), Word(r, 16))
    requires forall a | 0 <= a < mem.Length ::
      mem[a] == if y <= a < y + 4 * z then sched[a - y] else init[a]
    modifies mem
    ensures r'[26] == 36 - (z + 1) && Word(r', 8) == Word(r, 8) && Word(r', 16) == Word(r, 16)
    ensures r'[5] == r[5] && r'[27] == r[27]
    ensures forall a | 0 <= a < mem.Length ::
      mem[a] == if y <= a < y + 4 * (z + 1) then sched[a - y] else init[a]
  {
    RoundKeyBytes(sched, z, RoundKey(rcs[z], Word(r, 8), Word(r, 16)));
    r' := StoreRoundKey(mem, y + 4 * z, r, rcs[z]);
    r' := Dec(r', 26);
  }

  /** key_schedule_start .. key_schedule_exit: thirty-six passes, r26 counting down, the
      round keys written from address y on; the loop leaves after the last store, so
      the tweakey words end updated 35 times.  sched is any sequence whose round key z
      is the one round z extracts from TK1 and TK2. */
  method ScheduleLoop(mem: array<byte>, r: Regs, y: nat, rcs: seq<byte>, asWritten: bool,
                      ghost tk1: seq<byte>, ghost tk2: seq<byte>, ghost sched: seq<byte>)
    returns (r': Regs)
    requires r[26] == 36 && r[5] == 0x0f && r[27] == 0xf0
    requires Word(r, 8) == tk1 && Word(r, 16) == tk2 && |rcs| >= 36 && y + 144 <= mem.Length
    requires |sched| == 144 && forall z | 0 <= z < 36 ::
      RoundKeyAt(sched, z) == RoundKey(rcs[z], Tk1At(tk1, z), Tk2At(tk2, z, asWritten))
    modifies mem
    ensures forall a | 0 <= a < mem.Length ::
      mem[a] == if y <= a < y + 144 then sched[a - y] else old(mem[a])
  {
    ghost var init := mem[..];
    r' := r;
    var z := 0;
    while true
      invariant 0 <= z < 36 && r'[26] == 36 - z && r'[5] == 0x0f && r'[27] == 0xf0
      invariant Word(r', 8) == Tk1At(tk1, z) && Word(r', 16) == Tk2At(tk2, z, asWritten)
      invariant forall a | 0 <= a < mem.Length ::
        mem[a] == if y <= a < y + 4 * z then sched[a - y] else init[a]
      decreases 36 - z
    {
      r' := SchedulePass(mem, r', y, z, rcs, sched, init);
      if r'[26] == 0 {
        break;
      }
      r' := Advance(r', z, asWritten, tk1, tk2);
      z := z + 1;
    }
  }

  /** The schedule of thirty-six rounds meets what ScheduleLoop asks of sched. */
  lemma ScheduleRounds(rcs: seq<byte>, tk1: seq<byte>, tk2: seq<byte>, asWritten: bool)
    requires |tk1| == 8 && |tk2| == 8 && |rcs| >= 36
    ensures forall z | 0 <= z < 36 ::
      RoundKeyAt(KeySchedule(rcs, tk1, tk2, 36, asWritten), z)
        == RoundKey(rcs[z], Tk1At(tk1, z), Tk2At(tk2, z, asWritten))
  {
    forall z | 0 <= z < 36
      ensures RoundKeyAt(KeySchedule(rcs, tk1, tk2, 36, asWritten), z)
           == RoundKey(rcs[z], Tk1At(tk1, z), Tk2At(tk2, z, asWritten))
    {
      KeyScheduleAt(rcs, tk1, tk2, 36, asWritten, z);
    }
  }

  /** UpdateTweakey between round z and round z + 1. */
  method Advance(r: Regs, z: nat, asWritten: bool, ghost tk1: seq<byte>, ghost tk2: seq<byte>)
    returns (r': Regs)
    requires |tk1| == 8 && |tk2| == 8 && r[5] == 0x0f && r[27] == 0xf0
    requires Word(r, 8) == Tk1At(tk1, z) && Word(r, 16) == Tk2At(tk2, z, asWritten)
    ensures Word(r', 8) == Tk1At(tk1, z + 1) && Word(r', 16) == Tk2At(tk2, z + 1, asWritten)
    ensures r'[5] == r[5] && r'[26] == r[26] && r'[27] == r[27]
  {
    r' := UpdateTweakey(r, asWritten);
  }

  /** The routine from its entry to key_schedule_start: X from r24:r25, Y from r22:r23
      (roundKeys), the sixteen key bytes at X loaded, then r26 = 36, r5 = 0x0f and
      r27 = 0xf0. */
  method Prologue(entry: Regs, key: seq<byte>) returns (r': Regs)
    requires |key| == 16
    ensures Word(r', 8) == key[..8] && Word(r', 16) == key[8..]
    ensures Pair(r', 28) == Pair(entry, 22)
    ensures r'[26] == 36 && r'[5] == 0x0f && r'[27] == 0xf0
  {
    r' := Movw(entry, 26, 24);
    r' := Movw(r', 28, 22);
    r' := LoadKey(r', key);
    r' := Ldi(r', 26, 36);
    r' := Ldi(r', 27, 0x0f);
    r' := Mov(r', 5, 27);
    r' := Ldi(r', 27, 0xf0);
  }

  /** RunEncryptionKeySchedule(key, roundKeys) as written, the two pointers arriving in
      r24:r25 and r22:r23: thirty-six round keys at roundKeys[0 .. 144], with `lsr` in
      the LFSR, so from the second round key on TK2 does not follow the cipher's
      schedule. */
  method RunEncryptionKeyScheduleAsWritten(mem: array<byte>, entry: Regs, key: nat, roundKeys: nat,
                                           rcs: seq<byte>)
    requires mem.Length == 0x10000 && |rcs| >= 36
    requires Pair(entry, 24) == key && Pair(entry, 22) == roundKeys
    requires key + 16 <= 0x10000 && roundKeys + 144 <= 0x10000
    modifies mem
    ensures var tk := old(mem[key .. key + 16]);
      forall a | 0 <= a < mem.Length ::
        mem[a] == if roundKeys <= a < roundKeys + 144
                  then KeySchedule(rcs, tk[..8], tk[8..], 36, true)[a - roundKeys]
                  else old(mem[a])
  {
    var tk := mem[key .. key + 16];
    var r := Prologue(entry, tk);
    assert Pair(r, 28) == roundKeys;
    ScheduleRounds(rcs, tk[..8], tk[8..], true);
    r := ScheduleLoop(mem, r, roundKeys, rcs, true, tk[..8], tk[8..], KeySchedule(rcs, tk[..8], tk[8..], 36, true));
  }

  /** RunEncryptionKeySchedule(key, roundKeys) with `lsl` in the LFSR: the thirty-six
      round keys of SKINNY-64-128 at roundKeys[0 .. 144]. */
  method RunEncryptionKeySchedule(mem: array<byte>, entry: Regs, key: nat, roundKeys: nat,
                                  rcs: seq<byte>)
    requires mem.Length == 0x10000 && |rcs| >= 36
    requires Pair(entry, 24) == key && Pair(entry, 22) == roundKeys
    requires key + 16 <= 0x10000 && roundKeys + 144 <= 0x10000
    modifies mem
    ensures var tk := old(mem[key .. key + 16]);
      forall a | 0 <= a < mem.Length ::
        mem[a] == if roundKeys <= a < roundKeys + 144
                  then KeySchedule(rcs, tk[..8], tk[8..], 36, false)[a - roundKeys]
                  else old(mem[a])
  {
    var tk := mem[key .. key + 16];
    var r := Prologue(entry, tk);
    assert Pair(r, 28) == roundKeys;
    ScheduleRounds(rcs, tk[..8], tk[8..], false);
    r := ScheduleLoop(mem, r, roundKeys, rcs, false, tk[..8], tk[8..], KeySchedule(rcs, tk[..8], tk[8..], 36, false));
  }
}
