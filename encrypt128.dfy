/** The AVR routine Encrypt of SKINNY-128-128: forty rounds over the block in place,
    reading eight round-key bytes per round from the round-key buffer and the S-box
    from a table aligned on a page of data memory.

    Between rounds the state is not row-major: ShiftRows is never performed, the
    S-box step instead moves each cell to where ShiftRows would put it, and
    MixColumns leaves its output in the rotated layout read by LoopView. */
module Encrypt128 {
  import opened Bits
  import opened Grid
  import opened Skinny128
  import opened Avr

  /** The sixteen cells as the registers hold them at enc_loop. */
  function LoopView(r: Regs): (s: seq<byte>)
    ensures |s| == 16
  {
    [r[21], r[22], r[23], r[20],
     r[8], r[9], r[10], r[11],
     r[15], r[12], r[13], r[14],
     r[18], r[19], r[16], r[17]]
  }

  /** The sixteen `ld rX, x+` of the block: byte i goes where LoopView reads cell i. */
  method LoadBlock(r: Regs, block: seq<byte>) returns (r': Regs)
    requires |block| == 16
    ensures LoopView(r') == block
    ensures forall i | 0 <= i < 32 && !(8 <= i < 24) :: r'[i] == r[i]
  {
    r' := r;
    r' := Ldi(r', 21, block[0]);
    r' := Ldi(r', 22, block[1]);
    r' := Ldi(r', 23, block[2]);
    r' := Ldi(r', 20, block[3]);
    r' := Ldi(r', 8, block[4]);
    r' := Ldi(r', 9, block[5]);
    r' := Ldi(r', 10, block[6]);
    r' := Ldi(r', 11, block[7]);
    r' := Ldi(r', 15, block[8]);
    r' := Ldi(r', 12, block[9]);
    r' := Ldi(r', 13, block[10]);
    r' := Ldi(r', 14, block[11]);
    r' := Ldi(r', 18, block[12]);
    r' := Ldi(r', 19, block[13]);
    r' := Ldi(r', 16, block[14]);
    r' := Ldi(r', 17, block[15]);
    Equal16(LoopView(r'), block);
  }

  /** shift_row_with_sub_column: each cell through the S-box at page r29, landing
      row-major in r8 .. r23. */
  method SubStep(r: Regs, m: seq<seq<byte>>, sbox: seq<byte>) returns (r': Regs)
    requires TableAt(m, r[29], sbox)
    ensures Cells(r') == SubCells(sbox, LoopView(r))
    ensures forall i | 0 <= i < 32 && !(6 <= i < 24) && i != 28 :: r'[i] == r[i]
  {
    var h := SubFirstHalf(r, m, sbox);
    r' := SubSecondHalf(h, m, sbox);
    SubstitutedCells(r', sbox, LoopView(r));
  }

  /** The first eight lookups of SubStep, after `movw r6, r8` saves cells 4 and 5. */
  method SubFirstHalf(r: Regs, m: seq<seq<byte>>, sbox: seq<byte>) returns (r': Regs)
    requires TableAt(m, r[29], sbox)
    ensures r'[6] == r[8] && r'[7] == r[9]
    ensures r'[8] == sbox[r[21]] && r'[21] == sbox[r[19]] && r'[19] == sbox[r[14]] && r'[14] == sbox[r[10]]
    ensures r'[10] == sbox[r[23]] && r'[23] == sbox[r[17]] && r'[17] == sbox[r[12]] && r'[12] == sbox[r[8]]
    ensures forall i | 0 <= i < 32 && i !in {6, 7, 8, 10, 12, 14, 17, 19, 21, 23, 28} :: r'[i] == r[i]
  {
    r' := Movw(r, 6, 8);
    r' := Mov(r', 28, 21);
    r' := Lookup(r', 8, m, 29, 28);
    r' := Mov(r', 28, 19);
    r' := Lookup(r', 21, m, 29, 28);
    r' := Mov(r', 28, 14);
    r' := Lookup(r', 19, m, 29, 28);
    r' := Mov(r', 28, 10);
    r' := Lookup(r', 14, m, 29, 28);
    r' := Mov(r', 28, 23);
    r' := Lookup(r', 10, m, 29, 28);
    r' := Mov(r', 28, 17);
    r' := Lookup(r', 23, m, 29, 28);
    r' := Mov(r', 28, 12);
    r' := Lookup(r', 17, m, 29, 28);
    r' := Mov(r', 28, 6);
    r' := Lookup(r', 12, m, 29, 28);
  }

  /** The last eight lookups of SubStep, cell 5 read back from r7. */
  method SubSecondHalf(r: Regs, m: seq<seq<byte>>, sbox: seq<byte>) returns (r': Regs)
    requires TableAt(m, r[29], sbox)
    ensures r'[9] == sbox[r[22]] && r'[22] == sbox[r[16]] && r'[16] == sbox[r[15]] && r'[15] == sbox[r[11]]
    ensures r'[11] == sbox[r[20]] && r'[20] == sbox[r[18]] && r'[18] == sbox[r[13]] && r'[13] == sbox[r[7]]
    ensures forall i | 0 <= i < 32 && i !in {9, 11, 13, 15, 16, 18, 20, 22, 28} :: r'[i] == r[i]
  {
    r' := Mov(r, 28, 22);
    r' := Lookup(r', 9, m, 29, 28);
    r' := Mov(r', 28, 16);
    r' := Lookup(r', 22, m, 29, 28);
    r' := Mov(r', 28, 15);
    r' := Lookup(r', 16, m, 29, 28);
    r' := Mov(r', 28, 11);
    r' := Lookup(r', 15, m, 29, 28);
    r' := Mov(r', 28, 20);
    r' := Lookup(r', 11, m, 29, 28);
    r' := Mov(r', 28, 18);
    r' := Lookup(r', 20, m, 29, 28);
    r' := Mov(r', 28, 13);
    r' := Lookup(r', 18, m, 29, 28);
    r' := Mov(r', 28, 7);
    r' := Lookup(r', 13, m, 29, 28);
  }

  /** Registers r8 .. r23 holding the table image of each cell of v, cell by cell. */
  lemma SubstitutedCells(r: Regs, t: seq<byte>, v: seq<byte>)
    requires |t| == 256 && |v| == 16
    requires r[8] == t[v[0]] && r[9] == t[v[1]] && r[10] == t[v[2]] && r[11] == t[v[3]]
    requires r[12] == t[v[4]] && r[13] == t[v[5]] && r[14] == t[v[6]] && r[15] == t[v[7]]
    requires r[16] == t[v[8]] && r[17] == t[v[9]] && r[18] == t[v[10]] && r[19] == t[v[11]]
    requires r[20] == t[v[12]] && r[21] == t[v[13]] && r[22] == t[v[14]] && r[23] == t[v[15]]
    ensures Cells(r) == SubCells(t, v)
  {
    SubCellsCells(t, v);
    Equal16(Cells(r), SubCells(t, v));
  }

  /** add_round_const_round_key: the eight bytes rk into rows 0 and 1 (each loaded
      into r6 first) and the constant 0x02 of r25 into cell 8. */
  method KeyStep(r: Regs, rk: seq<byte>) returns (r': Regs)
    requires |rk| == 8 && r[25] == 2
    ensures Cells(r') == AddRoundKey(Cells(r), rk)
    ensures forall i | 0 <= i < 32 && i != 6 && !(8 <= i < 17) :: r'[i] == r[i]
  {
    r' := Ldi(r, 6, rk[0]);
    r' := Eor(r', 8, 6);
    r' := Ldi(r', 6, rk[1]);
    r' := Eor(r', 9, 6);
    r' := Ldi(r', 6, rk[2]);
    r' := Eor(r', 10, 6);
    r' := Ldi(r', 6, rk[3]);
    r' := Eor(r', 11, 6);
    r' := Ldi(r', 6, rk[4]);
    r' := Eor(r', 12, 6);
    r' := Ldi(r', 6, rk[5]);
    r' := Eor(r', 13, 6);
    r' := Ldi(r', 6, rk[6]);
    r' := Eor(r', 14, 6);
    r' := Ldi(r', 6, rk[7]);
    r' := Eor(r', 15, 6);
    r' := Eor(r', 16, 25);
    assert r'[16] == XorByte(r[16], 2);
    assert Cells(r') == AddRoundKey(Cells(r), rk) by {
      AddRoundKeyCells(Cells(r), rk);
      Equal16(Cells(r'), AddRoundKey(Cells(r), rk));
    }
  }

  /** mix column: three exclusive ors per column, which together with the S-box step's
      placement perform ShiftRows and then MixColumns. */
  method MixStep(r: Regs) returns (r': Regs)
    ensures LoopView(r') == MixColumns(ShiftRows(Cells(r)))
    ensures forall i | 0 <= i < 32 && !(8 <= i < 24) :: r'[i] == r[i]
  {
    var c := Cells(r);
    var r1 := ColumnXors(r, 15, 18, 8, 21);
    var r2 := ColumnXors(r1, 12, 19, 9, 22);
    var r3 := ColumnXors(r2, 13, 16, 10, 23);
    r' := ColumnXors(r3, 14, 17, 11, 20);
    MixShiftCells(c);
    MixedRegs(r', c);
  }

  /** The registers after the twelve exclusive ors, read through LoopView. */
  lemma MixedRegs(r: Regs, c: seq<byte>)
    requires |c| == 16
    requires r[21] == XorByte(c[13], XorByte(c[10], c[0])) && r[22] == XorByte(c[14], XorByte(c[11], c[1]))
    requires r[23] == XorByte(c[15], XorByte(c[8], c[2])) && r[20] == XorByte(c[12], XorByte(c[9], c[3]))
    requires r[8] == c[0] && r[9] == c[1] && r[10] == c[2] && r[11] == c[3]
    requires r[15] == XorByte(c[7], c[10]) && r[12] == XorByte(c[4], c[11])
    requires r[13] == XorByte(c[5], c[8]) && r[14] == XorByte(c[6], c[9])
    requires r[18] == XorByte(c[10], c[0]) && r[19] == XorByte(c[11], c[1])
    requires r[16] == XorByte(c[8], c[2]) && r[17] == XorByte(c[9], c[3])
    ensures LoopView(r) ==
      [XorByte(c[13], XorByte(c[10], c[0])), XorByte(c[14], XorByte(c[11], c[1])),
       XorByte(c[15], XorByte(c[8], c[2])), XorByte(c[12], XorByte(c[9], c[3])),
       c[0], c[1], c[2], c[3],
       XorByte(c[7], c[10]), XorByte(c[4], c[11]), XorByte(c[5], c[8]), XorByte(c[6], c[9]),
       XorByte(c[10], c[0]), XorByte(c[11], c[1]), XorByte(c[8], c[2]), XorByte(c[9], c[3])]
  {
  }

  /** MixColumns after ShiftRows, cell by cell: the exclusive ors MixStep performs. */
  lemma MixShiftCells(c: seq<byte>)
    requires |c| == 16
    ensures MixColumns(ShiftRows(c)) ==
      [XorByte(c[13], XorByte(c[10], c[0])), XorByte(c[14], XorByte(c[11], c[1])),
       XorByte(c[15], XorByte(c[8], c[2])), XorByte(c[12], XorByte(c[9], c[3])),
       c[0], c[1], c[2], c[3],
       XorByte(c[7], c[10]), XorByte(c[4], c[11]), XorByte(c[5], c[8]), XorByte(c[6], c[9]),
       XorByte(c[10], c[0]), XorByte(c[11], c[1]), XorByte(c[8], c[2]), XorByte(c[9], c[3])]
  {
    ShiftRowsCells(c);
    MixColumnsCells(ShiftRows(c));
  }

  /** One pass of enc_loop: round i of the cipher with round key i, read from offset
      z = 8i of the round-key buffer, and r24 counted down by one. */
  method Round(r: Regs, m: seq<seq<byte>>, sbox: seq<byte>, rks: seq<byte>, z: nat,
               ghost p: seq<byte>, ghost i: nat) returns (r': Regs)
    requires TableAt(m, r[29], sbox) && r[25] == 2 && r[24] > 0
    requires |p| == 16 && z == 8 * i && z + 8 <= |rks|
    requires LoopView(r) == EncryptRounds(sbox, p, rks, i)
    ensures LoopView(r') == EncryptRounds(sbox, p, rks, i + 1)
    ensures r'[24] == r[24] - 1 && r'[25] == r[25] && r'[29] == r[29]
  {
    var rk := rks[z .. z + 8];
    assert rk == RoundKeyAt(rks, i);
    r' := SubStep(r, m, sbox);
    r' := KeyStep(r', rk);
    r' := MixStep(r');
    var mixed := r';
    r' := Dec(r', 24);
    assert LoopView(r') == LoopView(mixed);
  }

  /** The registers the sixteen `st x-` take byte 15 down to byte 0 from. */
  const StoreOrder: seq<nat> := [21, 22, 23, 20, 8, 9, 10, 11, 15, 12, 13, 14, 18, 19, 16, 17]

  /** The sixteen `st x-`, from the last byte down: byte i is the cell LoopView reads.
      `st x-` is read as a store through X followed by a decrement of X, which starts at
      byte 15 where the loads left it. */
  method StoreBlock(r: Regs, block: array<byte>)
    requires block.Length == 16
    modifies block
    ensures block[..] == LoopView(r)
  {
    var x := 15;
    while x >= 0
      invariant -1 <= x <= 15
      invariant forall i | x < i < 16 :: block[i] == LoopView(r)[i]
    {
      block[x] := r[StoreOrder[x]];
      x := x - 1;
    }
  }

  /** enc_loop: r24 counts the forty rounds down, r25 holds 0x02, r29 the page of the
      S-box; z is the offset the Z pointer has reached in the round-key buffer rks. */
  method EncLoop(r: Regs, m: seq<seq<byte>>, sbox: seq<byte>, rks: seq<byte>) returns (r': Regs)
    requires r[24] == 40 && r[25] == 2 && TableAt(m, r[29], sbox) && |rks| >= 320
    ensures LoopView(r') == EncryptRounds(sbox, LoopView(r), rks, 40)
  {
    r' := r;
    var z := 0;
    ghost var i: nat := 0;
    while true
      invariant 1 <= r'[24] <= 40 && r'[25] == 2 && TableAt(m, r'[29], sbox)
      invariant i == 40 - r'[24] as int && z == 8 * i
      invariant LoopView(r') == EncryptRounds(sbox, LoopView(r), rks, i)
      decreases r'[24]
    {
      r' := Round(r', m, sbox, rks, z, LoopView(r), i);
      z := z + 8;
      i := i + 1;
      if r'[24] == 0 {
        break;
      }
    }
  }

  /** Encrypt(block, roundKeys): the block ends up as forty rounds of SKINNY-128-128
      with round key i taken from bytes 8i .. 8i+7 of roundKeys. */
  method Encrypt(block: array<byte>, roundKeys: array<byte>, m: seq<seq<byte>>,
                 sbox: seq<byte>, sboxPage: byte, entry: Regs)
    requires block.Length == 16 && roundKeys.Length >= 320
    requires TableAt(m, sboxPage, sbox)
    modifies block
    ensures block[..] == EncryptRounds(sbox, old(block[..]), old(roundKeys[..]), 40)
  {
    var r := LoadBlock(entry, block[..]);
    r := Ldi(r, 24, 40);
    r := Ldi(r, 25, 2);
    r := Ldi(r, 29, sboxPage);
    r := EncLoop(r, m, sbox, roundKeys[..]);
    StoreBlock(r, block);
  }
}
