/** The AVR routine Decrypt of SKINNY-128-128: forty inverse rounds over the block in
    place, reading eight round-key bytes per round forward from the round-key buffer
    and the inverse S-box from a table aligned on a page of data memory.

    At dec_loop the state is row-major in r8 .. r23.  The inverse MixColumns chain
    leaves row 0 in r12 .. r15, row 1 in r16 .. r19, row 2 in r20 .. r23 and row 3 in
    r8 .. r11; InvShiftRows is never performed, the key step and the inverse S-box step
    read the cells where it would have put them (ShiftedView), and the S-box step
    writes the state back row-major.

    As written, line 177 takes the index of cell 13 from r8, which line 164 has
    already overwritten with the substituted cell 0; the routine saved cell 13 in r6
    for that lookup.  Every member below takes a flag asWritten choosing between the
    code as written and the code with r6 read at line 177. */
module Decrypt128 {
  import opened Bits
  import opened Grid
  import opened Skinny128
  import opened Avr

  /** The inverse S-box step as written: cell 13 becomes the inverse S-box applied
      twice to cell 0. */
  function SubCellsAsWritten(inv: seq<byte>, v: seq<byte>): (r: seq<byte>)
    requires |inv| == 256 && |v| == 16
    ensures |r| == 16
    ensures forall i | 0 <= i < 16 && i != 13 :: r[i] == inv[v[i]]
    ensures r[13] == inv[inv[v[0]]]
  {
    SubCells(inv, v)[13 := inv[inv[v[0]]]]
  }

  /** One inverse round as the routine performs it; with asWritten false it is the
      SKINNY decryption round DecRound. */
  function InvRound(inv: seq<byte>, s: seq<byte>, rk: seq<byte>, asWritten: bool): (r: seq<byte>)
    requires |inv| == 256 && |s| == 16 && |rk| == 8
    ensures |r| == 16
    ensures !asWritten ==> r == DecRound(inv, s, rk)
  {
    var v := AddRoundKey(InvShiftRows(InvMixColumns(s)), rk);
    if asWritten then SubCellsAsWritten(inv, v) else SubCells(inv, v)
  }

  /** n inverse rounds applied to s, round i with round key i of rks: the routine
      walks its key pointer forward. */
  function DecryptForward(inv: seq<byte>, s: seq<byte>, rks: seq<byte>, n: nat,
                          asWritten: bool): (r: seq<byte>)
    requires |inv| == 256 && |s| == 16 && 8 * n <= |rks|
    ensures |r| == 16
  {
    if n == 0 then s
    else InvRound(inv, DecryptForward(inv, s, rks, n - 1, asWritten), RoundKeyAt(rks, n - 1), asWritten)
  }

  /** rev holds the first n round keys of rks in reverse order. */
  predicate ReversedKeys(rev: seq<byte>, rks: seq<byte>, n: nat)
  {
    8 * n <= |rev| && 8 * n <= |rks| &&
    forall j :: 0 <= j < n ==> RoundKeyAt(rev, j) == RoundKeyAt(rks, n - 1 - j)
  }

  /** The first n round keys of rks, last first. */
  function ReverseRoundKeys(rks: seq<byte>, n: nat): (rev: seq<byte>)
    requires 8 * n <= |rks|
    ensures |rev| == 8 * n
  {
    if n == 0 then [] else RoundKeyAt(rks, n - 1) + ReverseRoundKeys(rks, n - 1)
  }

  /** ReverseRoundKeys does reverse the order of the round keys. */
  lemma {:induction false} ReverseRoundKeysReversed(rks: seq<byte>, n: nat)
    requires 8 * n <= |rks|
    ensures ReversedKeys(ReverseRoundKeys(rks, n), rks, n)
  {
    if n > 0 {
      var rev, rest := ReverseRoundKeys(rks, n), ReverseRoundKeys(rks, n - 1);
      ReverseRoundKeysReversed(rks, n - 1);
      forall j | 0 <= j < n ensures RoundKeyAt(rev, j) == RoundKeyAt(rks, n - 1 - j) {
        if j == 0 {
          assert RoundKeyAt(rev, 0) == rev[..8];
        } else {
          assert RoundKeyAt(rev, j) == RoundKeyAt(rest, j - 1);
        }
      }
    }
  }

  /** With the round keys reversed, the forward walk is SKINNY decryption, which takes
      the round keys from the last down to the first. */
  lemma DecryptForwardReversed(inv: seq<byte>, s: seq<byte>, rev: seq<byte>, rks: seq<byte>, n: nat)
    requires |inv| == 256 && |s| == 16 && ReversedKeys(rev, rks, n)
    ensures DecryptForward(inv, s, rev, n, false) == DecryptRounds(inv, s, rks, n)
  {
    var i: nat, k: nat := 0, n;
    while i < n
      invariant i + k == n
      invariant DecryptRounds(inv, DecryptForward(inv, s, rev, i, false), rks, k)
             == DecryptRounds(inv, s, rks, n)
    {
      ReversedStep(inv, s, rev, rks, i, k, n);
      i, k := i + 1, k - 1;
    }
  }

  /** Round i of the forward walk is the round decryption peels when k rounds remain. */
  lemma ReversedStep(inv: seq<byte>, s: seq<byte>, rev: seq<byte>, rks: seq<byte>, i: nat, k: nat, n: nat)
    requires |inv| == 256 && |s| == 16 && ReversedKeys(rev, rks, n) && i + k == n && i < n
    ensures DecryptRounds(inv, DecryptForward(inv, s, rev, i, false), rks, k)
         == DecryptRounds(inv, DecryptForward(inv, s, rev, i + 1, false), rks, k - 1)
  {
    var w := DecryptForward(inv, s, rev, i, false);
    assert RoundKeyAt(rev, i) == RoundKeyAt(rks, k - 1);
    assert DecryptForward(inv, s, rev, i + 1, false) == DecRound(inv, w, RoundKeyAt(rev, i));
  }

  /** Given the encryption round keys in reverse order, the corrected routine undoes the
      forty rounds of Encrypt. */
  lemma DecryptUndoesEncrypt(inv: seq<byte>, sbox: seq<byte>, p: seq<byte>, rks: seq<byte>,
                             rev: seq<byte>)
    requires Inverts(inv, sbox) && |p| == 16 && ReversedKeys(rev, rks, 40)
    ensures DecryptForward(inv, EncryptRounds(sbox, p, rks, 40), rev, 40, false) == p
  {
    DecryptForwardReversed(inv, EncryptRounds(sbox, p, rks, 40), rev, rks, 40);
    RoundTrip(inv, sbox, p, rks, 40);
  }

  /** As written, one inverse round does not undo an encryption round: its cell 13 is
      the inverse S-box of the plaintext's cell 0, so any plaintext whose cell 13 differs
      from that comes back changed. */
  lemma AsWrittenRoundFails(inv: seq<byte>, sbox: seq<byte>, p: seq<byte>, rk: seq<byte>)
    requires Inverts(inv, sbox) && |p| == 16 && |rk| == 8
    ensures InvRound(inv, EncRound(sbox, p, rk), rk, true)[13] == inv[p[0]]
    ensures p[13] != inv[p[0]] ==> InvRound(inv, EncRound(sbox, p, rk), rk, true) != p
  {
    var e := EncRound(sbox, p, rk);
    var v := AddRoundKey(InvShiftRows(InvMixColumns(e)), rk);
    var v' := SubCells(sbox, p);
    MixColumnsInverse(ShiftRows(AddRoundKey(v', rk)));
    ShiftRowsInverse(AddRoundKey(v', rk));
    AddRoundKeyInvolution(v', rk);
    assert v == v';
  }

  /** The cells as the key step and the inverse S-box step read them: where
      InvShiftRows would put them after the inverse MixColumns chain. */
  function ShiftedView(r: Regs): (s: seq<byte>)
    ensures |s| == 16
  {
    [r[12], r[13], r[14], r[15],
     r[17], r[18], r[19], r[16],
     r[22], r[23], r[20], r[21],
     r[11], r[8], r[9], r[10]]
  }

  /** The sixteen `ld rX, x+` of the block, row-major into r8 .. r23. */
  method LoadBlock(r: Regs, block: seq<byte>) returns (r': Regs)
    requires |block| == 16
    ensures Cells(r') == block
    ensures forall i | 0 <= i < 32 && !(8 <= i < 24) :: r'[i] == r[i]
  {
    r' := r;
    var k := 0;
    while k < 16
      invariant 0 <= k <= 16
      invariant forall i | 0 <= i < 32 :: r'[i] == if 8 <= i < 8 + k then block[i - 8] else r[i]
    {
      r' := Ldi(r', 8 + k, block[k]);
      k := k + 1;
    }
    Equal16(Cells(r'), block);
  }

  /** InvShiftRows after InvMixColumns, cell by cell: what InvMixStep leaves. */
  lemma InvShiftMixCells(c: seq<byte>)
    requires |c| == 16
    ensures InvShiftRows(InvMixColumns(c)) ==
      [c[4], c[5], c[6], c[7],
       XorByte(c[9], XorByte(c[13], c[5])), XorByte(c[10], XorByte(c[14], c[6])),
       XorByte(c[11], XorByte(c[15], c[7])), XorByte(c[8], XorByte(c[12], c[4])),
       XorByte(c[14], c[6]), XorByte(c[15], c[7]), XorByte(c[12], c[4]), XorByte(c[13], c[5]),
       XorByte(c[3], c[15]), XorByte(c[0], c[12]), XorByte(c[1], c[13]), XorByte(c[2], c[14])]
  {
    InvMixColumnsCells(c);
    InvShiftRowsCells(InvMixColumns(c));
  }

  /** mix column: three exclusive ors per column perform InvMixColumns, leaving the
      rows rotated by one register row; read through ShiftedView that is InvShiftRows
      as well. */
  method InvMixStep(r: Regs) returns (r': Regs)
    ensures ShiftedView(r') == InvShiftRows(InvMixColumns(Cells(r)))
    ensures forall i | 0 <= i < 32 && !(8 <= i < 24) :: r'[i] == r[i]
  {
    var r1 := ColumnXors(r, 8, 20, 12, 16);
    var r2 := ColumnXors(r1, 9, 21, 13, 17);
    var r3 := ColumnXors(r2, 10, 22, 14, 18);
    r' := ColumnXors(r3, 11, 23, 15, 19);
    InvMixedRegs(r, r');
  }

  /** The registers after the twelve exclusive ors of InvMixStep, read through
      ShiftedView. */
  lemma InvMixedRegs(r: Regs, r': Regs)
    requires r'[8] == XorByte(r[8], r[20]) && r'[20] == XorByte(r[20], r[12])
    requires r'[16] == XorByte(r[16], XorByte(r[20], r[12]))
    requires r'[9] == XorByte(r[9], r[21]) && r'[21] == XorByte(r[21], r[13])
    requires r'[17] == XorByte(r[17], XorByte(r[21], r[13]))
    requires r'[10] == XorByte(r[10], r[22]) && r'[22] == XorByte(r[22], r[14])
    requires r'[18] == XorByte(r[18], XorByte(r[22], r[14]))
    requires r'[11] == XorByte(r[11], r[23]) && r'[23] == XorByte(r[23], r[15])
    requires r'[19] == XorByte(r[19], XorByte(r[23], r[15]))
    requires r'[12] == r[12] && r'[13] == r[13] && r'[14] == r[14] && r'[15] == r[15]
    ensures ShiftedView(r') == InvShiftRows(InvMixColumns(Cells(r)))
  {
    InvShiftMixCells(Cells(r));
  }

  /** add_round_const_round_key: round-key bytes 0 .. 3 into r12 .. r15, bytes 4 .. 7
      into r17, r18, r19, r16 (each loaded into r6 first), and 0x02 from r25 into r22:
      cells 0 .. 8 as ShiftedView reads them. */
  method KeyStep(r: Regs, rk: seq<byte>) returns (r': Regs)
    requires |rk| == 8 && r[25] == 2
    ensures ShiftedView(r') == AddRoundKey(ShiftedView(r), rk)
    ensures forall i | 0 <= i < 32 && i != 6 && !(12 <= i < 20) && i != 22 :: r'[i] == r[i]
  {
    r' := Ldi(r, 6, rk[0]);
    r' := Eor(r', 12, 6);
    r' := Ldi(r', 6, rk[1]);
    r' := Eor(r', 13, 6);
    r' := Ldi(r', 6, rk[2]);
    r' := Eor(r', 14, 6);
    r' := Ldi(r', 6, rk[3]);
    r' := Eor(r', 15, 6);
    r' := Ldi(r', 6, rk[4]);
    r' := Eor(r', 17, 6);
    r' := Ldi(r', 6, rk[5]);
    r' := Eor(r', 18, 6);
    r' := Ldi(r', 6, rk[6]);
    r' := Eor(r', 19, 6);
    r' := Ldi(r', 6, rk[7]);
    r' := Eor(r', 16, 6);
    r' := Eor(r', 22, 25);
    assert r'[22] == XorByte(r[22], 2);
    assert ShiftedView(r') == AddRoundKey(ShiftedView(r), rk) by {
      AddRoundKeyCells(ShiftedView(r), rk);
      Equal16(ShiftedView(r'), AddRoundKey(ShiftedView(r), rk));
    }
  }

  /** shift_row_with_sub_column: each cell through the inverse S-box at page r29 (the
      index in r28, the result loaded through Y), landing row-major in r8 .. r23.  Cells
      13 and 14 are saved in r6 and r7 by the `movw` before r8 and r9 are overwritten. */
  method InvSubStep(r: Regs, m: seq<seq<byte>>, inv: seq<byte>, asWritten: bool) returns (r': Regs)
    requires TableAt(m, r[29], inv)
    ensures Cells(r') ==
      if asWritten then SubCellsAsWritten(inv, ShiftedView(r)) else SubCells(inv, ShiftedView(r))
    ensures forall i | 0 <= i < 32 && !(6 <= i < 24) && i != 28 :: r'[i] == r[i]
  {
    var v := ShiftedView(r);
    var h := InvSubFirstHalf(r, m, inv, asWritten);
    r' := InvSubSecondHalf(h, m, inv);
    if asWritten {
      InvSubstitutedCells(r', inv, v, inv[inv[v[0]]]);
    } else {
      InvSubstitutedCells(r', inv, v, inv[v[13]]);
      assert SubCells(inv, v)[13 := inv[v[13]]] == SubCells(inv, v);
    }
  }

  /** `movw r6, r8` and the first eight lookups; the eighth reads its index from r8 as
      written and from r6 as intended. */
  method InvSubFirstHalf(r: Regs, m: seq<seq<byte>>, inv: seq<byte>, asWritten: bool) returns (r': Regs)
    requires TableAt(m, r[29], inv)
    ensures r'[6] == r[8] && r'[7] == r[9]
    ensures r'[8] == inv[r[12]] && r'[12] == inv[r[17]] && r'[17] == inv[r[23]] && r'[23] == inv[r[10]]
    ensures r'[10] == inv[r[14]] && r'[14] == inv[r[19]] && r'[19] == inv[r[21]]
    ensures r'[21] == if asWritten then inv[inv[r[12]]] else inv[r[8]]
    ensures forall i | 0 <= i < 32 && i !in {6, 7, 8, 10, 12, 14, 17, 19, 21, 23, 28} :: r'[i] == r[i]
  {
    r' := Movw(r, 6, 8);
    r' := Mov(r', 28, 12);
    r' := Lookup(r', 8, m, 29, 28);
    r' := Mov(r', 28, 17);
    r' := Lookup(r', 12, m, 29, 28);
    r' := Mov(r', 28, 23);
    r' := Lookup(r', 17, m, 29, 28);
    r' := Mov(r', 28, 10);
    r' := Lookup(r', 23, m, 29, 28);
    r' := Mov(r', 28, 14);
    r' := Lookup(r', 10, m, 29, 28);
    r' := Mov(r', 28, 19);
    r' := Lookup(r', 14, m, 29, 28);
    r' := Mov(r', 28, 21);
    r' := Lookup(r', 19, m, 29, 28);
    r' := Mov(r', 28, if asWritten then 8 else 6);
    r' := Lookup(r', 21, m, 29, 28);
  }

  /** The last eight lookups, cell 14 read back from r7. */
  method InvSubSecondHalf(r: Regs, m: seq<seq<byte>>, inv: seq<byte>) returns (r': Regs)
    requires TableAt(m, r[29], inv)
    ensures r'[9] == inv[r[13]] && r'[13] == inv[r[18]] && r'[18] == inv[r[20]] && r'[20] == inv[r[11]]
    ensures r'[11] == inv[r[15]] && r'[15] == inv[r[16]] && r'[16] == inv[r[22]] && r'[22] == inv[r[7]]
    ensures forall i | 0 <= i < 32 && i !in {9, 11, 13, 15, 16, 18, 20, 22, 28} :: r'[i] == r[i]
  {
    r' := Mov(r, 28, 13);
    r' := Lookup(r', 9, m, 29, 28);
    r' := Mov(r', 28, 18);
    r' := Lookup(r', 13, m, 29, 28);
    r' := Mov(r', 28, 20);
    r' := Lookup(r', 18, m, 29, 28);
    r' := Mov(r', 28, 11);
    r' := Lookup(r', 20, m, 29, 28);
    r' := Mov(r', 28, 15);
    r' := Lookup(r', 11, m, 29, 28);
    r' := Mov(r', 28, 16);
    r' := Lookup(r', 15, m, 29, 28);
    r' := Mov(r', 28, 22);
    r' := Lookup(r', 16, m, 29, 28);
    r' := Mov(r', 28, 7);
    r' := Lookup(r', 22, m, 29, 28);
  }

  /** Registers r8 .. r23 holding the table image of each cell of v, except that r21
      (cell 13) holds c13. */
  lemma InvSubstitutedCells(r: Regs, t: seq<byte>, v: seq<byte>, c13: byte)
    requires |t| == 256 && |v| == 16
    requires r[8] == t[v[0]] && r[9] == t[v[1]] && r[10] == t[v[2]] && r[11] == t[v[3]]
    requires r[12] == t[v[4]] && r[13] == t[v[5]] && r[14] == t[v[6]] && r[15] == t[v[7]]
    requires r[16] == t[v[8]] && r[17] == t[v[9]] && r[18] == t[v[10]] && r[19] == t[v[11]]
    requires r[20] == t[v[12]] && r[21] == c13 && r[22] == t[v[14]] && r[23] == t[v[15]]
    ensures Cells(r) == SubCells(t, v)[13 := c13]
  {
    SubCellsCells(t, v);
    Equal16(Cells(r), SubCells(t, v)[13 := c13]);
  }

  /** One pass of dec_loop: inverse round i with round key i, read from offset
      z = 8i of the round-key buffer, and r24 counted down by one. */
  method Round(r: Regs, m: seq<seq<byte>>, inv: seq<byte>, rks: seq<byte>, z: nat,
               ghost c: seq<byte>, ghost i: nat, asWritten: bool) returns (r': Regs)
    requires TableAt(m, r[29], inv) && r[25] == 2 && r[24] > 0
    requires |c| == 16 && z == 8 * i && z + 8 <= |rks|
    requires Cells(r) == DecryptForward(inv, c, rks, i, asWritten)
    ensures Cells(r') == DecryptForward(inv, c, rks, i + 1, asWritten)
    ensures r'[24] == r[24] - 1 && r'[25] == r[25] && r'[29] == r[29]
  {
    var rk := rks[z .. z + 8];
    assert rk == RoundKeyAt(rks, i);
    r' := InvMixStep(r);
    r' := KeyStep(r', rk);
    r' := InvSubStep(r', m, inv, asWritten);
    var substituted := r';
    r' := Dec(r', 24);
    assert Cells(r') == Cells(substituted);
  }

  /** dec_loop: r24 counts the forty rounds down, r25 holds 0x02, r29 the page of the
      inverse S-box; z is the offset the Z pointer has reached in the round-key buffer. */
  method DecLoop(r: Regs, m: seq<seq<byte>>, inv: seq<byte>, rks: seq<byte>, asWritten: bool)
    returns (r': Regs)
    requires r[24] == 40 && r[25] == 2 && TableAt(m, r[29], inv) && |rks| >= 320
    ensures Cells(r') == DecryptForward(inv, Cells(r), rks, 40, asWritten)
  {
    r' := r;
    var z := 0;
    ghost var i: nat := 0;
    while true
      invariant 1 <= r'[24] <= 40 && r'[25] == 2 && TableAt(m, r'[29], inv)
      invariant i == 40 - r'[24] as int && z == 8 * i
      invariant Cells(r') == DecryptForward(inv, Cells(r), rks, i, asWritten)
      decreases r'[24]
    {
      r' := Round(r', m, inv, rks, z, Cells(r), i, asWritten);
      z := z + 8;
      i := i + 1;
      if r'[24] == 0 {
        break;
      }
    }
  }

  /** The sixteen `st x-` from r23 down to r8: the block receives the state row-major.
      `st x-` is read as a store through X followed by a decrement of X, which starts at
      byte 15 where the loads left it. */
  method StoreBlock(r: Regs, block: array<byte>)
    requires block.Length == 16
    modifies block
    ensures block[..] == Cells(r)
  {
    var x := 15;
    while x >= 0
      invariant -1 <= x <= 15
      invariant forall i | x < i < 16 :: block[i] == Cells(r)[i]
    {
      block[x] := r[8 + x];
      x := x - 1;
    }
  }

  /** Decrypt(block, roundKeys): the block ends up as forty inverse rounds, round i
      with round key i taken from bytes 8i .. 8i+7 of roundKeys.  The routine as written
      is asWritten true; the round-trip lemma DecryptUndoesEncrypt is about the
      corrected one, given the round keys in reverse order. */
  method Decrypt(block: array<byte>, roundKeys: array<byte>, m: seq<seq<byte>>,
                 inv: seq<byte>, invPage: byte, entry: Regs, asWritten: bool)
    requires block.Length == 16 && roundKeys.Length >= 320
    requires TableAt(m, invPage, inv)
    modifies block
    ensures block[..] == DecryptForward(inv, old(block[..]), old(roundKeys[..]), 40, asWritten)
  {
    var r := LoadBlock(entry, block[..]);
    r := Ldi(r, 24, 40);
    r := Ldi(r, 25, 2);
    r := Ldi(r, 29, invPage);
    r := DecLoop(r, m, inv, roundKeys[..], asWritten);
    StoreBlock(r, block);
  }
}
