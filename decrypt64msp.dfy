/** The MSP430 routine Decrypt of SKINNY-64-128.  The state is four 16-bit registers,
    row r of the block in register r4 + r as a little-endian word (Rows).  Each pass
    of dec_loop undoes one round: the inverse MixColumn leaves the rows in the order
    r5, r6, r7, r4 (MixedView), the inverse ShiftRow turns r6 and r4 by four bits and
    swaps the bytes of r7, the key words are read through r14, and the inverse
    SubColumn rebuilds the rows in r4 .. r7 through r10, r11 and r12.

    r14 and r15 hold addresses; the model keeps the offset y that r14 has reached
    into the round keys instead.  As written the routine never writes the state back
    to the block: the pops that end it restore r4 .. r7, and the plaintext is lost.
    DecryptAsWritten models that; Decrypt stores r4 .. r7 into the block first. */
module Decrypt64Msp {
  import opened Bits
  import opened Nibbles
  import opened Skinny64
  import opened Msp430

  /** The eight bytes of four words, each low byte first. */
  function Bytes(w0: word, w1: word, w2: word, w3: word): (b: seq<byte>)
    ensures |b| == 8
  {
    [LowByte(w0), HighByte(w0), LowByte(w1), HighByte(w1),
     LowByte(w2), HighByte(w2), LowByte(w3), HighByte(w3)]
  }

  /** The state: rows 0 .. 3 in r4 .. r7. */
  function Rows(s: Machine): (b: seq<byte>)
    ensures |b| == 8
  {
    Bytes(s.r[4], s.r[5], s.r[6], s.r[7])
  }

  /** The rows as the inverse MixColumn leaves them: row 0 in r5, row 1 in r6, row 2
      in r7 and row 3 in r4. */
  function MixedView(s: Machine): (b: seq<byte>)
    ensures |b| == 8
  {
    Bytes(s.r[5], s.r[6], s.r[7], s.r[4])
  }

  /** `dec d`: d counted down by one, modulo 2^16. */
  function Dec(s: Machine, d: nat): Machine
    requires d < 16
  {
    s.(r := s.r[d := if s.r[d] == 0 then 65535 else s.r[d] - 1])
  }

  /** Inverse MixColumn: `xor r7, r4; xor r5, r7; xor r7, r6`. */
  method InvMixStep(s: Machine) returns (s': Machine)
    ensures MixedView(s') == InvMixColumns(Rows(s))
    ensures forall i | 0 <= i < 16 && i != 4 && i != 6 && i != 7 :: s'.r[i] == s.r[i]
  {
    XorPacked(s.r[4], s.r[7]);
    s' := XorReg(s, 7, 4);
    XorPacked(s'.r[7], s'.r[5]);
    s' := XorReg(s', 5, 7);
    XorPacked(s'.r[6], s'.r[7]);
    s' := XorReg(s', 7, 6);
  }

  /** Inverse ShiftRow: row 1 (r6) turned by four bits to the right, row 2 (r7) with
      its bytes swapped, row 3 (r4) turned by four bits to the left. */
  method InvShiftStep(s: Machine) returns (s': Machine)
    ensures MixedView(s') == InvShiftRows(MixedView(s))
    ensures forall i | 0 <= i < 16 && i != 4 && i != 6 && i != 7 :: s'.r[i] == s.r[i]
  {
    s' := TurnRight(s, 6);
    s' := Swpb(s', 7);
    s' := TurnLeft(s', 4);
  }

  /** Inverse AddRoundKey and AddRoundConstant: `xor @r14+, r5; xor @r14+, r6` with
      the four key bytes as two little-endian words, and `xor #0x2, r7`. */
  method KeyStep(s: Machine, rk: seq<byte>) returns (s': Machine)
    requires |rk| == 4
    ensures MixedView(s') == AddRoundKey(MixedView(s), rk)
    ensures forall i | 0 <= i < 16 && !(5 <= i < 8) :: s'.r[i] == s.r[i]
  {
    s' := XorValue(s, Pack16(rk[0], rk[1]), 5);
    s' := XorValue(s', Pack16(rk[2], rk[3]), 6);
    s' := XorValue(s', 2, 7);
    KeyView(s.r[4], s.r[5], s.r[6], s.r[7], s'.r[5], s'.r[6], s'.r[7], rk);
  }

  /** The three key words xored into r5, r6 and r7 are AddRoundKey on the rows in the
      order r5, r6, r7, r4. */
  lemma KeyView(w4: word, w5: word, w6: word, w7: word, n5: word, n6: word, n7: word, rk: seq<byte>)
    requires |rk| == 4
    requires n5 == XorWord(w5, Pack16(rk[0], rk[1])) && n6 == XorWord(w6, Pack16(rk[2], rk[3]))
    requires n7 == XorWord(w7, 2)
    ensures Bytes(n5, n6, n7, w4) == AddRoundKey(Bytes(w5, w6, w7, w4), rk)
  {
    XorWordBytes(w5, rk[0], rk[1]);
    XorWordBytes(w6, rk[2], rk[3]);
    XorWordConst(w7, 2);
    ArkBytes(Bytes(w5, w6, w7, w4), rk, Bytes(n5, n6, n7, w4));
  }

  /** A word xored with a value below 256 (`xor #0x2, r7`) changes its low byte only. */
  lemma XorWordConst(w: word, k: byte)
    ensures LowByte(XorWord(w, k)) == XorByte(LowByte(w), k)
    ensures HighByte(XorWord(w, k)) == HighByte(w)
  {
    assert Pack16(k, 0) == k;
    XorWordBytes(w, k, 0);
    XorZero(HighByte(w));
  }

  /** AddRoundKey cell by cell. */
  lemma ArkBytes(v: seq<byte>, rk: seq<byte>, b: seq<byte>)
    requires |v| == 8 && |rk| == 4 && |b| == 8
    requires forall j | 0 <= j < 4 :: b[j] == XorByte(v[j], rk[j])
    requires b[4] == XorByte(v[4], 2) && b[5] == v[5] && b[6] == v[6] && b[7] == v[7]
    ensures b == AddRoundKey(v, rk)
  {
  }

  /** A word xored with the word of bytes lo, hi: each byte xored with its own. */
  lemma XorWordBytes(w: word, lo: byte, hi: byte)
    ensures LowByte(XorWord(w, Pack16(lo, hi))) == XorByte(LowByte(w), lo)
    ensures HighByte(XorWord(w, Pack16(lo, hi))) == XorByte(HighByte(w), hi)
  {
    XorPacked(w, Pack16(lo, hi));
  }

  /** `mov.b x, r12; mov.b INV_SBOX(r12), r11; swpb x`: the low byte of x through
      the table into r11, and the bytes of x exchanged. */
  method SubLow(s: Machine, inv: seq<byte>, x: nat) returns (s': Machine)
    requires |inv| == 256 && x < 16 && x != 11 && x != 12
    ensures s'.r[11] == inv[LowByte(s.r[x])]
    ensures s'.r[x] == Pack16(HighByte(s.r[x]), LowByte(s.r[x]))
    ensures forall i | 0 <= i < 16 && i != x && i != 11 && i != 12 :: s'.r[i] == s.r[i]
  {
    s' := MovB(s, x, 12);
    s' := MovBIndexed(s', inv, 12, 11);
    s' := Swpb(s', x);
  }

  /** `mov.b x, r12; mov.b INV_SBOX(r12), d; swpb d`: the low byte of x through the
      table into the high byte of d. */
  method SubHigh(s: Machine, inv: seq<byte>, x: nat, d: nat) returns (s': Machine)
    requires |inv| == 256 && x < 16 && d < 16 && d != 12
    ensures s'.r[d] == 256 * inv[LowByte(s.r[x])] as int
    ensures forall i | 0 <= i < 16 && i != d && i != 12 :: s'.r[i] == s.r[i]
  {
    s' := MovB(s, x, 12);
    s' := MovBIndexed(s', inv, 12, d);
    s' := Swpb(s', d);
  }

  /** One line of the inverse SubColumn: both bytes of x through the table, put
      together in d with `xor r11, d`. */
  method SubLine(s: Machine, inv: seq<byte>, x: nat, d: nat) returns (s': Machine)
    requires |inv| == 256 && x < 16 && d < 16 && x != d && x != 11 && x != 12 && d != 11 && d != 12
    ensures s'.r[d] == Pack16(inv[LowByte(s.r[x])], inv[HighByte(s.r[x])])
    ensures forall i | 0 <= i < 16 && i != x && i != d && i != 11 && i != 12 :: s'.r[i] == s.r[i]
  {
    var w := s.r[x];
    s' := SubLow(s, inv, x);
    s' := SubHigh(s', inv, x, d);
    s' := XorReg(s', 11, d);
    XorApart(inv[HighByte(w)], inv[LowByte(w)]);
  }

  /** Inverse SubColumn: the four lines, MixedView through the table back into r4 ..
      r7 in order (line 0 by way of r10). */
  method InvSubStep(s: Machine, inv: seq<byte>) returns (s': Machine)
    requires |inv| == 256
    ensures Rows(s') == SubBytes(inv, MixedView(s))
    ensures forall i | 0 <= i < 16 && !(4 <= i < 8) && !(10 <= i < 13) :: s'.r[i] == s.r[i]
  {
    s' := SubLine(s, inv, 5, 10);
    s' := SubLine(s', inv, 6, 5);
    s' := SubLine(s', inv, 7, 6);
    s' := SubLine(s', inv, 4, 7);
    s' := Mov(s', 10, 4);
  }

  /** The body of dec_loop: the round undone with round key k = r13 - 1, read at
      offset y = 4k, and r13 counted down by one. */
  method Round(s: Machine, inv: seq<byte>, rks: seq<byte>, y: nat) returns (s': Machine)
    requires |inv| == 256 && s.r[13] > 0
    requires y == 4 * (s.r[13] as int - 1) && y + 4 <= |rks|
    ensures s'.r[13] == s.r[13] - 1
    ensures Rows(s') == DecRound(inv, Rows(s), RoundKeyAt(rks, s'.r[13]))
  {
    var rk := rks[y .. y + 4];
    s' := InvMixStep(s);
    s' := InvShiftStep(s');
    s' := KeyStep(s', rk);
    s' := InvSubStep(s', inv);
    s' := Dec(s', 13);
  }

  /** One pass of dec_loop as the loop sees it: the r13 rounds still to undo reach the
      same plaintext `goal` as the r13 - 1 left after it. */
  method Pass(s: Machine, inv: seq<byte>, rks: seq<byte>, y: nat, ghost goal: seq<byte>)
    returns (s': Machine)
    requires |inv| == 256 && s.r[13] > 0
    requires y == 4 * (s.r[13] as int - 1) && y + 4 <= |rks|
    requires DecryptRounds(inv, Rows(s), rks, s.r[13]) == goal
    ensures s'.r[13] == s.r[13] - 1
    ensures DecryptRounds(inv, Rows(s'), rks, s'.r[13]) == goal
  {
    s' := Round(s, inv, rks, y);
    DecryptRoundsStep(inv, Rows(s), rks, s.r[13], s'.r[13], goal);
  }

  /** dec_loop: r13 counts the rounds down from n; y is the offset r14 has reached,
      starting at round key n - 1 and stepping back by four (`sub #8, r14` after two
      `xor @r14+`). */
  method DecLoop(s: Machine, inv: seq<byte>, rks: seq<byte>) returns (s': Machine)
    requires |inv| == 256 && 1 <= s.r[13] && 4 * s.r[13] <= |rks|
    ensures Rows(s') == DecryptRounds(inv, Rows(s), rks, s.r[13])
  {
    ghost var goal := DecryptRounds(inv, Rows(s), rks, s.r[13]);
    s' := s;
    var y: int := 4 * (s.r[13] as int - 1);
    while true
      invariant 1 <= s'.r[13] <= s.r[13] && y == 4 * (s'.r[13] as int - 1)
      invariant DecryptRounds(inv, Rows(s'), rks, s'.r[13]) == goal
      decreases s'.r[13]
    {
      s' := Pass(s', inv, rks, y, goal);
      y := y + 4 - 8;
      if s'.r[13] == 0 {
        break;
      }
    }
  }

  /** The block loaded with `mov 0(r15), r4` .. `mov 6(r15), r7` and the 36 rounds
      undone from round key 35 on (`mov #36, r13; add #140, r14`). */
  method Run(entry: Machine, block: seq<byte>, inv: seq<byte>, rks: seq<byte>) returns (s': Machine)
    requires |block| == 8 && |inv| == 256 && 144 <= |rks|
    ensures Rows(s') == DecryptRounds(inv, block, rks, 36)
  {
    s' := MovValue(entry, 36, 13);
    s' := MovValue(s', Pack16(block[0], block[1]), 4);
    s' := MovValue(s', Pack16(block[2], block[3]), 5);
    s' := MovValue(s', Pack16(block[4], block[5]), 6);
    s' := MovValue(s', Pack16(block[6], block[7]), 7);
    assert Rows(s') == block;
    s' := DecLoop(s', inv, rks);
  }

  /** The six pops: r4 .. r7, r10 and r11 as they were on entry. */
  function Restore(s: Machine, entry: Machine): (s': Machine)
    ensures Rows(s') == Rows(entry) && s'.r[10] == entry.r[10] && s'.r[11] == entry.r[11]
  {
    s.(r := s.r[4 := entry.r[4]][5 := entry.r[5]][6 := entry.r[6]][7 := entry.r[7]]
               [10 := entry.r[10]][11 := entry.r[11]])
  }

  /** Decrypt(block, roundKeys) as written: the 36 rounds are undone in r4 .. r7
      (`plain`), then the pops put back the registers of the caller.  The block is
      not among what the routine may modify: it still holds the ciphertext. */
  method DecryptAsWritten(block: array<byte>, roundKeys: array<byte>, inv: seq<byte>, entry: Machine)
    returns (exit: Machine, ghost plain: seq<byte>)
    requires block.Length == 8 && roundKeys.Length >= 144 && |inv| == 256
    ensures plain == DecryptRounds(inv, block[..], roundKeys[..], 36)
    ensures block[..] == old(block[..])
    ensures Rows(exit) == Rows(entry) && exit.r[10] == entry.r[10] && exit.r[11] == entry.r[11]
  {
    var s := Run(entry, block[..], inv, roundKeys[..]);
    plain := Rows(s);
    exit := Restore(s, entry);
  }

  /** Whenever the plaintext differs from the ciphertext, the block after the
      routine as written does not hold it: DecryptAsWritten leaves the block as it
      was. */
  method PlaintextLost(block: array<byte>, roundKeys: array<byte>, inv: seq<byte>, entry: Machine)
    requires block.Length == 8 && roundKeys.Length >= 144 && |inv| == 256
    requires DecryptRounds(inv, block[..], roundKeys[..], 36) != block[..]
    ensures block[..] != DecryptRounds(inv, block[..], roundKeys[..], 36)
  {
    var exit, plain := DecryptAsWritten(block, roundKeys, inv, entry);
  }

  /** The four word stores `mov r4, 0(r15)` .. `mov r7, 6(r15)`. */
  method StoreRows(s: Machine, block: array<byte>)
    requires block.Length == 8
    modifies block
    ensures block[..] == Rows(s)
  {
    block[0], block[1] := LowByte(s.r[4]), HighByte(s.r[4]);
    block[2], block[3] := LowByte(s.r[5]), HighByte(s.r[5]);
    block[4], block[5] := LowByte(s.r[6]), HighByte(s.r[6]);
    block[6], block[7] := LowByte(s.r[7]), HighByte(s.r[7]);
  }

  /** Decrypt(block, roundKeys) corrected: the state stored into the block before the
      pops, so that the block holds the 36 rounds undone, round key 35 first. */
  method Decrypt(block: array<byte>, roundKeys: array<byte>, inv: seq<byte>, entry: Machine)
    returns (exit: Machine)
    requires block.Length == 8 && roundKeys.Length >= 144 && |inv| == 256
    modifies block
    ensures block[..] == DecryptRounds(inv, old(block[..]), old(roundKeys[..]), 36)
    ensures Rows(exit) == Rows(entry) && exit.r[10] == entry.r[10] && exit.r[11] == entry.r[11]
  {
    var s := Run(entry, block[..], inv, roundKeys[..]);
    StoreRows(s, block);
    exit := Restore(s, entry);
  }
}
