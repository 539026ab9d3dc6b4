/** The AVR routine RunEncryptionKeySchedule of SKINNY-128-128: it loads the sixteen key
    bytes into r7 .. r22, then forty times extracts a round key (rows 0 and 1 of the
    tweakey word, with the round constant folded into cells 0 and 4), stores it, and,
    except after the last store, moves the tweakey cells by PT.

    Data memory is an array of 65536 bytes and pointers are addresses into it; the
    round-constant table is a sequence read through Z with `lpm`. */
module KeySchedule128 {
  import opened Bits
  import opened Grid
  import opened Skinny128
  import opened Avr

  /** The tweakey word as load_keys leaves it: key byte k in r(7 + k). */
  function KeyView(r: Regs): (tk: seq<byte>)
    ensures |tk| == 16
  {
    [r[7], r[8], r[9], r[10], r[11], r[12], r[13], r[14],
     r[15], r[16], r[17], r[18], r[19], r[20], r[21], r[22]]
  }

  /** The eight registers store_round_keys writes, in order. */
  const StoreOrder: seq<nat> := [5, 8, 9, 10, 6, 12, 13, 14]

  /** The eight bytes store_round_keys writes. */
  function Stored(r: Regs): (rk: seq<byte>)
    ensures |rk| == 8
  {
    [r[5], r[8], r[9], r[10], r[6], r[12], r[13], r[14]]
  }

  /** load_keys: the sixteen `ld rX, x+`, key byte k into r(7 + k). */
  method LoadKey(r: Regs, key: seq<byte>) returns (r': Regs)
    requires |key| == 16
    ensures KeyView(r') == key
    ensures forall i | 0 <= i < 32 && !(7 <= i < 23) :: r'[i] == r[i]
  {
    r' := r;
    r' := Ldi(r', 7, key[0]);
    r' := Ldi(r', 8, key[1]);
    r' := Ldi(r', 9, key[2]);
    r' := Ldi(r', 10, key[3]);
    r' := Ldi(r', 11, key[4]);
    r' := Ldi(r', 12, key[5]);
    r' := Ldi(r', 13, key[6]);
    r' := Ldi(r', 14, key[7]);
    r' := Ldi(r', 15, key[8]);
    r' := Ldi(r', 16, key[9]);
    r' := Ldi(r', 17, key[10]);
    r' := Ldi(r', 18, key[11]);
    r' := Ldi(r', 19, key[12]);
    r' := Ldi(r', 20, key[13]);
    r' := Ldi(r', 21, key[14]);
    r' := Ldi(r', 22, key[15]);
    Equal16(KeyView(r'), key);
  }

  /** add_round_const: the constant rc (the byte `lpm` fetched) split into its low nibble,
      added to tweakey cell 0 in r5, and its bits 4 and 5, added to cell 4 in r6.  The
      eight bytes to store are then the round key of rc and the tweakey word. */
  method AddRoundConst(r: Regs, rc: byte) returns (r': Regs)
    ensures Stored(r') == RoundKey(rc, KeyView(r))
    ensures KeyView(r') == KeyView(r)
    ensures forall i | 0 <= i < 32 && i != 5 && i != 6 && i != 24 && i != 25 :: r'[i] == r[i]
  {
    var t := Ldi(r, 24, rc);
    t := Mov(t, 25, 24);
    t := Andi(t, 25, 0x0f);
    assert t[25] == rc % 16 by {
      AndFifteen(rc);
    }
    t := Mov(t, 5, 7);
    t := Eor(t, 5, 25);
    assert t[5] == XorByte(r[7], rc % 16);
    t := Andi(t, 24, 0x30);
    assert t[24] == 16 * (rc / 16 % 4) by {
      AndBits45(rc);
    }
    SwapDown(rc / 16 % 4);
    t := Swap(t, 24);
    t := Mov(t, 6, 11);
    t := Eor(t, 6, 24);
    r' := t;
  }

  /** store_round_keys: eight `st x+` to the bytes at x .. x + 7. */
  method StoreRoundKey(mem: array<byte>, x: nat, r: Regs)
    requires x + 8 <= mem.Length
    modifies mem
    ensures forall a | 0 <= a < mem.Length ::
      mem[a] == if x <= a < x + 8 then Stored(r)[a - x] else old(mem[a])
  {
    var j := 0;
    while j < 8
      invariant 0 <= j <= 8
      invariant forall a | 0 <= a < mem.Length ::
        mem[a] == if x <= a < x + j then Stored(r)[a - x] else old(mem[a])
    {
      mem[x + j] := r[StoreOrder[j]];
      j := j + 1;
    }
  }

  /** The seventeen moves through r24 that permute the tweakey cells by PT. */
  method PermuteKey(r: Regs) returns (r': Regs)
    ensures KeyView(r') == PassPT(KeyView(r))
    ensures forall i | 0 <= i < 32 && !(7 <= i < 23) && i != 24 :: r'[i] == r[i]
  {
    r' := Mov(r, 24, 7);
    r' := Mov(r', 7, 16);
    r' := Mov(r', 16, 8);
    r' := Mov(r', 8, 22);
    r' := Mov(r', 22, 14);
    r' := Mov(r', 14, 18);
    r' := Mov(r', 18, 10);
    r' := Mov(r', 10, 20);
    r' := Mov(r', 20, 12);
    r' := Mov(r', 12, 21);
    r' := Mov(r', 21, 13);
    r' := Mov(r', 13, 19);
    r' := Mov(r', 19, 11);
    r' := Mov(r', 11, 17);
    r' := Mov(r', 17, 9);
    r' := Mov(r', 9, 15);
    r' := Mov(r', 15, 24);
    Equal16(KeyView(r'), PassPT(KeyView(r)));
  }

  /** Round key i of a schedule, byte by byte. */
  lemma RoundKeyBytes(sched: seq<byte>, i: nat, rk: seq<byte>)
    requires 8 * i + 8 <= |sched| && RoundKeyAt(sched, i) == rk
    ensures forall k | 0 <= k < 8 :: sched[8 * i + k] == rk[k]
  {
    forall k | 0 <= k < 8 ensures sched[8 * i + k] == rk[k] {
      assert RoundKeyAt(sched, i)[k] == sched[8 * i + k];
    }
  }

  /** One pass of key_schedule_start up to `dec r23`: round key z is extracted from the
      tweakey word and stored at x + 8z, after the z round keys already written over the
      original contents init. */
  method SchedulePass(mem: array<byte>, r: Regs, x: nat, z: nat, rcs: seq<byte>,
                      ghost key: seq<byte>, ghost init: seq<byte>) returns (r': Regs)
    requires |key| == 16 && z < 40 <= |rcs| && x + 320 <= mem.Length == |init|
    requires r[23] == 40 - z && KeyView(r) == Tweakey(key, z)
    requires forall a | 0 <= a < mem.Length ::
      mem[a] == if x <= a < x + 8 * z then KeySchedule(rcs, key, 40)[a - x] else init[a]
    modifies mem
    ensures r'[23] == 40 - (z + 1) && KeyView(r') == KeyView(r)
    ensures forall a | 0 <= a < mem.Length ::
      mem[a] == if x <= a < x + 8 * (z + 1) then KeySchedule(rcs, key, 40)[a - x] else init[a]
  {
    ghost var sched := KeySchedule(rcs, key, 40);
    r' := AddRoundConst(r, rcs[z]);
    KeyScheduleAt(rcs, key, 40, z);
    RoundKeyBytes(sched, z, Stored(r'));
    StoreRoundKey(mem, x + 8 * z, r');
    r' := Dec(r', 23);
  }

  /** key_schedule_start .. key_schedule_exit: forty passes, r23 counting down, the
      round keys written from address x on; the loop leaves after the fortieth store,
      so the tweakey registers end permuted 39 times. */
  method ScheduleLoop(mem: array<byte>, r: Regs, x: nat, rcs: seq<byte>, ghost key: seq<byte>)
    returns (r': Regs)
    requires r[23] == 40 && KeyView(r) == key && |rcs| >= 40 && x + 320 <= mem.Length
    modifies mem
    ensures KeyView(r') == Tweakey(key, 39)
    ensures forall a | 0 <= a < mem.Length ::
      mem[a] == if x <= a < x + 320 then KeySchedule(rcs, key, 40)[a - x] else old(mem[a])
  {
    ghost var init := mem[..];
    r' := r;
    var z := 0;
    while true
      invariant 0 <= z < 40 && r'[23] == 40 - z
      invariant KeyView(r') == Tweakey(key, z)
      invariant forall a | 0 <= a < mem.Length ::
        mem[a] == if x <= a < x + 8 * z then KeySchedule(rcs, key, 40)[a - x] else init[a]
      decreases 40 - z
    {
      r' := SchedulePass(mem, r', x, z, rcs, key, init);
      z := z + 1;
      if r'[23] == 0 {
        break;
      }
      r' := PermuteKey(r');
    }
  }

  /** The entry code as written: `movw r26, r24; ldi r23, 40`, load_keys through X, then
      `movw r26, r22` with r22 now holding key byte 15 and r23 the loop count. */
  method EntryAsWritten(mem: array<byte>, entry: Regs) returns (r: Regs, key: seq<byte>)
    requires mem.Length == 0x10000 && Pair(entry, 24) + 16 <= 0x10000
    ensures key == mem[Pair(entry, 24) .. Pair(entry, 24) + 16]
    ensures KeyView(r) == key && r[23] == 40 && Pair(r, 26) == 0x2800 + key[15] as int
  {
    r := Movw(entry, 26, 24);
    r := Ldi(r, 23, 40);
    assert Pair(r, 26) == Pair(entry, 24);
    key := mem[Pair(r, 26) .. Pair(r, 26) + 16];
    r := LoadKey(r, key);
    assert r[22] == key[15] && r[23] == 40;
    r := Movw(r, 26, 22);
  }

  /** RunEncryptionKeySchedule(key, roundKeys) as written: X is set from r22:r23 after
      load_keys has overwritten r22 with key byte 15 and r23 with the loop count 40, so
      the schedule lands at 0x2800 + key[15] and a roundKeys buffer below 0x2800 is
      never written. */
  method RunEncryptionKeyScheduleAsWritten(mem: array<byte>, entry: Regs, rcs: seq<byte>)
    requires mem.Length == 0x10000 && |rcs| >= 40 && Pair(entry, 24) + 16 <= 0x10000
    modifies mem
    ensures var k := Pair(entry, 24);
      var key := old(mem[k .. k + 16]);
      var x := 0x2800 + key[15] as int;
      forall a | 0 <= a < mem.Length ::
        mem[a] == if x <= a < x + 320 then KeySchedule(rcs, key, 40)[a - x] else old(mem[a])
    ensures Pair(entry, 22) + 320 <= 0x2800 ==>
      forall a | Pair(entry, 22) <= a < Pair(entry, 22) + 320 :: mem[a] == old(mem[a])
  {
    var r, key := EntryAsWritten(mem, entry);
    r := ScheduleLoop(mem, r, Pair(r, 26), rcs, key);
  }

  /** The entry code with the roundKeys pointer saved: `movw r26, r24; movw r28, r22;
      ldi r23, 40`, load_keys through X, then `movw r26, r28`. */
  method Entry(mem: array<byte>, entry: Regs) returns (r: Regs, key: seq<byte>)
    requires mem.Length == 0x10000 && Pair(entry, 24) + 16 <= 0x10000
    ensures key == mem[Pair(entry, 24) .. Pair(entry, 24) + 16]
    ensures KeyView(r) == key && r[23] == 40 && Pair(r, 26) == Pair(entry, 22)
  {
    r := Movw(entry, 26, 24);
    r := Movw(r, 28, 22);
    r := Ldi(r, 23, 40);
    assert Pair(r, 26) == Pair(entry, 24);
    key := mem[Pair(r, 26) .. Pair(r, 26) + 16];
    r := LoadKey(r, key);
    assert r[28] == entry[22] && r[29] == entry[23];
    r := Movw(r, 26, 28);
  }

  /** RunEncryptionKeySchedule(key, roundKeys) with the roundKeys pointer kept in Y
      (r28:r29, which the routine saves) before r22:r23 are reused, and X set from Y
      after load_keys: the forty round keys fill roundKeys[0 .. 320]. */
  method RunEncryptionKeySchedule(mem: array<byte>, entry: Regs, rcs: seq<byte>)
    requires mem.Length == 0x10000 && |rcs| >= 40
    requires Pair(entry, 24) + 16 <= 0x10000 && Pair(entry, 22) + 320 <= 0x10000
    modifies mem
    ensures var k, x := Pair(entry, 24), Pair(entry, 22);
      var key := old(mem[k .. k + 16]);
      forall a | 0 <= a < mem.Length ::
        mem[a] == if x <= a < x + 320 then KeySchedule(rcs, key, 40)[a - x] else old(mem[a])
  {
    var r, key := Entry(mem, entry);
    r := ScheduleLoop(mem, r, Pair(r, 26), rcs, key);
  }
}
