# SKINNY-128-128 and SKINNY-64-128 in AVR and MSP430 assembly, modelled in Dafny

This project models hand-written assembly for the SKINNY tweakable block cipher
(Beierle et al., "The SKINNY Family of Block Ciphers and its Low-Latency Variant
MANTIS", CRYPTO 2016, section 2). It covers two variants:

- SKINNY-128-128 has sixteen one-byte cells, 40 rounds and one tweakey word TK1. The
  code is in `encryption_key_schedule.c`, `encrypt.c` and `decrypt.c`.
- SKINNY-64-128 has sixteen 4-bit cells packed two per byte, 36 rounds and two tweakey
  words TK1 and TK2. The code is in `SKINNY-64-128/*.c`, which includes an MSP430
  decryption routine.

Each routine is a counted loop that rewrites a register file in place. The model
follows the same structure:

- Every labelled block of instructions is a `method`.
- A method takes the AVR register file (`Avr.Regs`, 32 bytes) or the MSP430 machine
  (`Msp430.Machine`, sixteen 16-bit words plus the carry flag) and returns the new one.
- Each contract states the new registers both cell by cell and in terms of a 4×4 cell
  grid.
- Whole routines write through `array<byte>` buffers. Their postconditions tie the
  buffer afterwards to a specification function of the buffer before.

The specification functions and their properties live in three modules:

- `Skinny128` and `Skinny64` define SubCells, AddRoundKey, ShiftRows, MixColumns, the
  inverses of each, the round functions and the key schedules.
- `Grid` holds the cell permutations both variants share.

These modules also carry the properties the routines promise. Those include the
round trip (decryption undoes encryption), the period and single-cycle structure of
the tweakey permutation PT, and the invertibility of the LFSR. Another is the
equivalence of the stored schedule with the SKINNY key schedule, which holds because
the round constants are folded into the round keys.

The tables `SBOX`, `INV_SBOX` and `RC` are defined in a header that is not part of
this model, so they are parameters. The inverse table is `SBOX_INV` in `decrypt.c`
(lines 108 and 235) and `INV_SBOX` in the SKINNY-64-128 files; this text calls it
`INV_SBOX` throughout.

- A table lookup (`lpm` on AVR, an indexed `mov.b` on MSP430) reads a 256-byte page
  of a memory parameter.
- The only property assumed of the tables is `Skinny128.Inverts(inv, sbox)`: the
  inverse table undoes the S-box. Round-trip lemmas state it as a precondition.
  `Skinny128.InvertsBothWays` derives from it that the S-box also undoes the inverse
  table (a 256-entry table with a left inverse is a permutation); no lemma assumes
  that direction separately.

Where the code contradicts its own comments, its sibling files or the cipher, the
model follows the code. A member with `AsWritten` in its name (or an `asWritten`
flag) is the code as written, and a lemma exhibits the discrepancy. The corrected
member beside it is proved to have the intended property (see "## Findings").

## Model

| member | source | states |
|---|---|---|
| Grid.PassPTMultiset | encryption_key_schedule.c:119-135 | one pass of the tweakey permutation PT equals fifteen exchanges along a single cycle through cell 0, so the key cells are only rearranged: the multiset of cells is unchanged |
| Grid.TweakeyPeriod | encryption_key_schedule.c:119-135 | any multiple of 16 passes of PT gives back the original tweakey word |
| Grid.SixteenPasses | encryption_key_schedule.c:119-135 | sixteen passes of PT restore the key; the proof composes 2, 4 and 8 passes, whose explicit cell tables are `Grid.TwoPasses`, `Grid.FourPasses` and `Grid.EightPasses` |
| Grid.CellZeroAlongCycle | encryption_key_schedule.c:119-135 | after n passes (0<n<16), cell 0 holds original cell Orbit[n]; Orbit lists all sixteen cells, so PT is a single 16-cycle |
| Grid.TweakeyNoShorterCycle | encryption_key_schedule.c:119-135 | no number of passes from 1 to 15 restores a key whose cells are distinct, so 16 is the exact period |
| Grid.ShiftRowsInverse | decrypt.c:120-134 | the cell-level inverse ShiftRows undoes ShiftRows and vice versa |
| Grid.ShiftRowsCells | encrypt.c:177-196 | SKINNY ShiftRows rotates row r right by r cells, as a table of the sixteen cells |
| Grid.InvShiftRowsCells | decrypt.c:111-134 | the inverse ShiftRows rotates row r left by r cells, as a table of the sixteen cells |
| KeySchedule128.LoadKey | encryption_key_schedule.c:74-89 | key byte k is loaded into r(7+k), so the registers hold the key row-major; registers outside r7..r22 are unchanged |
| KeySchedule128.AddRoundConst | encryption_key_schedule.c:95-103 | r5 and r6 become bytes 0 and 4 of `Skinny128.RoundKey(rc, tk)`: the register bytes XORed with RC&0x0f and (RC&0x30)>>4 respectively. The tweakey registers are unchanged |
| KeySchedule128.StoreRoundKey | encryption_key_schedule.c:105-112 | the eight stored bytes are the round key (r5, r8..r10, r6, r12..r14) at the output pointer; every other byte of memory is unchanged |
| KeySchedule128.PermuteKey | encryption_key_schedule.c:119-135 | the seventeen moves through r24 apply PT once to the tweakey grid; only r7..r22 and r24 change |
| KeySchedule128.SchedulePass | encryption_key_schedule.c:93-114 | with z round keys already stored and the key permuted z times, a pass stores round key z right after them, keeps the earlier bytes and all other memory, and counts r23 down by one |
| KeySchedule128.ScheduleLoop | encryption_key_schedule.c:93-137 | exactly the 320 bytes of the 40-round schedule are written at the output pointer and nothing else; the loop exits after the 40th store, with the key permuted 39 times rather than 40 |
| KeySchedule128.EntryAsWritten | encryption_key_schedule.c:67-92 | as written, the output pointer X is rebuilt from r22:r23 after line 89 and line 68 overwrote them: X = 0x2800 + key[15] |
| KeySchedule128.Entry | encryption_key_schedule.c:67-92 | with the pointer taken from the roundKeys argument, X is the caller's buffer and the registers hold the loaded key with counter 40 |
| KeySchedule128.RunEncryptionKeyScheduleAsWritten | encryption_key_schedule.c:41-155 | as written, the schedule lands at 0x2800 + key[15], and a roundKeys buffer that ends below 0x2800 is left untouched |
| KeySchedule128.RunEncryptionKeySchedule | encryption_key_schedule.c:41-155 | the 320 bytes at roundKeys become `Skinny128.KeySchedule(RC, key, 40)` and every other byte of memory is unchanged |
| Skinny128.KeyScheduleAt | encryption_key_schedule.c:93-114 | round key i of the schedule is `RoundKey(RC[i], key after i passes of PT)`. Extraction precedes the permutation, so round key 0 comes from the unpermuted key |
| Skinny128.RoundKeyReadsTopRows | encryption_key_schedule.c:105-112 | a round key depends only on tweakey rows 0–1; rows 2–3 never reach the output directly |
| Skinny128.RoundKeyFoldsConstants | encryption_key_schedule.c:95-112 | adding a folded round key (with the 0x02 that the encryption adds to cell 8) equals SKINNY's AddConstants followed by AddRoundTweakey |
| Skinny128.ScheduleRound | encrypt.c:116-198 | one loop round with a stored round key is one SKINNY-128 round: SubCells, AddConstants, AddRoundTweakey, ShiftRows, MixColumns |
| Skinny128.ScheduleThenEncrypt | encrypt.c:41-233 | encrypting for n rounds with the stored schedule equals n rounds of the SKINNY-128 cipher keyed by the tweakey |
| Skinny128.MixColumnsLinear | encrypt.c:182-196 | MixColumns is XOR-linear: applied to a XOR b it gives the XOR of the results for a and b |
| Skinny128.MixColumnsInverse | decrypt.c:120-134 | the inverse column chain undoes encrypt.c's chain on every column |
| Skinny128.InvMixColumnsInverse | decrypt.c:120-134 | encrypt.c's chain undoes the inverse chain, so the two are mutual inverses |
| Skinny128.SubCellsInverse | decrypt.c:162-195 | substituting through INV_SBOX after SBOX restores every cell, given that the tables are inverses |
| Skinny128.AddRoundKeyInvolution | decrypt.c:140-156 | adding the same round key and constant twice restores the state |
| Skinny128.DecRoundInverts | decrypt.c:110-197 | one decryption round undoes one encryption round under the same round key |
| Skinny128.RoundTrip | decrypt.c:41-236 | n decryption rounds that take the round keys in reverse undo n encryption rounds, for every n |
| Encrypt128.LoadBlock | encrypt.c:88-103 | plaintext byte i is loaded into the register `LoopView` reads as cell i: bytes 0–15 go to r21, r22, r23, r20, r8, r9, r10, r11, r15, r12, r13, r14, r18, r19, r16, r17. This is the rotated layout the round loop expects, not row-major; registers outside r8..r23 are unchanged |
| Encrypt128.SubFirstHalf | encrypt.c:120-136 | each of these eight registers receives SBOX of the named source register, read before it is overwritten; r8 and r9 are saved into r6 and r7 first |
| Encrypt128.SubSecondHalf | encrypt.c:138-153 | the other eight registers receive SBOX of their sources; r13 reads the copy in r7 |
| Encrypt128.SubStep | encrypt.c:120-153 | every cell of the loop layout goes through SBOX exactly once, and cell i lands in r(8+i) row-major; only r6..r23 and r28 change |
| Encrypt128.KeyStep | encrypt.c:159-175 | the row-major cells become `AddRoundKey(cells, rk)`: round-key bytes 0–7 go into r8..r15 and 0x02 (from r25) into r16; r17..r23 are unchanged |
| Encrypt128.MixStep | encrypt.c:182-196 | the registers afterwards, read in the loop layout, hold `MixColumns(ShiftRows(cells))`: ShiftRows is done by choosing which registers form a column |
| Encrypt128.MixShiftCells | encrypt.c:177-196 | every column of MixColumns∘ShiftRows is (row0⊕row2⊕row3, row0, row1⊕row2, row0⊕row2) of the column taken after row r is rotated right by r |
| Encrypt128.Round | encrypt.c:110-198 | loop invariant: if the loop layout holds i rounds of encryption, one pass leaves i+1 rounds in the same layout (what MixStep leaves is what SubStep expects); r24 counts down and r25 and the table page are kept |
| Encrypt128.EncLoop | encrypt.c:105-198 | with r24 = 40, the loop performs exactly 40 rounds, consuming round-key bytes 8i..8i+7 in round i |
| Encrypt128.StoreBlock | encrypt.c:200-215 | each block byte is stored from the register it was loaded into, so load and store are inverse layouts |
| Encrypt128.Encrypt | encrypt.c:41-233 | block afterwards = 40 SKINNY-128 rounds of the block before, under the first 320 round-key bytes |
| Decrypt128.LoadBlock | decrypt.c:88-103 | ciphertext byte i is loaded into r(8+i), row-major |
| Decrypt128.InvMixStep | decrypt.c:120-134 | the chain r0^=r3, r3^=r1, r2^=r3 per column leaves `InvShiftRows(InvMixColumns(cells))` in the layout the key step expects |
| Decrypt128.KeyStep | decrypt.c:140-156 | round-key bytes 0–3 go into r12..r15 and bytes 4–7 into r17, r18, r19, r16, with 0x02 in r22. This is AddRoundKey on the pre-ShiftRows cells |
| Decrypt128.SubCellsAsWritten | decrypt.c:162-195 | as written, every cell except 13 is INV_SBOX of its input cell. Cell 13 is INV_SBOX applied twice to cell 0, because line 177 reads r8 after line 164 has overwritten it |
| Decrypt128.InvSubFirstHalf | decrypt.c:162-178 | each of these registers receives INV_SBOX of its source. With `asWritten`, r21 receives INV_SBOX(INV_SBOX(r12)); otherwise it receives INV_SBOX of the old r8 |
| Decrypt128.InvSubSecondHalf | decrypt.c:180-195 | the other eight registers receive INV_SBOX of their sources; r22 reads the copy in r7 |
| Decrypt128.InvSubStep | decrypt.c:162-195 | the row-major cells become `SubCellsAsWritten` of the shifted view with `asWritten`, and `SubCells(INV_SBOX, ·)` without it |
| Decrypt128.InvRound | decrypt.c:110-197 | without the line-177 defect, a loop round is the SKINNY-128 decryption round |
| Decrypt128.Round | decrypt.c:110-197 | loop invariant: i forward decryption rounds become i+1; r24 counts down, r25 and the table page are kept |
| Decrypt128.DecLoop | decrypt.c:105-197 | 40 rounds run, reading 8 round-key bytes per round forward from the start of roundKeys |
| Decrypt128.StoreBlock | decrypt.c:203-217 | the block is stored from r8..r23 row-major, the layout it was loaded from |
| Decrypt128.Decrypt | decrypt.c:41-236 | block afterwards = 40 decryption rounds that read round keys forward, with cell 13 wrong per round when `asWritten` |
| Decrypt128.ReverseRoundKeysReversed | decrypt.c:140-156 | reversing the schedule eight bytes at a time puts round key n-1-i at position i |
| Decrypt128.DecryptForwardReversed | decrypt.c:140-156 | decryption that reads a reversed schedule forward equals SKINNY decryption with the original schedule |
| Decrypt128.DecryptUndoesEncrypt | decrypt.c:41-236 | the corrected routine, given the reversed schedule, returns the plaintext that `Encrypt128.Encrypt` encrypted |
| Decrypt128.AsWrittenRoundFails | decrypt.c:177 | one as-written round applied to an encryption round leaves INV_SBOX(p[0]) in cell 13, so it fails to invert whenever p[13] ≠ INV_SBOX(p[0]). The lemma is about one round; it does not claim that the 40-round routine fails on a given block |
| Avr.ColumnXors | encrypt.c:182-184 | one column's three XORs (`eor x,y; eor y,z; eor w,y`, w receiving the updated y) leave x⊕y, y⊕z and w⊕y⊕z; nothing else changes |
| Avr.RotateRow | SKINNY-64-128/encrypt.c:133-146 | the swap/mask/XOR exchange of a row split over two bytes: with mask 0xf0 the row turns by one cell one way, with 0x0f the other way; only the two bytes and r22 change |
| Avr.SwapJoin | SKINNY-64-128/encrypt.c:133 | `swap` exchanges the two cells of a byte |
| Nibbles.ExchangeHigh | SKINNY-64-128/encrypt.c:135-139 | XORing both bytes with (x⊕y)&0xf0 exchanges their high cells and keeps their low cells |
| Nibbles.ExchangeLow | SKINNY-64-128/encrypt.c:142-146 | XORing both bytes with (x⊕y)&0x0f exchanges their low cells and keeps their high cells |
| Nibbles.PackUnpack | SKINNY-64-128/encryption_key_schedule.c:128-131 | packing two cells per byte with the even cell in the low nibble loses nothing: unpacking then packing returns the bytes |
| Nibbles.UnpackPack | SKINNY-64-128/encryption_key_schedule.c:128-131 | packing then unpacking returns the cells |
| Nibbles.XorParts | SKINNY-64-128/encrypt.c:148-153 | a byte XOR is the XOR of the low cells and the XOR of the high cells, so row-level XORs work cell by cell |
| Skinny64.ShiftRowsCells | SKINNY-64-128/encrypt.c:132-159 | the byte-level ShiftRows (rows 1 and 3 turned by one cell, row 2 by swapping its bytes) is SKINNY ShiftRows on the unpacked cells |
| Skinny64.InvShiftRowsCells | SKINNY-64-128/decrypt.c:101-115 | the byte-level inverse is SKINNY's inverse ShiftRows on the unpacked cells |
| Skinny64.ShiftRowsInverse | SKINNY-64-128/decrypt.c:101-115 | byte-level ShiftRows and its inverse undo each other |
| Skinny64.ShiftRowsNotInverse | SKINNY-64-128/encrypt.c:133-146 | ShiftRows and its inverse differ whenever row 1's two high cells differ, so one exchange sequence cannot be both |
| Skinny64.MixColumnsCells | SKINNY-64-128/encrypt.c:148-159 | the rows become (row0⊕row2⊕row3, row0, row1⊕row2, row0⊕row2), byte by byte, independent of nibble packing |
| Skinny64.MixColumnsOnCells | SKINNY-64-128/encrypt.c:148-159 | the byte-level MixColumns is SKINNY-64's MixColumns on the sixteen unpacked 4-bit cells (`MixCells`), column by column |
| Skinny64.ScheduleRound | SKINNY-64-128/encrypt.c:92-159 | one round with a stored round key `RoundKey(rc, TK1, TK2)` is, on the sixteen cells, SubCells (the byte table on both cells of a byte), AddConstants, AddRoundTweakey with TK1 and TK2, ShiftRows and MixColumns, in that order |
| Skinny64.MixColumnsInverse | SKINNY-64-128/decrypt.c:95-100 | the inverse chain undoes MixColumns at row level |
| Skinny64.InvMixColumnsInverse | SKINNY-64-128/decrypt.c:95-100 | MixColumns undoes the inverse chain |
| Skinny64.SubBytesInverse | SKINNY-64-128/decrypt.c:146-162 | looking each byte up in the inverse byte table undoes the byte-table S-box |
| Skinny64.AddRoundKeyInvolution | SKINNY-64-128/decrypt.c:131-139 | adding the same 4-byte round key and 0x02 twice restores the state |
| Skinny64.DecRoundInverts | SKINNY-64-128/decrypt.c:90-164 | one decryption round undoes one encryption round under the same round key |
| Skinny64.RoundTrip | SKINNY-64-128/decrypt.c:83-164 | n decryption rounds that read round keys n-1 down to 0 undo n encryption rounds |
| Skinny64.PermuteCells | SKINNY-64-128/encryption_key_schedule.c:128-157 | the byte-level tweakey update is PT on the unpacked cells |
| Skinny64.PermuteInverse | SKINNY-64-128/encryption_key_schedule.c:133-157 | the byte-level permutation has an inverse on both sides |
| Skinny64.PermuteMultiset | SKINNY-64-128/encryption_key_schedule.c:159-183 | the permutation rearranges nibbles and never loses or duplicates one |
| Skinny64.Tk1AtCells | SKINNY-64-128/encryption_key_schedule.c:133-157 | TK1 after n passes is the cell word after n passes of PT |
| Skinny64.Tk1Period | SKINNY-64-128/encryption_key_schedule.c:133-157 | TK1 returns to itself after any multiple of 16 passes |
| Skinny64.LfsrBitsOf | SKINNY-64-128/encryption_key_schedule.c:185-194 | the TK2 LFSR shifts a cell up by one bit and feeds bit3⊕bit2 into bit 0 |
| Skinny64.LfsrInverse | SKINNY-64-128/encryption_key_schedule.c:185-194 | the LFSR is a bijection on cells; its inverse is stated explicitly |
| Skinny64.LfsrByteInjective | SKINNY-64-128/encryption_key_schedule.c:185-194 | clocking both cells of a byte is injective |
| Skinny64.LfsrAsWrittenLeaks | SKINNY-64-128/encryption_key_schedule.c:192-193 | as written, the new top bit of the low cell is bit 4 of the byte (the high cell's bit 0) rather than the cell's own bit 2 |
| Skinny64.LfsrAsWrittenLoses | SKINNY-64-128/encryption_key_schedule.c:192-193 | as written, the low cell's bits 0 and 1 never affect the result |
| Skinny64.LfsrRowsCells | SKINNY-64-128/encryption_key_schedule.c:185-224 | the LFSR changes cells 0–7 (TK2 rows 0–1), each by the cell LFSR, and leaves cells 8–15 unchanged |
| Skinny64.Tk2StepInjective | SKINNY-64-128/encryption_key_schedule.c:159-224 | the intended TK2 update (PT, then LFSR on rows 0–1) is injective |
| Skinny64.Tk2StepAsWrittenLoses | SKINNY-64-128/encryption_key_schedule.c:159-224 | as written, two different TK2 words have the same successor: key information is lost each pass |
| Skinny64.KeyScheduleAt | SKINNY-64-128/encryption_key_schedule.c:103-127 | round key i of the schedule is `RoundKey(RC[i], TK1 after i passes, TK2 after i passes)` |
| KeySchedule64.LoadKey | SKINNY-64-128/encryption_key_schedule.c:80-95 | TK1 (key bytes 0–7) lands in r8..r15 and TK2 (bytes 8–15) in r16..r23 |
| KeySchedule64.KeyByte0 | SKINNY-64-128/encryption_key_schedule.c:105-111 | r6 is round-key byte 0 (TK1⊕TK2 byte 0 ⊕ RC&0x0f), and r24 keeps RC |
| KeySchedule64.KeyByteOdd | SKINNY-64-128/encryption_key_schedule.c:112-114 | r6 is round-key byte 1 or 3: TK1⊕TK2 of that byte |
| KeySchedule64.KeyByte2 | SKINNY-64-128/encryption_key_schedule.c:115-120 | r6 is round-key byte 2: TK1⊕TK2 byte 2 ⊕ (RC&0x30)>>4 |
| KeySchedule64.StoreRoundKey | SKINNY-64-128/encryption_key_schedule.c:105-123 | the four bytes at y become `Skinny64.RoundKey(rc, TK1, TK2)`, rows 0–1 of TK1⊕TK2 with the constants; nothing else in memory changes |
| Skinny64.RoundKeyFoldsConstants | SKINNY-64-128/encryption_key_schedule.c:105-123 | adding a folded round key (with the 0x02 the encryption adds to cell 8) equals SKINNY-64's AddConstants followed by AddRoundTweakey with TK1 and TK2, cell by cell on the sixteen 4-bit cells |
| KeySchedule64.PermuteMoves | SKINNY-64-128/encryption_key_schedule.c:133-136 | the four `movw` move old rows 0–1 to rows 2–3 and park old row 2 in r6:r7 |
| KeySchedule64.PermuteRow1 | SKINNY-64-128/encryption_key_schedule.c:137-147 | the mask/swap sequence builds new row 1 from cells 10, 14, 12, 11 |
| KeySchedule64.PermuteRow0 | SKINNY-64-128/encryption_key_schedule.c:148-157 | the mask/swap sequence builds new row 0 from cells 9, 15, 8, 13 |
| KeySchedule64.PermuteWord | SKINNY-64-128/encryption_key_schedule.c:133-157 | the whole sequence applies the byte-level PT to one tweakey word and changes nothing outside it except r6 and r7 |
| KeySchedule64.ClockAsWritten | SKINNY-64-128/encryption_key_schedule.c:185-194 | the lsr/andi 0xee/eor sequence computes the as-written byte update |
| KeySchedule64.ClockIntended | SKINNY-64-128/encryption_key_schedule.c:185-194 | with a left shift in place of line 192's `lsr`, the same sequence clocks both cells of the byte with the SKINNY TK2 LFSR |
| KeySchedule64.ClockByte | SKINNY-64-128/encryption_key_schedule.c:185-194 | one byte of TK2 rows 0–1 is clocked (as written or intended); only that byte, r24 and r25 change |
| KeySchedule64.ClockRows | SKINNY-64-128/encryption_key_schedule.c:185-224 | the LFSR rewrites r16..r19 only: TK1 and TK2 rows 2–3 are unchanged |
| KeySchedule64.UpdateTweakey | SKINNY-64-128/encryption_key_schedule.c:133-224 | TK1 receives PT; TK2 receives PT and then the LFSR on rows 0–1; the masks in r5 and r27 and the counter are kept |
| KeySchedule64.SchedulePass | SKINNY-64-128/encryption_key_schedule.c:103-127 | a pass stores round key z after the z already stored, keeps earlier bytes and other memory, and counts r26 down |
| KeySchedule64.ScheduleRounds | SKINNY-64-128/encryption_key_schedule.c:97-127 | each of the 36 round keys of the schedule is built from TK1 and TK2 after z passes |
| KeySchedule64.ScheduleLoop | SKINNY-64-128/encryption_key_schedule.c:103-226 | exactly 144 bytes (36 round keys) are written at y and nothing else; there is no update after the last store |
| KeySchedule64.Advance | SKINNY-64-128/encryption_key_schedule.c:127-225 | from TK1 and TK2 after z passes, the update yields them after z+1 passes |
| KeySchedule64.Prologue | SKINNY-64-128/encryption_key_schedule.c:71-102 | after the prologue the key is loaded, Y is the roundKeys pointer, the counter is 36 and the masks 0x0f and 0xf0 are in r5 and r27 |
| KeySchedule64.RunEncryptionKeyScheduleAsWritten | SKINNY-64-128/encryption_key_schedule.c:41-244 | as written, roundKeys[0..144] becomes the schedule whose TK2 uses the right-shifting LFSR; the rest of memory is unchanged |
| KeySchedule64.RunEncryptionKeySchedule | SKINNY-64-128/encryption_key_schedule.c:41-244 | with the intended LFSR, roundKeys[0..144] becomes the SKINNY-64-128 schedule; the rest of memory is unchanged |
| Encrypt64.LoadBlock | SKINNY-64-128/encrypt.c:73-80 | plaintext bytes 0–7 are loaded into r14..r21 |
| Encrypt64.SubStep | SKINNY-64-128/encrypt.c:92-107 | each of the eight state bytes goes through the byte table SBOX exactly once; only r14..r21 and r30 change |
| Encrypt64.KeyStep | SKINNY-64-128/encrypt.c:122-130 | four round-key bytes go into r14..r17 (rows 0–1) and 0x02 into r18 (cell 8) |
| Encrypt64.ShiftStep | SKINNY-64-128/encrypt.c:133-146 | as written, the two exchanges compute the inverse ShiftRows of rows 1 and 3. Corrected, they compute ShiftRows. Row 2 is left to MixStep's register choice |
| Encrypt64.MixXors | SKINNY-64-128/encrypt.c:148-153 | the six XORs of the column chain, with row 2 read in swapped byte order |
| Encrypt64.MixMoves | SKINNY-64-128/encrypt.c:154-159 | the moves put the rows back into r14..r21 and leave a copy of the new row 1 in r22:r23 |
| Encrypt64.MixStep | SKINNY-64-128/encrypt.c:148-159 | the state becomes `MixColumns` of the state with row 2 rotated by two cells, and r22:r23 equal r16:r17 |
| Encrypt64.MixShiftedCells | SKINNY-64-128/encrypt.c:148-153 | the row-level result of MixStep, row 2 taken with its two bytes swapped |
| Encrypt64.Round | SKINNY-64-128/encrypt.c:87-161 | loop invariant: i rounds of the routine become i+1; the counter r24 counts down and r25 and the table page are kept |
| Encrypt64.EncLoop | SKINNY-64-128/encrypt.c:82-161 | the loop runs r24 rounds, consuming 4 round-key bytes per round |
| Encrypt64.Run | SKINNY-64-128/encrypt.c:73-161 | for a given round count, the state after the loop is that many rounds of the routine |
| Encrypt64.StoredAsWritten | SKINNY-64-128/encrypt.c:163-170 | as written, block bytes 0–5 receive state bytes 2–7, and bytes 6–7 receive the copy of state bytes 2–3 left in r22:r23 |
| Encrypt64.StoreView | SKINNY-64-128/encrypt.c:154-170 | after MixStep, r16..r23 is exactly `StoredAsWritten` of the state in r14..r21 |
| Encrypt64.StoreAsWrittenLoses | SKINNY-64-128/encrypt.c:163-170 | any two states that differ only in row 0 (bytes 0 and 1, in either or both) store the same block, so the stored block is not the final state |
| Encrypt64.EncRoundAsWrittenDiffers | SKINNY-64-128/encrypt.c:133-146 | the as-written round differs from a SKINNY-64 round whenever row 1's high cells differ after the key step. The lemma is about one round; it does not claim a given block gives a different 32-round result |
| Encrypt64.KeysUsed | SKINNY-64-128/encrypt.c:122-130 | n rounds depend only on the first n round keys |
| Encrypt64.AsWrittenIgnoresLastKeys | SKINNY-64-128/encrypt.c:82 | with 32 rounds, schedules that agree on their first 128 bytes give the same output: the last 16 of the 144 scheduled bytes are never used |
| Encrypt64.RoundKeyMatters | SKINNY-64-128/encrypt.c:122-130 | two different four-byte round keys, differing in any byte, give different round outputs from the same state |
| Encrypt64.LastKeyMatters | SKINNY-64-128/encrypt.c:82 | with n rounds and the same first n-1 round keys, any change to round key n-1 (any of its four bytes) changes the output, so a 36-round routine depends on every byte of round key 35 |
| Encrypt64.EncryptAsWritten | SKINNY-64-128/encrypt.c:41-180 | as written, block afterwards = `StoredAsWritten` of 32 as-written rounds |
| Encrypt64.Encrypt | SKINNY-64-128/encrypt.c:41-180 | corrected: block afterwards = 36 SKINNY-64 rounds of the block before, stored from the state registers r14..r21 |
| Decrypt64.InvMixStep | SKINNY-64-128/decrypt.c:95-100 | the six XORs leave the inverse MixColumns of the state with rows 0–2 in r16..r21 and row 3 in r14:r15 |
| Decrypt64.InvShiftStep | SKINNY-64-128/decrypt.c:102-115 | the two exchanges un-rotate rows 1 and 3; row 2 is un-swapped by register choice |
| Decrypt64.KeyStep | SKINNY-64-128/decrypt.c:131-139 | round-key bytes go into r16..r19 and 0x02 into r21, which holds cells 8–9 after the row-2 rotation |
| Decrypt64.InvSubLow | SKINNY-64-128/decrypt.c:146-154 | r14..r17 receive INV_SBOX of rows 0 and 1 (r16..r19), after row 3 is saved from r14:r15 into r22:r23 |
| Decrypt64.InvSubHigh | SKINNY-64-128/decrypt.c:155-162 | r18..r21 receive INV_SBOX of row 2 read crosswise (r21, r20) and of the saved row 3 |
| Decrypt64.InvSubStep | SKINNY-64-128/decrypt.c:146-162 | each state byte goes through INV_SBOX exactly once and lands back in r14..r21 row order |
| Decrypt64.Round | SKINNY-64-128/decrypt.c:90-164 | one pass is a SKINNY-64 decryption round under round key r24-1 and counts r24 down; the pointer walks back a net 4 bytes |
| Decrypt64.DecLoop | SKINNY-64-128/decrypt.c:83-164 | starting at roundKeys+140, the rounds read round keys 35 down to 0, exactly the 144 scheduled bytes |
| Decrypt64.Run | SKINNY-64-128/decrypt.c:83-164 | the state after the loop is 36 decryption rounds of the loaded block |
| Decrypt64.DecryptAsWritten | SKINNY-64-128/decrypt.c:41-182 | as written, line 89 sets r30 rather than r31, so the lookups use the page r31 held on entry; the block becomes 36 decryption rounds under that table |
| Decrypt64.TableMatters | SKINNY-64-128/decrypt.c:89 | a round with another table differs from the round with INV_SBOX whenever the two tables differ at the looked-up byte |
| Decrypt64.Decrypt | SKINNY-64-128/decrypt.c:41-182 | with the table page in r31, block afterwards = 36 SKINNY-64 decryption rounds, loaded and stored in the same register order |
| Decrypt64.AsWrittenRoundTripFails | SKINNY-64-128/encrypt.c:133-146 | decryption does not undo an as-written encryption round when row 1's two bytes differ after the key step: the same exchange in both files cannot be mutually inverse. The lemma is about one round; it does not claim that the 36-round round trip fails on a given block |
| Decrypt64.DecryptUndoesEncrypt | SKINNY-64-128/decrypt.c:41-182 | the corrected decryption undoes the corrected 36-round encryption under the same schedule |
| Msp430.TurnRight | SKINNY-64-128/decrypt.c:215-222 | four `bit #1; rrc` rotate the word right by four bits, which turns the row it holds (row 1 at that point) left by one cell |
| Msp430.TurnLeft | SKINNY-64-128/decrypt.c:224-231 | four `rla; adc` rotate the word left by four bits, which turns the row it holds (row 3 at that point) right by one cell |
| Msp430.TurnRightRow | SKINNY-64-128/decrypt.c:215-222 | the right rotation as a rearrangement of the four cells in the word |
| Msp430.TurnLeftRow | SKINNY-64-128/decrypt.c:224-231 | the left rotation as a rearrangement of the four cells in the word |
| Msp430.XorPacked | SKINNY-64-128/decrypt.c:234 | a word XOR is the byte XOR of both halves, so one `xor @r14+` adds two round-key bytes |
| Msp430.XorApart | SKINNY-64-128/decrypt.c:240-241 | XORing a byte shifted into the high half with a byte in the low half packs the two |
| Decrypt64Msp.InvMixStep | SKINNY-64-128/decrypt.c:211-213 | the three word XORs are the inverse MixColumns over the four row words, leaving rows 0–3 in r5, r6, r7, r4 |
| Decrypt64Msp.InvShiftStep | SKINNY-64-128/decrypt.c:215-231 | rotating r6 (row 1) right four bits, swapping the bytes of r7 (row 2) and rotating r4 (row 3) left four bits is the inverse ShiftRows |
| Decrypt64Msp.KeyStep | SKINNY-64-128/decrypt.c:234-250 | two `xor @r14+` and `xor #0x2` are AddRoundKey on the state; only r5..r7 change |
| Decrypt64Msp.SubLine | SKINNY-64-128/decrypt.c:235-241 | one line passes both bytes of a word through INV_SBOX and packs them in the destination word |
| Decrypt64Msp.InvSubStep | SKINNY-64-128/decrypt.c:235-265 | the four lines and `mov r10, r4` give INV_SBOX on all eight bytes, back in the row order r4..r7 |
| Decrypt64Msp.Round | SKINNY-64-128/decrypt.c:206-268 | one pass is a SKINNY-64 decryption round under round key r13-1 and counts r13 down |
| Decrypt64Msp.DecLoop | SKINNY-64-128/decrypt.c:206-268 | the loop decrypts for r13 rounds, reading round keys backwards |
| Decrypt64Msp.Run | SKINNY-64-128/decrypt.c:200-268 | after the 36-round loop, r4..r7 hold the decrypted block |
| Decrypt64Msp.Restore | SKINNY-64-128/decrypt.c:269-274 | the pops give r4..r7, r10 and r11 back their values on entry |
| Decrypt64Msp.DecryptAsWritten | SKINNY-64-128/decrypt.c:185-277 | as written, the plaintext is computed in r4..r7 but the routine returns with those registers restored to their entry values, and the block afterwards equals the block before (`block[..] == old(block[..])`) |
| Decrypt64Msp.PlaintextLost | SKINNY-64-128/decrypt.c:265-274 | whenever decryption changes the block, the block after the as-written routine is not the plaintext |
| Decrypt64Msp.StoreRows | SKINNY-64-128/decrypt.c:202-205 | a store that mirrors the load: the block becomes r4..r7 byte by byte |
| Decrypt64Msp.Decrypt | SKINNY-64-128/decrypt.c:185-277 | corrected: the block becomes 36 decryption rounds of itself and the saved registers are restored |

## Left out

- Push and pop of callee-saved registers are not modelled, except `Decrypt64Msp.Restore`. Neither are flags other than the MSP430 carry. The AVR and MSP430 calling-convention details are also left out.
- The 256-byte table alignment behind `hi8`-only addressing is not modelled: a table is one page of the memory parameter.
- The portable C, ARM and MSP430 fallback branches that are empty are not modelled.
- The SCENARIO_2 builds read the round keys from program memory with `lpm`. This covers `SKINNY-64-128/encrypt.c:89-91` and `109-120`, and `SKINNY-64-128/decrypt.c:117-129` and `143-145`. Only the default `ld` branch is modelled; the `hi8(SBOX)` load at `SKINNY-64-128/decrypt.c:144` is therefore not covered.
- The contents of SBOX, INV_SBOX (`SBOX_INV` in `decrypt.c`) and RC are in `constants.h`, which is not part of this model. The tables are parameters, and the only assumption about them is `Skinny128.Inverts` where a round trip needs it; the converse direction is derived by `Skinny128.InvertsBothWays`. The 6-bit round-constant LFSR is not modelled.
- `Encrypt128.StoreBlock`: lines 200-214 of `encrypt.c` write `st x-, rN`, which is not an AVR addressing mode (AVR has `st X+` and `st -X`). The model reads it as "store through X, then decrement X". That is the only reading under which the sixteen stores fill block[15] down to block[0] from X = block + 15, where the loads leave X.
- `Decrypt128.StoreBlock`: lines 203-217 of `decrypt.c` write the same `st x-, rN`, and the model reads it the same way.
- Pointers are natural numbers or buffer offsets. The 16-bit wrap-around of X, Y and Z is not modelled.
- `KeySchedule128.ScheduleLoop`: line 92 loads `hi8(Rc)`, which the model treats as the RC table, as `lo8(RC)` on line 91 is.
- `Decrypt128.Decrypt`: line 197 branches to `enc_loop`, a label this routine does not define. The model treats it as a branch to `dec_loop` (line 110); as written the file does not assemble on its own.
- `Decrypt128.Decrypt`: the routine reads round keys forward. Correct decryption needs the schedule reversed eight bytes at a time, which this routine does not do; `Decrypt128.DecryptUndoesEncrypt` states the round trip for a reversed schedule.
- `Decrypt64Msp.KeyStep`: the routine interleaves the key XORs with the S-box lines (lines 234-264). The model applies the whole key step before the substitution step. Every key XOR still comes before the only line that reads its register, so the result is the same.
- `Decrypt64Msp.Run`: r14 and r15 are taken as an offset into the round keys and as the block contents, not as addresses; the `0(r15)`..`6(r15)` loads are little-endian word loads.
- `Decrypt64Msp.PlaintextLost`: its ensures follows from its requires once `Decrypt64Msp.DecryptAsWritten` has left the block unmodified, which that method states as `block[..] == old(block[..])`.
- Timing and side channels, the benchmark harness, modes of operation and test-vector I/O are not modelled.

## Findings

| source | as written | input that shows it | evidently intended | confidence | as-written member | corrected member |
|---|---|---|---|---|---|---|
| decrypt.c:177 | `mov r28, r8` reads r8 after line 164 replaced it with INV_SBOX(r12) | any plaintext with p[13] ≠ INV_SBOX(p[0]) | read the copy in r6, as `encrypt.c:135` does | not executed | Decrypt128.AsWrittenRoundFails | Decrypt128.DecryptUndoesEncrypt |
| encryption_key_schedule.c:90 | `movw r26, r22` uses r22:r23 after line 89 loaded key[15] and line 68 set r23 = 40 | any call: round keys go to 0x2800 + key[15] | take the output pointer from roundKeys (r22:r23 on entry) before they are reused | not executed | KeySchedule128.RunEncryptionKeyScheduleAsWritten | KeySchedule128.RunEncryptionKeySchedule |
| SKINNY-64-128/encrypt.c:82 | `ldi r24, 32` runs 32 rounds | two schedules differing only in round key 35 | 36 rounds, as the schedule (`:97`) and decrypt (`:87`) use | not executed | Encrypt64.AsWrittenIgnoresLastKeys | Encrypt64.LastKeyMatters |
| SKINNY-64-128/encrypt.c:163-170 | stores r23..r16 | two final states differing only in bytes 0 and 1 | store the state registers r21..r14 | not executed | Encrypt64.StoreAsWrittenLoses | Encrypt64.Encrypt |
| SKINNY-64-128/encrypt.c:133-146 | the same nibble exchange as `SKINNY-64-128/decrypt.c:102-115`: the inverse ShiftRows | a state whose row 1 has two different bytes after the key step | exchange with the masks swapped, giving ShiftRows | not executed | Decrypt64.AsWrittenRoundTripFails | Decrypt64.DecryptUndoesEncrypt |
| SKINNY-64-128/decrypt.c:89 | `ldi r30, hi8(INV_SBOX)` sets the low byte of Z, so lookups use whatever page r31 held on entry | an entry r31 whose page differs from INV_SBOX at a looked-up byte | `ldi r31, hi8(INV_SBOX)` | not executed | Decrypt64.TableMatters | Decrypt64.Decrypt |
| SKINNY-64-128/decrypt.c:265-274 | the MSP430 routine computes the plaintext in r4..r7 and then pops them, never writing `block` | any block that decryption changes | store r4..r7 to `block` before the pops | not executed | Decrypt64Msp.PlaintextLost | Decrypt64Msp.Decrypt |
| SKINNY-64-128/encryption_key_schedule.c:192-193 | `lsr` shifts the byte right, so bit 4 enters the low cell's bit 3 and TK2 loses information | two TK2 words that differ only in the low cell of byte 4, bits 0–1 | shift left (`lsl`) so each cell is clocked independently by the SKINNY LFSR | not executed | Skinny64.Tk2StepAsWrittenLoses | Skinny64.Tk2StepInjective |
