/** The part of the MSP430 machine the SKINNY-64-128 decryption uses: sixteen 16-bit
    registers and the carry flag.  Each instruction is a function from machine to
    machine.  Only the carry written by `bit`, `rrc` and `rla` and read by `rrc` and
    `adc` is modelled; no other instruction of the routine has its flags read. */
module Msp430 {
  import opened Bits
  import opened Nibbles

  datatype Cpu = Cpu(r: seq<word>, c: bool)

  /** r0 .. r15 and the carry. */
  type Machine = s: Cpu | |s.r| == 16 witness Cpu(seq(16, i => 0), false)

  /** The low byte of a register. */
  function LowByte(w: word): byte
  {
    w % 256
  }

  /** The high byte of a register. */
  function HighByte(w: word): byte
  {
    w / 256
  }

  /** The word with low byte lo and high byte hi, as a little-endian load reads it. */
  function Pack16(lo: byte, hi: byte): (w: word)
    ensures LowByte(w) == lo && HighByte(w) == hi
  {
    lo + 256 * hi
  }

  /** mov src, dst */
  function Mov(s: Machine, src: nat, dst: nat): Machine
    requires src < 16 && dst < 16
  {
    s.(r := s.r[dst := s.r[src]])
  }

  /** mov #k, dst -- and any load of a word into dst. */
  function MovValue(s: Machine, k: word, dst: nat): Machine
    requires dst < 16
  {
    s.(r := s.r[dst := k])
  }

  /** xor src, dst */
  function XorReg(s: Machine, src: nat, dst: nat): Machine
    requires src < 16 && dst < 16
  {
    s.(r := s.r[dst := XorWord(s.r[dst], s.r[src])])
  }

  /** xor #k, dst and xor @rN+, dst: the word k into dst. */
  function XorValue(s: Machine, k: word, dst: nat): Machine
    requires dst < 16
  {
    s.(r := s.r[dst := XorWord(s.r[dst], k)])
  }

  /** bit #1, d: the carry is set exactly when bit 0 of d is. */
  function BitOne(s: Machine, d: nat): Machine
    requires d < 16
  {
    s.(c := s.r[d] % 2 == 1)
  }

  /** rrc d: rotate right through the carry. */
  function Rrc(s: Machine, d: nat): Machine
    requires d < 16
  {
    Cpu(s.r[d := (if s.c then 32768 else 0) + s.r[d] / 2], s.r[d] % 2 == 1)
  }

  /** rla d: shift left, the top bit into the carry. */
  function Rla(s: Machine, d: nat): Machine
    requires d < 16
  {
    Cpu(s.r[d := if s.r[d] < 32768 then 2 * s.r[d] else 2 * s.r[d] as int - 65536], s.r[d] >= 32768)
  }

  /** adc d: add the carry. */
  function Adc(s: Machine, d: nat): Machine
    requires d < 16
  {
    var v := s.r[d] as int + (if s.c then 1 else 0);
    Cpu(s.r[d := if v < 65536 then v else 0], v == 65536)
  }

  /** swpb d: exchange the bytes of d. */
  function Swpb(s: Machine, d: nat): Machine
    requires d < 16
  {
    s.(r := s.r[d := Pack16(HighByte(s.r[d]), LowByte(s.r[d]))])
  }

  /** mov.b src, dst: the low byte of src into dst, the high byte of dst cleared. */
  function MovB(s: Machine, src: nat, dst: nat): Machine
    requires src < 16 && dst < 16
  {
    s.(r := s.r[dst := LowByte(s.r[src])])
  }

  /** mov.b T(idx), dst: byte idx of the table t into dst. */
  function MovBIndexed(s: Machine, t: seq<byte>, idx: nat, dst: nat): Machine
    requires idx < 16 && dst < 16 && |t| == 256 && s.r[idx] < 256
  {
    s.(r := s.r[dst := t[s.r[idx]]])
  }

  /** Exclusive or of words acts on each byte alone. */
  lemma XorPacked(a: word, b: word)
    ensures XorWord(a, b) == Pack16(XorByte(LowByte(a), LowByte(b)), XorByte(HighByte(a), HighByte(b)))
  {
    XorSplit256(a, b);
  }

  /** A byte above and a byte below combine by exclusive or into their word. */
  lemma XorApart(hi: byte, lo: byte)
    ensures XorWord(256 * hi, lo) == Pack16(lo, hi)
  {
    assert 256 * hi == Pack16(0, hi) && lo == Pack16(lo, 0);
    XorPacked(Pack16(0, hi), Pack16(lo, 0));
    XorZero(hi);
    XorZero(lo);
  }

  /** One `bit #1, d; rrc d` on a value. */
  function TurnRight1(w: word): word
  {
    (if w % 2 == 1 then 32768 else 0) + w / 2
  }

  /** One `rla d; adc d` on a value. */
  function TurnLeft1(w: word): word
  {
    (if w < 32768 then 2 * w else 2 * w as int - 65536) + (if w >= 32768 then 1 else 0)
  }

  /** A turn right by one bit moves bit 0 to bit 15. */
  lemma TurnRightStep(q: int, b: int)
    requires 0 <= q < 32768 && 0 <= b < 2
    ensures TurnRight1(2 * q + b) == 32768 * b + q
  {
    DivMod(2 * q + b, 2, q, b);
  }

  /** A turn left by one bit moves bit 15 to bit 0. */
  lemma TurnLeftStep(b: int, u: int)
    requires 0 <= u < 32768 && 0 <= b < 2
    ensures TurnLeft1(32768 * b + u) == 2 * u + b
  {
  }

  /** Two turns right by one bit are one turn right by two. */
  lemma TurnRight2(w: word)
    ensures TurnRight1(TurnRight1(w)) == w / 4 + 16384 * (w % 4)
  {
    var a, b0, b1 := w / 2 / 2, w % 2, w / 2 % 2;
    DivMod(w, 4, a, 2 * b1 + b0);
    TurnRightStep(2 * a + b1, b0);
    TurnRightStep(16384 * b0 + a, b1);
  }

  /** Four turns right by one bit are one turn right by four. */
  lemma TurnRight4(w: word)
    ensures TurnRight1(TurnRight1(TurnRight1(TurnRight1(w)))) == w / 16 + 4096 * (w % 16)
  {
    TurnRight2(w);
    var v := w / 4 + 16384 * (w % 4);
    TurnRight2(v);
    var a, c := w / 4 / 4, w / 4 % 4;
    DivMod(w, 16, a, 4 * c + w % 4);
    DivMod(v, 4, a + 4096 * (w % 4), c);
  }

  /** Two turns left by one bit are one turn left by two. */
  lemma TurnLeft2(w: word)
    ensures TurnLeft1(TurnLeft1(w)) == 4 * (w % 16384) + w / 16384
  {
    var u, t0, t1 := w % 16384, w / 16384 % 2, w / 16384 / 2;
    TurnLeftStep(t1, u + 16384 * t0);
    TurnLeftStep(t0, 2 * u + t1);
  }

  /** Four turns left by one bit are one turn left by four. */
  lemma TurnLeft4(w: word)
    ensures TurnLeft1(TurnLeft1(TurnLeft1(TurnLeft1(w)))) == 16 * (w % 4096) + w / 4096
  {
    TurnLeft2(w);
    var v := 4 * (w % 16384) + w / 16384;
    TurnLeft2(v);
    var u, c, t := w % 4096, w / 4096 % 4, w / 4096 / 4;
    DivMod(w, 16384, t, 4096 * c + u);
    DivMod(v, 16384, c, 4 * u + t);
  }

  /** The turn right by four on the two bytes of a row of cells: the row turns left
      by one cell. */
  lemma TurnRightCells(w: word)
    ensures w / 16 + 4096 * (w % 16) ==
      Pack16(Join(Hi(LowByte(w)), Lo(HighByte(w))), Join(Hi(HighByte(w)), Lo(LowByte(w))))
  {
    var lo, hi := LowByte(w), HighByte(w);
    DivMod(w, 16, Hi(lo) + 16 * Lo(hi) + 256 * Hi(hi), Lo(lo));
  }

  /** The turn left by four on the two bytes of a row of cells: the row turns right
      by one cell. */
  lemma TurnLeftCells(w: word)
    ensures 16 * (w % 4096) + w / 4096 ==
      Pack16(Join(Hi(HighByte(w)), Lo(LowByte(w))), Join(Hi(LowByte(w)), Lo(HighByte(w))))
  {
    var lo, hi := LowByte(w), HighByte(w);
    assert w == lo + 256 * (Lo(hi) + 16 * Hi(hi));
    assert w % 4096 == lo + 256 * Lo(hi) && w / 4096 == Hi(hi);
  }

  /** The row turn by four bits, one bit at a time, on the cells of the row. */
  lemma TurnRightRow(w: word)
    ensures TurnRight1(TurnRight1(TurnRight1(TurnRight1(w)))) ==
      Pack16(Join(Hi(LowByte(w)), Lo(HighByte(w))), Join(Hi(HighByte(w)), Lo(LowByte(w))))
  {
    TurnRight4(w);
    TurnRightCells(w);
  }

  /** The row turn by four bits to the left, one bit at a time, on the cells of the row. */
  lemma TurnLeftRow(w: word)
    ensures TurnLeft1(TurnLeft1(TurnLeft1(TurnLeft1(w)))) ==
      Pack16(Join(Hi(HighByte(w)), Lo(LowByte(w))), Join(Hi(LowByte(w)), Lo(HighByte(w))))
  {
    TurnLeft4(w);
    TurnLeftCells(w);
  }

  /** A register written twice holds the second value. */
  lemma UpdateTwice(r: seq<word>, d: nat, a: word, b: word)
    requires d < |r|
    ensures r[d := a][d := b] == r[d := b]
  {
  }

  /** bit #1, d; rrc d, twice. */
  method TurnRightTwice(s: Machine, d: nat) returns (s': Machine)
    requires d < 16
    ensures s'.r == s.r[d := TurnRight1(TurnRight1(s.r[d]))]
  {
    s' := Rrc(BitOne(s, d), d);
    assert s'.r == s.r[d := TurnRight1(s.r[d])];
    s' := Rrc(BitOne(s', d), d);
  }

  /** bit #1, d; rrc d, four times: the row in d turns left by one cell. */
  method TurnRight(s: Machine, d: nat) returns (s': Machine)
    requires d < 16
    ensures s'.r == s.r[d := Pack16(Join(Hi(LowByte(s.r[d])), Lo(HighByte(s.r[d]))),
                                    Join(Hi(HighByte(s.r[d])), Lo(LowByte(s.r[d]))))]
  {
    var w := s.r[d];
    s' := TurnRightTwice(s, d);
    s' := TurnRightTwice(s', d);
    UpdateTwice(s.r, d, TurnRight1(TurnRight1(w)), TurnRight1(TurnRight1(TurnRight1(TurnRight1(w)))));
    TurnRightRow(w);
  }

  /** rla d; adc d, twice. */
  method TurnLeftTwice(s: Machine, d: nat) returns (s': Machine)
    requires d < 16
    ensures s'.r == s.r[d := TurnLeft1(TurnLeft1(s.r[d]))]
  {
    s' := Adc(Rla(s, d), d);
    assert s'.r == s.r[d := TurnLeft1(s.r[d])];
    s' := Adc(Rla(s', d), d);
  }

  /** rla d; adc d, four times: the row in d turns right by one cell. */
  method TurnLeft(s: Machine, d: nat) returns (s': Machine)
    requires d < 16
    ensures s'.r == s.r[d := Pack16(Join(Hi(HighByte(s.r[d])), Lo(LowByte(s.r[d]))),
                                    Join(Hi(LowByte(s.r[d])), Lo(HighByte(s.r[d]))))]
  {
    var w := s.r[d];
    s' := TurnLeftTwice(s, d);
    s' := TurnLeftTwice(s', d);
    UpdateTwice(s.r, d, TurnLeft1(TurnLeft1(w)), TurnLeft1(TurnLeft1(TurnLeft1(TurnLeft1(w)))));
    TurnLeftRow(w);
  }
}
