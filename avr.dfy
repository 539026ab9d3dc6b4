/** The part of the AVR machine the cipher routines use: the 32 general-purpose
    registers, and memory as 256 pages of 256 bytes, where a table aligned on a page
    is read with the page number in the high register of a pointer pair and the index
    in the low one.  Each instruction is a function from register file to register
    file; the routines compose them in program order. */
module Avr {
  import opened Bits
  import opened Nibbles

  /** r0 .. r31. */
  type Regs = r: seq<byte> | |r| == 32 witness seq(32, i => 0)

  /** 256 pages of 256 bytes, addressed by (page, offset). */
  predicate IsMemory(m: seq<seq<byte>>)
  {
    |m| == 256 && forall p :: 0 <= p < 256 ==> |m[p]| == 256
  }

  /** The 256-byte table t starts at the beginning of page `page`. */
  predicate TableAt(m: seq<seq<byte>>, page: byte, t: seq<byte>)
  {
    IsMemory(m) && m[page] == t
  }

  /** A 16-bit register pair, low register first. */
  function Pair(r: Regs, lo: nat): nat
    requires lo < 31
  {
    r[lo] as int + 256 * r[lo + 1] as int
  }

  /** mov d, s */
  function Mov(r: Regs, d: nat, s: nat): Regs
    requires d < 32 && s < 32
  {
    r[d := r[s]]
  }

  /** movw d, s: copies the pair s+1:s into d+1:d. */
  function Movw(r: Regs, d: nat, s: nat): Regs
    requires d < 31 && s < 31
  {
    r[d := r[s]][d + 1 := r[s + 1]]
  }

  /** ldi d, k -- and any load of the byte k into d. */
  function Ldi(r: Regs, d: nat, k: byte): Regs
    requires d < 32
  {
    r[d := k]
  }

  /** eor d, s */
  function Eor(r: Regs, d: nat, s: nat): Regs
    requires d < 32 && s < 32
  {
    r[d := XorByte(r[d], r[s])]
  }

  /** and d, s */
  function AndReg(r: Regs, d: nat, s: nat): Regs
    requires d < 32 && s < 32
  {
    r[d := AndByte(r[d], r[s])]
  }

  /** andi d, k */
  function Andi(r: Regs, d: nat, k: byte): Regs
    requires d < 32
  {
    r[d := AndByte(r[d], k)]
  }

  /** Exchanges the two nibbles of a byte. */
  function SwapNibbles(b: byte): byte
  {
    16 * (b % 16) + b / 16
  }

  /** The swap of a packed byte exchanges its two cells. */
  lemma SwapJoin(b: byte)
    ensures SwapNibbles(b) == Join(Hi(b), Lo(b))
  {
  }

  /** A value in the high nibble alone comes down to the low nibble. */
  lemma SwapDown(x: nibble)
    ensures SwapNibbles(16 * x) == x
  {
    DivMod(16 * x, 16, x, 0);
  }

  /** swap d */
  function Swap(r: Regs, d: nat): Regs
    requires d < 32
  {
    r[d := SwapNibbles(r[d])]
  }

  /** lsr d */
  function Lsr(r: Regs, d: nat): Regs
    requires d < 32
  {
    r[d := r[d] / 2]
  }

  /** A byte shifted left by one: the top bit falls out. */
  function ShiftLeft(b: byte): byte
  {
    if b < 128 then 2 * b else 2 * b as int - 256
  }

  /** lsl d */
  function Lsl(r: Regs, d: nat): Regs
    requires d < 32
  {
    r[d := ShiftLeft(r[d])]
  }

  /** dec d, wrapping from 0 to 255. */
  function Dec(r: Regs, d: nat): Regs
    requires d < 32
  {
    r[d := if r[d] == 0 then 255 else r[d] - 1]
  }

  /** ld d, y / lpm d, z: loads the byte at (page r[hi], offset r[lo]). */
  function Lookup(r: Regs, d: nat, m: seq<seq<byte>>, hi: nat, lo: nat): Regs
    requires d < 32 && hi < 32 && lo < 32 && IsMemory(m)
  {
    r[d := m[r[hi]][r[lo]]]
  }

  /** `eor x, y; eor y, z; eor w, y`: the three exclusive ors
      the cipher routines apply to one column. */
  method ColumnXors(r: Regs, x: nat, y: nat, z: nat, w: nat) returns (r': Regs)
    requires x < 32 && y < 32 && z < 32 && w < 32
    requires x != y && x != z && x != w && y != z && y != w && z != w
    ensures r'[x] == XorByte(r[x], r[y]) && r'[y] == XorByte(r[y], r[z])
    ensures r'[w] == XorByte(r[w], XorByte(r[y], r[z]))
    ensures forall i | 0 <= i < 32 && i != x && i != y && i != w :: r'[i] == r[i]
  {
    r' := Eor(r, x, y);
    r' := Eor(r', y, z);
    r' := Eor(r', w, y);
  }

  /** The eight bytes held in registers b .. b + 7. */
  function Word(r: Regs, b: nat): (s: seq<byte>)
    requires b + 8 <= 32
    ensures |s| == 8
  {
    [r[b], r[b + 1], r[b + 2], r[b + 3], r[b + 4], r[b + 5], r[b + 6], r[b + 7]]
  }

  /** Registers b .. b + 7 that an instruction sequence leaves alone keep their word. */
  lemma WordKept(r: Regs, r': Regs, b: nat)
    requires b + 8 <= 32
    requires forall i | b <= i < b + 8 :: r'[i] == r[i]
    ensures Word(r', b) == Word(r, b)
  {
  }

  /** swap x; swap y; mov r22, x; eor r22, y; andi r22, mask; eor x, r22; eor y, r22:
      the row of cells (c0, c1, c2, c3) held in x (c0 low, c1 high) and y turns by one
      cell, to the left with mask 0xf0 and to the right with 0x0f. */
  method RotateRow(r: Regs, x: nat, y: nat, mask: byte) returns (r': Regs)
    requires x < 32 && y < 32 && x != y && x != 22 && y != 22
    requires mask == 0xf0 || mask == 0x0f
    ensures mask == 0xf0 ==> r'[x] == Join(Hi(r[x]), Lo(r[y])) && r'[y] == Join(Hi(r[y]), Lo(r[x]))
    ensures mask == 0x0f ==> r'[x] == Join(Hi(r[y]), Lo(r[x])) && r'[y] == Join(Hi(r[x]), Lo(r[y]))
    ensures forall i | 0 <= i < 32 && i != x && i != y && i != 22 :: r'[i] == r[i]
  {
    var a, b := Join(Hi(r[x]), Lo(r[x])), Join(Hi(r[y]), Lo(r[y]));
    r' := Swap(r, x);
    r' := Swap(r', y);
    assert r'[x] == a && r'[y] == b by {
      SwapJoin(r[x]);
      SwapJoin(r[y]);
    }
    r' := Mov(r', 22, x);
    r' := Eor(r', 22, y);
    r' := Andi(r', 22, mask);
    r' := Eor(r', x, 22);
    r' := Eor(r', y, 22);
    if mask == 0xf0 {
      ExchangeHigh(a, b);
    } else {
      ExchangeLow(a, b);
    }
  }

  /** Registers r8 .. r23 read as sixteen cells, row-major. */
  function Cells(r: Regs): (s: seq<byte>)
    ensures |s| == 16
  {
    [r[8], r[9], r[10], r[11], r[12], r[13], r[14], r[15],
     r[16], r[17], r[18], r[19], r[20], r[21], r[22], r[23]]
  }
}
