/** A SKINNY state or tweakey word is a 4×4 grid of cells, numbered row-major:
    cell 4*row + col.  This module holds the cell permutations both variants share:
    ShiftRows, its inverse, and the tweakey cell permutation PT. */
module Grid {

  /** The tweakey cell permutation PT: cell i of the result is cell PT[i] of s, where
      PT = [9, 15, 8, 13, 10, 14, 12, 11, 0, 1, 2, 3, 4, 5, 6, 7]. */
  function PassPT<T>(s: seq<T>): (r: seq<T>)
    requires |s| == 16
    ensures |r| == 16
  {
    [s[9], s[15], s[8], s[13], s[10], s[14], s[12], s[11],
     s[0], s[1], s[2], s[3], s[4], s[5], s[6], s[7]]
  }

  /** Two grids agree when they agree cell by cell. */
  lemma Equal16<T>(a: seq<T>, b: seq<T>)
    requires |a| == 16 && |b| == 16
    requires a[0] == b[0] && a[1] == b[1] && a[2] == b[2] && a[3] == b[3]
    requires a[4] == b[4] && a[5] == b[5] && a[6] == b[6] && a[7] == b[7]
    requires a[8] == b[8] && a[9] == b[9] && a[10] == b[10] && a[11] == b[11]
    requires a[12] == b[12] && a[13] == b[13] && a[14] == b[14] && a[15] == b[15]
    ensures a == b
  {
    forall i | 0 <= i < 16 ensures a[i] == b[i] {
    }
  }

  /** A tweakey word after n passes of PT. */
  function Tweakey<T>(s: seq<T>, n: nat): (r: seq<T>)
    requires |s| == 16
    ensures |r| == 16
  {
    if n == 0 then s else PassPT(Tweakey(s, n - 1))
  }

  /** Row r is rotated right by r cells. */
  function ShiftRows<T>(s: seq<T>): (r: seq<T>)
    requires |s| == 16
    ensures |r| == 16
  {
    seq(16, i requires 0 <= i < 16 => s[4 * (i / 4) + (i % 4 - i / 4) % 4])
  }

  /** Row r is rotated left by r cells. */
  function InvShiftRows<T>(s: seq<T>): (r: seq<T>)
    requires |s| == 16
    ensures |r| == 16
  {
    seq(16, i requires 0 <= i < 16 => s[4 * (i / 4) + (i % 4 + i / 4) % 4])
  }

  /** ShiftRows cell by cell. */
  lemma ShiftRowsCells<T>(s: seq<T>)
    requires |s| == 16
    ensures ShiftRows(s) ==
      [s[0], s[1], s[2], s[3],
       s[7], s[4], s[5], s[6],
       s[10], s[11], s[8], s[9],
       s[13], s[14], s[15], s[12]]
  {
    Equal16(ShiftRows(s), [s[0], s[1], s[2], s[3], s[7], s[4], s[5], s[6],
                           s[10], s[11], s[8], s[9], s[13], s[14], s[15], s[12]]);
  }

  /** InvShiftRows cell by cell. */
  lemma InvShiftRowsCells<T>(s: seq<T>)
    requires |s| == 16
    ensures InvShiftRows(s) ==
      [s[0], s[1], s[2], s[3],
       s[5], s[6], s[7], s[4],
       s[10], s[11], s[8], s[9],
       s[15], s[12], s[13], s[14]]
  {
    Equal16(InvShiftRows(s), [s[0], s[1], s[2], s[3], s[5], s[6], s[7], s[4],
                              s[10], s[11], s[8], s[9], s[15], s[12], s[13], s[14]]);
  }

  lemma ShiftRowsInverse<T>(s: seq<T>)
    requires |s| == 16
    ensures InvShiftRows(ShiftRows(s)) == s
    ensures ShiftRows(InvShiftRows(s)) == s
  {
    ShiftRowsCells(s);
    InvShiftRowsCells(ShiftRows(s));
    Equal16(InvShiftRows(ShiftRows(s)), s);
    InvShiftRowsCells(s);
    ShiftRowsCells(InvShiftRows(s));
    Equal16(ShiftRows(InvShiftRows(s)), s);
  }

  /** A number of passes may be split into two runs. */
  lemma {:induction false} TweakeyAdd<T>(s: seq<T>, a: nat, b: nat)
    requires |s| == 16
    ensures Tweakey(s, a + b) == Tweakey(Tweakey(s, a), b)
  {
    if b > 0 {
      TweakeyAdd(s, a, b - 1);
    }
  }

  /** Two, four, eight and sixteen passes of PT, cell by cell. */
  lemma TwoPasses<T>(s: seq<T>)
    requires |s| == 16
    ensures Tweakey(s, 2) == [s[1], s[7], s[0], s[5], s[2], s[6], s[4], s[3], s[9], s[15], s[8], s[13], s[10], s[14], s[12], s[11]]
  {
    assert Tweakey(s, 1) == PassPT(s);
    assert Tweakey(s, 2) == PassPT(Tweakey(s, 1));
    Equal16(PassPT(PassPT(s)), [s[1], s[7], s[0], s[5], s[2], s[6], s[4], s[3], s[9], s[15], s[8], s[13], s[10], s[14], s[12], s[11]]);
  }

  lemma FourPasses<T>(s: seq<T>)
    requires |s| == 16
    ensures Tweakey(s, 4) == [s[7], s[3], s[1], s[6], s[0], s[4], s[2], s[5], s[15], s[11], s[9], s[14], s[8], s[12], s[10], s[13]]
  {
    TweakeyAdd(s, 2, 2);
    TwoPasses(s);
    TwoPasses(Tweakey(s, 2));
  }

  lemma EightPasses<T>(s: seq<T>)
    requires |s| == 16
    ensures Tweakey(s, 8) == [s[5], s[6], s[3], s[2], s[7], s[0], s[1], s[4], s[13], s[14], s[11], s[10], s[15], s[8], s[9], s[12]]
  {
    TweakeyAdd(s, 4, 4);
    FourPasses(s);
    FourPasses(Tweakey(s, 4));
  }

  /** Sixteen passes of PT restore the tweakey word. */
  lemma SixteenPasses<T>(s: seq<T>)
    requires |s| == 16
    ensures Tweakey(s, 16) == s
  {
    TweakeyAdd(s, 8, 8);
    EightPasses(s);
    EightPasses(Tweakey(s, 8));
    Equal16(Tweakey(s, 16), s);
  }

  /** PT is one 16-cycle: every multiple of sixteen passes restores the tweakey word ... */
  lemma {:induction false} TweakeyPeriod<T>(s: seq<T>, n: nat)
    requires |s| == 16 && n % 16 == 0
    ensures Tweakey(s, n) == s
  {
    if n > 0 {
      TweakeyPeriod(s, n - 16);
      TweakeyAdd(s, n - 16, 16);
      SixteenPasses(s);
    }
  }

  /** The cycle of PT through cell 0: after k passes cell 0 holds the original cell
      Orbit[k]. */
  const Orbit: seq<nat> := [0, 9, 1, 15, 7, 11, 3, 13, 5, 14, 6, 12, 4, 10, 2, 8]

  /** Where cell 0 comes from after 1 to 15 passes ... */
  lemma CellZeroPasses<T>(s: seq<T>)
    requires |s| == 16
    ensures Tweakey(s, 1)[0] == s[9] &&
      Tweakey(s, 2)[0] == s[1] &&
      Tweakey(s, 3)[0] == s[15] &&
      Tweakey(s, 4)[0] == s[7] &&
      Tweakey(s, 5)[0] == s[11] &&
      Tweakey(s, 6)[0] == s[3] &&
      Tweakey(s, 7)[0] == s[13] &&
      Tweakey(s, 8)[0] == s[5] &&
      Tweakey(s, 9)[0] == s[14] &&
      Tweakey(s, 10)[0] == s[6] &&
      Tweakey(s, 11)[0] == s[12] &&
      Tweakey(s, 12)[0] == s[4] &&
      Tweakey(s, 13)[0] == s[10] &&
      Tweakey(s, 14)[0] == s[2] &&
      Tweakey(s, 15)[0] == s[8]
  {
    var t0 := s;
    var t1 := PassPT(t0);
    var t2 := PassPT(t1);
    var t3 := PassPT(t2);
    var t4 := PassPT(t3);
    var t5 := PassPT(t4);
    var t6 := PassPT(t5);
    var t7 := PassPT(t6);
    var t8 := PassPT(t7);
    var t9 := PassPT(t8);
    var t10 := PassPT(t9);
    var t11 := PassPT(t10);
    var t12 := PassPT(t11);
    var t13 := PassPT(t12);
    var t14 := PassPT(t13);
    var t15 := PassPT(t14);
    assert Tweakey(s, 1) == t1;
    assert Tweakey(s, 2) == t2;
    assert Tweakey(s, 3) == t3;
    assert Tweakey(s, 4) == t4;
    assert Tweakey(s, 5) == t5;
    assert Tweakey(s, 6) == t6;
    assert Tweakey(s, 7) == t7;
    assert Tweakey(s, 8) == t8;
    assert Tweakey(s, 9) == t9;
    assert Tweakey(s, 10) == t10;
    assert Tweakey(s, 11) == t11;
    assert Tweakey(s, 12) == t12;
    assert Tweakey(s, 13) == t13;
    assert Tweakey(s, 14) == t14;
    assert Tweakey(s, 15) == t15;
  }

  /** ... stated along the cycle. */
  lemma CellZeroAlongCycle<T>(s: seq<T>)
    requires |s| == 16
    ensures forall n :: 0 < n < 16 ==> Tweakey(s, n)[0] == s[Orbit[n]]
  {
    CellZeroPasses(s);
  }

  lemma OrbitLeavesZero(n: nat)
    requires 0 < n < 16
    ensures 0 < Orbit[n] < 16
  {
  }

  /** ... and fewer passes never restore a word whose cells are distinct. */
  lemma TweakeyNoShorterCycle<T>(s: seq<T>, n: nat)
    requires |s| == 16 && forall i, j :: 0 <= i < j < 16 ==> s[i] != s[j]
    requires 0 < n < 16
    ensures Tweakey(s, n) != s
  {
    CellZeroAlongCycle(s);
    OrbitLeavesZero(n);
    assert Tweakey(s, n)[0] == s[Orbit[n]] != s[0];
  }

  /** Exchanges cells i and j. */
  function Exchange<T>(t: seq<T>, i: nat, j: nat): (r: seq<T>)
    requires i < |t| && j < |t|
    ensures |r| == |t| && multiset(r) == multiset(t)
  {
    t[i := t[j]][j := t[i]]
  }

  /** Fifteen exchanges along the cycle of PT through cell 0. */
  function ExchangeCycle<T>(s: seq<T>): (r: seq<T>)
    requires |s| == 16
    ensures |r| == 16 && multiset(r) == multiset(s)
  {
    Exchange(Exchange(Exchange(Exchange(Exchange(Exchange(Exchange(Exchange(Exchange(Exchange(Exchange(Exchange(Exchange(Exchange(Exchange(s, 0, 9), 9, 1), 1, 15), 15, 7), 7, 11), 11, 3), 3, 13), 13, 5), 5, 14), 14, 6), 6, 12), 12, 4), 4, 10), 10, 2), 2, 8)
  }

  /** PT rearranges cells: nothing is lost or duplicated, because one pass of PT is the
      fifteen exchanges along its cycle. */
  lemma PassPTMultiset<T>(s: seq<T>)
    requires |s| == 16
    ensures multiset(PassPT(s)) == multiset(s)
  {
    Equal16(ExchangeCycle(s), PassPT(s));
  }
}
