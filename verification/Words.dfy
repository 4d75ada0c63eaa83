/**
 Machine words as natural numbers, with the bitwise operators and shifts of C defined bit by bit. A caller
 that works at a fixed width drops the higher bits itself, with `Low`.
 */
module Words {

  function Pow2(k: nat): (p: nat)
    ensures p > 0
  {
    if k == 0 then 1 else 2 * Pow2(k - 1)
  }

  /** x & y */
  function And(x: nat, y: nat): nat {
    if x == 0 || y == 0 then 0
    else (if x % 2 == 1 && y % 2 == 1 then 1 else 0) + 2 * And(x / 2, y / 2)
  }

  /** x | y */
  function Or(x: nat, y: nat): nat {
    if x == 0 then y
    else if y == 0 then x
    else (if x % 2 == 1 || y % 2 == 1 then 1 else 0) + 2 * Or(x / 2, y / 2)
  }

  /** x & ~y */
  function AndNot(x: nat, y: nat): nat {
    if x == 0 || y == 0 then x
    else (if x % 2 == 1 && y % 2 == 0 then 1 else 0) + 2 * AndNot(x / 2, y / 2)
  }

  /** x << k */
  function Shl(x: nat, k: nat): nat {
    if k == 0 then x else 2 * Shl(x, k - 1)
  }

  /** x >> k */
  function Shr(x: nat, k: nat): nat {
    if k == 0 then x else Shr(x / 2, k - 1)
  }

  /** The low k bits of x: what a k-bit word keeps. */
  function Low(x: nat, k: nat): nat {
    if k == 0 then 0 else x % 2 + 2 * Low(x / 2, k - 1)
  }

  predicate Bit(x: nat, k: nat) {
    if k == 0 then x % 2 == 1 else Bit(x / 2, k - 1)
  }

  // ----- Single bits -----

  lemma {:induction false} ZeroBit(k: nat)
    ensures !Bit(0, k)
  {
    if k > 0 { ZeroBit(k - 1); }
  }

  lemma {:induction false} AndBit(x: nat, y: nat, k: nat)
    ensures Bit(And(x, y), k) <==> Bit(x, k) && Bit(y, k)
  {
    ZeroBit(k);
    if x != 0 && y != 0 {
      assert And(x, y) / 2 == And(x / 2, y / 2);
      if k > 0 { AndBit(x / 2, y / 2, k - 1); }
    }
  }

  lemma {:induction false} OrBit(x: nat, y: nat, k: nat)
    ensures Bit(Or(x, y), k) <==> Bit(x, k) || Bit(y, k)
  {
    ZeroBit(k);
    if x != 0 && y != 0 {
      assert Or(x, y) / 2 == Or(x / 2, y / 2);
      if k > 0 { OrBit(x / 2, y / 2, k - 1); }
    }
  }

  lemma {:induction false} AndNotBit(x: nat, y: nat, k: nat)
    ensures Bit(AndNot(x, y), k) <==> Bit(x, k) && !Bit(y, k)
  {
    ZeroBit(k);
    if x != 0 && y != 0 {
      assert AndNot(x, y) / 2 == AndNot(x / 2, y / 2);
      if k > 0 { AndNotBit(x / 2, y / 2, k - 1); }
    }
  }

  lemma {:induction false} Pow2Bit(j: nat, k: nat)
    ensures Bit(Pow2(j), k) <==> j == k
  {
    if j == 0 {
      if k > 0 { ZeroBit(k - 1); }
    } else if k > 0 {
      assert Pow2(j) / 2 == Pow2(j - 1);
      Pow2Bit(j - 1, k - 1);
    }
  }

  lemma {:induction false} OnesBit(n: nat, k: nat)
    ensures Bit(Pow2(n) - 1, k) <==> k < n
  {
    if n == 0 {
      ZeroBit(k);
    } else {
      assert (Pow2(n) - 1) / 2 == Pow2(n - 1) - 1;
      if k > 0 { OnesBit(n - 1, k - 1); }
    }
  }

  /** A one-bit mask leaves something exactly when the bit is set. */
  lemma {:induction false} MaskTest(x: nat, k: nat)
    ensures And(Pow2(k), x) != 0 <==> Bit(x, k)
  {
    if x == 0 {
      ZeroBit(k);
    } else if k > 0 {
      assert Pow2(k) / 2 == Pow2(k - 1);
      MaskTest(x / 2, k - 1);
    } else {
      assert Pow2(0) == 1 && And(1, x) == (if x % 2 == 1 then 1 else 0) + 2 * And(0, x / 2);
    }
  }

  lemma {:induction false} SameBits(x: nat, y: nat)
    requires forall k: nat :: Bit(x, k) == Bit(y, k)
    ensures x == y
  {
    if x + y > 0 {
      assert Bit(x, 0) == Bit(y, 0);
      forall k: nat ensures Bit(x / 2, k) == Bit(y / 2, k) {
        assert Bit(x, k + 1) == Bit(y, k + 1);
      }
      SameBits(x / 2, y / 2);
    }
  }

  // ----- Fields -----

  lemma {:induction false} Pow2Add(j: nat, k: nat)
    ensures Pow2(j + k) == Pow2(j) * Pow2(k)
  {
    if j > 0 { Pow2Add(j - 1, k); }
  }

  lemma Pow2Known()
    ensures Pow2(4) == 0x10 && Pow2(8) == 0x100 && Pow2(9) == 0x200 && Pow2(12) == 0x1000 && Pow2(16) == 0x1_0000
    ensures Pow2(20) == 0x10_0000 && Pow2(32) == 0x1_0000_0000
  {
    assert Pow2(4) == 0x10;
    Pow2Add(4, 4);
    Pow2Add(1, 8);
    Pow2Add(4, 8);
    Pow2Add(8, 8);
    Pow2Add(4, 16);
    Pow2Add(16, 16);
  }

  /** One bit at a time: the operators act on the lowest bits and on the rest separately. */
  lemma {:induction false} Unfold(x: nat, i: nat, y: nat, j: nat)
    requires i < 2 && j < 2
    ensures And(2 * x + i, 2 * y + j) == 2 * And(x, y) + if i == 1 && j == 1 then 1 else 0
    ensures Or(2 * x + i, 2 * y + j) == 2 * Or(x, y) + if i == 1 || j == 1 then 1 else 0
    ensures AndNot(2 * x + i, 2 * y + j) == 2 * AndNot(x, y) + if i == 1 && j == 0 then 1 else 0
  {
    assert (2 * x + i) / 2 == x && (2 * y + j) / 2 == y;
    assert (2 * x + i) % 2 == i && (2 * y + j) % 2 == j;
  }

  lemma {:induction false} Split(x: nat, k: nat)
    ensures x == Shl(Shr(x, k), k) + Low(x, k) && Low(x, k) < Pow2(k)
  {
    if k > 0 { Split(x / 2, k - 1); }
  }

  lemma {:induction false} Join(q: nat, r: nat, k: nat)
    requires r < Pow2(k)
    ensures Shr(Shl(q, k) + r, k) == q && Low(Shl(q, k) + r, k) == r
  {
    if k > 0 {
      Join(q, r / 2, k - 1);
      assert (Shl(q, k) + r) / 2 == Shl(q, k - 1) + r / 2;
    }
  }

  /** x & (2^n - 1) keeps the low n bits, and x & ~(2^n - 1) clears them. */
  lemma {:induction false} LowMask(x: nat, n: nat)
    ensures And(x, Pow2(n) - 1) == Low(x, n)
    ensures AndNot(x, Pow2(n) - 1) == x - Low(x, n)
  {
    if n > 0 {
      LowMask(x / 2, n - 1);
      assert x == 2 * (x / 2) + x % 2 && Pow2(n) - 1 == 2 * (Pow2(n - 1) - 1) + 1;
      Unfold(x / 2, x % 2, Pow2(n - 1) - 1, 1);
    }
  }

  /** AND and OR with a shifted word act on the bits from k up; OR leaves the lower ones alone. */
  lemma {:induction false} ShiftedOperand(q: nat, r: nat, m: nat, k: nat)
    requires r < Pow2(k)
    ensures And(Shl(q, k) + r, Shl(m, k)) == Shl(And(q, m), k)
    ensures Or(Shl(q, k) + r, Shl(m, k)) == Shl(Or(q, m), k) + r
  {
    if k > 0 {
      ShiftedOperand(q, r / 2, m, k - 1);
      Unfold(Shl(q, k - 1) + r / 2, r % 2, Shl(m, k - 1), 0);
    }
  }

  /** A mask of n ones shifted left by k selects that field. */
  lemma {:induction false} FieldMask(x: nat, n: nat, k: nat)
    ensures And(x, Shl(Pow2(n) - 1, k)) == Shl(Low(Shr(x, k), n), k)
  {
    Split(x, k);
    ShiftedOperand(Shr(x, k), Low(x, k), Pow2(n) - 1, k);
    LowMask(Shr(x, k), n);
  }

  // ----- Shifts as arithmetic -----

  lemma {:induction false} ShlIs(x: nat, k: nat)
    ensures Shl(x, k) == x * Pow2(k)
  {
    if k > 0 {
      ShlIs(x, k - 1);
      Twice(x, Pow2(k - 1));
    }
  }

  lemma {:induction false} Twice(a: nat, p: nat)
    ensures a * (2 * p) == 2 * (a * p)
  {}

  lemma {:induction false} AtLeastOnce(k: int, d: int)
    requires k >= 1 && d >= 0
    ensures k * d >= d
  {
    assert (k - 1) * d >= 0;
  }

  lemma {:induction false} SmallMultiple(k: int, d: int)
    requires -d < k * d < d
    ensures k == 0
  {
    if k >= 1 {
      AtLeastOnce(k, d);
    } else if k <= -1 {
      AtLeastOnce(-k, d);
    }
  }

  lemma {:induction false} DivisionIs(x: nat, d: nat, q: nat, r: nat)
    requires x == q * d + r && r < d
    ensures x / d == q && x % d == r
  {
    var e, s := x / d, x % d;
    assert x == e * d + s;
    assert (e - q) * d == e * d - q * d;
    SmallMultiple(e - q, d);
  }

  lemma {:induction false} ShrIs(x: nat, k: nat)
    ensures Shr(x, k) == x / Pow2(k) && Low(x, k) == x % Pow2(k)
  {
    Split(x, k);
    ShlIs(Shr(x, k), k);
    DivisionIs(x, Pow2(k), Shr(x, k), Low(x, k));
  }

  lemma {:induction false} OrSymmetric(x: nat, y: nat)
    ensures Or(x, y) == Or(y, x)
  {
    if x > 0 && y > 0 { OrSymmetric(x / 2, y / 2); }
  }

  /** OR of words with no bit in common is addition. */
  lemma {:induction false} OrDisjoint(a: nat, low: nat, k: nat)
    requires low < Pow2(k)
    ensures Or(low, Shl(a, k)) == Or(Shl(a, k), low) == Shl(a, k) + low
  {
    Shl0(k);
    ShiftedOperand(0, low, a, k);
    OrSymmetric(low, Shl(a, k));
  }

  lemma {:induction false} Shl0(k: nat)
    ensures Shl(0, k) == 0
  {
    if k > 0 { Shl0(k - 1); }
  }

  lemma {:induction false} OrBelow(x: nat, y: nat, k: nat)
    requires x < Pow2(k) && y < Pow2(k)
    ensures Or(x, y) < Pow2(k)
  {
    if x > 0 && y > 0 { OrBelow(x / 2, y / 2, k - 1); }
  }

  lemma {:induction false} OrAtLeast(x: nat, y: nat)
    ensures Or(x, y) >= x && Or(x, y) >= y
  {
    if x > 0 && y > 0 { OrAtLeast(x / 2, y / 2); }
  }

  /** OR leaves y alone exactly when x has no bit outside it. */
  lemma {:induction false} OrAbsorbs(x: nat, y: nat)
    ensures Or(x, y) == y <==> AndNot(x, y) == 0
  {
    if x > 0 && y > 0 { OrAbsorbs(x / 2, y / 2); }
  }
}
