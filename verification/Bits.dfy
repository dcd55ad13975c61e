/** Exclusive or and shifts on the natural numbers that stand for machine words. */
module Bits {

  function Pow2(n: nat): (p: nat)
    ensures p > 0
    decreases n
  {
    if n == 0 then 1 else 2 * Pow2(n - 1)
  }

  lemma {:induction false} PowerGrows(n: nat, k: nat)
    requires n <= k
    ensures Pow2(n) <= Pow2(k)
    decreases k
  {
    if n == k {
    } else {
      PowerGrows(n, k - 1);
    }
  }

  lemma {:induction false} WordSize()
    ensures Pow2(31) == 0x8000_0000 && Pow2(32) == 0x1_0000_0000
  {
    assert Pow2(4) == 16;
    assert Pow2(8) == 0x100;
    assert Pow2(12) == 0x1000;
    assert Pow2(16) == 0x10000;
    assert Pow2(20) == 0x10_0000;
    assert Pow2(24) == 0x100_0000;
    assert Pow2(28) == 0x1000_0000;
  }

  /** `a >> n`. */
  function ShiftRight(a: nat, n: nat): nat
    decreases n
  {
    if n == 0 then a else ShiftRight(a / 2, n - 1)
  }

  /** `a << n`, without truncation. */
  function ShiftLeft(a: nat, n: nat): nat
    decreases n
  {
    if n == 0 then a else 2 * ShiftLeft(a, n - 1)
  }

  /** Bitwise exclusive or. */
  function Xor(a: nat, b: nat): nat
    decreases a + b
  {
    if a == 0 && b == 0 then 0 else (if a % 2 == b % 2 then 0 else 1) + 2 * Xor(a / 2, b / 2)
  }

  lemma XorUnfold(a: nat, b: nat)
    ensures Xor(a, b) % 2 == if a % 2 == b % 2 then 0 else 1
    ensures Xor(a, b) / 2 == Xor(a / 2, b / 2)
  {
  }

  /** A number is its low bit and the rest. */
  lemma SameBits(x: nat, y: nat)
    requires x % 2 == y % 2 && x / 2 == y / 2
    ensures x == y
  {
  }

  lemma {:induction false} XorZero(a: nat)
    ensures Xor(a, 0) == a == Xor(0, a)
    decreases a
  {
    if a == 0 {
    } else {
      XorZero(a / 2);
    }
  }

  lemma {:induction false} XorSelf(a: nat)
    ensures Xor(a, a) == 0
    decreases a
  {
    if a == 0 {
    } else {
      XorSelf(a / 2);
    }
  }

  lemma {:induction false} XorCommutes(a: nat, b: nat)
    ensures Xor(a, b) == Xor(b, a)
    decreases a + b
  {
    if a == 0 && b == 0 {
    } else {
      XorCommutes(a / 2, b / 2);
    }
  }

  lemma {:induction false} XorAssociates(a: nat, b: nat, c: nat)
    ensures Xor(Xor(a, b), c) == Xor(a, Xor(b, c))
    decreases a + b + c
  {
    if a == 0 && b == 0 && c == 0 {
    } else {
      XorAssociates(a / 2, b / 2, c / 2);
      XorUnfold(a, b);
      XorUnfold(b, c);
      XorUnfold(Xor(a, b), c);
      XorUnfold(a, Xor(b, c));
      SameBits(Xor(Xor(a, b), c), Xor(a, Xor(b, c)));
    }
  }

  /** (a ^ b) ^ (c ^ d) == (a ^ c) ^ (b ^ d). */
  lemma XorInterchange(a: nat, b: nat, c: nat, d: nat)
    ensures Xor(Xor(a, b), Xor(c, d)) == Xor(Xor(a, c), Xor(b, d))
  {
    XorAssociates(a, b, Xor(c, d));
    XorAssociates(b, c, d);
    XorCommutes(b, c);
    XorAssociates(c, b, d);
    XorAssociates(a, c, Xor(b, d));
  }

  lemma XorCancels(a: nat, b: nat)
    ensures Xor(Xor(a, b), b) == a
  {
    XorAssociates(a, b, b);
    XorSelf(b);
    XorZero(a);
  }

  lemma {:induction false} XorBound(a: nat, b: nat, n: nat)
    requires a < Pow2(n) && b < Pow2(n)
    ensures Xor(a, b) < Pow2(n)
    decreases n
  {
    if n == 0 || (a == 0 && b == 0) {
    } else {
      XorBound(a / 2, b / 2, n - 1);
    }
  }

  lemma {:induction false} XorShiftRight(a: nat, b: nat, n: nat)
    ensures ShiftRight(Xor(a, b), n) == Xor(ShiftRight(a, n), ShiftRight(b, n))
    decreases n
  {
    if n == 0 {
    } else {
      XorUnfold(a, b);
      XorShiftRight(a / 2, b / 2, n - 1);
    }
  }

  lemma {:induction false} ShiftRightOfSmall(a: nat, n: nat)
    requires a < Pow2(n)
    ensures ShiftRight(a, n) == 0
    decreases n
  {
    if n == 0 {
    } else {
      ShiftRightOfSmall(a / 2, n - 1);
    }
  }

  lemma {:induction false} ShiftRightOfLarge(a: nat, n: nat)
    requires a >= Pow2(n)
    ensures ShiftRight(a, n) > 0
    decreases n
  {
    if n == 0 {
    } else {
      ShiftRightOfLarge(a / 2, n - 1);
    }
  }

  /** Disjoint bits add up. */
  lemma {:induction false} XorDisjoint(a: nat, b: nat, n: nat)
    requires a < Pow2(n)
    ensures Xor(a, ShiftLeft(b, n)) == a + ShiftLeft(b, n)
    decreases n
  {
    if n == 0 {
      XorZero(b);
    } else {
      XorDisjoint(a / 2, b, n - 1);
      XorUnfold(a, ShiftLeft(b, n));
      SameBits(Xor(a, ShiftLeft(b, n)), a + ShiftLeft(b, n));
    }
  }

  lemma ByteShifts(a: nat)
    ensures ShiftRight(a, 8) == a / 0x100
    ensures ShiftLeft(a, 8) == 0x100 * a
    ensures Pow2(8) == 0x100
  {
    assert ShiftRight(a, 8) == ShiftRight(a / 2 / 2 / 2 / 2, 4);
    assert ShiftLeft(a, 4) == 16 * a;
    assert Pow2(4) == 16;
  }
}
