/**
 * Exclusive or and right shift on natural numbers: the arithmetic behind the 32-bit
 * words of lib/dictionary.c.
 */
module Words {

  import opened Common

  type Word = w: nat | w < WORD

  function Xor(a: nat, b: nat): nat {
    if a == 0 && b == 0 then 0
    else 2 * Xor(a / 2, b / 2) + (a % 2 + b % 2) % 2
  }

  function ShiftRight(a: nat, k: nat): nat {
    if k == 0 then a else ShiftRight(a / 2, k - 1)
  }

  /** `h ^ (h >> k)` */
  function XorShift(a: nat, k: nat): nat {
    Xor(a, ShiftRight(a, k))
  }

  predicate Bit(a: nat, i: nat) {
    ShiftRight(a, i) % 2 == 1
  }

  lemma XorHalf(a: nat, b: nat)
    ensures Xor(a, b) / 2 == Xor(a / 2, b / 2)
    ensures Xor(a, b) % 2 == (a % 2 + b % 2) % 2
  {
  }

  /** `Xor` is the bitwise operation. */
  lemma {:induction false} XorBits(a: nat, b: nat, i: nat)
    ensures Bit(Xor(a, b), i) == (Bit(a, i) != Bit(b, i))
    decreases i
  {
    XorHalf(a, b);
    if i > 0 {
      XorBits(a / 2, b / 2, i - 1);
    }
  }

  lemma {:induction false} ShiftRightSum(a: nat, k: nat, m: nat)
    ensures ShiftRight(a, k + m) == ShiftRight(ShiftRight(a, k), m)
    decreases k
  {
    if k > 0 {
      ShiftRightSum(a / 2, k - 1, m);
    }
  }

  lemma ShiftRightFour(a: nat)
    ensures ShiftRight(a, 4) == a / 16
  {
    assert a / 2 / 2 == a / 4;
    assert a / 4 / 2 == a / 8;
    assert a / 8 / 2 == a / 16;
    assert ShiftRight(a, 4) == ShiftRight(a / 2, 3);
    assert ShiftRight(a / 2, 3) == ShiftRight(a / 4, 2);
    assert ShiftRight(a / 4, 2) == ShiftRight(a / 8, 1);
    assert ShiftRight(a / 8, 1) == a / 16;
  }

  lemma ShiftRightWord(a: nat)
    ensures ShiftRight(a, 32) == a / WORD
  {
    var powers := [1, 0x10, 0x100, 0x1000, 0x1_0000, 0x10_0000, 0x100_0000, 0x1000_0000, 0x1_0000_0000];
    var rest := a;
    for i := 0 to 8
      invariant ShiftRight(a, 32) == ShiftRight(rest, 32 - 4 * i)
      invariant rest == a / powers[i]
    {
      ShiftRightSum(rest, 4, 28 - 4 * i);
      ShiftRightFour(rest);
      rest := rest / 16;
    }
  }

  lemma {:induction false} XorClearAbove(a: nat, b: nat, k: nat)
    requires ShiftRight(a, k) == 0 && ShiftRight(b, k) == 0
    ensures ShiftRight(Xor(a, b), k) == 0
    decreases k
  {
    XorHalf(a, b);
    if k > 0 {
      XorClearAbove(a / 2, b / 2, k - 1);
    }
  }

  lemma {:induction false} ShiftRightShrinks(a: nat, k: nat)
    ensures ShiftRight(a, k) <= a
  {
    if k > 0 {
      ShiftRightShrinks(a / 2, k - 1);
    }
  }

  lemma XorShiftWord(h: Word, k: nat)
    ensures XorShift(h, k) < WORD
  {
    ShiftRightShrinks(h, k);
    ShiftRightWord(h);
    ShiftRightWord(ShiftRight(h, k));
    ShiftRightWord(XorShift(h, k));
    XorClearAbove(h, ShiftRight(h, k), 32);
  }

  lemma {:induction false} ShiftRightHalf(a: nat, k: nat)
    ensures ShiftRight(a, k) / 2 == ShiftRight(a / 2, k)
  {
    if k > 0 {
      ShiftRightHalf(a / 2, k - 1);
    }
  }

  lemma XorShiftHalf(a: nat, k: nat)
    ensures XorShift(a, k) / 2 == XorShift(a / 2, k)
    ensures XorShift(a, k) % 2 == (a % 2 + ShiftRight(a, k) % 2) % 2
  {
    hide Xor, ShiftRight;
    ShiftRightHalf(a, k);
    XorHalf(a, ShiftRight(a, k));
  }

  /** Shifting by at least one and mixing back loses nothing. */
  lemma {:induction false} XorShiftInjective(a: nat, b: nat, k: nat)
    requires k > 0 && XorShift(a, k) == XorShift(b, k)
    ensures a == b
    decreases a + b
  {
    hide Xor, XorShift;
    XorShiftHalf(a, k);
    XorShiftHalf(b, k);
    if a > 0 || b > 0 {
      XorShiftInjective(a / 2, b / 2, k);
      assert ShiftRight(a, k) == ShiftRight(b, k);
    }
  }
}
