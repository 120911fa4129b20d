/**
 * The 32-bit vector of a number's binary digits. Addition, exclusive or and the shifts of
 * numbers become the operations of the machine.
 */
module Vectors {

  import opened Common
  import opened Words

  type Vec = bv32

  /** Another binary digit at the end. */
  function Push(x: Vec, p: bool): Vec {
    if p then (x << 1) | 1 else x << 1
  }

  /** The last 32 binary digits of `n`. */
  function Bits(n: nat): Vec {
    if n == 0 then 0 else Push(Bits(n / 2), n % 2 == 1)
  }

  lemma BitsZero()
    ensures Bits(0) == 0
  {
  }

  lemma BitsPush(n: nat)
    ensures Bits(n) == Push(Bits(n / 2), n % 2 == 1)
  {
    assert Push(0, false) == 0;
  }

  // Named operations, so that proofs can set their bits aside.
  function Plus(x: Vec, y: Vec): Vec {
    x + y
  }

  function Mix(x: Vec, y: Vec): Vec {
    x ^ y
  }

  function Half(x: Vec): Vec {
    x >> 1
  }

  function Left(x: Vec, k: nat): Vec {
    if k == 0 then x else Push(Left(x, k - 1), false)
  }

  function Right(x: Vec, k: nat): Vec {
    if k == 0 then x else Half(Right(x, k - 1))
  }

  // ---------------------------------------------------------------------
  // Sums
  // ---------------------------------------------------------------------

  lemma PlusIs(x: Vec, y: Vec)
    ensures Plus(x, y) == x + y
  {
  }

  lemma PlusOver(x: Vec, y: Vec, z: Vec)
    ensures Plus(x, y + z) == Plus(x + y, z)
  {
  }

  lemma PlusAssociative(x: Vec, y: Vec, z: Vec)
    ensures Plus(x, Plus(y, z)) == Plus(Plus(x, y), z)
  {
    PlusOver(x, y, z);
    PlusIs(x, y);
    PlusIs(y, z);
    hide *;
  }

  lemma PushNext(x: Vec)
    ensures Plus(Push(x, false), 1) == Push(x, true)
    ensures Plus(Push(x, true), 1) == Push(Plus(x, 1), false)
  {
  }

  lemma {:induction false} BitsNext(n: nat)
    ensures Bits(n + 1) == Plus(Bits(n), 1)
  {
    BitsPush(n);
    BitsPush(n + 1);
    PushNext(Bits(n / 2));
    hide Plus, Push, Bits;
    if n % 2 == 0 {
      assert (n + 1) / 2 == n / 2;
    } else {
      BitsNext(n / 2);
      assert (n + 1) / 2 == n / 2 + 1;
    }
  }

  lemma PlusZero(x: Vec)
    ensures Plus(x, 0) == x
  {
  }

  lemma {:induction false} BitsSum(m: nat, n: nat)
    ensures Bits(m + n) == Plus(Bits(m), Bits(n))
  {
    BitsZero();
    PlusZero(Bits(m));
    hide *;
    if n > 0 {
      BitsSum(m, n - 1);
      BitsNext(m + n - 1);
      BitsNext(n - 1);
      PlusAssociative(Bits(m), Bits(n - 1), 1);
    }
  }

  // ---------------------------------------------------------------------
  // Exclusive or
  // ---------------------------------------------------------------------

  lemma MixEven(x: Vec, y: Vec)
    ensures Mix(Push(x, false), Push(y, false)) == Push(Mix(x, y), false)
  {
  }

  lemma MixEvenOdd(x: Vec, y: Vec)
    ensures Mix(Push(x, false), Push(y, true)) == Push(Mix(x, y), true)
  {
  }

  lemma MixOddEven(x: Vec, y: Vec)
    ensures Mix(Push(x, true), Push(y, false)) == Push(Mix(x, y), true)
  {
  }

  lemma MixOdd(x: Vec, y: Vec)
    ensures Mix(Push(x, true), Push(y, true)) == Push(Mix(x, y), false)
  {
  }

  lemma MixPush(x: Vec, y: Vec, p: bool, q: bool)
    ensures Mix(Push(x, p), Push(y, q)) == Push(Mix(x, y), p != q)
  {
    MixEven(x, y);
    MixEvenOdd(x, y);
    MixOddEven(x, y);
    MixOdd(x, y);
    hide *;
  }

  lemma MixIs(x: Vec, y: Vec)
    ensures Mix(x, y) == x ^ y
  {
  }

  lemma MixZero()
    ensures Mix(0, 0) == 0
  {
  }

  lemma {:induction false} BitsXor(a: nat, b: nat)
    ensures Bits(Xor(a, b)) == Mix(Bits(a), Bits(b))
    decreases a + b
  {
    MixZero();
    BitsZero();
    hide Push, Mix, Bits;
    if a > 0 || b > 0 {
      BitsXor(a / 2, b / 2);
      XorHalf(a, b);
      BitsPush(a);
      BitsPush(b);
      BitsPush(Xor(a, b));
      hide *;
      MixPush(Bits(a / 2), Bits(b / 2), a % 2 == 1, b % 2 == 1);
    }
  }

  // ---------------------------------------------------------------------
  // Shifts
  // ---------------------------------------------------------------------

  function Two(k: nat): nat {
    if k == 0 then 1 else 2 * Two(k - 1)
  }

  lemma TwoWord()
    ensures Two(31) == WORD / 2 && Two(32) == WORD
  {
    assert Two(8) == 0x100;
    assert Two(16) == 0x1_0000;
    assert Two(24) == 0x100_0000;
  }

  lemma {:induction false} BitsLeft(n: nat, k: nat)
    ensures Bits(n * Two(k)) == Left(Bits(n), k)
  {
    hide Bits, Push;
    if k > 0 {
      BitsLeft(n, k - 1);
      BitsPush(n * Two(k));
      var m := n * Two(k - 1);
      assert n * Two(k) == 2 * m;
      assert 2 * m / 2 == m && 2 * m % 2 == 0;
    }
  }

  /** The vector whose last `k` digits are ones. */
  function Ones(k: nat): Vec {
    if k == 0 then 0 else Push(Ones(k - 1), true)
  }

  predicate Within(x: Vec, ones: Vec) {
    x | ones == ones
  }

  lemma WithinZero(ones: Vec)
    ensures Within(0, ones)
  {
  }

  lemma WithinEven(x: Vec, ones: Vec)
    requires Within(x, ones)
    ensures Within(Push(x, false), Push(ones, true))
  {
  }

  lemma WithinOdd(x: Vec, ones: Vec)
    requires Within(x, ones)
    ensures Within(Push(x, true), Push(ones, true))
  {
  }

  lemma WithinPush(x: Vec, p: bool, ones: Vec)
    requires Within(x, ones)
    ensures Within(Push(x, p), Push(ones, true))
  {
    hide *;
    if p {
      WithinOdd(x, ones);
    } else {
      WithinEven(x, ones);
    }
  }

  lemma {:induction false} BitsWithin(n: nat, k: nat)
    requires n < Two(k)
    ensures Within(Bits(n), Ones(k))
  {
    WithinZero(Ones(k));
    hide Within, Push;
    if n > 0 {
      BitsWithin(n / 2, k - 1);
      WithinPush(Bits(n / 2), n % 2 == 1, Ones(k - 1));
    }
  }

  lemma OnesBelow31()
    ensures Ones(31) == 0x7FFF_FFFF
  {
    assert Ones(4) == 0xF;
    assert Ones(8) == 0xFF;
    assert Ones(12) == 0xFFF;
    assert Ones(16) == 0xFFFF;
    assert Ones(20) == 0xF_FFFF;
    assert Ones(24) == 0xFF_FFFF;
    assert Ones(28) == 0xFFF_FFFF;
  }

  lemma HalfPush(x: Vec, p: bool)
    requires Within(x, 0x7FFF_FFFF)
    ensures Half(Push(x, p)) == x
  {
  }

  lemma BitsHalf(n: nat)
    requires n < WORD
    ensures Bits(n / 2) == Half(Bits(n))
  {
    BitsPush(n);
    TwoWord();
    OnesBelow31();
    BitsWithin(n / 2, 31);
    hide *;
    HalfPush(Bits(n / 2), n % 2 == 1);
  }

  lemma {:induction false} BitsRight(n: nat, k: nat)
    requires n < WORD
    ensures Bits(ShiftRight(n, k)) == Right(Bits(n), k)
  {
    if k > 0 {
      BitsRight(n, k - 1);
      ShiftRightShrinks(n, k - 1);
      ShiftRightHalf(n, k - 1);
      BitsHalf(ShiftRight(n, k - 1));
    }
  }

  lemma {:induction false} LeftSum(x: Vec, k: nat, m: nat)
    ensures Left(x, k + m) == Left(Left(x, k), m)
  {
    if m > 0 {
      LeftSum(x, k, m - 1);
    }
  }

  lemma LeftTwo(x: Vec)
    ensures Left(x, 2) == x << 2
  {
    assert Left(x, 1) == Push(x, false);
    assert Left(x, 2) == Push(Push(x, false), false);
  }

  lemma LeftThree(x: Vec)
    ensures Left(x, 3) == x << 3
  {
    LeftTwo(x);
    assert Left(x, 3) == Push(x << 2, false);
    hide Left;
  }

  lemma LeftFour(x: Vec)
    ensures Left(x, 4) == x << 4
  {
    LeftThree(x);
    assert Left(x, 4) == Push(x << 3, false);
    hide Left;
  }

  lemma LeftEight(x: Vec)
    ensures Left(x, 8) == x << 8
  {
    LeftFour(x);
    LeftFour(x << 4);
    LeftSum(x, 4, 4);
    hide *;
  }

  lemma LeftTen(x: Vec)
    ensures Left(x, 10) == x << 10
  {
    LeftEight(x);
    LeftTwo(x << 8);
    LeftSum(x, 8, 2);
    hide *;
  }

  lemma LeftTwelve(x: Vec)
    ensures Left(x, 12) == x << 12
  {
    LeftEight(x);
    LeftFour(x << 8);
    LeftSum(x, 8, 4);
    hide *;
  }

  lemma LeftFifteen(x: Vec)
    ensures Left(x, 15) == x << 15
  {
    LeftTwelve(x);
    LeftThree(x << 12);
    LeftSum(x, 12, 3);
    hide *;
  }

  lemma LeftSixteen(x: Vec)
    ensures Left(x, 16) == x << 16
  {
    LeftEight(x);
    LeftEight(x << 8);
    LeftSum(x, 8, 8);
    hide *;
  }

  lemma LeftWord(x: Vec)
    ensures Left(x, 32) == 0
  {
    LeftSixteen(x);
    LeftSixteen(x << 16);
    LeftSum(x, 16, 16);
    hide *;
  }

  lemma {:induction false} RightSum(x: Vec, k: nat, m: nat)
    ensures Right(x, k + m) == Right(Right(x, k), m)
  {
    if m > 0 {
      RightSum(x, k, m - 1);
    }
  }

  lemma RightTwo(x: Vec)
    ensures Right(x, 2) == x >> 2
  {
    assert Right(x, 1) == Half(x);
    assert Right(x, 2) == Half(Half(x));
  }

  lemma RightThree(x: Vec)
    ensures Right(x, 3) == x >> 3
  {
    RightTwo(x);
    assert Right(x, 3) == Half(x >> 2);
    hide Right;
  }

  lemma RightSix(x: Vec)
    ensures Right(x, 6) == x >> 6
  {
    RightThree(x);
    RightThree(x >> 3);
    RightSum(x, 3, 3);
    hide *;
  }

  lemma RightEleven(x: Vec)
    ensures Right(x, 11) == x >> 11
  {
    RightSix(x);
    RightThree(x >> 6);
    RightSum(x, 6, 3);
    RightTwo(x >> 9);
    RightSum(x, 9, 2);
    hide *;
  }

  // ---------------------------------------------------------------------
  // Numbers and vectors correspond
  // ---------------------------------------------------------------------

  /** Numbers that differ by a multiple of 2^32 have the same digits. */
  lemma BitsModulo(n: nat)
    ensures Bits(n % WORD) == Bits(n)
  {
    var q := n / WORD;
    TwoWord();
    BitsLeft(q, 32);
    LeftWord(Bits(q));
    BitsSum(n % WORD, q * WORD);
    PlusZero(Bits(n % WORD));
    hide *;
  }

  function AppendDigit(x: Vec, y: Vec): Vec {
    (x << 4) + y
  }

  lemma AppendDigitIs(x: Vec, y: Vec)
    ensures AppendDigit(x, y) == Plus(Left(x, 4), y)
  {
    LeftFour(x);
  }

  /** One more hexadecimal digit. */
  lemma BitsDigit(n: nat, d: nat)
    ensures Bits(16 * n + d) == AppendDigit(Bits(n), Bits(d))
  {
    assert Two(4) == 16;
    BitsLeft(n, 4);
    BitsSum(n * Two(4), d);
    AppendDigitIs(Bits(n), Bits(d));
    hide *;
  }

  lemma PushLast(x: Vec, p: bool)
    ensures Push(x, p) & 1 == if p then 1 else 0
  {
  }

  /** Words with the same digits are the same word. */
  lemma {:induction false} BitsInjective(a: Word, b: Word)
    requires Bits(a) == Bits(b)
    ensures a == b
    decreases a + b
  {
    if a > 0 || b > 0 {
      BitsHalf(a);
      BitsHalf(b);
      BitsPush(a);
      BitsPush(b);
      PushLast(Bits(a / 2), a % 2 == 1);
      PushLast(Bits(b / 2), b % 2 == 1);
      BitsInjective(a / 2, b / 2);
    }
  }
}
