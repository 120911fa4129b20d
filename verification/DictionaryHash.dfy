/**
 * `dictionary_hash` of lib/dictionary.c, a one-at-a-time hash. A word is a natural
 * number below 2^32 and unsigned arithmetic is taken modulo 2^32; a string is the
 * sequence of its bytes before the terminator.
 */
module DictionaryHash {

  import opened Common
  import opened Words
  import opened Vectors

  // ---------------------------------------------------------------------
  // The hash
  // ---------------------------------------------------------------------

  /**
   * `(unsigned)key[i]`. Whether plain `char` is signed is left to the compiler, so
   * every result below is proved for both choices.
   */
  function Widen(c: Byte, signed: bool): Word {
    if signed && c >= 128 then c + (WORD - 256) else c
  }

  /** `h + (h << k)` for a factor of 1 + 2^k. */
  function Times(h: Word, factor: nat): Word {
    (h * factor) % WORD
  }

  /** `h ^ (h >> k)` within a word. */
  function Fold(h: Word, k: nat): Word {
    XorShiftWord(h, k);
    XorShift(h, k)
  }

  /** `hash += (unsigned)key[i]` */
  function Absorb(h: Word, c: Byte, signed: bool): Word {
    (h + Widen(c, signed)) % WORD
  }

  /** One turn of the loop. */
  function Round(h: Word, c: Byte, signed: bool): Word {
    Fold(Times(Absorb(h, c, signed), 1025), 6)
  }

  /** The word once the loop has consumed `key`, starting from `h`. */
  function Rounds(h: Word, key: seq<Byte>, signed: bool): Word
    decreases |key|
  {
    if key == [] then h else Rounds(Round(h, key[0], signed), key[1..], signed)
  }

  /** The three closing lines. */
  function Finish(h: Word): Word {
    Times(Fold(Times(h, 9), 11), 32769)
  }

  function Hash(key: seq<Byte>, signed: bool): Word {
    Finish(Rounds(0, key, signed))
  }

  // ---------------------------------------------------------------------
  // The hash on 32-bit vectors
  // ---------------------------------------------------------------------

  /** `(unsigned)key[i]`: a negative `char` is extended with ones. */
  function VecChar(c: Byte, signed: bool): Vec {
    if signed && c >= 128 then Bits(c) | 0xFFFF_FF00 else Bits(c)
  }

  // `hash += (hash << k)` and `hash ^= (hash >> k)`, for the shifts the code has.
  function Add3(hash: Vec): Vec {
    hash + (hash << 3)
  }

  function Add10(hash: Vec): Vec {
    hash + (hash << 10)
  }

  function Add15(hash: Vec): Vec {
    hash + (hash << 15)
  }

  function Mix6(hash: Vec): Vec {
    hash ^ (hash >> 6)
  }

  function Mix11(hash: Vec): Vec {
    hash ^ (hash >> 11)
  }

  /** `hash += (unsigned)key[i]` */
  function AddChar(hash: Vec, c: Byte, signed: bool): Vec {
    hash + VecChar(c, signed)
  }

  /** One turn of the loop. */
  function Turn(hash: Vec, c: Byte, signed: bool): Vec {
    Mix6(Add10(AddChar(hash, c, signed)))
  }

  /** The loop of `dictionary_hash()`. */
  function VecLoop(hash: Vec, key: seq<Byte>, signed: bool): Vec
    decreases |key|
  {
    if key == [] then hash
    else
      VecLoop(Turn(hash, key[0], signed), key[1..], signed)
  }

  /** The loop and the three lines after it. */
  function VecHash(key: seq<Byte>, signed: bool): Vec {
    Add15(Mix11(Add3(VecLoop(0, key, signed))))
  }

  lemma ShiftAdd(h: Word, k: nat)
    ensures Bits(Times(h, 1 + Two(k))) == Plus(Bits(h), Left(Bits(h), k))
  {
    assert h * (1 + Two(k)) == h + h * Two(k);
    BitsModulo(h + h * Two(k));
    BitsSum(h, h * Two(k));
    BitsLeft(h, k);
    hide Bits, Plus, Left;
  }

  lemma ShiftMix(h: Word, k: nat)
    ensures Bits(Fold(h, k)) == Mix(Bits(h), Right(Bits(h), k))
  {
    BitsXor(h, ShiftRight(h, k));
    BitsRight(h, k);
    hide Bits, Mix, Right;
  }

  // The machine's lines, in the operations named in module Vectors.
  lemma Add3Is(x: Vec)
    ensures Add3(x) == Plus(x, Left(x, 3))
  {
    LeftThree(x);
  }

  lemma Add10Is(x: Vec)
    ensures Add10(x) == Plus(x, Left(x, 10))
  {
    LeftTen(x);
  }

  lemma Add15Is(x: Vec)
    ensures Add15(x) == Plus(x, Left(x, 15))
  {
    LeftFifteen(x);
  }

  lemma Mix6Is(x: Vec)
    ensures Mix6(x) == Mix(x, Right(x, 6))
  {
    RightSix(x);
  }

  lemma Mix11Is(x: Vec)
    ensures Mix11(x) == Mix(x, Right(x, 11))
  {
    RightEleven(x);
  }

  lemma AddCharIs(x: Vec, c: Byte, signed: bool)
    ensures AddChar(x, c, signed) == Plus(x, VecChar(c, signed))
  {
  }

  lemma NegativeChar(c: Byte)
    ensures Bits(c + (WORD - 256)) == Bits(c) | 0xFFFF_FF00
  {
    assert Two(8) == 256;
    assert Ones(8) == 0xFF;
    BitsWithin(c, 8);
    HighOnes();
    BitsSum(c, WORD - 256);
    PlusIs(Bits(c), 0xFFFF_FF00);
    hide *;
    WithinAdd(Bits(c));
  }

  lemma HighOnes()
    ensures Bits(WORD - 256) == 0xFFFF_FF00
  {
    assert Bits(0) == 0 && Bits(0xF) == 0xF;
    BitsDigit(0xF, 0xF);
    BitsDigit(0xFF, 0xF);
    BitsDigit(0xFFF, 0xF);
    BitsDigit(0xFFFF, 0xF);
    BitsDigit(0xF_FFFF, 0xF);
    BitsDigit(0xFF_FFFF, 0);
    BitsDigit(0xFFF_FFF0, 0);
    hide Bits;
  }

  lemma WithinAdd(x: Vec)
    requires Within(x, 0xFF)
    ensures x + 0xFFFF_FF00 == x | 0xFFFF_FF00
  {
  }

  lemma BitsChar(c: Byte, signed: bool)
    ensures Bits(Widen(c, signed)) == VecChar(c, signed)
  {
    NegativeChar(c);
    hide Bits;
  }

  lemma BitsAbsorb(h: Word, c: Byte, signed: bool)
    ensures Bits(Absorb(h, c, signed)) == AddChar(Bits(h), c, signed)
  {
    hide Bits, Plus, Widen, VecChar, AddChar;
    BitsModulo(h + Widen(c, signed));
    BitsSum(h, Widen(c, signed));
    BitsChar(c, signed);
    AddCharIs(Bits(h), c, signed);
    hide *;
  }

  lemma BitsAdd3(h: Word)
    ensures Bits(Times(h, 9)) == Add3(Bits(h))
  {
    assert Two(3) == 8;
    ShiftAdd(h, 3);
    Add3Is(Bits(h));
    hide *;
  }

  lemma BitsAdd10(h: Word)
    ensures Bits(Times(h, 1025)) == Add10(Bits(h))
  {
    assert Two(10) == 1024;
    ShiftAdd(h, 10);
    Add10Is(Bits(h));
    hide *;
  }

  lemma BitsAdd15(h: Word)
    ensures Bits(Times(h, 32769)) == Add15(Bits(h))
  {
    assert Two(15) == 32768;
    ShiftAdd(h, 15);
    Add15Is(Bits(h));
    hide *;
  }

  lemma BitsMix6(h: Word)
    ensures Bits(Fold(h, 6)) == Mix6(Bits(h))
  {
    ShiftMix(h, 6);
    Mix6Is(Bits(h));
    hide *;
  }

  lemma BitsMix11(h: Word)
    ensures Bits(Fold(h, 11)) == Mix11(Bits(h))
  {
    ShiftMix(h, 11);
    Mix11Is(Bits(h));
    hide *;
  }

  lemma BitsRound(h: Word, c: Byte, signed: bool)
    ensures Bits(Round(h, c, signed)) == Turn(Bits(h), c, signed)
  {
    BitsAbsorb(h, c, signed);
    BitsAdd10(Absorb(h, c, signed));
    BitsMix6(Times(Absorb(h, c, signed), 1025));
    hide Bits, Absorb, Times, Fold, AddChar, Add10, Mix6;
  }

  lemma BitsFinish(h: Word)
    ensures Bits(Finish(h)) == Add15(Mix11(Add3(Bits(h))))
  {
    BitsAdd3(h);
    BitsMix11(Times(h, 9));
    BitsAdd15(Fold(Times(h, 9), 11));
    hide Bits, Times, Fold, Add3, Mix11, Add15;
  }

  lemma {:induction false} BitsRounds(h: Word, key: seq<Byte>, signed: bool)
    ensures Bits(Rounds(h, key, signed)) == VecLoop(Bits(h), key, signed)
    decreases |key|
  {
    hide Bits, Round, Turn;
    if key != [] {
      BitsRound(h, key[0], signed);
      BitsRounds(Round(h, key[0], signed), key[1..], signed);
    }
  }

  /** The word the hash is has the digits the machine's operations give, for every key. */
  lemma HashIsMachine(key: seq<Byte>, signed: bool)
    ensures Bits(Hash(key, signed)) == VecHash(key, signed)
  {
    BitsZero();
    BitsRounds(0, key, signed);
    BitsFinish(Rounds(0, key, signed));
    hide Bits, Rounds, Finish, VecLoop, Add3, Mix11, Add15;
  }

  lemma KnownMy(signed: bool)
    ensures Turn(0, 109, signed) == 0x0001_B2BC // m
    ensures Turn(0x0001_B2BC, 121, signed) == 0x06D5_BD29 // y
  {
    assert Bits(109) == 109 && Bits(121) == 121;
  }

  lemma KnownLineK(signed: bool)
    ensures Turn(0x06D5_BD29, 95, signed) == 0x5CBC_F2FE // _
    ensures Turn(0x5CBC_F2FE, 107, signed) == 0x51C8_BD34 // k
  {
    assert Bits(95) == 95 && Bits(107) == 107;
  }

  lemma KnownEy(signed: bool)
    ensures Turn(0x51C8_BD34, 101, signed) == 0x756D_DD1F // e
    ensures Turn(0x756D_DD1F, 121, signed) == 0x2C57_AD6E // y
  {
    assert Bits(101) == 101 && Bits(121) == 121;
  }

  lemma KnownNumber(signed: bool)
    ensures Turn(0x2C57_AD6E, 59, signed) == 0x8922_68EF // ;
    ensures Turn(0x8922_68EF, 48, signed) == 0x128D_FE8B // 0
  {
    assert Bits(59) == 59 && Bits(48) == 48;
  }

  lemma KnownEnd()
    ensures Add15(Mix11(Add3(0x128D_FE8B))) == 0x3D97_AD5D
  {
  }

  lemma KnownDigits()
    ensures Bits(3) == 3 && Bits(5) == 5 && Bits(7) == 7
    ensures Bits(9) == 9 && Bits(0xA) == 0xA && Bits(0xD) == 0xD
  {
  }

  lemma KnownBits()
    ensures Bits(0x3D97_AD5D) == 0x3D97_AD5D
  {
    KnownDigits();
    BitsDigit(3, 0xD);
    BitsDigit(0x3D, 9);
    BitsDigit(0x3D9, 7);
    BitsDigit(0x3D97, 0xA);
    BitsDigit(0x3_D97A, 0xD);
    BitsDigit(0x3D_97AD, 5);
    BitsDigit(0x3D9_7AD5, 0xD);
    hide Bits;
  }

  lemma VecLoopTurn(hash: Vec, c: Byte, rest: seq<Byte>, signed: bool)
    ensures VecLoop(hash, [c] + rest, signed) == VecLoop(Turn(hash, c, signed), rest, signed)
  {
    assert ([c] + rest)[1..] == rest;
    hide Turn;
  }

  /** The characters of "my_key;0". */
  const MY_KEY_0: seq<Byte> := [109, 121, 95, 107, 101, 121, 59, 48]

  lemma KnownLoopFirst(signed: bool)
    ensures VecLoop(0, MY_KEY_0, signed) == VecLoop(0x51C8_BD34, MY_KEY_0[4..], signed)
  {
    KnownMy(signed);
    KnownLineK(signed);
    hide Turn;
    VecLoopTurn(0, 109, MY_KEY_0[1..], signed);
    VecLoopTurn(0x0001_B2BC, 121, MY_KEY_0[2..], signed);
    VecLoopTurn(0x06D5_BD29, 95, MY_KEY_0[3..], signed);
    VecLoopTurn(0x5CBC_F2FE, 107, MY_KEY_0[4..], signed);
  }

  lemma KnownLoopSecond(signed: bool)
    ensures VecLoop(0x51C8_BD34, MY_KEY_0[4..], signed) == 0x128D_FE8B
  {
    KnownEy(signed);
    KnownNumber(signed);
    hide Turn;
    VecLoopTurn(0x51C8_BD34, 101, MY_KEY_0[5..], signed);
    VecLoopTurn(0x756D_DD1F, 121, MY_KEY_0[6..], signed);
    VecLoopTurn(0x2C57_AD6E, 59, MY_KEY_0[7..], signed);
    VecLoopTurn(0x8922_68EF, 48, MY_KEY_0[8..], signed);
  }

  /** The hash recorded in the repository for "my_key;0". */
  lemma KnownHash(signed: bool)
    ensures Hash(MY_KEY_0, signed) == 0x3D97_AD5D
  {
    KnownLoopFirst(signed);
    KnownLoopSecond(signed);
    KnownEnd();
    KnownBits();
    HashIsMachine(MY_KEY_0, signed);
    hide Bits, VecLoop, Add3, Add15, Mix11, Hash;
    BitsInjective(Hash(MY_KEY_0, signed), 0x3D97_AD5D);
  }

  /** `dictionary_hash()`: zero for NULL, otherwise the loop and the closing lines. */
  method ComputeHash(key: Option<seq<Byte>>, signed: bool) returns (hash: Word)
    ensures hash == if key.None? then 0 else Hash(key.value, signed)
    ensures Bits(hash) == if key.None? then 0 else VecHash(key.value, signed)
  {
    hide Round, Finish, Bits, VecHash;
    BitsZero();
    if key.None? {
      return 0;
    }
    var s, i := key.value, 0;
    hash := 0;
    while i < |s|
      invariant 0 <= i <= |s|
      invariant Rounds(hash, s[i..], signed) == Rounds(0, s, signed)
    {
      hash := Round(hash, s[i], signed);
      i := i + 1;
    }
    hash := Finish(hash);
    HashIsMachine(s, signed);
  }

  // ---------------------------------------------------------------------
  // Every stage is injective
  // ---------------------------------------------------------------------

  lemma ModWord(h: Word, z: int)
    ensures (h + WORD * z) % WORD == h
  {
  }

  /** A factor with an inverse modulo 2^32 can be divided out again. */
  lemma TimesInverse(h: Word, factor: nat, inverse: nat, k: nat)
    requires factor * inverse == 1 + WORD * k
    ensures (Times(h, factor) * inverse) % WORD == h
  {
    var r, q := Times(h, factor), (h * factor) / WORD;
    calc {
      r * inverse;
      (h * factor - WORD * q) * inverse;
      h * (factor * inverse) - WORD * q * inverse;
      h * (1 + WORD * k) - WORD * q * inverse;
      h + WORD * (h * k - q * inverse);
    }
    ModWord(h, h * k - q * inverse);
  }

  /** The factors the hash uses; each is odd, so each can be divided out. */
  predicate HashFactor(factor: nat) {
    factor == 9 || factor == 1025 || factor == 32769
  }

  lemma TimesInjective(h: Word, g: Word, factor: nat)
    requires HashFactor(factor) && Times(h, factor) == Times(g, factor)
    ensures h == g
  {
    hide Times;
    var inverse := if factor == 9 then 0x38E3_8E39 else if factor == 1025 then 0xC00F_FC01 else 0x3FFF_8001;
    var k := if factor == 9 then 2 else if factor == 1025 then 769 else 8192;
    TimesInverse(h, factor, inverse, k);
    TimesInverse(g, factor, inverse, k);
  }

  lemma FinishInjective(h: Word, g: Word)
    ensures Finish(h) == Finish(g) <==> h == g
  {
    hide Times, XorShift;
    if Finish(h) == Finish(g) {
      TimesInjective(Fold(Times(h, 9), 11), Fold(Times(g, 9), 11), 32769);
      XorShiftInjective(Times(h, 9), Times(g, 9), 11);
      TimesInjective(h, g, 9);
    }
  }

  lemma AddInjective(h: Word, g: Word, x: Word, y: Word)
    requires (h + x) % WORD == (g + y) % WORD
    ensures h == g <==> x == y
  {
  }

  lemma AbsorbInjective(h: Word, g: Word, c: Byte, d: Byte, signed: bool)
    requires Absorb(h, c, signed) == Absorb(g, d, signed)
    ensures h == g <==> c == d
  {
    AddInjective(h, g, Widen(c, signed), Widen(d, signed));
    assert Widen(c, signed) == Widen(d, signed) <==> c == d;
  }

  /** Rounds that absorb the same character, or start from the same word, never merge. */
  lemma RoundInjective(h: Word, g: Word, c: Byte, d: Byte, signed: bool)
    ensures Round(h, c, signed) == Round(g, d, signed) ==> (h == g <==> c == d)
  {
    hide Times, XorShift, Absorb;
    var x, y := Absorb(h, c, signed), Absorb(g, d, signed);
    if Round(h, c, signed) == Round(g, d, signed) {
      XorShiftInjective(Times(x, 1025), Times(y, 1025), 6);
      TimesInjective(x, y, 1025);
      AbsorbInjective(h, g, c, d, signed);
    }
  }

  // ---------------------------------------------------------------------
  // Collisions
  // ---------------------------------------------------------------------

  lemma {:induction false} RoundsInjective(h: Word, g: Word, key: seq<Byte>, signed: bool)
    ensures Rounds(h, key, signed) == Rounds(g, key, signed) <==> h == g
    decreases |key|
  {
    hide Round;
    if key != [] {
      var h', g' := Round(h, key[0], signed), Round(g, key[0], signed);
      RoundsInjective(h', g', key[1..], signed);
      if h' == g' {
        RoundInjective(h, g, key[0], key[0], signed);
      }
    }
  }

  lemma {:induction false} RoundsConcat(h: Word, p: seq<Byte>, s: seq<Byte>, signed: bool)
    ensures Rounds(h, p + s, signed) == Rounds(Rounds(h, p, signed), s, signed)
    decreases |p|
  {
    hide Round;
    if p == [] {
      assert p + s == s;
    } else {
      assert (p + s)[0] == p[0] && (p + s)[1..] == p[1..] + s;
      RoundsConcat(Round(h, p[0], signed), p[1..], s, signed);
    }
  }

  /** A common suffix neither makes nor breaks a collision. */
  lemma SuffixKeepsCollisions(p: seq<Byte>, q: seq<Byte>, s: seq<Byte>, signed: bool)
    ensures Hash(p + s, signed) == Hash(q + s, signed) <==> Hash(p, signed) == Hash(q, signed)
  {
    hide Rounds, Finish;
    var h, g := Rounds(0, p, signed), Rounds(0, q, signed);
    RoundsConcat(0, p, s, signed);
    RoundsConcat(0, q, s, signed);
    RoundsInjective(h, g, s, signed);
    FinishInjective(h, g);
    FinishInjective(Rounds(h, s, signed), Rounds(g, s, signed));
  }

  /** After a common prefix, one character decides: the hashes agree only if it does. */
  lemma LastByteDecides(p: seq<Byte>, c: Byte, d: Byte, signed: bool)
    ensures Hash(p + [c], signed) == Hash(p + [d], signed) <==> c == d
  {
    hide Round, Finish;
    var h := Rounds(0, p, signed);
    RoundsConcat(0, p, [c], signed);
    RoundsConcat(0, p, [d], signed);
    assert Rounds(h, [c], signed) == Round(h, c, signed);
    assert Rounds(h, [d], signed) == Round(h, d, signed);
    FinishInjective(Round(h, c, signed), Round(h, d, signed));
    if Round(h, c, signed) == Round(h, d, signed) {
      RoundInjective(h, h, c, d, signed);
    }
  }

  /** Keys of one length that differ in exactly one position never collide. */
  lemma OneByteApart(a: seq<Byte>, b: seq<Byte>, i: nat, signed: bool)
    requires |a| == |b| && i < |a| && a[i] != b[i]
    requires forall j | 0 <= j < |a| && j != i :: a[j] == b[j]
    ensures Hash(a, signed) != Hash(b, signed)
  {
    hide Hash;
    var p, s := a[..i], a[i + 1..];
    assert a == (p + [a[i]]) + s && b == (p + [b[i]]) + s;
    SuffixKeepsCollisions(p + [a[i]], p + [b[i]], s, signed);
    LastByteDecides(p, a[i], b[i], signed);
  }
}
