/**
 * The Galois linear feedback shift register of lib/lfsr.c: a 16-bit register
 * whose low byte is written out before each step.
 */
module Lfsr {

  /** One step of the register: the bit shifted out decides whether `poly` is mixed in. */
  function Step(s: bv16, poly: bv16): bv16 {
    (s >> 1) ^ ((0 - (s & 1)) & poly)
  }

  /** The byte the register emits before it is stepped. */
  function Low(s: bv16): bv8 {
    (s & 0xFF) as bv8
  }

  /** The register after `k` steps from `init`. */
  function At(init: bv16, poly: bv16, k: nat): bv16 {
    if k == 0 then init else Step(At(init, poly, k - 1), poly)
  }

  /** The first `n` bytes emitted from `init`. */
  function Stream(init: bv16, poly: bv16, n: nat): (bytes: seq<bv8>)
    ensures |bytes| == n
    ensures forall i | 0 <= i < n :: bytes[i] == Low(At(init, poly, i))
  {
    seq(n, i requires 0 <= i => Low(At(init, poly, i)))
  }

  lemma AtStart(init: bv16, poly: bv16)
    ensures At(init, poly, 0) == init
  {
  }

  lemma AtNext(init: bv16, poly: bv16, k: nat)
    ensures At(init, poly, k + 1) == Step(At(init, poly, k), poly)
  {
  }

  /** The high byte, as a number. */
  function High(s: bv16): nat {
    (s >> 8) as nat
  }

  function Masked(s: bv16): nat {
    (s & 0xFF) as nat
  }

  lemma HighAndMasked(s: bv16)
    ensures s as nat == 256 * High(s) + Masked(s)
  {
  }

  lemma MaskedIsLow(s: bv16)
    ensures Masked(s) == Low(s) as nat < 256
  {
  }

  lemma Modulo(n: nat, high: nat, low: nat)
    requires n == 256 * high + low && low < 256
    ensures n % 256 == low
  {
  }

  /** The byte emitted is the register modulo 256. */
  lemma LowIsMod(s: bv16)
    ensures Low(s) as nat == s as nat % 256
  {
    HighAndMasked(s);
    MaskedIsLow(s);
    hide *;
    Modulo(s as nat, High(s), Low(s) as nat);
  }

  /** Each byte of the stream is the register reached there, modulo 256. */
  lemma StreamIsMod(init: bv16, poly: bv16, n: nat)
    ensures forall i | 0 <= i < n :: Stream(init, poly, n)[i] as nat == At(init, poly, i) as nat % 256
  {
    forall i | 0 <= i < n ensures Stream(init, poly, n)[i] as nat == At(init, poly, i) as nat % 256 {
      LowIsMod(At(init, poly, i));
    }
  }

  /** Bit 15 of the polynomial: the tap that makes the step reversible. */
  predicate Reversible(poly: bv16) {
    poly & 0x8000 != 0
  }

  /** `lfsr()`: a NULL buffer is left alone and reported as zero bytes. */
  method Fill(buf: array?<bv8>, count: nat, init: bv16, poly: bv16) returns (written: nat)
    requires buf != null ==> count <= buf.Length
    modifies buf
    ensures buf == null ==> written == 0
    ensures buf != null ==> written == count
    ensures buf != null ==> buf[..] == Stream(init, poly, count) + old(buf[count..])
    ensures buf != null ==> forall i | 0 <= i < count :: buf[i] as nat == At(init, poly, i) as nat % 256
  {
    StreamIsMod(init, poly, count);
    hide *;
    AtStart(init, poly);
    var lfsr := init;
    if buf == null {
      return 0;
    }
    var p := 0;
    while p < count
      invariant 0 <= p <= count
      invariant lfsr == At(init, poly, p)
      invariant forall i | 0 <= i < p :: buf[i] == Low(At(init, poly, i))
      invariant buf[count..] == old(buf[count..])
    {
      AtNext(init, poly, p);
      buf[p] := Low(lfsr);
      lfsr := Step(lfsr, poly);
      p := p + 1;
    }
    return count;
  }

  // ---------------------------------------------------------------------
  // Restarting and superposition
  // ---------------------------------------------------------------------

  lemma {:induction false} AtSum(init: bv16, poly: bv16, a: nat, b: nat)
    ensures At(init, poly, a + b) == At(At(init, poly, a), poly, b)
  {
    if b > 0 {
      AtSum(init, poly, a, b - 1);
    }
  }

  /** Filling `a + b` bytes is filling `a` and then `b` from the register reached. */
  lemma Restart(init: bv16, poly: bv16, a: nat, b: nat)
    ensures Stream(init, poly, a + b) == Stream(init, poly, a) + Stream(At(init, poly, a), poly, b)
  {
    hide *;
    var whole := Stream(init, poly, a + b);
    var parts := Stream(init, poly, a) + Stream(At(init, poly, a), poly, b);
    forall i | 0 <= i < a + b ensures whole[i] == parts[i] {
      if i >= a {
        AtSum(init, poly, a, i - a);
      }
    }
  }

  function Xor(s: bv16, t: bv16): bv16 {
    s ^ t
  }

  lemma StepCases(s: bv16, poly: bv16)
    ensures s & 1 == 0 ==> Step(s, poly) == s >> 1
    ensures s & 1 != 0 ==> Step(s, poly) == (s >> 1) ^ poly
  {
  }

  lemma XorParts(s: bv16, t: bv16)
    ensures (s ^ t) >> 1 == (s >> 1) ^ (t >> 1)
    ensures (s ^ t) & 1 != 0 <==> (s & 1 != 0) != (t & 1 != 0)
  {
  }

  lemma XorMoves(a: bv16, b: bv16, p: bv16)
    ensures (a ^ p) ^ (b ^ p) == a ^ b
    ensures (a ^ p) ^ b == (a ^ b) ^ p == a ^ (b ^ p)
  {
  }

  lemma StepLinear(s: bv16, t: bv16, poly: bv16)
    ensures Step(Xor(s, t), poly) == Xor(Step(s, poly), Step(t, poly))
  {
    hide Step;
    StepCases(s, poly);
    StepCases(t, poly);
    StepCases(s ^ t, poly);
    XorParts(s, t);
    XorMoves(s >> 1, t >> 1, poly);
  }

  lemma {:induction false} AtLinear(s: bv16, t: bv16, poly: bv16, k: nat)
    ensures At(Xor(s, t), poly, k) == Xor(At(s, poly, k), At(t, poly, k))
  {
    hide Step, Xor;
    if k > 0 {
      AtLinear(s, t, poly, k - 1);
      StepLinear(At(s, poly, k - 1), At(t, poly, k - 1), poly);
    }
  }

  lemma LowLinear(s: bv16, t: bv16)
    ensures Low(Xor(s, t)) == Low(s) ^ Low(t)
  {
  }

  /** The stream is linear in the initial register. */
  lemma Superposition(s: bv16, t: bv16, poly: bv16, n: nat)
    ensures forall i | 0 <= i < n ::
              Stream(Xor(s, t), poly, n)[i] == Stream(s, poly, n)[i] ^ Stream(t, poly, n)[i]
  {
    hide At, Low, Xor;
    forall i | 0 <= i < n
      ensures Low(At(Xor(s, t), poly, i)) == Low(At(s, poly, i)) ^ Low(At(t, poly, i))
    {
      AtLinear(s, t, poly, i);
      LowLinear(At(s, poly, i), At(t, poly, i));
    }
  }

  // ---------------------------------------------------------------------
  // Nine bytes determine the register
  // ---------------------------------------------------------------------

  /** Two registers agree on the bits selected by `mask`. */
  predicate Agree(s: bv16, t: bv16, mask: bv16) {
    s & mask == t & mask
  }

  lemma LowAgree(s: bv16, t: bv16)
    requires Low(s) == Low(t)
    ensures Agree(s, t, 0xFF)
  {
  }

  /** One emitted byte turns agreement on the successors into one more bit of agreement. */
  lemma AgreeBack(s: bv16, t: bv16, poly: bv16, mask: bv16)
    requires Low(s) == Low(t)
    requires Agree(Step(s, poly), Step(t, poly), mask)
    ensures Agree(s, t, (mask << 1) | 1)
  {
  }

  /** The low `8 + k` bits. */
  function Mask(k: nat): bv16 {
    if k == 0 then 0xFF else (Mask(k - 1) << 1) | 1
  }

  lemma {:induction false} BytesFixBits(s: bv16, t: bv16, poly: bv16, k: nat)
    requires forall i | 0 <= i <= k :: Low(At(s, poly, i)) == Low(At(t, poly, i))
    ensures Agree(s, t, Mask(k))
    decreases k
  {
    hide Step, Low;
    assert Low(At(s, poly, 0)) == Low(At(t, poly, 0));
    LowAgree(s, t);
    if k > 0 {
      forall i | 0 <= i <= k - 1
        ensures Low(At(Step(s, poly), poly, i)) == Low(At(Step(t, poly), poly, i))
      {
        AtSum(s, poly, 1, i);
        AtSum(t, poly, 1, i);
        assert At(s, poly, 1) == Step(s, poly) && At(t, poly, 1) == Step(t, poly);
      }
      BytesFixBits(Step(s, poly), Step(t, poly), poly, k - 1);
      AgreeBack(s, t, poly, Mask(k - 1));
    }
  }

  /** Two runs of one polynomial that agree on nine bytes are the same run. */
  lemma NineBytesDetermine(s: bv16, t: bv16, poly: bv16, n: nat)
    requires Stream(s, poly, 9) == Stream(t, poly, 9)
    ensures s == t && Stream(s, poly, n) == Stream(t, poly, n)
  {
    assert forall i | 0 <= i < 9 :: Low(At(s, poly, i)) == Stream(s, poly, 9)[i];
    BytesFixBits(s, t, poly, 8);
    assert Mask(8) == 0xFFFF by {
      assert Mask(2) == 0x3FF;
      assert Mask(4) == 0xFFF;
      assert Mask(6) == 0x3FFF;
    }
  }

  // ---------------------------------------------------------------------
  // Reversibility and the period
  // ---------------------------------------------------------------------

  /** The register before a step, for a polynomial with bit 15 set. */
  function Unstep(s: bv16, poly: bv16): bv16 {
    if s & 0x8000 != 0 then ((s ^ poly) << 1) | 1 else s << 1
  }

  lemma StepReversible(s: bv16, poly: bv16)
    requires Reversible(poly)
    ensures Unstep(Step(s, poly), poly) == s
  {
    hide Step;
    StepCases(s, poly);
    if s & 1 == 0 {
      assert (s >> 1) & 0x8000 == 0 && (s >> 1) << 1 == s;
    } else {
      assert ((s >> 1) ^ poly) & 0x8000 != 0;
      assert ((s >> 1) ^ poly) ^ poly == s >> 1;
      assert ((s >> 1) << 1) | 1 == s;
    }
  }

  lemma ShiftBack(x: bv16)
    requires x & 0x8000 == 0
    ensures (x << 1) >> 1 == x && (x << 1) & 1 == 0
    ensures ((x << 1) | 1) >> 1 == x && ((x << 1) | 1) & 1 != 0
  {
  }

  lemma UnstepReversible(s: bv16, poly: bv16)
    requires Reversible(poly)
    ensures Step(Unstep(s, poly), poly) == s
  {
    hide Step;
    StepCases(Unstep(s, poly), poly);
    if s & 0x8000 == 0 {
      ShiftBack(s);
    } else {
      assert (s ^ poly) & 0x8000 == 0;
      assert (s ^ poly) ^ poly == s;
      ShiftBack(s ^ poly);
    }
  }

  lemma StepNonZero(s: bv16, poly: bv16)
    requires Reversible(poly) && s != 0
    ensures Step(s, poly) != 0
  {
    StepReversible(s, poly);
  }

  lemma {:induction false} NeverZero(init: bv16, poly: bv16, k: nat)
    requires Reversible(poly) && init != 0
    ensures At(init, poly, k) != 0
  {
    if k > 0 {
      NeverZero(init, poly, k - 1);
      StepNonZero(At(init, poly, k - 1), poly);
    }
  }

  lemma {:induction false} Rewind(s: bv16, t: bv16, poly: bv16, k: nat)
    requires Reversible(poly) && At(s, poly, k) == At(t, poly, k)
    ensures s == t
  {
    if k > 0 {
      StepReversible(At(s, poly, k - 1), poly);
      StepReversible(At(t, poly, k - 1), poly);
      Rewind(s, t, poly, k - 1);
    }
  }

  lemma {:induction false} Pigeonhole(s: seq<nat>, n: nat)
    requires |s| > n
    requires forall i | 0 <= i < |s| :: s[i] < n
    ensures exists i, j | 0 <= i < j < |s| :: s[i] == s[j]
  {
    var first := s[0];
    if n > 0 {
      if i :| 0 <= i < |s| && s[i] == n - 1 {
        var rest := s[..i] + s[i + 1..];
        if j :| 0 <= j < |rest| && rest[j] == n - 1 {
          var j' := if j < i then j else j + 1;
          assert s[j'] == rest[j] == s[i];
        } else {
          Pigeonhole(rest, n - 1);
          var a, b :| 0 <= a < b < |rest| && rest[a] == rest[b];
          var a' := if a < i then a else a + 1;
          var b' := if b < i then b else b + 1;
          assert s[a'] == s[b'];
        }
      } else {
        Pigeonhole(s, n - 1);
      }
    }
  }

  lemma CodeInjective(s: bv16, t: bv16)
    requires s as nat == t as nat
    ensures s == t
  {
    assert s == (s as nat) as bv16;
  }

  lemma CodeRange(s: bv16)
    requires s != 0
    ensures 1 <= s as nat <= 65535
  {
    if s as nat == 0 {
      CodeInjective(s, 0);
    }
  }

  /** Among 65536 successive non-zero registers two are the same. */
  lemma Repeats(init: bv16, poly: bv16) returns (i: nat, j: nat)
    requires Reversible(poly) && init != 0
    ensures i < j < 65536 && At(init, poly, i) == At(init, poly, j)
  {
    hide *;
    forall k: nat ensures 1 <= At(init, poly, k) as nat <= 65535 {
      NeverZero(init, poly, k);
      CodeRange(At(init, poly, k));
    }
    var codes: seq<nat> := seq(65536, k requires 0 <= k => At(init, poly, k) as nat - 1);
    Pigeonhole(codes, 65535);
    i, j :| 0 <= i < j < 65536 && codes[i] == codes[j];
    CodeInjective(At(init, poly, i), At(init, poly, j));
  }

  /** The register is back where it started within 65535 steps. */
  lemma Returns(init: bv16, poly: bv16) returns (p: nat)
    requires Reversible(poly)
    ensures 1 <= p <= 65535 && At(init, poly, p) == init
  {
    if init == 0 {
      assert At(init, poly, 1) == Step(0, poly) == 0;
      return 1;
    }
    hide *;
    var i, j := Repeats(init, poly);
    p := j - i;
    AtSum(init, poly, p, i);
    Rewind(At(init, poly, p), init, poly, i);
  }

  /** The whole byte stream repeats every `p` bytes, from its first byte on. */
  ghost predicate Periodic(init: bv16, poly: bv16, p: nat) {
    forall i: nat :: Low(At(init, poly, i + p)) == Low(At(init, poly, i))
  }

  /** The stream repeats with a period no longer than the number of non-zero registers. */
  ghost predicate PurelyPeriodic(init: bv16, poly: bv16) {
    exists p: nat | 1 <= p <= 65535 :: Periodic(init, poly, p)
  }

  lemma TopTapPeriodic(init: bv16, poly: bv16)
    requires Reversible(poly)
    ensures PurelyPeriodic(init, poly)
  {
    hide Step, Low, Reversible, At;
    var p := Returns(init, poly);
    forall i: nat ensures Low(At(init, poly, i + p)) == Low(At(init, poly, i)) {
      AtSum(init, poly, p, i);
    }
    assert Periodic(init, poly, p);
  }

  lemma TopBitGone(s: bv16, poly: bv16)
    requires !Reversible(poly)
    ensures Step(s, poly) != 0x8000
  {
    StepCases(s, poly);
  }

  /** Without bit 15 the register never comes back to 0x8000, and nine bytes would show it. */
  lemma NeverPeriodic(poly: bv16, p: nat)
    requires !Reversible(poly) && p >= 1
    ensures !Periodic(0x8000, poly, p)
  {
    hide Low, Step, Reversible;
    var s: bv16 := 0x8000;
    if Periodic(s, poly, p) {
      var t := At(s, poly, p);
      forall i: nat ensures Low(At(t, poly, i)) == Low(At(s, poly, i)) {
        AtSum(s, poly, p, i);
        assert i + p == p + i;
      }
      NineBytesDetermine(s, t, poly, 0);
      TopBitGone(At(s, poly, p - 1), poly);
    }
  }

  /** Bit 15 of the polynomial is exactly what makes every stream purely periodic. */
  lemma PeriodicIffTopTap(poly: bv16)
    ensures Reversible(poly) <==> forall init: bv16 :: PurelyPeriodic(init, poly)
  {
    hide Reversible, Periodic;
    if Reversible(poly) {
      forall init: bv16 ensures PurelyPeriodic(init, poly) {
        TopTapPeriodic(init, poly);
      }
    } else {
      forall p: nat | 1 <= p ensures !Periodic(0x8000, poly, p) {
        NeverPeriodic(poly, p);
      }
      assert !PurelyPeriodic(0x8000, poly);
    }
  }
}
