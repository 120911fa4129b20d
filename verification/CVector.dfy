/**
 * The NULL-terminated pointer vector of lib/cvector.c: a heap block whose elements end
 * at the first NULL, wherever in the block that is. The vector that has never been
 * pushed to is the NULL pointer; as a value it is the empty block.
 */
module CVector {

  /** A pointer: NULL, or the address of some object. */
  datatype Ptr = Null | At(address: nat)

  type Block = seq<Ptr>

  /** A block a vector may point to: none at all, or one with a terminator inside. */
  predicate Terminated(b: Block) {
    b == [] || Null in b
  }

  /** The elements in front of the first NULL. */
  function Elements(b: Block): (es: seq<Ptr>)
    requires Terminated(b)
    ensures |es| <= |b|
    ensures b != [] ==> |es| < |b| && es == b[..|es|] && b[|es|] == Null
    ensures forall i | 0 <= i < |es| :: es[i] != Null && b[i] != Null
    ensures b == [] ==> es == []
  {
    if b == [] || b[0] == Null then [] else [b[0]] + Elements(b[1..])
  }

  lemma ElementsAt(b: Block, k: nat)
    requires k < |b| && b[k] == Null && forall i | 0 <= i < k :: b[i] != Null
    ensures Terminated(b) && Elements(b) == b[..k]
  {
    assert Null in b;
    assert |Elements(b)| == k;
  }

  // ---------------------------------------------------------------------
  // Operations on blocks
  // ---------------------------------------------------------------------

  /** The block `pushv` leaves: exactly as long as it has to be. */
  function Pushed(b: Block, x: Ptr): Block
    requires Terminated(b)
  {
    Elements(b) + [x, Null]
  }

  /** The block `popv` leaves: the last element is overwritten, the room stays. */
  function Popped(b: Block): Block
    requires Terminated(b)
  {
    var n := |Elements(b)|;
    if n == 0 then b else b[n - 1 := Null]
  }

  /** The block `popv_front` leaves: elements and terminator one place down, the rest as it was. */
  function Shifted(b: Block): Block
    requires Terminated(b)
  {
    var n := |Elements(b)|;
    if n == 0 then b else b[1..n + 1] + b[n..]
  }

  lemma PushedElements(b: Block, x: Ptr)
    requires Terminated(b) && x != Null
    ensures Terminated(Pushed(b, x)) && Elements(Pushed(b, x)) == Elements(b) + [x]
  {
    ElementsAt(Pushed(b, x), |Elements(b)| + 1);
  }

  lemma PoppedElements(b: Block)
    requires Terminated(b) && Elements(b) != []
    ensures Terminated(Popped(b)) && |Popped(b)| == |b|
    ensures Elements(b) == Elements(Popped(b)) + [Elements(b)[|Elements(b)| - 1]]
  {
    ElementsAt(Popped(b), |Elements(b)| - 1);
  }

  lemma ShiftIndex<T>(b: seq<T>, n: nat)
    requires 0 < n < |b|
    ensures |b[1..n + 1] + b[n..]| == |b|
    ensures forall i | 0 <= i < |b| :: (b[1..n + 1] + b[n..])[i] == if i < n then b[i + 1] else b[i]
  {
    var s := b[1..n + 1] + b[n..];
    forall i | 0 <= i < |b| ensures s[i] == if i < n then b[i + 1] else b[i] {
      if i < n {
        assert s[i] == b[1..n + 1][i];
      } else {
        assert s[i] == b[n..][i - n];
      }
    }
  }

  lemma ShiftedAt(b: Block)
    requires Terminated(b) && Elements(b) != []
    ensures |Shifted(b)| == |b|
    ensures forall i | 0 <= i < |b| :: Shifted(b)[i] == if i < |Elements(b)| then b[i + 1] else b[i]
  {
    hide Elements, Terminated;
    assert b != [];
    ShiftIndex(b, |Elements(b)|);
  }

  lemma ShiftedElements(b: Block)
    requires Terminated(b) && Elements(b) != []
    ensures Terminated(Shifted(b)) && |Shifted(b)| == |b|
    ensures Elements(b) == [Elements(b)[0]] + Elements(Shifted(b))
  {
    var s, es, n := Shifted(b), Elements(b), |Elements(b)|;
    ShiftedAt(b);
    hide Shifted, Elements, Terminated;
    assert forall i | 0 <= i < n - 1 :: s[i] == es[i + 1];
    assert s[n - 1] == Null;
    ElementsAt(s, n - 1);
    assert s[..n - 1] == es[1..];
  }

  // ---------------------------------------------------------------------
  // Whole runs
  // ---------------------------------------------------------------------

  /** A call; `memory` says whether a reallocation would succeed. */
  datatype Op = Push(x: Ptr, memory: bool) | Pop | PopFront

  /** The block after a call, and the pointer returned; a push is reported by its argument. */
  function Apply(b: Block, op: Op): (Block, Ptr)
    requires Terminated(b)
  {
    var es := Elements(b);
    match op
    case Push(x, memory) => if x == Null || !memory then (b, Null) else (Pushed(b, x), x)
    case Pop => (Popped(b), if es == [] then Null else es[|es| - 1])
    case PopFront => (Shifted(b), if es == [] then Null else es[0])
  }

  /** What a double-ended queue would do: a call, the pointer returned, and the queue afterwards. */
  predicate DequeStep(d: seq<Ptr>, op: Op, r: Ptr, d': seq<Ptr>) {
    match op
    case Push(x, memory) =>
      if x == Null || !memory then r == Null && d' == d else r == x && d' == d + [x]
    case Pop => if d == [] then r == Null && d' == d else r != Null && d == d' + [r]
    case PopFront => if d == [] then r == Null && d' == d else r != Null && d == [r] + d'
  }

  lemma ApplyRefines(b: Block, op: Op)
    requires Terminated(b)
    ensures Terminated(Apply(b, op).0)
    ensures DequeStep(Elements(b), op, Apply(b, op).1, Elements(Apply(b, op).0))
  {
    match op {
      case Push(x, memory) =>
        if x != Null {
          PushedElements(b, x);
        }
      case Pop =>
        if Elements(b) != [] {
          PoppedElements(b);
        }
      case PopFront =>
        if Elements(b) != [] {
          ShiftedElements(b);
        }
    }
  }

  /** `popv` and `popv_front` read through their argument, so the NULL vector is not theirs to take. */
  predicate Defined(b: Block, op: Op) {
    op.Push? || b != []
  }

  /** A run of defined calls: the pointers returned and the block left. */
  ghost predicate BlockRun(b: Block, ops: seq<Op>, rs: seq<Ptr>, b': Block)
    decreases |ops|
  {
    |rs| == |ops| && Terminated(b) &&
    if ops == [] then b' == b
    else
      && Defined(b, ops[0])
      && rs[0] == Apply(b, ops[0]).1 && BlockRun(Apply(b, ops[0]).0, ops[1..], rs[1..], b')
  }

  /** A call that leaves a block behind whatever the vector was. */
  predicate Allocates(op: Op) {
    op.Push? && op.x != Null && op.memory
  }

  /** Every pop comes after a push that succeeded. */
  predicate PopsAfterPush(ops: seq<Op>) {
    forall i | 0 <= i < |ops| && !ops[i].Push? :: exists j | 0 <= j < i :: Allocates(ops[j])
  }

  lemma ApplyLength(b: Block, op: Op)
    requires Terminated(b) && Defined(b, op)
    ensures Apply(b, op).0 == [] <==> b == [] && !Allocates(op)
  {
    if op.PopFront? && Elements(b) != [] {
      ShiftedAt(b);
    }
  }

  lemma PopsAfterPushNext(ops: seq<Op>)
    requires ops != []
    ensures PopsAfterPush(ops) <==>
            ops[0].Push? && (Allocates(ops[0]) || PopsAfterPush(ops[1..]))
  {
    var rest := ops[1..];
    if PopsAfterPush(ops) && !Allocates(ops[0]) {
      forall i | 0 <= i < |rest| && !rest[i].Push? ensures exists j | 0 <= j < i :: Allocates(rest[j]) {
        var j :| 0 <= j < i + 1 && Allocates(ops[j]);
        assert Allocates(rest[j - 1]);
      }
    }
    if ops[0].Push? && !Allocates(ops[0]) && PopsAfterPush(rest) {
      forall i | 0 <= i < |ops| && !ops[i].Push? ensures exists j | 0 <= j < i :: Allocates(ops[j]) {
        assert rest[i - 1] == ops[i];
        var j :| 0 <= j < i - 1 && Allocates(rest[j]);
        assert Allocates(ops[j + 1]);
      }
    }
  }

  /** The replies of the run, when it is defined throughout. */
  lemma {:induction false} RunExists(b: Block, ops: seq<Op>) returns (rs: seq<Ptr>, b': Block)
    requires Terminated(b) && (b != [] || PopsAfterPush(ops))
    ensures BlockRun(b, ops, rs, b')
    decreases |ops|
  {
    if ops == [] {
      return [], b;
    }
    PopsAfterPushNext(ops);
    ApplyRefines(b, ops[0]);
    ApplyLength(b, ops[0]);
    hide PopsAfterPush, Apply, Allocates;
    rs, b' := RunExists(Apply(b, ops[0]).0, ops[1..]);
    rs := [Apply(b, ops[0]).1] + rs;
  }

  lemma {:induction false} RunNeedsPush(b: Block, ops: seq<Op>, rs: seq<Ptr>, b': Block)
    requires BlockRun(b, ops, rs, b')
    ensures b != [] || PopsAfterPush(ops)
    decreases |ops|
  {
    if ops != [] {
      PopsAfterPushNext(ops);
      ApplyLength(b, ops[0]);
      RunNeedsPush(Apply(b, ops[0]).0, ops[1..], rs[1..], b');
    }
  }

  /** A run of calls is defined exactly when it starts on a block or pops only after a successful push. */
  lemma RunDefinedIff(b: Block, ops: seq<Op>)
    requires Terminated(b)
    ensures (exists rs, b' :: BlockRun(b, ops, rs, b')) <==> b != [] || PopsAfterPush(ops)
  {
    hide *;
    if b != [] || PopsAfterPush(ops) {
      var rs, b' := RunExists(b, ops);
    }
    forall rs, b' | BlockRun(b, ops, rs, b') ensures b != [] || PopsAfterPush(ops) {
      RunNeedsPush(b, ops, rs, b');
    }
  }

  /** Popping the NULL vector, from either end, is not defined. */
  lemma PopOfNull(rs: seq<Ptr>, b': Block)
    ensures !BlockRun([], [Pop], rs, b') && !BlockRun([], [PopFront], rs, b')
  {
  }

  ghost predicate DequeRun(d: seq<Ptr>, ops: seq<Op>, rs: seq<Ptr>, d': seq<Ptr>)
    decreases |ops|
  {
    |rs| == |ops| &&
    if ops == [] then d' == d
    else exists mid :: DequeStep(d, ops[0], rs[0], mid) && DequeRun(mid, ops[1..], rs[1..], d')
  }

  /** Every defined run of calls on a vector is a run of a double-ended queue, reply for reply. */
  lemma {:induction false} RunRefines(b: Block, ops: seq<Op>, rs: seq<Ptr>, b': Block)
    requires BlockRun(b, ops, rs, b')
    ensures Terminated(b') && DequeRun(Elements(b), ops, rs, Elements(b'))
    decreases |ops|
  {
    if ops != [] {
      ApplyRefines(b, ops[0]);
      RunRefines(Apply(b, ops[0]).0, ops[1..], rs[1..], b');
    }
  }

  // ---------------------------------------------------------------------
  // The vector in memory
  // ---------------------------------------------------------------------

  ghost function Contents(v: array?<Ptr>): Block
    reads v
  {
    if v == null then [] else v[..]
  }

  /** `countv()` */
  method Count(v: array<Ptr>) returns (n: nat)
    requires Null in v[..]
    ensures n == |Elements(v[..])|
  {
    n := 0;
    while v[n] != Null
      invariant n <= |Elements(v[..])|
      decreases v.Length - n
    {
      n := n + 1;
    }
  }

  /** `realloc()`: a new block with as much of the old contents as both sizes allow. */
  method Realloc(v: array?<Ptr>, n: nat) returns (r: array<Ptr>)
    ensures fresh(r) && r.Length == n
    ensures v != null ==> forall i | 0 <= i < n && i < v.Length :: r[i] == v[i]
  {
    r := new Ptr[n](_ => Null);
    if v != null {
      forall i | 0 <= i < n && i < v.Length {
        r[i] := v[i];
      }
    }
  }

  /** `pushv()`: NULL is refused, and so is a push without memory; the vector is then as it was. */
  method PushV(x: Ptr, v: array?<Ptr>, memory: bool) returns (r: array?<Ptr>)
    requires v != null ==> Null in v[..]
    ensures r == null <==> x == Null || !memory
    ensures r != null ==> fresh(r) && r[..] == Pushed(old(Contents(v)), x)
    ensures r != null ==> Null in r[..] && Elements(r[..]) == old(Elements(Contents(v))) + [x]
  {
    if x == Null {
      return null;
    }
    ghost var n := |Elements(Contents(v))|;
    var nptrs := 2;
    if v != null {
      var p := 0;
      while v[p] != Null
        invariant p <= n && nptrs == p + 2
        decreases v.Length - p
      {
        nptrs := nptrs + 1;
        p := p + 1;
      }
    }
    if !memory {
      return null;
    }
    r := Realloc(v, nptrs);
    r[nptrs - 2] := x;
    r[nptrs - 1] := Null;
    assert r[..n] == Elements(Contents(v));
    assert r[..] == Pushed(Contents(v), x);
    PushedElements(Contents(v), x);
  }

  /** `popv()` */
  method PopV(v: array<Ptr>) returns (x: Ptr)
    requires Null in v[..]
    modifies v
    ensures v[..] == Popped(old(v[..])) && Null in v[..]
    ensures DequeStep(old(Elements(v[..])), Pop, x, Elements(v[..]))
  {
    ApplyRefines(v[..], Pop);
    var n := Count(v);
    if n == 0 {
      return Null;
    }
    x := v[n - 1];
    v[n - 1] := Null;
  }

  /** `popv_front()` */
  method PopFrontV(v: array<Ptr>) returns (x: Ptr)
    requires Null in v[..]
    modifies v
    ensures v[..] == Shifted(old(v[..])) && Null in v[..]
    ensures DequeStep(old(Elements(v[..])), PopFront, x, Elements(v[..]))
  {
    ApplyRefines(v[..], PopFront);
    x := v[0];
    ShiftLoop(v);
  }

  /** The loop of `popv_front()`: every place up to the terminator takes the value after it. */
  method ShiftLoop(v: array<Ptr>)
    requires Null in v[..]
    modifies v
    ensures v[..] == Shifted(old(v[..]))
  {
    ghost var b, n := v[..], |Elements(v[..])|;
    if n > 0 {
      ShiftedAt(b);
    } else {
      assert Shifted(b) == b;
    }
    ghost var target := Shifted(b);
    hide *;
    var p := 0;
    while v[p] != Null
      invariant p <= n
      invariant forall i | 0 <= i < p :: v[i] == b[i + 1]
      invariant forall i | p <= i < v.Length :: v[i] == b[i]
      decreases v.Length - p
    {
      v[p] := v[p + 1];
      p := p + 1;
    }
    assert p == n;
    forall i | 0 <= i < v.Length ensures v[i] == target[i] {
    }
  }
}
