/**
 * The ring buffer inside the queue of lib/queue.c, as a value: message slots with a
 * read index, a write index and a count. The byte buffer and the thread protocol are
 * both tied to it.
 */
module QueueRing {

  datatype Ring<T> = Ring(slots: seq<T>, read: nat, write: nat, avail: nat) {

    /** `queue_is_empty_locked()` */
    predicate Empty() {
      avail == 0
    }

    /** `queue_is_full_locked()` */
    predicate Full() {
      avail == |slots|
    }

    /** The index after `i`, wrapping where the C code compares with `p_tail`. */
    function Next(i: nat): nat {
      if i == |slots| - 1 then 0 else i + 1
    }

    ghost predicate Inv() {
      && read < |slots| && write < |slots| && avail <= |slots|
      && write == Wrap(read + avail, |slots|)
    }

    /** The queued messages, oldest first. */
    ghost function Items(): seq<T>
      requires read < |slots| && avail <= |slots|
    {
      Window(slots, read, avail)
    }

    // The three locked updates of a send, and the two of a receive.
    function Store(x: T): Ring<T>
      requires write < |slots|
    {
      this.(slots := slots[write := x])
    }

    function AdvanceWrite(): Ring<T> {
      this.(write := Next(write))
    }

    function AdvanceRead(): Ring<T> {
      this.(read := Next(read))
    }

    function CountUp(): Ring<T> {
      this.(avail := avail + 1)
    }

    function CountDown(): Ring<T>
      requires avail > 0
    {
      this.(avail := avail - 1)
    }

    /** A whole send. */
    function Put(x: T): Ring<T>
      requires write < |slots|
    {
      Store(x).AdvanceWrite().CountUp()
    }

    /** A whole receive. */
    function Take(): Ring<T>
      requires avail > 0
    {
      AdvanceRead().CountDown()
    }
  }

  /** `k` reduced modulo `n`, for `k` less than twice `n`. */
  function Wrap(k: nat, n: nat): nat {
    if k < n then k else k - n
  }

  /** `count` slots from index `read` on, going round at the end. */
  ghost function Window<T>(slots: seq<T>, read: nat, count: nat): (w: seq<T>)
    requires read < |slots| && count <= |slots|
    ensures |w| == count
    ensures forall i | 0 <= i < count :: w[i] == slots[Wrap(read + i, |slots|)]
  {
    seq(count, i requires 0 <= i < count => slots[Wrap(read + i, |slots|)])
  }

  lemma WindowGrow<T>(slots: seq<T>, read: nat, count: nat)
    requires read < |slots| && count < |slots|
    ensures Window(slots, read, count + 1) == Window(slots, read, count) + [slots[Wrap(read + count, |slots|)]]
  {
  }

  lemma WindowShrink<T>(slots: seq<T>, read: nat, count: nat)
    requires read < |slots| && 0 < count <= |slots|
    ensures Window(slots, read, count) == [slots[read]] + Window(slots, Wrap(read + 1, |slots|), count - 1)
  {
    var rest := Window(slots, Wrap(read + 1, |slots|), count - 1);
    forall i | 1 <= i < count ensures Window(slots, read, count)[i] == rest[i - 1] {
      assert Wrap(Wrap(read + 1, |slots|) + (i - 1), |slots|) == Wrap(read + i, |slots|);
    }
  }

  /** Writing the slot just past the window leaves the window alone. */
  lemma WindowStore<T>(slots: seq<T>, read: nat, count: nat, x: T)
    requires read < |slots| && count < |slots|
    ensures Window(slots[Wrap(read + count, |slots|) := x], read, count) == Window(slots, read, count)
  {
    var slots' := slots[Wrap(read + count, |slots|) := x];
    forall i | 0 <= i < count ensures Window(slots', read, count)[i] == Window(slots, read, count)[i] {
      assert Wrap(read + i, |slots|) != Wrap(read + count, |slots|);
    }
  }

  lemma WrapIsMod(k: nat, n: nat)
    requires k < 2 * n
    ensures Wrap(k, n) == k % n
  {
    if k >= n {
      assert k == n * 1 + (k - n);
      assert k / n == 1;
    }
  }

  /**
   * The invariant in the words of the design: the write index is the read index plus the
   * count, modulo the capacity, and wrapping at the last slot is adding one modulo the
   * capacity.
   */
  lemma WriteFollowsRead<T>(r: Ring<T>)
    requires r.Inv()
    ensures r.write == (r.read + r.avail) % |r.slots|
    ensures r.Next(r.write) == (r.write + 1) % |r.slots|
    ensures r.Next(r.read) == (r.read + 1) % |r.slots|
  {
    WrapIsMod(r.read + r.avail, |r.slots|);
    WrapIsMod(r.write + 1, |r.slots|);
    WrapIsMod(r.read + 1, |r.slots|);
  }

  /** A ring is full when every slot holds a message, and empty when none does. */
  lemma FullIsNoSlotLeft<T>(r: Ring<T>)
    requires r.Inv()
    ensures r.Full() <==> |r.Items()| == |r.slots|
    ensures r.Empty() <==> r.Items() == []
    ensures |r.Items()| <= |r.slots|
  {
  }

  /** A send into a ring with a slot left appends. */
  lemma PutAppends<T>(r: Ring<T>, x: T)
    requires r.Inv() && |r.Items()| < |r.slots|
    ensures r.Put(x).Inv()
    ensures r.Put(x).Items() == r.Items() + [x]
  {
    WindowStore(r.slots, r.read, r.avail, x);
    WindowGrow(r.slots[r.write := x], r.read, r.avail);
  }

  /** A receive takes the oldest message, which is the one under the read index. */
  lemma TakeRemoves<T>(r: Ring<T>)
    requires r.Inv() && r.Items() != []
    ensures r.Take().Inv()
    ensures r.Items() == [r.slots[r.read]] + r.Take().Items()
  {
    WindowShrink(r.slots, r.read, r.avail);
  }
}
