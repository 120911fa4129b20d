/**
 * `struct queue_s` of lib/queue.c: the ring laid out in one block of bytes, with
 * pointers kept as offsets into the block. The methods are the calls of a single thread;
 * module QueueProtocol has the threads.
 */
module Queue {
  import opened Common
  import opened QueueRing

  /** What `queue_setup` records of the geometry: its parameters and its sum are 32 bits wide. */
  datatype Geometry = Geometry(nmemb: nat, size: nat, tail: nat)

  function Setup(nmemb: nat, size: nat): Geometry {
    var n, s := nmemb % WORD, size % WORD;
    Geometry(n, s, ((n - 1) % WORD * s) % WORD)
  }

  /** The geometry the ring needs: the caller's, with the tail on the last slot. */
  function Wanted(nmemb: nat, size: nat): Geometry
    requires nmemb > 0
  {
    Geometry(nmemb, size, (nmemb - 1) * size)
  }

  /** The arguments whose block is addressable with 32-bit offsets. */
  predicate Fits(nmemb: nat, size: nat) {
    0 < nmemb < WORD && 0 < size < WORD && (nmemb - 1) * size < WORD
  }

  /** `queue_setup` describes the block it was given exactly when the arguments fit. */
  lemma SetupExact(nmemb: nat, size: nat)
    requires nmemb > 0 && size > 0
    ensures Setup(nmemb, size) == Wanted(nmemb, size) <==> Fits(nmemb, size)
  {
    if Fits(nmemb, size) {
      assert nmemb % WORD == nmemb && size % WORD == size && (nmemb - 1) % WORD == nmemb - 1;
    }
  }

  /** Whatever the arguments, `queue_setup` records the wanted geometry modulo 2^32. */
  lemma SetupModulo(nmemb: nat, size: nat)
    requires nmemb > 0
    ensures Setup(nmemb, size).nmemb == nmemb % WORD && Setup(nmemb, size).size == size % WORD
    ensures Setup(nmemb, size).tail == (nmemb - 1) * size % WORD
  {
    assert (nmemb % WORD - 1) % WORD == (nmemb - 1) % WORD;
    ProductModulo(nmemb - 1, size);
  }

  lemma ProductModulo(a: nat, b: nat)
    ensures a % WORD * (b % WORD) % WORD == a * b % WORD
  {
    var p, q, m, s := a / WORD, b / WORD, a % WORD, b % WORD;
    SplitProduct(p, m, q, s);
    AddMultiple(m * s, p * (q * WORD + s) + m * q);
  }

  lemma SplitProduct(p: nat, m: nat, q: nat, s: nat)
    ensures (p * WORD + m) * (q * WORD + s) == m * s + (p * (q * WORD + s) + m * q) * WORD
  {
  }

  lemma AddMultiple(a: int, k: int)
    ensures (a + k * WORD) % WORD == a % WORD
  {
    assert a + k * WORD == WORD * (a / WORD + k) + a % WORD;
  }

  lemma FitsProduct(nmemb: nat, size: nat)
    requires Fits(nmemb, size)
    ensures nmemb * size < WORD * WORD
  {
    assert nmemb * size == (nmemb - 1) * size + size;
  }

  /** A block whose tail is recorded in the middle: 65538 slots of 65536 bytes. */
  lemma SetupTooLarge()
    ensures Setup(65538, 65536) == Geometry(65538, 65536, 65536)
    ensures Setup(65538, 65536) != Wanted(65538, 65536)
  {
  }

  lemma SlotInside(i: nat, n: nat, size: nat)
    requires i < n
    ensures 0 <= i * size && i * size + size <= n * size
    ensures i * size + size == (i + 1) * size
  {
    assert (i + 1) * size <= n * size;
  }

  lemma SlotsApart(i: nat, j: nat, size: nat)
    requires i < j
    ensures i * size + size <= j * size
  {
    SlotInside(i, j, size);
  }

  /** The bytes of slot `i` in a block of `n` slots. */
  ghost function Slot(bytes: seq<Byte>, n: nat, size: nat, i: nat): (slot: seq<Byte>)
    requires |bytes| == n * size && i < n
    ensures |slot| == size
  {
    SlotInside(i, n, size);
    bytes[i * size..i * size + size]
  }

  /** A block of `n * size` bytes as `n` slots. */
  ghost function Cut(bytes: seq<Byte>, n: nat, size: nat): (slots: seq<seq<Byte>>)
    requires |bytes| == n * size
    ensures |slots| == n
    ensures forall i | 0 <= i < n :: slots[i] == Slot(bytes, n, size, i)
  {
    seq(n, i requires 0 <= i < n => Slot(bytes, n, size, i))
  }

  /** Overwriting the bytes of one slot replaces that slot and no other. */
  lemma CutStore(bytes: seq<Byte>, bytes': seq<Byte>, n: nat, size: nat, w: nat)
    requires |bytes| == |bytes'| == n * size && w < n && w * size + size <= n * size
    requires forall k | 0 <= k < n * size && !(w * size <= k < w * size + size) :: bytes'[k] == bytes[k]
    ensures Cut(bytes', n, size) == Cut(bytes, n, size)[w := bytes'[w * size..w * size + size]]
  {
    var slots, slots' := Cut(bytes, n, size), Cut(bytes', n, size);
    forall i | 0 <= i < n && i != w ensures slots'[i] == slots[i] {
      SlotInside(i, n, size);
      if i < w {
        SlotsApart(i, w, size);
      } else {
        SlotsApart(w, i, size);
      }
    }
  }

  /** A slot offset equals the tail exactly at the last slot. */
  lemma TailIsLast(i: nat, n: nat, size: nat)
    requires i < n && size > 0
    ensures i * size == (n - 1) * size <==> i == n - 1
    ensures i * size + size == (i + 1) * size
  {
    if i < n - 1 {
      SlotsApart(i, n - 1, size);
    }
  }

  /** Conversion of a `size_t` to a 32-bit `int`, which keeps the low word in two's complement. */
  function Narrow(n: nat): int {
    var low := n % WORD;
    if low < WORD / 2 then low else low - WORD
  }

  /** The one number in the range of the type that differs from `n` by a multiple of 2^32. */
  lemma NarrowExact(n: nat)
    ensures -(WORD / 2) <= Narrow(n) < WORD / 2 && (n - Narrow(n)) % WORD == 0
    ensures Narrow(n) == n <==> n < WORD / 2
  {
    AddMultiple(0, n / WORD);
    AddMultiple(0, n / WORD + 1);
  }

  class Queue {
    var nmemb: nat
    var size: nat
    var avail: nat
    var buffer: array<Byte>
    var tail: nat
    var pWrite: nat
    var pRead: nat
    ghost var write: nat
    ghost var read: nat

    ghost predicate Valid()
      reads this
    {
      && nmemb > 0 && size > 0
      && buffer.Length == nmemb * size && tail == (nmemb - 1) * size
      && read < nmemb && write < nmemb && avail <= nmemb
      && pRead == read * size && pWrite == write * size
      && write == Wrap(read + avail, nmemb)
    }

    /** The ring of messages the block stands for. */
    ghost function AsRing(): (ring: Ring<seq<Byte>>)
      requires Valid()
      reads this, buffer
      ensures ring.Inv() && |ring.slots| == nmemb
    {
      Ring(Cut(buffer[..], nmemb, size), read, write, avail)
    }

    ghost function Contents(): seq<seq<Byte>>
      requires Valid()
      reads this, buffer
    {
      AsRing().Items()
    }

    /**
     * The handle `queue_setup()` fills in, over a zeroed block of the size asked for, which is
     * a 64-bit product. It is a valid queue of what was asked for exactly when the arguments fit.
     */
    constructor (nmemb: nat, size: nat)
      requires nmemb > 0 && size > 0
      ensures Geometry(this.nmemb, this.size, tail) == Setup(nmemb, size)
      ensures fresh(buffer) && buffer.Length == nmemb * size % (WORD * WORD)
      ensures Valid() && this.nmemb == nmemb && this.size == size <==> Fits(nmemb, size)
      ensures Valid() ==> Contents() == []
    {
      var g := Setup(nmemb, size);
      SetupExact(nmemb, size);
      if Fits(nmemb, size) {
        FitsProduct(nmemb, size);
      }
      this.nmemb, this.size, tail := g.nmemb, g.size, g.tail;
      avail, pWrite, pRead, write, read := 0, 0, 0, 0, 0;
      buffer := new Byte[nmemb * size % (WORD * WORD)](_ => 0);
    }

    /** `queue_create()`: NULL for a zero argument or when an allocation fails. */
    static method Create(nmemb: nat, size: nat, memory: bool) returns (q: Queue?)
      ensures q == null <==> nmemb == 0 || size == 0 || !memory
      ensures q != null ==> fresh(q) && fresh(q.buffer) && q.buffer.Length == nmemb * size % (WORD * WORD)
      ensures q != null ==> Geometry(q.nmemb, q.size, q.tail) == Setup(nmemb, size)
      ensures q != null ==> (q.Valid() && q.nmemb == nmemb && q.size == size <==> Fits(nmemb, size))
      ensures q != null && q.Valid() ==> q.Contents() == []
    {
      if nmemb == 0 || size == 0 || !memory {
        return null;
      }
      q := new Queue(nmemb, size);
    }

    /** `queue_is_empty()` */
    method IsEmpty() returns (empty: bool)
      requires Valid()
      ensures empty <==> Contents() == []
    {
      return avail == 0;
    }

    /** `queue_is_full()` */
    method IsFull() returns (full: bool)
      requires Valid()
      ensures full <==> |Contents()| == nmemb
    {
      return nmemb == avail;
    }

    /** `queue_space_available()` */
    method SpaceAvailable() returns (space: int)
      requires Valid()
      ensures -(WORD / 2) <= space < WORD / 2 && (nmemb - |Contents()| - space) % WORD == 0
      ensures |Contents()| + space == nmemb <==> nmemb - |Contents()| < WORD / 2
    {
      NarrowExact(nmemb - avail);
      return Narrow(nmemb - avail);
    }

    /** The `memcpy` into the slot under the write pointer. */
    method StoreSlot(msg: seq<Byte>)
      requires Valid() && |msg| == size
      modifies buffer
      ensures AsRing() == old(AsRing()).Store(msg)
    {
      SlotInside(write, nmemb, size);
      ghost var before := buffer[..];
      forall i | 0 <= i < size {
        buffer[pWrite + i] := msg[i];
      }
      assert buffer[pWrite..pWrite + size] == msg;
      CutStore(before, buffer[..], nmemb, size, write);
    }

    /** The `memcpy` out of the slot under the read pointer. */
    method LoadSlot() returns (msg: seq<Byte>)
      requires Valid()
      ensures |msg| == size && msg == AsRing().slots[read]
    {
      SlotInside(read, nmemb, size);
      msg := buffer[pRead..pRead + size];
    }

    /** Wrapping where the write pointer meets the tail, and counting the message. */
    method CommitWrite()
      requires Valid() && avail < nmemb
      modifies this`avail, this`pWrite, this`write
      ensures Valid()
      ensures AsRing() == old(AsRing()).AdvanceWrite().CountUp()
    {
      TailIsLast(write, nmemb, size);
      if pWrite == tail {
        pWrite := 0;
      } else {
        pWrite := pWrite + size;
      }
      write := if write == nmemb - 1 then 0 else write + 1;
      avail := avail + 1;
    }

    /** Wrapping where the read pointer meets the tail, and uncounting the message. */
    method CommitRead()
      requires Valid() && avail > 0
      modifies this`avail, this`pRead, this`read
      ensures Valid()
      ensures AsRing() == old(AsRing()).Take()
    {
      TailIsLast(read, nmemb, size);
      if pRead == tail {
        pRead := 0;
      } else {
        pRead := pRead + size;
      }
      read := if read == nmemb - 1 then 0 else read + 1;
      avail := avail - 1;
    }

    /**
     * `queue_send()` by a thread nobody else runs beside: a full queue is still full
     * when its wait ends.
     */
    method Send(msg: seq<Byte>) returns (sent: bool)
      requires Valid() && |msg| == size
      modifies this`avail, this`pWrite, this`write, buffer
      ensures Valid()
      ensures sent <==> |old(Contents())| < nmemb
      ensures AsRing() == if sent then old(AsRing()).Put(msg) else old(AsRing())
      ensures Contents() == if sent then old(Contents()) + [msg] else old(Contents())
    {
      if nmemb == avail {
        return false;
      }
      PutAppends(AsRing(), msg);
      StoreSlot(msg);
      CommitWrite();
      return true;
    }

    /** `queue_recv()` by a thread nobody else runs beside; `None` stands for the error return. */
    method Recv() returns (msg: Option<seq<Byte>>)
      requires Valid()
      modifies this`avail, this`pRead, this`read
      ensures Valid()
      ensures msg.Some? <==> old(Contents()) != []
      ensures AsRing() == if msg.Some? then old(AsRing()).Take() else old(AsRing())
      ensures if msg.Some? then old(Contents()) == [msg.value] + Contents() else Contents() == old(Contents())
    {
      if avail == 0 {
        return None;
      }
      TakeRemoves(AsRing());
      var x := LoadSlot();
      CommitRead();
      return Some(x);
    }
  }
}
