/**
 * The string dictionary of lib/dictionary.c: an array of slots with cached hashes
 * that grows by 128 slots when it is full.
 */
module DictionaryTable {
  import opened Common
  import opened Words

  type Text = seq<Byte>

  /** The table works with any function from keys to words; the object uses `dictionary_hash`. */
  type Hasher = Text -> Word

  /** A slot is empty when its key is NULL. */
  datatype Entry = Entry(hash: Word, key: Option<Text>, val: Option<Text>)

  const EMPTY := Entry(0, None, None)

  const MIN_SIZE: nat := 128

  /** The value of a `struct dictionary_s`; its `size` is the number of slots. */
  datatype Table = Table(entries: seq<Entry>, count: nat)

  // ---------------------------------------------------------------------
  // Scans
  // ---------------------------------------------------------------------

  /** First occupied slot with this hash and this key, at or after `i`. */
  function HashScan(es: seq<Entry>, key: Text, hash: Word, i: nat := 0): (r: Option<nat>)
    requires i <= |es|
    ensures r.Some? ==> i <= r.value < |es| && es[r.value].key == Some(key)
    decreases |es| - i
  {
    if i == |es| then None
    else if es[i].key.Some? && hash == es[i].hash && key == es[i].key.value then Some(i)
    else HashScan(es, key, hash, i + 1)
  }

  /** First slot with this key, at or after `i`, whatever its cached hash. */
  function KeyScan(es: seq<Entry>, key: Text, i: nat := 0): (r: Option<nat>)
    requires i <= |es|
    ensures r.Some? ==> i <= r.value < |es| && es[r.value].key == Some(key)
    ensures r.None? ==> forall j | i <= j < |es| :: es[j].key != Some(key)
    decreases |es| - i
  {
    if i == |es| then None
    else if es[i].key == Some(key) then Some(i)
    else KeyScan(es, key, i + 1)
  }

  /** First empty slot at or after `i`. */
  function EmptyScan(es: seq<Entry>, i: nat := 0): (r: Option<nat>)
    requires i <= |es|
    ensures r.Some? ==> i <= r.value < |es| && es[r.value].key.None?
    ensures r.None? ==> forall j | i <= j < |es| :: es[j].key.Some?
    decreases |es| - i
  {
    if i == |es| then None
    else if es[i].key.None? then Some(i)
    else EmptyScan(es, i + 1)
  }

  // ---------------------------------------------------------------------
  // Invariant and abstraction
  // ---------------------------------------------------------------------

  function Live(es: seq<Entry>): nat {
    if es == [] then 0 else Live(es[..|es| - 1]) + if es[|es| - 1].key.Some? then 1 else 0
  }

  ghost predicate Distinct(es: seq<Entry>) {
    forall i, j | 0 <= i < j < |es| && es[i].key.Some? :: es[i].key != es[j].key
  }

  ghost predicate Hashed(es: seq<Entry>, h: Hasher) {
    forall i | 0 <= i < |es| && es[i].key.Some? :: es[i].hash == h(es[i].key.value)
  }

  ghost predicate Inv(t: Table, h: Hasher) {
    && t.count == Live(t.entries)
    && |t.entries| % MIN_SIZE == 0
    && Distinct(t.entries)
    && Hashed(t.entries, h)
  }

  /** The finite map a table stands for. */
  ghost function Contents(es: seq<Entry>): map<Text, Option<Text>>
    requires Distinct(es)
  {
    map i | 0 <= i < |es| && es[i].key.Some? :: es[i].key.value := es[i].val
  }

  // ---------------------------------------------------------------------
  // Operations on values
  // ---------------------------------------------------------------------

  function EmptySlots(n: nat): (es: seq<Entry>)
    ensures |es| == n && forall i | 0 <= i < n :: es[i] == EMPTY
  {
    seq(n, _ => EMPTY)
  }

  /** `ALIGN(size, 0x7fu)`: a 64-bit sum under a mask that is only 32 bits wide. */
  function Align(size: nat): nat {
    ((size + 127) % 0x1_0000_0000_0000_0000 % WORD) / 128 * 128
  }

  function Max(a: int, b: int): int {
    if a < b then b else a
  }

  function Created(size: nat): Table {
    Table(EmptySlots(Align(Max(size, MIN_SIZE))), 0)
  }

  /** `dictionary_resize()`; `None` when the allocation fails. */
  function Resized(t: Table, memory: bool): Option<Table> {
    if t.count < |t.entries| then Some(t)
    else if memory then Some(t.(entries := t.entries + EmptySlots(MIN_SIZE)))
    else None
  }

  function Find(t: Table, key: Text, h: Hasher): (r: Option<nat>)
    ensures r.Some? ==> r.value < |t.entries| && t.entries[r.value].key == Some(key)
  {
    HashScan(t.entries, key, h(key))
  }

  /** `dictionary_add()`: the new table, and whether the call returned 0. */
  function Added(t: Table, key: Option<Text>, val: Option<Text>, memory: bool, h: Hasher): (Table, bool) {
    if key.None? then (t, false) else
    var k := key.value;
    match Find(t, k, h)
    case Some(i) => (t.(entries := t.entries[i := t.entries[i].(val := val)]), true)
    case None =>
      match Resized(t, memory)
      case None => (t, false)
      case Some(u) =>
        match EmptyScan(u.entries)
        case None => (u, false)
        case Some(i) =>
          (Table(u.entries[i := Entry(h(k), key, val)], u.count + 1), true)
  }

  /** `dictionary_del()`; the count of a valid table with a live key is positive. */
  function Deleted(t: Table, key: Option<Text>, h: Hasher): Table {
    if key.None? then t else
    match Find(t, key.value, h)
    case None => t
    case Some(i) => Table(t.entries[i := EMPTY], if t.count == 0 then 0 else t.count - 1)
  }

  /** `dictionary_get()` */
  function Got(t: Table, key: Option<Text>, def: Option<Text>, h: Hasher): Option<Text> {
    if key.None? then def else
    match Find(t, key.value, h)
    case None => def
    case Some(i) => t.entries[i].val
  }

  // ---------------------------------------------------------------------
  // The scans, and counting
  // ---------------------------------------------------------------------

  lemma {:induction false} ScansAgreeFrom(es: seq<Entry>, key: Text, h: Hasher, i: nat)
    requires Hashed(es, h) && i <= |es|
    ensures HashScan(es, key, h(key), i) == KeyScan(es, key, i)
    decreases |es| - i
  {
    if i < |es| {
      ScansAgreeFrom(es, key, h, i + 1);
    }
  }

  /** Filtering by the cached hash never changes which slot a key is found in. */
  lemma ScansAgree(t: Table, key: Text, h: Hasher)
    requires Inv(t, h)
    ensures Find(t, key, h) == KeyScan(t.entries, key)
    ensures Find(t, key, h).Some? <==> key in Contents(t.entries)
    ensures Find(t, key, h).Some? ==>
              Contents(t.entries)[key] == t.entries[Find(t, key, h).value].val
  {
    ScansAgreeFrom(t.entries, key, h, 0);
  }

  lemma {:induction false} LiveBound(es: seq<Entry>)
    ensures Live(es) <= |es|
    ensures Live(es) == |es| <==> forall i | 0 <= i < |es| :: es[i].key.Some?
  {
    if es != [] {
      LiveBound(es[..|es| - 1]);
    }
  }

  lemma {:induction false} LiveUpdate(es: seq<Entry>, i: nat, e: Entry)
    requires i < |es|
    ensures Live(es[i := e]) ==
            Live(es) - (if es[i].key.Some? then 1 else 0) + (if e.key.Some? then 1 else 0)
  {
    var n := |es| - 1;
    if i == n {
      assert es[i := e][..n] == es[..n];
    } else {
      assert es[i := e][..n] == es[..n][i := e];
      LiveUpdate(es[..n], i, e);
    }
  }

  lemma {:induction false} LiveGrown(es: seq<Entry>, n: nat)
    ensures Live(es + EmptySlots(n)) == Live(es)
    decreases n
  {
    if n == 0 {
      assert es + EmptySlots(0) == es;
    } else {
      var grown := es + EmptySlots(n);
      assert grown[..|grown| - 1] == es + EmptySlots(n - 1);
      LiveGrown(es, n - 1);
    }
  }

  lemma DistinctUpdate(es: seq<Entry>, i: nat, e: Entry)
    requires Distinct(es) && i < |es|
    requires forall j | 0 <= j < |es| && j != i :: e.key.None? || es[j].key != e.key
    ensures Distinct(es[i := e])
  {
  }

  /** A key other than those of slot `i` is bound as before when slot `i` changes. */
  lemma BoundElsewhere(es: seq<Entry>, i: nat, e: Entry, k: Text)
    requires i < |es| && Distinct(es) && Distinct(es[i := e])
    requires es[i].key != Some(k) && e.key != Some(k)
    ensures k in Contents(es[i := e]) <==> k in Contents(es)
    ensures k in Contents(es) ==> Contents(es[i := e])[k] == Contents(es)[k]
  {
    var es' := es[i := e];
    if k in Contents(es) {
      var j :| 0 <= j < |es| && es[j].key == Some(k);
      assert es'[j] == es[j];
    }
    if k in Contents(es') {
      var j :| 0 <= j < |es| && es'[j].key == Some(k);
      assert es'[j] == es[j];
    }
  }

  lemma BoundHere(es: seq<Entry>, i: nat)
    requires Distinct(es) && i < |es| && es[i].key.Some?
    ensures es[i].key.value in Contents(es) && Contents(es)[es[i].key.value] == es[i].val
  {
  }

  /** Setting slot `i` to a live entry binds its key, whether the slot was free or held that key. */
  lemma ContentsBind(es: seq<Entry>, i: nat, e: Entry)
    requires Distinct(es) && i < |es| && e.key.Some?
    requires es[i].key.None? ==> e.key.value !in Contents(es)
    requires es[i].key.Some? ==> es[i].key == e.key
    ensures Distinct(es[i := e])
    ensures Contents(es[i := e]) == Contents(es)[e.key.value := e.val]
  {
    forall j | 0 <= j < |es| && j != i ensures es[j].key != e.key {
      BoundUnless(es, i, j, e);
    }
    hide Contents;
    DistinctUpdate(es, i, e);
    hide Distinct;
    var k, before, after := e.key.value, Contents(es), Contents(es[i := e]);
    BoundHere(es[i := e], i);
    forall k' | k' != k
      ensures k' in after <==> k' in before
      ensures k' in before ==> after[k'] == before[k']
    {
      BoundElsewhere(es, i, e, k');
    }
  }

  /** No other slot holds the key of an entry that may go into slot `i`. */
  lemma BoundUnless(es: seq<Entry>, i: nat, j: nat, e: Entry)
    requires Distinct(es) && i < |es| && j < |es| && j != i && e.key.Some?
    requires es[i].key.None? ==> e.key.value !in Contents(es)
    requires es[i].key.Some? ==> es[i].key == e.key
    ensures es[j].key != e.key
  {
    if es[i].key.None? && es[j].key.Some? {
      BoundHere(es, j);
    }
  }

  /** Emptying a live slot removes its key. */
  lemma ContentsUnbind(es: seq<Entry>, i: nat)
    requires Distinct(es) && i < |es| && es[i].key.Some?
    ensures Distinct(es[i := EMPTY])
    ensures Contents(es[i := EMPTY]) == Contents(es) - {es[i].key.value}
  {
    DistinctUpdate(es, i, EMPTY);
    Unbound(es, i);
    hide Contents, Distinct;
    var k, before, after := es[i].key.value, Contents(es), Contents(es[i := EMPTY]);
    forall k' | k' != k
      ensures k' in after <==> k' in before
      ensures k' in before ==> after[k'] == before[k']
    {
      BoundElsewhere(es, i, EMPTY, k');
    }
  }

  lemma Unbound(es: seq<Entry>, i: nat)
    requires Distinct(es) && i < |es| && es[i].key.Some? && Distinct(es[i := EMPTY])
    ensures es[i].key.value !in Contents(es[i := EMPTY])
  {
    assert forall j | 0 <= j < |es| && j != i :: es[j].key != es[i].key;
  }

  /** Growing binds nothing. */
  lemma ContentsGrown(es: seq<Entry>, n: nat)
    requires Distinct(es)
    ensures Distinct(es + EmptySlots(n))
    ensures Contents(es + EmptySlots(n)) == Contents(es)
  {
    var es' := es + EmptySlots(n);
    assert forall i | |es| <= i < |es'| :: es'[i] == EMPTY;
    var before, after := Contents(es), Contents(es');
    forall k | k in before ensures k in after && after[k] == before[k] {
      var j :| 0 <= j < |es| && es[j].key == Some(k);
      assert es'[j] == es[j];
    }
  }

  lemma ContentsSnoc(es: seq<Entry>)
    requires Distinct(es) && es != []
    ensures var init, last := es[..|es| - 1], es[|es| - 1];
            && Distinct(init)
            && (last.key.None? ==> Contents(es) == Contents(init))
            && (last.key.Some? ==> last.key.value !in Contents(init)
                                   && Contents(es) == Contents(init)[last.key.value := last.val])
  {
    var n := |es| - 1;
    var init, last := es[..n], es[n];
    assert Distinct(init);
    ContentsGrown(init, 1);
    var grown := init + EmptySlots(1);
    assert es == grown[n := last];
    if last.key.Some? {
      assert last.key.value !in Contents(init);
      hide Contents;
      ContentsBind(grown, n, last);
    }
  }

  /** `count` is the number of keys in the map. */
  lemma {:induction false} LiveIsCardinality(es: seq<Entry>)
    requires Distinct(es)
    ensures Live(es) == |Contents(es)|
  {
    if es == [] {
      assert Contents(es) == map[];
    } else {
      hide Contents, Distinct;
      ContentsSnoc(es);
      LiveIsCardinality(es[..|es| - 1]);
    }
  }

  // ---------------------------------------------------------------------
  // Each operation refines the finite map
  // ---------------------------------------------------------------------

  lemma CreatedRefines(size: nat, h: Hasher)
    ensures Inv(Created(size), h)
    ensures Contents(Created(size).entries) == map[]
  {
    hide Align;
    var n := Align(Max(size, MIN_SIZE));
    assert n % 128 == 0 by { AlignMultiple(Max(size, MIN_SIZE)); }
    assert [] + EmptySlots(n) == EmptySlots(n);
    LiveGrown([], n);
  }

  lemma AlignMultiple(size: nat)
    ensures Align(size) % 128 == 0
  {
  }

  /** Creation rounds up to the least multiple of 128 exactly when the mask is wide enough. */
  lemma AlignExact(size: nat)
    requires MIN_SIZE <= size < 0x1_0000_0000_0000_0000
    ensures (Align(size) >= size && Align(size) - size < 128 && Align(size) % 128 == 0) <==> size + 127 < WORD
  {
  }

  /**
   * A new table has the fewest slots that are a multiple of 128, at least 128 and at least
   * the size asked for, exactly when the mask is wide enough.
   */
  lemma CreatedSize(size: nat)
    requires size < 0x1_0000_0000_0000_0000
    ensures var n := |Created(size).entries|;
            && (n % 128 == 0 && n >= 128 && n >= size <==> size + 127 < WORD)
            && (size + 127 < WORD ==> forall m: nat :: m % 128 == 0 && m >= 128 && m >= size ==> n <= m)
  {
    AlignExact(Max(size, MIN_SIZE));
    AlignMultiple(Max(size, MIN_SIZE));
  }

  /** The first size the mask cuts off: no slots at all. */
  lemma AlignTooLarge()
    ensures Align(WORD) == 0
  {
  }

  lemma ResizedRefines(t: Table, memory: bool, h: Hasher)
    requires Inv(t, h) && Resized(t, memory).Some?
    ensures var u := Resized(t, memory).value;
            && Inv(u, h) && Contents(u.entries) == Contents(t.entries)
            && u.count == t.count && EmptyScan(u.entries).Some?
            && (u == t || |u.entries| == t.count + MIN_SIZE)
  {
    hide Contents, Distinct;
    var u := Resized(t, memory).value;
    LiveGrown(t.entries, MIN_SIZE);
    ContentsGrown(t.entries, MIN_SIZE);
    LiveBound(t.entries);
    LiveBound(u.entries);
  }

  lemma AddedRefines(t: Table, key: Text, val: Option<Text>, memory: bool, h: Hasher)
    requires Inv(t, h)
    requires key in Contents(t.entries) ==> val.Some?
    ensures var (u, ok) := Added(t, Some(key), val, memory, h);
            && Inv(u, h)
            && (ok ==> Contents(u.entries) == Contents(t.entries)[key := val])
            && (!ok ==> u == t)
            && (ok <==> key in Contents(t.entries) || t.count < |t.entries| || memory)
            && (|u.entries| == |t.entries| || |u.entries| == u.count + 127)
  {
    hide Contents, Distinct, HashScan, EmptyScan, Live;
    ScansAgree(t, key, h);
    match Find(t, key, h) {
      case Some(i) =>
        var e := t.entries[i].(val := val);
        ContentsBind(t.entries, i, e);
        LiveUpdate(t.entries, i, e);
      case None =>
        if Resized(t, memory).Some? {
          ResizedRefines(t, memory, h);
          var u := Resized(t, memory).value;
          var i := EmptyScan(u.entries).value;
          var e := Entry(h(key), Some(key), val);
          ContentsBind(u.entries, i, e);
          LiveUpdate(u.entries, i, e);
        }
    }
  }

  lemma DeletedRefines(t: Table, key: Text, h: Hasher)
    requires Inv(t, h)
    ensures var u := Deleted(t, Some(key), h);
            && Inv(u, h)
            && Contents(u.entries) == Contents(t.entries) - {key}
            && |u.entries| == |t.entries|
  {
    hide Contents, Distinct, HashScan;
    ScansAgree(t, key, h);
    match Find(t, key, h) {
      case Some(i) =>
        ContentsUnbind(t.entries, i);
        LiveUpdate(t.entries, i, EMPTY);
      case None =>
    }
  }

  lemma GotRefines(t: Table, key: Text, def: Option<Text>, h: Hasher)
    requires Inv(t, h)
    ensures Got(t, Some(key), def, h) ==
            if key in Contents(t.entries) then Contents(t.entries)[key] else def
  {
    ScansAgree(t, key, h);
  }

  // ---------------------------------------------------------------------
  // Whole runs
  // ---------------------------------------------------------------------

  /** A call; `memory` says whether the allocation of a larger array would succeed. */
  datatype Op =
    | Get(key: Option<Text>, def: Option<Text>)
    | Add(key: Option<Text>, val: Option<Text>, memory: bool)
    | Del(key: Option<Text>)

  datatype Reply = Value(text: Option<Text>) | Status(ok: bool) | Done

  /** Some slot holds this key. */
  ghost predicate Holds(es: seq<Entry>, key: Text) {
    exists i :: 0 <= i < |es| && es[i].key == Some(key)
  }

  /** Refreshing a live key copies the value without testing it for NULL. */
  ghost predicate Defined(t: Table, op: Op) {
    op.Add? && op.key.Some? && op.val.None? ==> !Holds(t.entries, op.key.value)
  }

  lemma HoldsIsLive(es: seq<Entry>, key: Text)
    requires Distinct(es)
    ensures Holds(es, key) <==> key in Contents(es)
  {
  }

  function Apply(t: Table, op: Op, h: Hasher): (Table, Reply) {
    match op
    case Get(key, def) => (t, Value(Got(t, key, def, h)))
    case Add(key, val, memory) =>
      var (u, ok) := Added(t, key, val, memory, h);
      (u, Status(ok))
    case Del(key) => (Deleted(t, key, h), Done)
  }

  function After(t: Table, ops: seq<Op>, h: Hasher): Table
    decreases |ops|
  {
    if ops == [] then t else After(Apply(t, ops[0], h).0, ops[1..], h)
  }

  function Replies(t: Table, ops: seq<Op>, h: Hasher): seq<Reply>
    decreases |ops|
  {
    if ops == [] then []
    else [Apply(t, ops[0], h).1] + Replies(Apply(t, ops[0], h).0, ops[1..], h)
  }

  /** No call of the run refreshes, with a NULL value, a key that is live when the call is made. */
  ghost predicate Callable(t: Table, ops: seq<Op>, h: Hasher)
    decreases |ops|
  {
    ops == [] || (Defined(t, ops[0]) && Callable(Apply(t, ops[0], h).0, ops[1..], h))
  }

  /** The highest `count` reached at any point of a run. */
  function Peak(t: Table, ops: seq<Op>, h: Hasher): nat
    decreases |ops|
  {
    if ops == [] then t.count else Max(t.count, Peak(Apply(t, ops[0], h).0, ops[1..], h))
  }

  /** The peak is the count after some prefix of the run, and no prefix goes above it. */
  lemma {:induction false} PeakExact(t: Table, ops: seq<Op>, h: Hasher) returns (k: nat)
    ensures k <= |ops| && After(t, ops[..k], h).count == Peak(t, ops, h)
    ensures forall i | 0 <= i <= |ops| :: After(t, ops[..i], h).count <= Peak(t, ops, h)
    decreases |ops|
  {
    hide Apply;
    assert ops[..0] == [];
    if ops == [] {
      k := 0;
    } else {
      var u := Apply(t, ops[0], h).0;
      k := PeakExact(u, ops[1..], h);
      forall i | 0 < i <= |ops| ensures After(t, ops[..i], h) == After(u, ops[1..][..i - 1], h) {
        assert ops[..i][0] == ops[0] && ops[..i][1..] == ops[1..][..i - 1];
      }
      k := if Peak(t, ops, h) == t.count then 0 else k + 1;
    }
  }

  /** A key that is live in the map is not added with a NULL value. */
  predicate MapDefined(m: map<Text, Option<Text>>, op: Op) {
    op.Add? && op.key.Some? && op.val.None? ==> op.key.value !in m
  }

  /** What a plain finite map would do: a call, its reply, and the map afterwards. */
  ghost predicate MapStep(m: map<Text, Option<Text>>, op: Op, reply: Reply, m': map<Text, Option<Text>>) {
    MapDefined(m, op) &&
    match op
    case Get(key, def) =>
      m' == m && reply == Value(if key.Some? && key.value in m then m[key.value] else def)
    case Add(key, val, memory) =>
      || (key.Some? && reply == Status(true) && m' == m[key.value := val])
      || ((key.None? || (key.value !in m && !memory)) && reply == Status(false) && m' == m)
    case Del(key) =>
      reply == Done && m' == if key.Some? then m - {key.value} else m
  }

  ghost predicate MapRun(m: map<Text, Option<Text>>, ops: seq<Op>, replies: seq<Reply>, m': map<Text, Option<Text>>)
    decreases |ops|
  {
    |replies| == |ops| &&
    if ops == [] then m' == m
    else exists mid :: MapStep(m, ops[0], replies[0], mid) && MapRun(mid, ops[1..], replies[1..], m')
  }

  lemma DefinedIff(t: Table, op: Op, h: Hasher)
    requires Inv(t, h)
    ensures Defined(t, op) <==> MapDefined(Contents(t.entries), op)
  {
    if op.Add? && op.key.Some? {
      HoldsIsLive(t.entries, op.key.value);
    }
  }

  lemma ApplyRefines(t: Table, op: Op, h: Hasher)
    requires Inv(t, h) && Defined(t, op)
    ensures var (u, reply) := Apply(t, op, h);
            && Inv(u, h)
            && MapStep(Contents(t.entries), op, reply, Contents(u.entries))
            && (|u.entries| == |t.entries| || |u.entries| == u.count + 127)
  {
    DefinedIff(t, op, h);
    hide Find, Contents, Distinct, Hashed, Live, Defined;
    match op {
      case Get(key, def) =>
        if key.Some? {
          hide Got;
          GotRefines(t, key.value, def, h);
        }
      case Add(key, val, memory) =>
        if key.Some? {
          hide Added;
          AddedRefines(t, key.value, val, memory, h);
        }
      case Del(key) =>
        if key.Some? {
          hide Deleted;
          DeletedRefines(t, key.value, h);
        }
    }
  }

  /** Every run of defined calls from a valid table is a run of a finite map, reply for reply. */
  lemma {:induction false} RunRefinesFrom(t: Table, ops: seq<Op>, h: Hasher)
    requires Inv(t, h) && Callable(t, ops, h)
    ensures Inv(After(t, ops, h), h)
    ensures MapRun(Contents(t.entries), ops, Replies(t, ops, h), Contents(After(t, ops, h).entries))
    ensures |After(t, ops, h).entries| <= Max(|t.entries|, Peak(t, ops, h) + 127)
    decreases |ops|
  {
    hide Inv, Contents, Apply, MapStep, Defined;
    InvDistinct(t, h);
    if ops != [] {
      ApplyRefines(t, ops[0], h);
      RunRefinesFrom(Apply(t, ops[0], h).0, ops[1..], h);
      var replies := Replies(t, ops, h);
      assert replies[1..] == Replies(Apply(t, ops[0], h).0, ops[1..], h);
    }
  }

  lemma InvDistinct(t: Table, h: Hasher)
    requires Inv(t, h)
    ensures Distinct(t.entries)
  {
  }

  /** The same from `dictionary_create`, with the storage bounded by the highest number of keys held. */
  lemma RunRefines(size: nat, ops: seq<Op>, h: Hasher)
    requires Callable(Created(size), ops, h)
    ensures var t := After(Created(size), ops, h);
            && Inv(t, h)
            && MapRun(map[], ops, Replies(Created(size), ops, h), Contents(t.entries))
            && t.count == |Contents(t.entries)|
            && |t.entries| <= Max(|Created(size).entries|, Peak(Created(size), ops, h) + 127)
  {
    CreatedRefines(size, h);
    RunRefinesFrom(Created(size), ops, h);
    LiveIsCardinality(After(Created(size), ops, h).entries);
  }

  lemma MapStepUnique(m: map<Text, Option<Text>>, op: Op, reply: Reply,
                      m1: map<Text, Option<Text>>, m2: map<Text, Option<Text>>)
    requires MapStep(m, op, reply, m1) && MapStep(m, op, reply, m2)
    ensures m1 == m2
  {
  }

  lemma {:induction false} MapRunCallable(t: Table, ops: seq<Op>, h: Hasher, m': map<Text, Option<Text>>)
    requires Inv(t, h) && MapRun(Contents(t.entries), ops, Replies(t, ops, h), m')
    ensures Callable(t, ops, h)
    decreases |ops|
  {
    if ops != [] {
      var replies, u := Replies(t, ops, h), Apply(t, ops[0], h).0;
      var m := Contents(t.entries);
      var mid :| MapStep(m, ops[0], replies[0], mid) && MapRun(mid, ops[1..], replies[1..], m');
      assert MapDefined(m, ops[0]);
      DefinedIff(t, ops[0], h);
      ApplyRefines(t, ops[0], h);
      hide Inv, Contents, Apply, MapStep, Defined;
      MapStepUnique(m, ops[0], replies[0], mid, Contents(u.entries));
      assert replies[1..] == Replies(u, ops[1..], h);
      MapRunCallable(u, ops[1..], h, m');
    }
  }

  /** Some run of a plain finite map, from the empty one, gives these replies. */
  ghost predicate MapReplies(ops: seq<Op>, replies: seq<Reply>) {
    exists m' :: MapRun(map[], ops, replies, m')
  }

  /**
   * The replies of a run are those of some run of a finite map exactly when no call of the
   * run adds a live key with a NULL value.
   */
  lemma RunCallableIff(size: nat, ops: seq<Op>, h: Hasher)
    ensures Callable(Created(size), ops, h) <==> MapReplies(ops, Replies(Created(size), ops, h))
  {
    CreatedRefines(size, h);
    if Callable(Created(size), ops, h) {
      RunRefines(size, ops, h);
      assert MapRun(map[], ops, Replies(Created(size), ops, h), Contents(After(Created(size), ops, h).entries));
    }
    if m' :| MapRun(map[], ops, Replies(Created(size), ops, h), m') {
      MapRunCallable(Created(size), ops, h, m');
    }
  }

  /** A key just added is live, so adding it again with a NULL value is the excluded call. */
  lemma NullRefreshExcluded(t: Table, key: Text, val: Option<Text>, memory: bool, h: Hasher)
    requires Inv(t, h) && Defined(t, Add(Some(key), val, memory))
    requires Added(t, Some(key), val, memory, h).1
    ensures !Callable(t, [Add(Some(key), val, memory), Add(Some(key), None, memory)], h)
  {
    var ops := [Add(Some(key), val, memory), Add(Some(key), None, memory)];
    var u := Added(t, Some(key), val, memory, h).0;
    AddedRefines(t, key, val, memory, h);
    HoldsIsLive(u.entries, key);
    hide Added, Contents, Inv;
    assert ops[1..][0] == Add(Some(key), None, memory);
    assert !Defined(u, ops[1..][0]);
    assert !Callable(u, ops[1..], h);
  }
}

/** The dictionary object itself, updated in place. */
module Dictionary {
  import opened Common
  import opened Words
  import opened DictionaryHash
  import opened DictionaryTable

  class Dictionary {
    const signed: bool
    var count: nat
    var size: nat
    var entries: array<Entry>

    ghost predicate Valid()
      reads this, entries
    {
      size == entries.Length && Inv(Value(), Hasher())
    }

    /** `dictionary_hash()` */
    ghost function Hasher(): Hasher {
      key => Hash(key, signed)
    }

    ghost function Value(): Table
      reads this, entries
    {
      Table(entries[..], count)
    }

    ghost function Map(): map<Text, Option<Text>>
      requires Valid()
      reads this, entries
    {
      Contents(entries[..])
    }

    /** `dictionary_create()` */
    constructor (size: nat, signed: bool)
      ensures Valid() && fresh(entries) && this.signed == signed
      ensures Value() == Created(size) && Map() == map[]
    {
      var n := if size < MIN_SIZE then MIN_SIZE else size;
      n := Align(n);
      this.signed := signed;
      this.size := n;
      count := 0;
      entries := new Entry[n](_ => EMPTY);
      new;
      assert entries[..] == EmptySlots(n);
      CreatedRefines(size, Hasher());
    }

    /** `dictionary_find_idx_by_key()` */
    method FindByKey(key: Text, hash: Word) returns (idx: Option<nat>)
      requires size == entries.Length
      ensures idx == HashScan(entries[..], key, hash)
    {
      var i := 0;
      while i < size
        invariant 0 <= i <= size
        invariant HashScan(entries[..], key, hash) == HashScan(entries[..], key, hash, i)
      {
        var e := entries[i];
        if e.key.None? {
        } else if hash != e.hash {
        } else if key == e.key.value {
          return Some(i);
        }
        i := i + 1;
      }
      return None;
    }

    /** `dictionary_find_idx_by_empty()` */
    method FindByEmpty() returns (idx: Option<nat>)
      requires size == entries.Length
      ensures idx == EmptyScan(entries[..])
    {
      var i := 0;
      while i < size
        invariant 0 <= i <= size
        invariant EmptyScan(entries[..]) == EmptyScan(entries[..], i)
      {
        if entries[i].key.None? {
          return Some(i);
        }
        i := i + 1;
      }
      return None;
    }

    /** `dictionary_resize()`; `memory` says whether `calloc` succeeds. */
    method Resize(memory: bool) returns (ok: bool)
      requires size == entries.Length
      modifies this
      ensures ok == Resized(old(Value()), memory).Some?
      ensures Value() == if ok then Resized(old(Value()), memory).value else old(Value())
      ensures size == entries.Length && (entries == old(entries) || fresh(entries))
    {
      if count < size {
        return true;
      }
      if !memory {
        return false;
      }
      var larger := new Entry[size + MIN_SIZE](_ => EMPTY);
      forall i | 0 <= i < size {
        larger[i] := entries[i];
      }
      assert larger[..] == entries[..] + EmptySlots(MIN_SIZE);
      size := size + MIN_SIZE;
      entries := larger;
      return true;
    }

    /** `dictionary_get()` */
    method Get(key: Option<Text>, def: Option<Text>) returns (val: Option<Text>)
      requires Valid()
      ensures val == Got(Value(), key, def, Hasher())
      ensures val == if key.Some? && key.value in Map() then Map()[key.value] else def
    {
      hide Hash, HashScan, Contents, Distinct, Live;
      if key.None? {
        return def;
      }
      GotRefines(Value(), key.value, def, Hasher());
      var hash := ComputeHash(key, signed);
      var idx := FindByKey(key.value, hash);
      if idx.None? {
        return def;
      }
      return entries[idx.value].val;
    }

    /**
     * `dictionary_add()`. Refreshing a live key copies the value without testing it
     * for NULL, so the caller must supply one.
     */
    method Add(key: Option<Text>, val: Option<Text>, memory: bool) returns (ok: bool)
      requires Valid()
      requires key.Some? && key.value in Map() ==> val.Some?
      modifies this, entries
      ensures Valid() && (entries == old(entries) || fresh(entries))
      ensures (Value(), ok) == Added(old(Value()), key, val, memory, Hasher())
      ensures ok <==> key.Some? && (key.value in old(Map()) || old(count) < old(size) || memory)
      ensures Map() == if ok then old(Map())[key.value := val] else old(Map())
    {
      hide Hash, HashScan, EmptyScan, Contents, Distinct, Live;
      if key.None? {
        return false;
      }
      AddedRefines(Value(), key.value, val, memory, Hasher());
      ScansAgree(Value(), key.value, Hasher());
      var hash := ComputeHash(key, signed);
      var idx := FindByKey(key.value, hash);
      if idx.Some? {
        entries[idx.value] := entries[idx.value].(val := val);
        return true;
      }
      ok := Resize(memory);
      if !ok {
        return false;
      }
      idx := FindByEmpty();
      if idx.Some? {
        entries[idx.value] := Entry(hash, key, val);
        count := count + 1;
        return true;
      }
      return false;
    }

    /** `dictionary_del()` */
    method Del(key: Option<Text>)
      requires Valid()
      modifies this, entries
      ensures Valid() && entries == old(entries) && size == old(size)
      ensures Value() == Deleted(old(Value()), key, Hasher())
      ensures Map() == if key.Some? then old(Map()) - {key.value} else old(Map())
    {
      hide Hash, HashScan, Contents, Distinct;
      if key.None? {
        return;
      }
      DeletedRefines(Value(), key.value, Hasher());
      var hash := ComputeHash(key, signed);
      var idx := FindByKey(key.value, hash);
      if idx.None? {
        return;
      }
      LiveUpdate(entries[..], idx.value, EMPTY);
      entries[idx.value] := EMPTY;
      count := count - 1;
    }
  }
}
