/**
 * The intrusive circular doubly linked list of includes/list.h. A list is its head node;
 * the abstract list is the sequence of nodes met from the head by following `next`.
 */
module List {

  /** `struct list_head`; a null link stands for a poisoned or uninitialised one. */
  class Node {
    var next: Node?
    var prev: Node?

    constructor ()
      ensures next == prev == null
    {
      next, prev := null, null;
    }
  }

  ghost predicate Distinct<T>(s: seq<T>) {
    forall i, j | 0 <= i < j < |s| :: s[i] != s[j]
  }

  /** No node occurs twice, and the head is none of them. */
  ghost predicate Proper(head: Node, xs: seq<Node>) {
    head !in xs && Distinct(xs)
  }

  /** Once round the list and back to the head. */
  ghost function Tour(head: Node, xs: seq<Node>): (c: seq<Node>)
    ensures |c| == |xs| + 2 && c[0] == c[|xs| + 1] == head
    ensures forall i | 0 <= i < |xs| :: c[i + 1] == xs[i]
  {
    [head] + xs + [head]
  }

  /** No node is met twice on the way round, so a node has one successor and one predecessor. */
  lemma TourDistinct(head: Node, xs: seq<Node>)
    requires Proper(head, xs)
    ensures forall i, j | 0 <= i < j <= |xs| :: Tour(head, xs)[i] != Tour(head, xs)[j]
    ensures forall i, j | 1 <= i < j <= |xs| + 1 :: Tour(head, xs)[i] != Tour(head, xs)[j]
  {
    var c := Tour(head, xs);
    assert forall i | 1 <= i <= |xs| :: c[i] == xs[i - 1] && c[i] != head;
  }

  /** Along `c` each node's `next` is the node after it, and that node's `prev` leads back. */
  ghost predicate Linked(c: seq<Node>)
    reads c
  {
    forall i | 0 <= i < |c| - 1 :: c[i].next == c[i + 1] && c[i + 1].prev == c[i]
  }

  /** `head` is the head of a well-formed list of exactly the nodes `xs`. */
  ghost predicate Ring(head: Node, xs: seq<Node>)
    reads head, xs
  {
    Proper(head, xs) && Linked(Tour(head, xs))
  }

  function Insert<T>(s: seq<T>, k: nat, x: T): seq<T>
    requires k <= |s|
  {
    s[..k] + [x] + s[k..]
  }

  function Remove<T>(s: seq<T>, k: nat): seq<T>
    requires k < |s|
  {
    s[..k] + s[k + 1..]
  }

  function Reverse<T>(s: seq<T>): (r: seq<T>)
    ensures |r| == |s|
    ensures forall i | 0 <= i < |s| :: r[i] == s[|s| - 1 - i]
  {
    seq(|s|, i requires 0 <= i < |s| => s[|s| - 1 - i])
  }

  /** `INIT_LIST_HEAD` */
  method InitListHead(head: Node)
    modifies head
    ensures Ring(head, [])
  {
    head.next := head;
    head.prev := head;
  }

  /** All links along `c` but the one at `k` are as they should be. */
  ghost predicate LinkedBut(c: seq<Node>, k: int)
    reads c
  {
    forall i | 0 <= i < |c| - 1 && i != k :: c[i].next == c[i + 1] && c[i + 1].prev == c[i]
  }

  lemma DistinctInsert<T>(s: seq<T>, k: nat, x: T)
    requires k <= |s| && Distinct(s) && x !in s
    ensures Distinct(Insert(s, k, x))
  {
    var t := Insert(s, k, x);
    forall i, j | 0 <= i < j < |t| ensures t[i] != t[j] {
      assert i < k ==> t[i] == s[i];
      assert j > k ==> t[j] == s[j - 1];
    }
  }

  lemma DistinctRemove<T>(s: seq<T>, k: nat)
    requires k < |s| && Distinct(s)
    ensures Distinct(Remove(s, k)) && s[k] !in Remove(s, k)
  {
    var t := Remove(s, k);
    forall i | 0 <= i < |t| ensures t[i] == s[if i < k then i else i + 1] {
    }
  }

  lemma RoundInsert<T>(h: T, s: seq<T>, k: nat, x: T)
    requires k <= |s|
    ensures [h] + Insert(s, k, x) + [h] == Insert([h] + s + [h], k + 1, x)
  {
    var c := [h] + s + [h];
    assert c[..k + 1] == [h] + s[..k];
    assert c[k + 1..] == s[k..] + [h];
  }

  lemma RoundRemove<T>(h: T, s: seq<T>, k: nat)
    requires k < |s|
    ensures [h] + Remove(s, k) + [h] == Remove([h] + s + [h], k + 1)
  {
    var c := [h] + s + [h];
    assert c[..k + 1] == [h] + s[..k];
    assert c[k + 2..] == s[k + 1..] + [h];
  }

  lemma TourInsert(head: Node, xs: seq<Node>, k: nat, x: Node)
    requires k <= |xs| && Proper(head, xs) && x != head && x !in xs
    ensures Tour(head, Insert(xs, k, x)) == Insert(Tour(head, xs), k + 1, x)
    ensures Proper(head, Insert(xs, k, x))
  {
    DistinctInsert(xs, k, x);
    assert head !in Insert(xs, k, x);
    hide Distinct;
    RoundInsert(head, xs, k, x);
  }

  lemma TourRemove(head: Node, xs: seq<Node>, k: nat)
    requires k < |xs| && Proper(head, xs)
    ensures Tour(head, Remove(xs, k)) == Remove(Tour(head, xs), k + 1)
    ensures Proper(head, Remove(xs, k))
    ensures xs[k] != head && xs[k] !in Remove(xs, k)
  {
    DistinctRemove(xs, k);
    assert head !in Remove(xs, k);
    hide Distinct;
    RoundRemove(head, xs, k);
  }

  lemma LinkedInsert(c: seq<Node>, k: nat, x: Node)
    requires k + 1 < |c| && LinkedBut(c, k)
    requires c[k].next == x && x.prev == c[k] && x.next == c[k + 1] && c[k + 1].prev == x
    ensures Linked(Insert(c, k + 1, x))
  {
    var c' := Insert(c, k + 1, x);
    forall i | 0 <= i < |c'| - 1 ensures c'[i].next == c'[i + 1] && c'[i + 1].prev == c'[i] {
      if i < k {
        assert c[i].next == c[i + 1];
      } else if i > k + 1 {
        assert c[i - 1].next == c[i];
      }
    }
  }

  lemma LinkedRemove(c: seq<Node>, k: nat)
    requires k + 2 < |c|
    requires forall i | 0 <= i < |c| - 1 && i != k && i != k + 1 :: c[i].next == c[i + 1] && c[i + 1].prev == c[i]
    requires c[k].next == c[k + 2] && c[k + 2].prev == c[k]
    ensures Linked(Remove(c, k + 1))
  {
    var c' := Remove(c, k + 1);
    forall i | 0 <= i < |c'| - 1 ensures c'[i].next == c'[i + 1] && c'[i + 1].prev == c'[i] {
      if i < k {
        assert c[i].next == c[i + 1];
      } else if i > k {
        assert c[i + 1].next == c[i + 2];
      }
    }
  }

  /** `__list_add()`: into the gap `k` of a list, between two nodes known to be neighbours. */
  method AddBetween(entry: Node, prev: Node, next: Node, ghost head: Node, ghost xs: seq<Node>, ghost k: nat)
    requires Ring(head, xs) && entry != head && entry !in xs
    requires k <= |xs| && prev == Tour(head, xs)[k] && next == Tour(head, xs)[k + 1]
    modifies entry, prev`next, next`prev
    ensures Ring(head, Insert(xs, k, entry))
  {
    TourDistinct(head, xs);
    TourInsert(head, xs, k, entry);
    ghost var c := Tour(head, xs);
    assert forall i | 0 <= i < |c| :: c[i] != entry;
    assert Linked(c);
    hide Distinct, Insert, Tour;
    next.prev := entry;
    entry.next := next;
    entry.prev := prev;
    prev.next := entry;
    forall i | 0 <= i < |c| - 1 && i != k ensures c[i].next == c[i + 1] && c[i + 1].prev == c[i] {
      assert c[i] != prev && c[i + 1] != next;
    }
    hide Linked;
    LinkedInsert(c, k, entry);
  }

  /** `list_add()`: right after the head. */
  method Add(entry: Node, head: Node, ghost xs: seq<Node>)
    requires Ring(head, xs) && entry != head && entry !in xs
    modifies entry, head, Tour(head, xs)[1]
    ensures Ring(head, [entry] + xs)
  {
    assert Tour(head, xs)[0].next == Tour(head, xs)[1];
    AddBetween(entry, head, head.next, head, xs, 0);
    assert Insert(xs, 0, entry) == [entry] + xs;
  }

  /** `list_add_tail()`: right before the head. */
  method AddTail(entry: Node, head: Node, ghost xs: seq<Node>)
    requires Ring(head, xs) && entry != head && entry !in xs
    modifies entry, head, Tour(head, xs)[|xs|]
    ensures Ring(head, xs + [entry])
  {
    assert Tour(head, xs)[|xs|].next == Tour(head, xs)[|xs| + 1];
    AddBetween(entry, head.prev, head, head, xs, |xs|);
    assert Insert(xs, |xs|, entry) == xs + [entry];
  }

  /** `__list_del()`: the neighbours of node `k` are joined; the node itself keeps its links. */
  method Unlink(prev: Node, next: Node, ghost head: Node, ghost xs: seq<Node>, ghost k: nat)
    requires Ring(head, xs)
    requires k < |xs| && prev == Tour(head, xs)[k] && next == Tour(head, xs)[k + 2]
    modifies prev`next, next`prev
    ensures Ring(head, Remove(xs, k))
  {
    TourDistinct(head, xs);
    TourRemove(head, xs, k);
    ghost var c := Tour(head, xs);
    hide Distinct, Remove, Tour;
    next.prev := prev;
    prev.next := next;
    LinkedRemove(c, k);
  }

  /** The links of node `k` name its neighbours. */
  lemma Neighbours(head: Node, xs: seq<Node>, k: nat)
    requires Ring(head, xs) && k < |xs|
    ensures xs[k].prev == Tour(head, xs)[k] && xs[k].next == Tour(head, xs)[k + 2]
    ensures xs[k] != head && xs[k] !in Remove(xs, k)
  {
    var c := Tour(head, xs);
    assert c[k].next == c[k + 1] && c[k + 1].next == c[k + 2];
    TourRemove(head, xs, k);
  }

  /** `list_del()`: the entry is left poisoned. */
  method Del(entry: Node, ghost head: Node, ghost xs: seq<Node>, ghost k: nat)
    requires Ring(head, xs) && k < |xs| && entry == xs[k]
    modifies entry, Tour(head, xs)[k], Tour(head, xs)[k + 2]
    ensures Ring(head, Remove(xs, k))
    ensures entry.next == entry.prev == null
  {
    Neighbours(head, xs, k);
    Unlink(entry.prev, entry.next, head, xs, k);
    entry.next := null;
    entry.prev := null;
  }

  /** `list_del_init()`: the entry is left an empty list of its own. */
  method DelInit(entry: Node, ghost head: Node, ghost xs: seq<Node>, ghost k: nat)
    requires Ring(head, xs) && k < |xs| && entry == xs[k]
    modifies entry, Tour(head, xs)[k], Tour(head, xs)[k + 2]
    ensures Ring(head, Remove(xs, k)) && Ring(entry, [])
  {
    Neighbours(head, xs, k);
    hide Ring, Tour, Distinct, Linked, Proper;
    Unlink(entry.prev, entry.next, head, xs, k);
    assert forall i | 0 <= i < |Remove(xs, k)| :: Remove(xs, k)[i] != entry;
    InitListHead(entry);
  }

  /** Two lists that share no node. */
  ghost predicate Apart(head: Node, xs: seq<Node>, to: Node, ys: seq<Node>) {
    head != to && head !in ys && to !in xs && forall y | y in ys :: y !in xs
  }

  /** The target of a move is the entry's own list, or one that shares no node with it. */
  ghost predicate SameOrApart(head: Node, xs: seq<Node>, to: Node, ys: seq<Node>) {
    (to == head && ys == xs) || Apart(head, xs, to, ys)
  }

  lemma ApartRemove(head: Node, xs: seq<Node>, k: nat, to: Node, ys: seq<Node>)
    requires k < |xs| && Apart(head, xs, to, ys)
    ensures Apart(head, Remove(xs, k), to, ys)
    ensures xs[k] != to && xs[k] !in ys
  {
    assert forall x | x in Remove(xs, k) :: x in xs;
  }

  lemma TourMember(head: Node, xs: seq<Node>, i: nat)
    requires i < |xs| + 2
    ensures Tour(head, xs)[i] == head || Tour(head, xs)[i] in xs
  {
    assert 0 < i <= |xs| ==> Tour(head, xs)[i] == xs[i - 1];
  }

  /** The first half of a move: the entry leaves its list, and a list apart from it does not notice. */
  method Detach(entry: Node, ghost head: Node, ghost xs: seq<Node>, ghost k: nat, ghost to: Node, ghost ys: seq<Node>)
    requires Ring(head, xs) && k < |xs| && entry == xs[k]
    requires Ring(to, ys) && SameOrApart(head, xs, to, ys)
    modifies Tour(head, xs)[k], Tour(head, xs)[k + 2]
    ensures Ring(head, Remove(xs, k)) && entry != head && entry !in Remove(xs, k)
    ensures to != head ==> Ring(to, ys) && entry != to && entry !in ys
  {
    Neighbours(head, xs, k);
    TourMember(head, xs, k);
    TourMember(head, xs, k + 2);
    if to != head {
      ApartRemove(head, xs, k, to, ys);
    }
    hide Distinct, Linked, Tour, Remove;
    Unlink(entry.prev, entry.next, head, xs, k);
  }

  /** The list an entry joins once it has left its own. */
  ghost function Target(head: Node, xs: seq<Node>, k: nat, to: Node, ys: seq<Node>): seq<Node>
    requires k < |xs|
  {
    if to == head then Remove(xs, k) else ys
  }

  /** The neighbour an entry joins belongs to the target list, so not to another source list. */
  lemma MoveFootprint(head: Node, xs: seq<Node>, k: nat, to: Node, ys: seq<Node>, i: nat)
    requires k < |xs| && SameOrApart(head, xs, to, ys) && i < |Target(head, xs, k, to, ys)| + 2
    ensures Target(head, xs, k, to, ys) == if to == head then Remove(xs, k) else ys
    ensures to != head ==> to !in Remove(xs, k)
    ensures var next := Tour(to, Target(head, xs, k, to, ys))[i];
            to != head ==> next != head && next !in Remove(xs, k)
  {
    TourMember(to, Target(head, xs, k, to, ys), i);
    hide Tour;
    if to != head {
      ApartRemove(head, xs, k, to, ys);
    }
  }

  /** `list_add()` into a list, beside another list that shares no node with what it changes. */
  method AddBeside(entry: Node, to: Node, ghost zs: seq<Node>, ghost head: Node, ghost rest: seq<Node>)
    requires Ring(to, zs) && entry != to && entry !in zs
    requires to != head ==> Ring(head, rest) && entry != head && entry !in rest && to !in rest
    requires to != head ==> Tour(to, zs)[1] != head && Tour(to, zs)[1] !in rest
    modifies entry, to, Tour(to, zs)[1]
    ensures Ring(to, [entry] + zs)
    ensures to != head ==> Ring(head, rest)
  {
    hide *;
    Add(entry, to, zs);
  }

  /** `list_move()`: to the front of its own list or of another one. */
  method Move(entry: Node, to: Node, ghost head: Node, ghost xs: seq<Node>, ghost k: nat, ghost ys: seq<Node>)
    requires Ring(head, xs) && k < |xs| && entry == xs[k]
    requires Ring(to, ys) && SameOrApart(head, xs, to, ys)
    modifies entry, Tour(head, xs)[k], Tour(head, xs)[k + 2], to
    modifies Tour(to, Target(head, xs, k, to, ys))[1]
    ensures to == head ==> Ring(head, [entry] + Remove(xs, k))
    ensures to != head ==> Ring(head, Remove(xs, k)) && Ring(to, [entry] + ys)
  {
    ghost var zs := Target(head, xs, k, to, ys);
    MoveFootprint(head, xs, k, to, ys, 1);
    hide *;
    Detach(entry, head, xs, k, to, ys);
    AddBeside(entry, to, zs, head, Remove(xs, k));
  }

  /** `list_add_tail()` into a list, beside another list that shares no node with what it changes. */
  method AddTailBeside(entry: Node, to: Node, ghost zs: seq<Node>, ghost head: Node, ghost rest: seq<Node>)
    requires Ring(to, zs) && entry != to && entry !in zs
    requires to != head ==> Ring(head, rest) && entry != head && entry !in rest && to !in rest
    requires to != head ==> Tour(to, zs)[|zs|] != head && Tour(to, zs)[|zs|] !in rest
    modifies entry, to, Tour(to, zs)[|zs|]
    ensures Ring(to, zs + [entry])
    ensures to != head ==> Ring(head, rest)
  {
    hide *;
    AddTail(entry, to, zs);
  }

  /** `list_move_tail()`: to the back. */
  method MoveTail(entry: Node, to: Node, ghost head: Node, ghost xs: seq<Node>, ghost k: nat, ghost ys: seq<Node>)
    requires Ring(head, xs) && k < |xs| && entry == xs[k]
    requires Ring(to, ys) && SameOrApart(head, xs, to, ys)
    modifies entry, Tour(head, xs)[k], Tour(head, xs)[k + 2], to
    modifies Tour(to, Target(head, xs, k, to, ys))[|Target(head, xs, k, to, ys)|]
    ensures to == head ==> Ring(head, Remove(xs, k) + [entry])
    ensures to != head ==> Ring(head, Remove(xs, k)) && Ring(to, ys + [entry])
  {
    ghost var zs := Target(head, xs, k, to, ys);
    MoveFootprint(head, xs, k, to, ys, |zs|);
    hide *;
    Detach(entry, head, xs, k, to, ys);
    AddTailBeside(entry, to, zs, head, Remove(xs, k));
  }

  /** `list_empty()` */
  method Empty(head: Node, ghost xs: seq<Node>) returns (empty: bool)
    requires Ring(head, xs)
    ensures empty <==> xs == []
  {
    assert Tour(head, xs)[0].next == Tour(head, xs)[1];
    empty := head.next == head;
  }

  /** `list_for_each`, with a body that only records the position. */
  method ForEach(head: Node, ghost xs: seq<Node>) returns (visited: seq<Node>)
    requires Ring(head, xs)
    ensures visited == xs
  {
    ghost var c := Tour(head, xs);
    assert c[0].next == c[1];
    visited := [];
    var pos := head.next;
    while pos != head
      invariant |visited| <= |xs| && visited == xs[..|visited|]
      invariant pos == c[|visited| + 1]
      decreases |xs| - |visited|
    {
      assert c[|visited| + 1].next == c[|visited| + 2];
      visited := visited + [pos];
      pos := pos.next;
    }
    TourDistinct(head, xs);
  }

  /** Where the backward walk is after `k` nodes. */
  ghost function Behind(head: Node, xs: seq<Node>, k: nat): Node
    requires k <= |xs|
  {
    Tour(head, xs)[|xs| - k]
  }

  lemma BehindStep(head: Node, xs: seq<Node>, k: nat)
    requires Ring(head, xs) && k <= |xs|
    ensures Behind(head, xs, k) == head <==> k == |xs|
    ensures k < |xs| ==> Behind(head, xs, k).prev == Behind(head, xs, k + 1)
    ensures k < |xs| ==> Reverse(xs)[..k + 1] == Reverse(xs)[..k] + [Behind(head, xs, k)]
  {
    var c := Tour(head, xs);
    if k < |xs| {
      assert c[|xs| - k] == xs[|xs| - k - 1];
      assert c[|xs| - k - 1].next == c[|xs| - k];
    }
  }

  lemma BehindStart(head: Node, xs: seq<Node>)
    requires Ring(head, xs)
    ensures head.prev == Behind(head, xs, 0)
    ensures Reverse(xs)[..0] == [] && Reverse(xs)[..|xs|] == Reverse(xs)
  {
    assert Tour(head, xs)[|xs|].next == head;
  }

  /** The backward walk over the same list, by `prev`. */
  method ForEachReverse(head: Node, ghost xs: seq<Node>) returns (visited: seq<Node>)
    requires Ring(head, xs)
    ensures visited == Reverse(xs)
  {
    hide Ring, Behind, Reverse;
    BehindStart(head, xs);
    BehindStep(head, xs, 0);
    visited := [];
    var pos := head.prev;
    while pos != head
      invariant |visited| <= |xs| && visited == Reverse(xs)[..|visited|]
      invariant pos == Behind(head, xs, |visited|)
      invariant pos == head <==> |visited| == |xs|
      decreases |xs| - |visited|
    {
      BehindStep(head, xs, |visited|);
      visited := visited + [pos];
      pos := pos.prev;
      BehindStep(head, xs, |visited|);
    }
  }

  // ---------------------------------------------------------------------
  // Deleting while walking
  // ---------------------------------------------------------------------

  /** The nodes that are not chosen, in order. */
  ghost function Keep(s: seq<Node>, chosen: set<Node>): seq<Node> {
    if s == [] then []
    else Keep(s[..|s| - 1], chosen) + if s[|s| - 1] in chosen then [] else [s[|s| - 1]]
  }

  /** Exactly the nodes that are not chosen are kept. */
  lemma {:induction false} KeepHolds(s: seq<Node>, chosen: set<Node>, x: Node)
    ensures x in Keep(s, chosen) <==> x in s && x !in chosen
  {
    if s != [] {
      KeepHolds(s[..|s| - 1], chosen, x);
    }
  }

  lemma KeepNext(s: seq<Node>, chosen: set<Node>, i: nat)
    requires i < |s|
    ensures Keep(s[..i + 1], chosen) == Keep(s[..i], chosen) + if s[i] in chosen then [] else [s[i]]
  {
    assert s[..i + 1][..i] == s[..i];
  }

  /** The list half way through: what is kept of the part walked, and the rest. */
  ghost function Walked(xs: seq<Node>, chosen: set<Node>, i: nat): seq<Node>
    requires i <= |xs|
  {
    Keep(xs[..i], chosen) + xs[i..]
  }

  lemma WalkedEnds(xs: seq<Node>, chosen: set<Node>)
    ensures Walked(xs, chosen, 0) == xs
    ensures Walked(xs, chosen, |xs|) == Keep(xs, chosen)
  {
    assert xs[..|xs|] == xs;
  }

  lemma WalkedNext(xs: seq<Node>, chosen: set<Node>, i: nat)
    requires i < |xs|
    ensures var cur, k := Walked(xs, chosen, i), |Keep(xs[..i], chosen)|;
            && k < |cur| && cur[k] == xs[i]
            && Walked(xs, chosen, i + 1) == (if xs[i] in chosen then Remove(cur, k) else cur)
            && |Keep(xs[..i + 1], chosen)| == (if xs[i] in chosen then k else k + 1)
  {
    KeepNext(xs, chosen, i);
    hide Keep;
    var kept := Keep(xs[..i], chosen);
    assert xs[i..] == [xs[i]] + xs[i + 1..];
    Middle(kept, xs[i], xs[i + 1..]);
  }

  lemma Middle<T>(s: seq<T>, x: T, t: seq<T>)
    ensures (s + ([x] + t))[|s|] == x
    ensures Remove(s + ([x] + t), |s|) == s + t
    ensures s + ([x] + t) == (s + [x]) + t
  {
  }

  lemma {:induction false} KeepWithin(s: seq<Node>, chosen: set<Node>)
    ensures forall x | x in Keep(s, chosen) :: x in s
  {
    if s != [] {
      KeepWithin(s[..|s| - 1], chosen);
    }
  }

  lemma WalkedWithin(xs: seq<Node>, chosen: set<Node>, i: nat)
    requires i <= |xs|
    ensures forall x | x in Walked(xs, chosen, i) :: x in xs
    ensures forall j | 0 <= j < |Walked(xs, chosen, i)| :: Walked(xs, chosen, i)[j] in xs
  {
    KeepWithin(xs[..i], chosen);
  }

  /** The list after the first `i` nodes have been visited. */
  ghost predicate HalfWay(head: Node, xs: seq<Node>, chosen: set<Node>, i: nat)
    reads head, xs
  {
    i <= |xs| && (WalkedWithin(xs, chosen, i); Ring(head, Walked(xs, chosen, i)))
  }

  /** The cursor stands on original node `i`, or on the head at the end. */
  ghost predicate Cursor(pos: Node, head: Node, xs: seq<Node>, chosen: set<Node>, i: nat)
    reads head, xs
  {
    HalfWay(head, xs, chosen, i) && i <= |xs| && pos == Tour(head, xs)[i + 1]
  }

  /** From any point of the walk the next node is the next original one, and the head ends it. */
  lemma CursorLinks(pos: Node, head: Node, xs: seq<Node>, chosen: set<Node>, i: nat)
    requires Cursor(pos, head, xs, chosen, i)
    ensures HalfWay(head, xs, chosen, i)
    ensures pos == head <==> i == |xs|
    ensures i < |xs| ==> pos == xs[i] && pos.next == Tour(head, xs)[i + 2]
  {
    var cur, k := Walked(xs, chosen, i), |Keep(xs[..i], chosen)|;
    var c := Tour(head, cur);
    if i < |xs| {
      assert cur[k] == xs[i];
      assert c[k + 1] == xs[i] && c[k + 1].next == c[k + 2];
      assert c[k + 2] == Tour(head, xs)[i + 2];
    }
  }

  /** The body of the walk: the node under the cursor is deleted if it is chosen. */
  method DeleteChosen(pos: Node, head: Node, chosen: set<Node>, ghost xs: seq<Node>, ghost i: nat)
    requires HalfWay(head, xs, chosen, i) && i < |xs| && pos == xs[i]
    modifies head, xs
    ensures HalfWay(head, xs, chosen, i + 1)
  {
    WalkedNext(xs, chosen, i);
    WalkedWithin(xs, chosen, i);
    ghost var cur, k := Walked(xs, chosen, i), |Keep(xs[..i], chosen)|;
    TourMember(head, cur, k);
    TourMember(head, cur, k + 2);
    hide Distinct, Linked, Tour, Keep, Walked;
    if pos in chosen {
      Del(pos, head, cur, k);
    }
  }

  /** One turn of the walk: the body, then on to the node saved before it. */
  method Turn(pos: Node, n: Node, head: Node, chosen: set<Node>, ghost xs: seq<Node>, ghost i: nat) returns (pos': Node)
    requires Cursor(pos, head, xs, chosen, i) && pos != head && n == pos.next
    modifies head, xs
    ensures i < |xs| && pos == xs[i] && Cursor(pos', head, xs, chosen, i + 1)
  {
    CursorLinks(pos, head, xs, chosen, i);
    hide HalfWay, Tour;
    DeleteChosen(pos, head, chosen, xs, i);
    pos' := n;
  }

  lemma HalfWayEnds(head: Node, xs: seq<Node>, chosen: set<Node>)
    ensures HalfWay(head, xs, chosen, 0) <==> Ring(head, xs)
    ensures HalfWay(head, xs, chosen, |xs|) <==> Ring(head, Keep(xs, chosen))
  {
    WalkedEnds(xs, chosen);
  }

  lemma PrefixNext<T>(s: seq<T>, i: nat)
    requires i < |s|
    ensures s[..i + 1] == s[..i] + [s[i]]
  {
  }

  lemma PrefixWhole<T>(s: seq<T>)
    ensures s[..0] == [] && s[..|s|] == s
  {
  }

  lemma CursorStart(head: Node, xs: seq<Node>, chosen: set<Node>)
    requires Ring(head, xs)
    ensures head.next != null && Cursor(head.next, head, xs, chosen, 0)
  {
    HalfWayEnds(head, xs, chosen);
    assert Tour(head, xs)[0].next == Tour(head, xs)[1];
  }

  /**
   * `list_for_each_safe`, with a body that deletes the chosen nodes: every original node
   * is visited once, in order, and exactly the others stay.
   */
  method ForEachSafe(head: Node, chosen: set<Node>, ghost xs: seq<Node>) returns (visited: seq<Node>)
    requires Ring(head, xs)
    modifies head, xs
    ensures visited == xs
    ensures Ring(head, Keep(xs, chosen))
  {
    hide *;
    CursorStart(head, xs, chosen);
    PrefixWhole(xs);
    ghost var i := 0;
    visited := [];
    var pos: Node := head.next;
    while pos != head
      invariant Cursor(pos, head, xs, chosen, i)
      invariant i <= |xs| && visited == xs[..i]
      decreases |xs| - i
    {
      var n := pos.next;
      CursorLinks(pos, head, xs, chosen, i);
      PrefixNext(xs, i);
      visited := visited + [pos];
      pos := Turn(pos, n, head, chosen, xs, i);
      i := i + 1;
    }
    CursorLinks(pos, head, xs, chosen, i);
    HalfWayEnds(head, xs, chosen);
  }

  // ---------------------------------------------------------------------
  // Splicing
  // ---------------------------------------------------------------------

  lemma SpliceProper(list: Node, xs: seq<Node>, head: Node, ys: seq<Node>)
    requires Proper(list, xs) && Proper(head, ys) && Apart(list, xs, head, ys)
    ensures Proper(head, xs + ys) && list != head && list !in xs + ys
  {
    var s := xs + ys;
    forall i, j | 0 <= i < j < |s| ensures s[i] != s[j] {
      assert i < |xs| <= j ==> s[j] == ys[j - |xs|] && s[j] in ys;
    }
  }

  /** Links along the inside of a tour, from place `from` on, up to place `to`. */
  ghost predicate Inside(c: seq<Node>, from: nat, to: nat)
    requires to < |c|
    reads c
  {
    forall i | from <= i < to :: c[i].next == c[i + 1] && c[i + 1].prev == c[i]
  }

  /** The links of a spliced list: those inside each part, and the two seams. */
  lemma LinkedSpliced(c: seq<Node>, p: seq<Node>, q: seq<Node>, n: nat)
    requires 0 < n < |p| && |c| == n + |q| && |q| >= 2
    requires c[0] == q[0]
    requires forall i | 1 <= i <= n :: c[i] == p[i]
    requires forall i | 1 <= i < |q| :: c[n + i] == q[i]
    requires Inside(p, 1, n) && Inside(q, 1, |q| - 1)
    requires q[0].next == p[1] && p[1].prev == q[0] && p[n].next == q[1] && q[1].prev == p[n]
    ensures Linked(c)
  {
    forall i | 0 <= i < |c| - 1 ensures c[i].next == c[i + 1] && c[i + 1].prev == c[i] {
      if i > n {
        var j := i - n;
        assert c[n + j] == q[j] && c[n + (j + 1)] == q[j + 1];
      } else if i == n {
        assert c[n + 1] == q[1];
      }
    }
  }

  /** The places of the four changed nodes: elsewhere in either tour they do not occur. */
  lemma SpliceTours(list: Node, xs: seq<Node>, head: Node, ys: seq<Node>)
    requires Proper(list, xs) && Proper(head, ys) && Apart(list, xs, head, ys) && xs != []
    ensures var p, q, n := Tour(list, xs), Tour(head, ys), |xs|;
            && (forall i, j | 0 <= i <= n && 0 <= j <= |ys| + 1 :: p[i] != q[j])
            && (forall i | 1 <= i < n :: p[i] != p[n])
            && (forall i | 1 < i <= n :: p[i] != p[1])
            && (forall j | 1 <= j <= |ys| :: q[j] != q[0])
            && (forall j | 1 < j <= |ys| + 1 :: q[j] != q[1])
  {
    TourDistinct(list, xs);
    TourDistinct(head, ys);
    hide Distinct, Tour;
    forall i, j | 0 <= i <= |xs| && 0 <= j <= |ys| + 1 ensures Tour(list, xs)[i] != Tour(head, ys)[j] {
      TourMember(list, xs, i);
      TourMember(head, ys, j);
    }
  }

  lemma SplicedTour(list: Node, xs: seq<Node>, head: Node, ys: seq<Node>)
    ensures var c, p, q, n := Tour(head, xs + ys), Tour(list, xs), Tour(head, ys), |xs|;
            && (forall i | 1 <= i <= n :: c[i] == p[i])
            && (forall i | 1 <= i < |q| :: c[n + i] == q[i])
  {
    var c, p, q, n := Tour(head, xs + ys), Tour(list, xs), Tour(head, ys), |xs|;
    assert |c| == n + |q|;
    hide Tour;
    forall i | 1 <= i < |q| ensures c[n + i] == q[i] {
      if i <= |ys| {
        assert c[(n + i - 1) + 1] == (xs + ys)[n + i - 1];
        assert q[(i - 1) + 1] == ys[i - 1];
      }
    }
    forall i | 1 <= i <= n ensures c[i] == p[i] {
      assert c[(i - 1) + 1] == (xs + ys)[i - 1] && p[(i - 1) + 1] == xs[i - 1];
    }
  }

  lemma SplicedRing(list: Node, xs: seq<Node>, head: Node, ys: seq<Node>)
    requires xs != [] && Proper(head, xs + ys)
    requires Inside(Tour(list, xs), 1, |xs|) && Inside(Tour(head, ys), 1, |ys| + 1)
    requires var p, q, n := Tour(list, xs), Tour(head, ys), |xs|;
             q[0].next == p[1] && p[1].prev == q[0] && p[n].next == q[1] && q[1].prev == p[n]
    ensures Ring(head, xs + ys)
  {
    SplicedTour(list, xs, head, ys);
    hide Inside, Linked, Tour, Proper;
    LinkedSpliced(Tour(head, xs + ys), Tour(list, xs), Tour(head, ys), |xs|);
  }

  /** `__list_splice()`: the nodes of a non-empty list go to the front of another. */
  method SpliceNodes(list: Node, head: Node, ghost xs: seq<Node>, ghost ys: seq<Node>)
    requires Ring(list, xs) && Ring(head, ys) && Apart(list, xs, head, ys) && xs != []
    modifies head, xs, ys
    ensures Ring(head, xs + ys)
    ensures list.next == old(list.next) && list.prev == old(list.prev)
  {
    SpliceProper(list, xs, head, ys);
    SpliceTours(list, xs, head, ys);
    ghost var p, q := Tour(list, xs), Tour(head, ys);
    assert p[0].next == p[1] && p[|xs|].next == p[|xs| + 1] && q[0].next == q[1];
    assert Inside(p, 1, |xs|) && Inside(q, 1, |ys| + 1);
    hide Distinct, Proper, Linked, Tour, Apart;
    var first := list.next;
    var last := list.prev;
    var at := head.next;
    first.prev := head;
    head.next := first;
    last.next := at;
    at.prev := last;
    assert Inside(p, 1, |xs|) && Inside(q, 1, |ys| + 1);
    hide *;
    SplicedRing(list, xs, head, ys);
  }

  /** `list_splice()`: the emptied head keeps its old links. */
  method Splice(list: Node, head: Node, ghost xs: seq<Node>, ghost ys: seq<Node>)
    requires Ring(list, xs) && Ring(head, ys) && Apart(list, xs, head, ys)
    modifies head, xs, ys
    ensures Ring(head, xs + ys)
    ensures list.next == old(list.next) && list.prev == old(list.prev)
  {
    var empty := Empty(list, xs);
    if !empty {
      SpliceNodes(list, head, xs, ys);
    } else {
      assert xs + ys == ys;
    }
  }

  /** `list_splice_init()`: the emptied head becomes an empty list. */
  method SpliceInit(list: Node, head: Node, ghost xs: seq<Node>, ghost ys: seq<Node>)
    requires Ring(list, xs) && Ring(head, ys) && Apart(list, xs, head, ys)
    modifies list, head, xs, ys
    ensures Ring(head, xs + ys) && Ring(list, [])
  {
    var empty := Empty(list, xs);
    if !empty {
      SpliceProper(list, xs, head, ys);
      SpliceNodes(list, head, xs, ys);
      hide Distinct, Linked, Tour;
      InitListHead(list);
    } else {
      assert xs + ys == ys;
    }
  }

  // ---------------------------------------------------------------------
  // The heap determines the list
  // ---------------------------------------------------------------------

  lemma {:induction false} SamePrefix(head: Node, xs: seq<Node>, ys: seq<Node>, i: nat)
    requires Ring(head, xs) && Ring(head, ys) && i <= |xs| && i <= |ys|
    ensures xs[..i] == ys[..i]
  {
    if i > 0 {
      SamePrefix(head, xs, ys, i - 1);
      var p, q := Tour(head, xs), Tour(head, ys);
      assert p[i - 1].next == p[i] && q[i - 1].next == q[i];
      assert p[i - 1] == if i == 1 then head else xs[..i - 1][i - 2];
      assert q[i - 1] == if i == 1 then head else ys[..i - 1][i - 2];
      assert xs[..i] == xs[..i - 1] + [xs[i - 1]] && ys[..i] == ys[..i - 1] + [ys[i - 1]];
    }
  }

  lemma NoLonger(head: Node, xs: seq<Node>, ys: seq<Node>)
    requires Ring(head, xs) && Ring(head, ys) && |xs| <= |ys|
    ensures xs == ys
  {
    var n := |xs|;
    SamePrefix(head, xs, ys, n);
    var p, q := Tour(head, xs), Tour(head, ys);
    assert p[n] == q[n] by {
      assert n > 0 ==> xs[..n][n - 1] == ys[..n][n - 1];
    }
    assert p[n].next == p[n + 1] && q[n].next == q[n + 1];
    TourDistinct(head, ys);
    assert n + 1 > |ys|;
  }

  /** A head is the head of at most one list, so the contents are a function of the heap. */
  lemma ContentsUnique(head: Node, xs: seq<Node>, ys: seq<Node>)
    requires Ring(head, xs) && Ring(head, ys)
    ensures xs == ys
  {
    if |xs| <= |ys| {
      NoLonger(head, xs, ys);
    } else {
      NoLonger(head, ys, xs);
    }
  }
}
