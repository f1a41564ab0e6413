/**
  The list and array builders of the locality benchmark in itertest.c, with
  the write loops that each timed trial runs over the built structure.

  A list node owns a separately allocated integer cell (`int *val`) and links
  to the next node. Nodes come from a pool of POOLSIZE preallocated nodes: each
  build step takes the node in a randomly drawn slot, gives it a fresh cell,
  prepends it to the list and refills the slot with a fresh node. The random
  draws are an input here. The ghost sequence `spine` lists the nodes that are
  reachable from `head`, and the ghost sequence `arena` lists every node
  in allocation order, so that PoolArena.PoolAfter and
  PoolArena.ListAfter say which objects sit in the pool and on the list.
 */
module IterTest {
  import opened PoolArena

  /** Number of timed trials run over one built structure. */
  const ITERS: nat := 20

  /** The heap-allocated `int` a list node points to. */
  class Cell {
    var value: int

    /** Allocation is zero-filling. */
    constructor ()
      ensures value == 0
    {
      value := 0;
    }
  }

  /** A list node: `val` owns a cell, `next` is a non-owning link. */
  class Node {
    var val: Cell?
    var next: Node?

    /** Allocation is zero-filling, so both pointers start out null. */
    constructor ()
      ensures val == null && next == null
    {
      val := null;
      next := null;
    }
  }

  /** Following `next` from `head` visits exactly the nodes of `spine`, in
      order, and then reaches null. */
  ghost predicate Linked(head: Node?, spine: seq<Node>)
    reads spine
  {
    && head == (if spine == [] then null else spine[0])
    && (forall k :: 0 <= k < |spine| - 1 ==> spine[k].next == spine[k + 1])
    && (spine != [] ==> spine[|spine| - 1].next == null)
  }

  /** A well-formed list: `head` leads through the pairwise distinct nodes of
      `spine` to null, and node k owns cell k, no two nodes sharing a cell. */
  ghost predicate IsList(head: Node?, spine: seq<Node>, cells: seq<Cell>)
    reads spine
  {
    && Linked(head, spine)
    && Distinct(spine)
    && |cells| == |spine|
    && Distinct(cells)
    && (forall k :: 0 <= k < |spine| ==> spine[k].val == cells[k])
  }

  ghost function Elements<T>(s: seq<T>): set<T>
  {
    set x | x in s
  }

  /** Every pool slot holds a node that is not yet linked and has no cell. */
  ghost predicate PoolReady(pool: array<Node?>)
    reads pool, pool[..]
  {
    && pool.Length == POOLSIZE
    && (forall c :: 0 <= c < POOLSIZE ==> pool[c] != null && pool[c].val == null && pool[c].next == null)
  }

  /** The pool slots and the list hold the nodes that the reference model
      PoolArena names after the given draws, `arena` listing every node in
      allocation order. */
  ghost predicate Tracks(slots: seq<Node?>, spine: seq<Node>, arena: seq<Node?>, rolls: seq<nat>)
  {
    var p, l := PoolAfter(rolls), ListAfter(rolls);
    && |slots| == POOLSIZE
    && |arena| == POOLSIZE + |rolls|
    && Distinct(arena)
    && (forall c :: 0 <= c < POOLSIZE ==> p[c] < |arena| && slots[c] == arena[p[c]])
    && |spine| == |rolls|
    && (forall k :: 0 <= k < |spine| ==> l[k] < |arena| && spine[k] == arena[l[k]])
  }

  /** The node in the slot a draw selects is in no other slot and not on the list. */
  lemma ChosenIsFree(slots: seq<Node?>, spine: seq<Node>, arena: seq<Node?>, rolls: seq<nat>, roll: nat)
    requires Tracks(slots, spine, arena, rolls)
    ensures slots[Slot(roll)] !in spine
    ensures forall c :: 0 <= c < POOLSIZE && c != Slot(roll) ==> slots[c] != slots[Slot(roll)]
  {
    Bounded(rolls);
    Disjoint(rolls);
    var c := Slot(roll);
    var id := PoolAfter(rolls)[c];
    forall d | 0 <= d < POOLSIZE && d != c ensures slots[d] != slots[c] {
      assert PoolAfter(rolls)[d] != id;
    }
    forall k | 0 <= k < |spine| ensures spine[k] != slots[c] {
      assert ListAfter(rolls)[k] != id;
    }
  }

  /** Build step i, which moves the node in the slot draw i selects to the
      head of the list and refills the slot with a node never seen before,
      keeps the pool and the list in step with the reference model. */
  lemma TracksStep(slots: seq<Node?>, spine: seq<Node>, arena: seq<Node?>, rolls: seq<nat>, i: nat, m: Node)
    requires i < |rolls| && Tracks(slots, spine, arena, rolls[..i])
    requires slots[Slot(rolls[i])] != null && m !in arena
    ensures Tracks(slots[Slot(rolls[i]) := m], [slots[Slot(rolls[i])]] + spine, arena + [m], rolls[..i + 1])
  {
    var before, roll := rolls[..i], rolls[i];
    assert rolls[..i + 1] == before + [roll];
    Bounded(before);
    PrependStep(before, roll);
    var c := Slot(roll);
    var spine', arena' := [slots[c]] + spine, arena + [m];
    var l' := ListAfter(before + [roll]);
    forall k | 0 <= k < |spine'| ensures l'[k] < |arena'| && spine'[k] == arena'[l'[k]] {
      if k > 0 {
        assert l'[k] == ListAfter(before)[k - 1];
      }
    }
  }

  /** No node waiting in the pool is on the list. */
  lemma PoolNotOnList(slots: seq<Node?>, spine: seq<Node>, arena: seq<Node?>, rolls: seq<nat>)
    requires Tracks(slots, spine, arena, rolls)
    ensures forall c, k :: 0 <= c < POOLSIZE && 0 <= k < |spine| ==> slots[c] != spine[k]
  {
    Disjoint(rolls);
  }

  /** Every node allocated so far is in a pool slot or on the list: none is lost. */
  lemma NoneLost(slots: seq<Node?>, spine: seq<Node>, arena: seq<Node?>, rolls: seq<nat>)
    requires Tracks(slots, spine, arena, rolls)
    ensures forall t :: 0 <= t < |arena| ==> arena[t] in slots || arena[t] in spine
  {
    Conservation(rolls);
    forall t | 0 <= t < |arena| ensures arena[t] in slots || arena[t] in spine {
      if t in PoolAfter(rolls) {
        var c :| 0 <= c < POOLSIZE && PoolAfter(rolls)[c] == t;
        assert slots[c] == arena[t];
      } else {
        var k :| 0 <= k < |rolls| && ListAfter(rolls)[k] == t;
        assert spine[k] == arena[t];
      }
    }
  }

  /** Dropping the head of a chain leaves the chain that starts at its successor. */
  lemma LinkedTail(head: Node?, spine: seq<Node>)
    requires Linked(head, spine) && spine != []
    ensures Linked(spine[0].next, spine[1..])
  {
    var t := spine[1..];
    forall k | 0 <= k < |t| - 1 ensures t[k].next == t[k + 1] {
      assert t[k] == spine[k + 1] && t[k + 1] == spine[k + 2];
    }
  }

  /** The nodes reachable from `head` fix the spine: two spines linked from
      the same head are the same, so its length is the number of nodes the
      walk from `head` visits. */
  lemma {:induction false} SpineDetermined(head: Node?, s1: seq<Node>, s2: seq<Node>)
    requires Linked(head, s1) && Linked(head, s2)
    ensures s1 == s2
    decreases |s1|
  {
    if s1 != [] && s2 != [] {
      LinkedTail(head, s1);
      LinkedTail(head, s2);
      SpineDetermined(s1[0].next, s1[1..], s2[1..]);
      assert s1 == [s1[0]] + s1[1..] && s2 == [s2[0]] + s2[1..];
    }
  }

  /** Linking a fresh-celled node in front of a list gives a list one longer. */
  lemma Prepend(n: Node, head: Node?, spine: seq<Node>, cells: seq<Cell>)
    requires IsList(head, spine, cells) && n.next == head && n !in spine && n.val != null && n.val !in cells
    ensures IsList(n, [n] + spine, [n.val] + cells)
  {
    var s := [n] + spine;
    forall k | 0 < k < |s| - 1 ensures s[k].next == s[k + 1] {
      assert s[k] == spine[k - 1] && s[k + 1] == spine[k];
    }
    if spine != [] {
      assert s[|s| - 1] == spine[|spine| - 1];
    }
  }

  /** Fills the pool with POOLSIZE freshly allocated nodes. */
  method NewPool() returns (pool: array<Node?>)
    ensures fresh(pool) && PoolReady(pool) && Distinct(pool[..])
    ensures forall c :: 0 <= c < POOLSIZE ==> fresh(pool[c])
  {
    pool := new Node?[POOLSIZE];
    for i := 0 to POOLSIZE
      invariant forall c :: 0 <= c < i ==> pool[c] != null && fresh(pool[c]) && pool[c].val == null && pool[c].next == null
      invariant forall c, d :: 0 <= c < d < i ==> pool[c] != pool[d]
    {
      pool[i] := new Node();
    }
  }

  /** One build step: takes the node in the slot that `roll` selects, gives
      it a fresh zeroed cell, prepends it to the list and refills the slot
      with a fresh node; no other slot changes. */
  method TakeFromPool(pool: array<Node?>, head: Node?, roll: nat, ghost spine: seq<Node>, ghost cells: seq<Cell>)
    returns (newHead: Node, cell: Cell)
    requires PoolReady(pool) && IsList(head, spine, cells)
    requires pool[Slot(roll)] !in spine
    requires forall c :: 0 <= c < POOLSIZE && c != Slot(roll) ==> pool[c] != pool[Slot(roll)]
    modifies pool, pool[Slot(roll)]
    ensures PoolReady(pool)
    ensures newHead == old(pool[Slot(roll)]) && IsList(newHead, [newHead] + spine, [cell] + cells)
    ensures fresh(cell) && cell.value == 0 && unchanged(Elements(cells))
    ensures fresh(pool[Slot(roll)]) && pool[..] == old(pool[..])[Slot(roll) := pool[Slot(roll)]]
  {
    var chosen := Slot(roll);
    var n: Node := pool[chosen];
    cell := new Cell();
    n.val := cell;
    n.next := head;
    newHead := n;
    pool[chosen] := new Node();
    Prepend(n, head, spine, cells);
  }

  /** Builds the list with one step per draw. The nodes first in the pool are
      arena[..POOLSIZE]; the refill of step t is arena[POOLSIZE + t]. */
  method BuildList(pool: array<Node?>, rolls: seq<nat>)
    returns (head: Node?, ghost spine: seq<Node>, ghost cells: seq<Cell>, ghost arena: seq<Node?>)
    requires PoolReady(pool) && Distinct(pool[..])
    modifies pool, pool[..]
    ensures PoolReady(pool)
    ensures IsList(head, spine, cells) && |spine| == |rolls|
    ensures Tracks(pool[..], spine, arena, rolls)
    ensures arena[..POOLSIZE] == old(pool[..])
    ensures forall c, k :: 0 <= c < POOLSIZE && 0 <= k < |spine| ==> pool[c] != spine[k]
    ensures forall c :: 0 <= c < POOLSIZE ==> pool[c] == old(pool[c]) || fresh(pool[c])
    ensures forall t :: POOLSIZE <= t < |arena| ==> fresh(arena[t])
    ensures fresh(Elements(cells))
    ensures forall k :: 0 <= k < |cells| ==> cells[k].value == 0
  {
    head := null;
    spine, cells := [], [];
    arena := pool[..];
    for i := 0 to |rolls|
      invariant PoolReady(pool)
      invariant IsList(head, spine, cells)
      invariant Tracks(pool[..], spine, arena, rolls[..i])
      invariant arena[..POOLSIZE] == old(pool[..])
      invariant forall c :: 0 <= c < POOLSIZE ==> pool[c] == old(pool[c]) || fresh(pool[c])
      invariant forall t :: POOLSIZE <= t < |arena| ==> fresh(arena[t])
      invariant fresh(Elements(cells))
      invariant forall k :: 0 <= k < |cells| ==> cells[k].value == 0
    {
      ghost var slots := pool[..];
      ChosenIsFree(slots, spine, arena, rolls[..i], rolls[i]);
      var n, cell := TakeFromPool(pool, head, rolls[i], spine, cells);
      head := n;
      ghost var m := pool[Slot(rolls[i])];
      TracksStep(slots, spine, arena, rolls, i, m);
      assert (arena + [m])[..POOLSIZE] == arena[..POOLSIZE];
      assert Elements([cell] + cells) == Elements(cells) + {cell};
      forall t | POOLSIZE <= t < |arena| + 1 ensures fresh((arena + [m])[t]) {
        if t < |arena| {
          assert (arena + [m])[t] == arena[t];
        }
      }
      forall k | 0 <= k < |cells| + 1 ensures ([cell] + cells)[k].value == 0 {
        if k > 0 {
          assert ([cell] + cells)[k] == cells[k - 1] && cells[k - 1] in Elements(cells);
        }
      }
      spine, cells, arena := [n] + spine, [cell] + cells, arena + [m];
    }
    assert rolls[..|rolls|] == rolls;
    PoolNotOnList(pool[..], spine, arena, rolls);
  }

  /** One timed trial over the list: walks from `head` by `next` only and
      stores the trial index in every node's cell; the walk ends after
      exactly one visit per node. */
  method WriteListTrial(head: Node?, ghost spine: seq<Node>, ghost cells: seq<Cell>, i: int) returns (ghost visited: nat)
    requires IsList(head, spine, cells)
    modifies Elements(cells)
    ensures IsList(head, spine, cells)
    ensures visited == |spine|
    ensures forall k :: 0 <= k < |spine| ==> spine[k].val.value == i
  {
    var curr := head;
    visited := 0;
    while curr != null
      invariant IsList(head, spine, cells)
      invariant visited <= |spine|
      invariant curr == if visited < |spine| then spine[visited] else null
      invariant forall k :: 0 <= k < visited ==> cells[k].value == i
      decreases |spine| - visited
    {
      assert curr.next == if visited + 1 < |spine| then spine[visited + 1] else null;
      curr.val.value := i;
      curr := curr.next;
      visited := visited + 1;
    }
  }

  /** The list benchmark: fills the pool, builds a list of `size` nodes from
      the draws `rolls` (one per step), then runs ITERS trials over it. */
  method DoitList(size: nat, rolls: seq<nat>)
    returns (head: Node?, ghost spine: seq<Node>, ghost cells: seq<Cell>)
    requires |rolls| == size
    ensures IsList(head, spine, cells) && |spine| == size
    ensures head == null <==> size == 0
    ensures forall k :: 0 <= k < size ==> fresh(spine[k])
    ensures fresh(Elements(cells))
    ensures forall k :: 0 <= k < size ==> spine[k].val.value == ITERS - 1
  {
    var pool := NewPool();
    ghost var arena;
    head, spine, cells, arena := BuildList(pool, rolls);
    assert forall t :: 0 <= t < |arena| ==> fresh(arena[t]) by {
      forall t | 0 <= t < |arena| ensures fresh(arena[t]) {
        if t < POOLSIZE {
          assert arena[t] == arena[..POOLSIZE][t];
        }
      }
    }
    for i := 0 to ITERS
      invariant IsList(head, spine, cells)
      invariant fresh(Elements(cells))
      invariant forall k :: 0 <= k < |spine| ==> i > 0 ==> spine[k].val.value == i - 1
    {
      ghost var visited := WriteListTrial(head, spine, cells, i);
    }
  }

  /** The array allocation: `size` zero-filled integers. */
  method NewBuffer(size: nat) returns (a: array<int>)
    ensures fresh(a) && a.Length == size
    ensures forall k :: 0 <= k < size ==> a[k] == 0
  {
    a := new int[size](_ => 0);
  }

  /** One timed trial over the array: stores the trial index in every element. */
  method WriteArrayTrial(a: array<int>, j: int)
    modifies a
    ensures forall k :: 0 <= k < a.Length ==> a[k] == j
  {
    for i := 0 to a.Length
      invariant forall k :: 0 <= k < i ==> a[k] == j
    {
      a[i] := j;
    }
  }

  /** The array benchmark: allocates `size` elements and runs ITERS trials over them. */
  method DoitArray(size: nat) returns (a: array<int>)
    ensures fresh(a) && a.Length == size
    ensures forall k :: 0 <= k < size ==> a[k] == ITERS - 1
  {
    a := NewBuffer(size);
    for j := 0 to ITERS
      invariant forall k :: 0 <= k < size ==> a[k] == if j == 0 then 0 else j - 1
    {
      WriteArrayTrial(a, j);
    }
  }
}
