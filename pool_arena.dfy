/**
  Reference model of the node pool used by doit_list in itertest.c.

  Every node the builder allocates is named by its allocation number: the
  POOLSIZE nodes that fill the pool up front are 0 .. POOLSIZE-1, and the node
  that refills the pool at build step t is POOLSIZE + t. Given the raw random
  draws of the first n steps, PoolAfter says which node sits in each pool slot
  and ListAfter which nodes make up the list, head first.
 */
module PoolArena {

  /** Number of slots in the node pool. */
  const POOLSIZE: nat := 32

  /** The pool slot a raw draw selects; `rand()` never returns a negative value. */
  function Slot(roll: nat): (c: nat)
    ensures c < POOLSIZE
  {
    roll % POOLSIZE
  }

  /** Allocation numbers of the nodes in the pool slots after one step per draw. */
  function PoolAfter(rolls: seq<nat>): (p: seq<nat>)
    ensures |p| == POOLSIZE
  {
    if rolls == [] then seq(POOLSIZE, c => c)
    else
      var n := |rolls| - 1;
      PoolAfter(rolls[..n])[Slot(rolls[n]) := POOLSIZE + n]
  }

  /** Allocation numbers of the list nodes, head first, after one step per draw. */
  function ListAfter(rolls: seq<nat>): (l: seq<nat>)
    ensures |l| == |rolls|
  {
    if rolls == [] then []
    else
      var n := |rolls| - 1;
      [PoolAfter(rolls[..n])[Slot(rolls[n])]] + ListAfter(rolls[..n])
  }

  /** No element occurs twice. */
  ghost predicate Distinct<T>(s: seq<T>)
  {
    forall i, j :: 0 <= i < j < |s| ==> s[i] != s[j]
  }

  /** Every element is below `bound`. */
  ghost predicate AllBelow(s: seq<nat>, bound: nat)
  {
    forall k :: 0 <= k < |s| ==> s[k] < bound
  }

  /** One more draw takes the node in the chosen slot to the head of the list
      and puts the next allocated node in that slot; the other slots and the
      rest of the list stay as they were. */
  lemma PrependStep(rolls: seq<nat>, r: nat)
    ensures ListAfter(rolls + [r]) == [PoolAfter(rolls)[Slot(r)]] + ListAfter(rolls)
    ensures PoolAfter(rolls + [r]) == PoolAfter(rolls)[Slot(r) := POOLSIZE + |rolls|]
  {
    assert (rolls + [r])[..|rolls|] == rolls;
  }

  /** Further draws only put nodes in front of the list: the nodes already on
      it stay behind them, in the same order. */
  lemma {:induction false} KeepsOrder(rolls: seq<nat>, more: seq<nat>)
    ensures ListAfter(rolls + more)[|more|..] == ListAfter(rolls)
    decreases |more|
  {
    if more == [] {
      assert rolls + more == rolls;
    } else {
      var init, r := more[..|more| - 1], more[|more| - 1];
      assert rolls + more == (rolls + init) + [r];
      PrependStep(rolls + init, r);
      KeepsOrder(rolls, init);
    }
  }

  /** After n steps only the first POOLSIZE + n nodes have been allocated. */
  lemma {:induction false} Bounded(rolls: seq<nat>)
    ensures AllBelow(PoolAfter(rolls), POOLSIZE + |rolls|)
    ensures AllBelow(ListAfter(rolls), POOLSIZE + |rolls|)
  {
    if rolls != [] {
      Bounded(rolls[..|rolls| - 1]);
    }
  }

  /** No node is in two pool slots, no node is on the list twice, and no pool
      node is on the list. */
  lemma {:induction false} Disjoint(rolls: seq<nat>)
    ensures Distinct(PoolAfter(rolls))
    ensures Distinct(ListAfter(rolls))
    ensures forall c, k :: 0 <= c < POOLSIZE && 0 <= k < |rolls| ==> PoolAfter(rolls)[c] != ListAfter(rolls)[k]
  {
    if rolls != [] {
      var n := |rolls| - 1;
      var prev := rolls[..n];
      Disjoint(prev);
      Bounded(prev);
      var p, l, s := PoolAfter(prev), ListAfter(prev), Slot(rolls[n]);
      assert PoolAfter(rolls) == p[s := POOLSIZE + n];
      assert ListAfter(rolls) == [p[s]] + l;
      forall c, k | 0 <= c < POOLSIZE && 0 <= k < |rolls|
        ensures PoolAfter(rolls)[c] != ListAfter(rolls)[k]
      {
        if k > 0 {
          assert ListAfter(rolls)[k] == l[k - 1];
        }
      }
    }
  }

  /** Every node allocated so far is either in the pool or on the list: none is lost. */
  lemma {:induction false} Conservation(rolls: seq<nat>)
    ensures forall id :: 0 <= id < POOLSIZE + |rolls| ==> id in PoolAfter(rolls) || id in ListAfter(rolls)
  {
    if rolls == [] {
      forall id | 0 <= id < POOLSIZE
        ensures id in PoolAfter(rolls)
      {
        assert PoolAfter(rolls)[id] == id;
      }
    } else {
      var n := |rolls| - 1;
      var prev := rolls[..n];
      Conservation(prev);
      var p, l, s := PoolAfter(prev), ListAfter(prev), Slot(rolls[n]);
      forall id | 0 <= id < POOLSIZE + |rolls|
        ensures id in PoolAfter(rolls) || id in ListAfter(rolls)
      {
        if id == POOLSIZE + n {
          assert PoolAfter(rolls)[s] == id;
        } else if id in l {
          assert id in ListAfter(rolls);
        } else {
          var c :| 0 <= c < POOLSIZE && p[c] == id;
          if c == s {
            assert ListAfter(rolls)[0] == id;
          } else {
            assert PoolAfter(rolls)[c] == id;
          }
        }
      }
    }
  }

  /** A slot still holds the node it was first filled with exactly when no
      draw has chosen it. */
  lemma {:induction false} SlotUntouched(rolls: seq<nat>, c: nat)
    requires c < POOLSIZE
    ensures PoolAfter(rolls)[c] == c <==> forall t :: 0 <= t < |rolls| ==> Slot(rolls[t]) != c
  {
    if rolls != [] {
      var n := |rolls| - 1;
      var prev := rolls[..n];
      SlotUntouched(prev, c);
      assert forall t :: 0 <= t < n ==> prev[t] == rolls[t];
    }
  }
}
