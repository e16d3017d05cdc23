/** The expiry min-heap with its back-index map, src/database.cpp:205-214, 305-311 and 445-506. */
module ExpiryIndex {
  import opened Addresses
  import opened Worlds

  datatype Expiry = Expiry(deadline: int, index: nat)

  // ---------- heap order on a sequence of deadlines ----------

  function Parent(i: nat): (p: nat)
    requires i > 0
    ensures p < i
  {
    (i - 1) / 2
  }

  predicate Ordered(ks: seq<int>) { forall i :: 1 <= i < |ks| ==> ks[Parent(i)] <= ks[i] }

  /** Every pair that does not involve `k` is in order, and so is every pair around it once `k` is skipped. */
  predicate FixableAt(ks: seq<int>, k: nat)
  {
    && (forall i :: 1 <= i < |ks| && i != k && Parent(i) != k ==> ks[Parent(i)] <= ks[i])
    && (forall i :: 1 <= i < |ks| && Parent(i) == k && k > 0 ==> ks[Parent(k)] <= ks[i])
  }

  /** In addition `k` is in order with its parent: only its children may be out of order. */
  predicate SinkingAt(ks: seq<int>, k: nat)
  {
    FixableAt(ks, k) && (0 < k < |ks| ==> ks[Parent(k)] <= ks[k])
  }

  function Swapped(ks: seq<int>, a: nat, b: nat): (r: seq<int>)
    requires a < |ks| && b < |ks|
  {
    ks[a := ks[b]][b := ks[a]]
  }

  lemma RiseStep(ks: seq<int>, k: nat)
    requires 0 < k < |ks| && FixableAt(ks, k) && ks[k] < ks[Parent(k)]
    ensures FixableAt(Swapped(ks, k, Parent(k)), Parent(k))
  {
  }

  lemma SinkStep(ks: seq<int>, k: nat, c: nat)
    requires 0 < c < |ks| && Parent(c) == k && SinkingAt(ks, k) && ks[c] < ks[k]
    requires forall i :: 1 <= i < |ks| && Parent(i) == k ==> ks[c] <= ks[i]
    ensures SinkingAt(Swapped(ks, c, k), c)
  {
  }

  lemma SinkDone(ks: seq<int>, k: nat)
    requires SinkingAt(ks, k) && forall i :: 1 <= i < |ks| && Parent(i) == k ==> ks[k] <= ks[i]
    ensures Ordered(ks)
  {
  }

  lemma Children(i: nat, k: nat)
    requires i > 0
    ensures Parent(i) == k <==> i == 2 * k + 1 || i == 2 * k + 2
  {
  }

  lemma {:induction false} OrderedFrom(ks: seq<int>, i: nat)
    requires Ordered(ks) && i < |ks|
    ensures ks[0] <= ks[i]
  {
    if i > 0 {
      OrderedFrom(ks, Parent(i));
    }
  }

  lemma ChangedIsFixable(ks: seq<int>, k: nat, x: int)
    requires Ordered(ks) && k < |ks|
    ensures FixableAt(ks[k := x], k)
  {
    if k > 0 {
      forall i | 1 <= i < |ks| && Parent(i) == k
        ensures ks[Parent(k)] <= ks[i]
      {
        assert ks[Parent(k)] <= ks[k] && ks[Parent(i)] <= ks[i];
      }
    }
  }

  lemma AppendedIsFixable(ks: seq<int>, x: int)
    requires Ordered(ks)
    ensures FixableAt(ks + [x], |ks|)
  {
  }

  lemma PrefixIsOrdered(ks: seq<int>, n: nat)
    requires Ordered(ks) && n <= |ks|
    ensures Ordered(ks[..n])
  {
  }

  // ---------- the heap and the map that points back into it ----------

  ghost predicate TwoWay(heap: seq<Addr>, expiries: map<Addr, Expiry>)
  {
    && (forall i :: 0 <= i < |heap| ==> heap[i] in expiries && expiries[heap[i]].index == i)
    && (forall a :: a in expiries ==> expiries[a].index < |heap| && heap[expiries[a].index] == a)
  }

  ghost function Keys(heap: seq<Addr>, expiries: map<Addr, Expiry>): (ks: seq<int>)
    requires TwoWay(heap, expiries)
    ensures |ks| == |heap|
  {
    seq(|heap|, i requires 0 <= i < |heap| => expiries[heap[i]].deadline)
  }

  ghost function Deadlines(expiries: map<Addr, Expiry>): (m: map<Addr, int>)
  {
    map a | a in expiries :: expiries[a].deadline
  }

  function SwapHeap(heap: seq<Addr>, a: nat, b: nat): (r: seq<Addr>)
    requires a < |heap| && b < |heap|
  {
    heap[a := heap[b]][b := heap[a]]
  }

  function SwapMap(heap: seq<Addr>, expiries: map<Addr, Expiry>, a: nat, b: nat): (r: map<Addr, Expiry>)
    requires a < |heap| && b < |heap| && heap[a] in expiries && heap[b] in expiries
  {
    expiries[heap[b] := expiries[heap[b]].(index := a)][heap[a] := expiries[heap[a]].(index := b)]
  }

  lemma SwapKeeps(heap: seq<Addr>, expiries: map<Addr, Expiry>, a: nat, b: nat)
    requires TwoWay(heap, expiries) && a < |heap| && b < |heap| && a != b
    ensures var h, e := SwapHeap(heap, a, b), SwapMap(heap, expiries, a, b);
            && TwoWay(h, e) && Deadlines(e) == Deadlines(expiries)
            && Keys(h, e) == Swapped(Keys(heap, expiries), a, b)
  {
    assert heap[a] != heap[b];
  }

  class Index {
    var heap: seq<Addr>
    var expiries: map<Addr, Expiry>

    ghost predicate Valid()
      reads this
    {
      TwoWay(heap, expiries) && Ordered(Keys(heap, expiries))
    }

    constructor ()
      ensures Valid() && expiries == map[] && heap == []
    {
      heap, expiries := [], map[];
    }

    method Reset()
      modifies this
      ensures Valid() && expiries == map[] && heap == []
    {
      heap, expiries := [], map[];
    }

    /** `heap_fix`: from one position that may be out of order back to a heap, moving nothing else. */
    method Fix(at: nat)
      requires TwoWay(heap, expiries) && at < |heap| && FixableAt(Keys(heap, expiries), at)
      modifies this
      ensures Valid() && Deadlines(expiries) == old(Deadlines(expiries)) && |heap| == old(|heap|)
    {
      var index := Rise(at);
      Sink(index);
    }

    method Rise(at: nat) returns (index: nat)
      requires TwoWay(heap, expiries) && at < |heap| && FixableAt(Keys(heap, expiries), at)
      modifies this
      ensures TwoWay(heap, expiries) && index < |heap| && SinkingAt(Keys(heap, expiries), index)
      ensures Deadlines(expiries) == old(Deadlines(expiries)) && |heap| == old(|heap|)
    {
      hide TwoWay, FixableAt, Deadlines, Swapped, SwapHeap, SwapMap;
      index := at;
      while index > 0 && Less(heap, expiries, index, Parent(index))
        invariant TwoWay(heap, expiries) && index < |heap| == old(|heap|)
        invariant FixableAt(Keys(heap, expiries), index) && Deadlines(expiries) == old(Deadlines(expiries))
        decreases index
      {
        LessIs(heap, expiries, index, Parent(index));
        var parent := Parent(index);
        RiseStep(Keys(heap, expiries), index);
        SwapKeeps(heap, expiries, index, parent);
        SwapBounds(heap, expiries, index, parent);
        heap, expiries := SwapHeap(heap, index, parent), SwapMap(heap, expiries, index, parent);
        index := parent;
      }
      if index > 0 {
        LessIs(heap, expiries, index, Parent(index));
      }
    }

    method Sink(at: nat)
      requires TwoWay(heap, expiries) && at < |heap| && SinkingAt(Keys(heap, expiries), at)
      modifies this
      ensures Valid() && Deadlines(expiries) == old(Deadlines(expiries)) && |heap| == old(|heap|)
    {
      hide TwoWay, SinkingAt, Deadlines, Swapped, SwapHeap, SwapMap, Ordered, Keys;
      var index := at;
      while index * 2 + 1 < |heap|
        invariant TwoWay(heap, expiries) && index < |heap| == old(|heap|)
        invariant SinkingAt(Keys(heap, expiries), index) && Deadlines(expiries) == old(Deadlines(expiries))
        decreases |heap| - index
      {
        var child := index * 2 + 1;
        if child + 1 < |heap| {
          LessIs(heap, expiries, child + 1, child);
          if Less(heap, expiries, child + 1, child) {
            child := child + 1;
          }
        }
        LeastChild(Keys(heap, expiries), index, child);
        LessIs(heap, expiries, child, index);
        if !Less(heap, expiries, child, index) {
          SinkDone(Keys(heap, expiries), index);
          return;
        }
        SinkStep(Keys(heap, expiries), index, child);
        SwapKeeps(heap, expiries, child, index);
        SwapBounds(heap, expiries, child, index);
        heap, expiries := SwapHeap(heap, child, index), SwapMap(heap, expiries, child, index);
        index := child;
      }
      NoChildren(Keys(heap, expiries), index);
      SinkDone(Keys(heap, expiries), index);
    }

    /** `schedule_expiry`: a new deadline needs memory, a changed one does not. */
    method Schedule(a: Addr, deadline: int, world: World) returns (ok: bool)
      requires Valid()
      modifies this, world`asked
      ensures Valid()
      ensures a in old(expiries) ==> ok
      ensures Deadlines(expiries) == if ok then old(Deadlines(expiries))[a := deadline] else old(Deadlines(expiries))
      ensures !ok ==> heap == old(heap) && expiries == old(expiries)
      ensures if ok then Fine(old(world.Dealt()), world.Dealt()) else Denied(old(world.Dealt()), world.Dealt())
    {
      hide FixableAt, Ordered, World.Dealt, Denied;
      if a !in expiries {
        var granted := world.Grant();
        if !granted {
          return false;
        }
        ghost var ks := Keys(heap, expiries);
        AppendedIsFixable(ks, deadline);
        expiries := expiries[a := Expiry(deadline, |heap|)];
        heap := heap + [a];
        assert Keys(heap, expiries) == ks + [deadline];
        assert Deadlines(expiries) == old(Deadlines(expiries))[a := deadline];
        Fix(|heap| - 1);
      } else {
        var index := expiries[a].index;
        ghost var ks := Keys(heap, expiries);
        ChangedIsFixable(ks, index, deadline);
        expiries := expiries[a := expiries[a].(deadline := deadline)];
        assert Keys(heap, expiries) == ks[index := deadline];
        assert Deadlines(expiries) == old(Deadlines(expiries))[a := deadline];
        Fix(index);
      }
      ok := true;
    }

    /** `clear_expiry`, wherever in the heap the node is. */
    method Clear(a: Addr)
      requires Valid()
      modifies this
      ensures Valid() && Deadlines(expiries) == old(Deadlines(expiries)) - {a}
      ensures a in old(expiries) ==> |heap| == old(|heap|) - 1
      ensures a !in old(expiries) ==> heap == old(heap) && expiries == old(expiries)
    {
      hide FixableAt, Ordered;
      if a !in expiries {
        assert Deadlines(expiries) - {a} == Deadlines(expiries);
        return;
      }
      var index := expiries[a].index;
      var n := |heap| - 1;
      var last := heap[n];
      ghost var ks := Keys(heap, expiries);
      PrefixIsOrdered(ks, n);
      heap := heap[..n];
      expiries := expiries - {a};
      if index < n {
        heap := heap[index := last];
        expiries := expiries[last := expiries[last].(index := index)];
        assert Keys(heap, expiries) == ks[..n][index := ks[n]];
        ChangedIsFixable(ks[..n], index, ks[n]);
        assert Deadlines(expiries) == old(Deadlines(expiries)) - {a};
        Fix(index);
      } else {
        assert Keys(heap, expiries) == ks[..n];
      }
    }

    /** A node is replaced by another: the entry moves over, the deadline and the position stay. */
    method Rekey(a: Addr, b: Addr)
      requires Valid() && a in expiries && b !in expiries
      modifies this
      ensures Valid() && Deadlines(expiries) == (old(Deadlines(expiries)) - {a})[b := old(Deadlines(expiries))[a]]
      ensures |heap| == old(|heap|)
    {
      hide Ordered;
      var entry := expiries[a];
      ghost var ks := Keys(heap, expiries);
      heap := heap[entry.index := b];
      expiries := (expiries - {a})[b := entry];
      assert Keys(heap, expiries) == ks;
    }

    /** The front of the heap has the earliest deadline of all. */
    method Front() returns (a: Addr)
      requires Valid() && heap != []
      ensures a in expiries && forall b :: b in expiries ==> expiries[a].deadline <= expiries[b].deadline
    {
      a := heap[0];
      forall b | b in expiries
        ensures expiries[a].deadline <= expiries[b].deadline
      {
        OrderedFrom(Keys(heap, expiries), expiries[b].index);
      }
    }
  }

  predicate Less(heap: seq<Addr>, expiries: map<Addr, Expiry>, i: nat, j: nat)
    requires i < |heap| && j < |heap|
  {
    heap[i] in expiries && heap[j] in expiries && expiries[heap[i]].deadline < expiries[heap[j]].deadline
  }

  lemma LessIs(heap: seq<Addr>, expiries: map<Addr, Expiry>, i: nat, j: nat)
    requires TwoWay(heap, expiries) && i < |heap| && j < |heap|
    ensures Less(heap, expiries, i, j) <==> Keys(heap, expiries)[i] < Keys(heap, expiries)[j]
  {
  }

  lemma SwapBounds(heap: seq<Addr>, expiries: map<Addr, Expiry>, a: nat, b: nat)
    requires TwoWay(heap, expiries) && a < |heap| && b < |heap|
    ensures heap[a] in expiries && heap[b] in expiries && |SwapHeap(heap, a, b)| == |heap|
  {
  }

  lemma LeastChild(ks: seq<int>, k: nat, c: nat)
    requires 2 * k + 1 <= c <= 2 * k + 2 && c < |ks|
    requires 2 * k + 2 < |ks| ==> ks[c] <= ks[2 * k + 1] && ks[c] <= ks[2 * k + 2]
    requires 2 * k + 2 >= |ks| ==> c == 2 * k + 1
    ensures Parent(c) == k && forall i :: 1 <= i < |ks| && Parent(i) == k ==> ks[c] <= ks[i]
  {
    forall i | 1 <= i < |ks| && Parent(i) == k
      ensures ks[c] <= ks[i]
    {
      Children(i, k);
    }
  }

  lemma NoChildren(ks: seq<int>, k: nat)
    requires k * 2 + 1 >= |ks|
    ensures forall i :: 1 <= i < |ks| ==> Parent(i) != k
  {
  }
}
