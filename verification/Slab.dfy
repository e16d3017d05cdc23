/** The slab pool and the memory budget it draws on, src/slab.cpp:8-112 and src/memory.hpp:31-46. */
module Slab {
  import opened Addresses
  import opened Worlds
  import opened Chains
  import opened SizeClasses
  import Nodes

  // ---------- the budget ----------

  /** A region may be handed out: it overlaps nothing that is outstanding. */
  predicate Clear(outstanding: map<Addr, nat>, p: Addr, bytes: nat)
  {
    p !in outstanding && forall q :: q in outstanding ==> p + bytes <= q || q + outstanding[q] <= p
  }

  ghost predicate Apart(outstanding: map<Addr, nat>)
  {
    forall p, q :: p in outstanding && q in outstanding && p != q ==> p + outstanding[p] <= q || q + outstanding[q] <= p
  }

  ghost function Above(outstanding: map<Addr, nat>): (top: Addr)
    ensures top > 0 && forall q :: q in outstanding ==> q + outstanding[q] < top
    decreases |outstanding|
  {
    if outstanding == map[] then 1
    else
      var a :| a in outstanding;
      assert |outstanding - {a}| < |outstanding| by { Nodes.Smaller(outstanding, a); }
      var rest := Above(outstanding - {a});
      assert forall q :: q in outstanding ==> q == a || q in outstanding - {a};
      if a + outstanding[a] < rest then rest else a + outstanding[a] + 1
  }

  lemma SomewhereClear(outstanding: map<Addr, nat>, bytes: nat)
    ensures exists p: Addr :: p != 0 && Clear(outstanding, p, bytes)
  {
    var top := Above(outstanding);
    assert top != 0 && Clear(outstanding, top, bytes);
  }

  class MemoryResource {
    const limit: nat   // 0 is no limit
    var used: nat
    var outstanding: map<Addr, nat>

    ghost predicate Valid()
      reads this
    {
      && used == Nodes.Total(outstanding) && (limit > 0 ==> used <= limit)
      && Apart(outstanding) && 0 !in outstanding
    }

    constructor (limit: nat)
      ensures Valid() && this.limit == limit && outstanding == map[] && used == 0
    {
      this.limit, used, outstanding := limit, 0, map[];
    }

    /** Whether the budget has no room for this much. */
    predicate Short(bytes: nat)
      reads this
    {
      limit > 0 && bytes > limit - used
    }

    /** The second half of `do_allocate`: take the region or throw. */
    method Take(bytes: nat, world: World) returns (p: Addr)
      requires Valid() && limit == world.limit
      modifies this, world`asked, world`shortages
      ensures Valid() && (p == 0 <==> old(Short(bytes)) || !world.memory(old(world.asked)))
      ensures if p != 0 then Fine(old(world.Dealt()), world.Dealt()) else Denied(old(world.Dealt()), world.Dealt())
      ensures p == 0 ==> outstanding == old(outstanding) && used == old(used)
      ensures p != 0 ==>
                Clear(old(outstanding), p, bytes) && outstanding == old(outstanding)[p := bytes] && used == old(used) + bytes
    {
      hide Nodes.Total;
      if Short(bytes) {
        world.Exceed(used, bytes);
        return 0;
      }
      var granted := world.Grant();
      if !granted {
        return 0;
      }
      SomewhereClear(outstanding, bytes);
      p :| p != 0 && Clear(outstanding, p, bytes);
      Nodes.TotalWith(outstanding, p, bytes);
      outstanding := outstanding[p := bytes];
      used := used + bytes;
    }

    /** `do_deallocate`. */
    method Give(p: Addr, bytes: nat)
      requires Valid() && p in outstanding && outstanding[p] == bytes
      modifies this
      ensures Valid() && outstanding == old(outstanding) - {p} && used == old(used) - bytes
    {
      hide Nodes.Total;
      Nodes.TotalWithout(outstanding, p);
      outstanding := outstanding - {p};
      used := used - bytes;
    }
  }

  // ---------- chunks and their blocks ----------

  const CHUNK_BYTES: nat := 64 * 1024
  const HEADER_BYTES: nat := 32

  datatype Chunk = Chunk(memory: Addr, bytes: nat, index: nat, header: Addr)

  function ClassSize(index: nat): (n: nat)
    ensures n > 0
  {
    if index < |CLASS_SIZES| && CLASS_SIZES[index] > 0 then CLASS_SIZES[index] else 8
  }

  function BlockCount(ch: Chunk): (n: nat) { ch.bytes / ClassSize(ch.index) }

  function BlockAt(ch: Chunk, i: nat): (a: Addr) { ch.memory + i * ClassSize(ch.index) }

  ghost predicate IsBlock(ch: Chunk, a: Addr) { exists i: nat :: i < BlockCount(ch) && a == BlockAt(ch, i) }

  lemma BlockInside(ch: Chunk, i: nat)
    requires i < BlockCount(ch)
    ensures ch.memory <= BlockAt(ch, i) && BlockAt(ch, i) + ClassSize(ch.index) <= ch.memory + ch.bytes
  {
    hide ClassSize;
    var size := ClassSize(ch.index);
    assert (i + 1) * size <= BlockCount(ch) * size <= ch.bytes;
  }

  lemma BlocksApart(ch: Chunk, i: nat, j: nat)
    requires i < j
    ensures BlockAt(ch, i) + ClassSize(ch.index) <= BlockAt(ch, j)
  {
    hide ClassSize;
    assert (i + 1) * ClassSize(ch.index) <= j * ClassSize(ch.index);
  }

  /** `a` is a block of one of the chunks of this class. */
  ghost predicate InPool(chunks: seq<Chunk>, index: nat, a: Addr)
  {
    exists j :: 0 <= j < |chunks| && chunks[j].index == index && IsBlock(chunks[j], a)
  }

  ghost predicate InUse(ch: Chunk, live: map<Addr, nat>) { exists a :: IsBlock(ch, a) && a in live }

  ghost predicate Separate(chunks: seq<Chunk>)
  {
    forall i, j :: 0 <= i < j < |chunks| ==>
      chunks[i].memory + chunks[i].bytes <= chunks[j].memory || chunks[j].memory + chunks[j].bytes <= chunks[i].memory
  }

  ghost predicate FreeOk(chunks: seq<Chunk>, free: seq<seq<Addr>>, live: map<Addr, nat>)
  {
    forall k, a :: 0 <= k < |free| && a in free[k] ==> InPool(chunks, k, a) && a !in live
  }

  ghost predicate LiveOk(chunks: seq<Chunk>, free: seq<seq<Addr>>, live: map<Addr, nat>)
  {
    forall a :: a in live ==> live[a] < |free| && InPool(chunks, live[a], a)
  }

  ghost predicate Covered(chunks: seq<Chunk>, free: seq<seq<Addr>>, live: map<Addr, nat>)
  {
    && (forall j :: 0 <= j < |chunks| ==> chunks[j].index < |free|)
    && (forall j, a :: 0 <= j < |chunks| && IsBlock(chunks[j], a) ==> a in live || a in free[chunks[j].index])
  }

  ghost predicate EachOnce(free: seq<seq<Addr>>) { forall k :: 0 <= k < |free| ==> Distinct(free[k]) }

  /** Every block of every chunk is free once or live once, and nothing else is either. */
  ghost predicate Partition(chunks: seq<Chunk>, free: seq<seq<Addr>>, live: map<Addr, nat>)
  {
    EachOnce(free) && FreeOk(chunks, free, live) && LiveOk(chunks, free, live) && Covered(chunks, free, live)
  }

  /** Two live blocks never overlap. */
  lemma LiveBlocksApart(chunks: seq<Chunk>, free: seq<seq<Addr>>, live: map<Addr, nat>, a: Addr, b: Addr)
    requires Separate(chunks) && Partition(chunks, free, live) && a in live && b in live && a != b
    ensures a + ClassSize(live[a]) <= b || b + ClassSize(live[b]) <= a
  {
    hide ClassSize, BlockCount, BlockAt;
    var ja :| 0 <= ja < |chunks| && chunks[ja].index == live[a] && IsBlock(chunks[ja], a);
    var jb :| 0 <= jb < |chunks| && chunks[jb].index == live[b] && IsBlock(chunks[jb], b);
    var ia: nat :| ia < BlockCount(chunks[ja]) && a == BlockAt(chunks[ja], ia);
    var ib: nat :| ib < BlockCount(chunks[jb]) && b == BlockAt(chunks[jb], ib);
    BlockInside(chunks[ja], ia);
    BlockInside(chunks[jb], ib);
    if ja == jb {
      if ia < ib { BlocksApart(chunks[ja], ia, ib); } else { BlocksApart(chunks[ja], ib, ia); }
    }
  }

  /** A block belongs to one chunk only. */
  lemma OneChunk(chunks: seq<Chunk>, i: nat, j: nat, a: Addr)
    requires Separate(chunks) && i < |chunks| && j < |chunks| && IsBlock(chunks[i], a)
    requires IsBlock(chunks[j], a) || chunks[j].memory <= a < chunks[j].memory + chunks[j].bytes
    ensures i == j
  {
    hide ClassSize, BlockCount, BlockAt;
    var ia: nat :| ia < BlockCount(chunks[i]) && a == BlockAt(chunks[i], ia);
    BlockInside(chunks[i], ia);
    if IsBlock(chunks[j], a) {
      var ja: nat :| ja < BlockCount(chunks[j]) && a == BlockAt(chunks[j], ja);
      BlockInside(chunks[j], ja);
    }
  }

  lemma Popped(chunks: seq<Chunk>, free: seq<seq<Addr>>, live: map<Addr, nat>, k: nat)
    requires Separate(chunks) && Partition(chunks, free, live) && k < |free| && free[k] != []
    ensures free[k][0] !in live
    ensures Partition(chunks, free[k := free[k][1..]], live[free[k][0] := k])
  {
    hide IsBlock;
    var a, rest := free[k][0], free[k][1..];
    var free', live' := free[k := rest], live[a := k];
    assert a in free[k] && InPool(chunks, k, a);
    var j :| 0 <= j < |chunks| && chunks[j].index == k && IsBlock(chunks[j], a);
    assert Distinct(free[k]);
    assert EachOnce(free');
    forall k', b | 0 <= k' < |free'| && b in free'[k']
      ensures InPool(chunks, k', b) && b !in live'
    {
      assert b in free[k'];
      if b == a {
        var j' :| 0 <= j' < |chunks| && chunks[j'].index == k' && IsBlock(chunks[j'], b);
        OneChunk(chunks, j, j', a);
      }
    }
    forall j', b | 0 <= j' < |chunks| && IsBlock(chunks[j'], b)
      ensures b in live' || b in free'[chunks[j'].index]
    {
      assert b in live || b in free[chunks[j'].index];
      assert free[k] == [a] + rest;
    }
  }

  lemma Pushed(chunks: seq<Chunk>, free: seq<seq<Addr>>, live: map<Addr, nat>, a: Addr)
    requires Partition(chunks, free, live) && a in live && Separate(chunks)
    ensures live[a] < |free|
    ensures Partition(chunks, free[live[a] := [a] + free[live[a]]], live - {a})
  {
    hide IsBlock;
    var k := live[a];
    var j :| 0 <= j < |chunks| && chunks[j].index == k && IsBlock(chunks[j], a);
    var free', live' := free[k := [a] + free[k]], live - {a};
    assert a !in free[k] && Distinct(free[k]);
    assert EachOnce(free');
    forall k', b | 0 <= k' < |free'| && b in free'[k']
      ensures InPool(chunks, k', b) && b !in live'
    {
      if k' == k && b == a {
        assert InPool(chunks, k, a);
      } else {
        assert b in free[k'];
      }
    }
    forall j', b | 0 <= j' < |chunks| && IsBlock(chunks[j'], b)
      ensures b in live' || b in free'[chunks[j'].index]
    {
      assert b in live || b in free[chunks[j'].index];
      if b == a {
        OneChunk(chunks, j, j', a);
      }
    }
  }

  // ---------- a new chunk ----------

  /** The blocks of a chunk in the order in which they end up on the free list: the last one first. */
  function Carved(ch: Chunk, n: nat): (s: seq<Addr>)
    ensures |s| == n && forall i :: 0 <= i < n ==> s[i] == BlockAt(ch, n - 1 - i)
  {
    seq(n, i requires 0 <= i < n => BlockAt(ch, n - 1 - i))
  }

  lemma CarvedNext(ch: Chunk, n: nat)
    ensures Carved(ch, n + 1) == [BlockAt(ch, n)] + Carved(ch, n)
  {
    hide BlockAt, Carved;
  }

  lemma CarvedAll(ch: Chunk)
    ensures Distinct(Carved(ch, BlockCount(ch))) && forall a :: a in Carved(ch, BlockCount(ch)) <==> IsBlock(ch, a)
  {
    hide BlockAt, BlockCount, ClassSize;
    var n := BlockCount(ch);
    var s := Carved(ch, n);
    forall i, j | 0 <= i < j < |s|
      ensures s[i] != s[j]
    {
      BlocksApart(ch, n - 1 - j, n - 1 - i);
    }
    forall a | IsBlock(ch, a)
      ensures a in s
    {
      var i: nat :| i < n && a == BlockAt(ch, i);
      assert s[n - 1 - i] == a;
    }
  }

  lemma ChunkAdded(chunks: seq<Chunk>, free: seq<seq<Addr>>, live: map<Addr, nat>, ch: Chunk)
    requires Separate([ch] + chunks) && Partition(chunks, free, live) && ch.index < |free|
    ensures Partition([ch] + chunks, free[ch.index := Carved(ch, BlockCount(ch)) + free[ch.index]], live)
  {
    hide IsBlock, Carved, BlockCount;
    var fresher := Carved(ch, BlockCount(ch));
    var k, more := ch.index, [ch] + chunks;
    var free' := free[k := fresher + free[k]];
    CarvedAll(ch);
    StillInPool(chunks, ch);
    forall a | a in fresher
      ensures InPool(more, k, a) && a !in live && a !in free[k]
    {
      assert more[0] == ch && IsBlock(more[0], a);
      if exists k' :: InPool(chunks, k', a) {
        var k' :| InPool(chunks, k', a);
        var j :| 0 <= j < |chunks| && IsBlock(chunks[j], a);
        assert more[j + 1] == chunks[j];
        OneChunk(more, 0, j + 1, a);
      }
    }
    assert Distinct(free[k]);
    DistinctBoth(fresher, free[k]);
    assert EachOnce(free');
    forall k', a | 0 <= k' < |free'| && a in free'[k']
      ensures InPool(more, k', a) && a !in live
    {
      if k' != k || a !in fresher {
        assert a in free[k'];
      }
    }
    forall j, a | 0 <= j < |more| && IsBlock(more[j], a)
      ensures a in live || a in free'[more[j].index]
    {
      if j > 0 {
        assert more[j] == chunks[j - 1];
      }
    }
  }

  lemma StillInPool(chunks: seq<Chunk>, ch: Chunk)
    ensures forall k, a :: InPool(chunks, k, a) ==> InPool([ch] + chunks, k, a)
  {
    hide IsBlock;
    var more := [ch] + chunks;
    forall k, a | InPool(chunks, k, a)
      ensures InPool(more, k, a)
    {
      var j :| 0 <= j < |chunks| && chunks[j].index == k && IsBlock(chunks[j], a);
      assert more[j + 1] == chunks[j];
    }
  }

  lemma DistinctBoth(a: seq<Addr>, b: seq<Addr>)
    requires Distinct(a) && Distinct(b) && forall x :: x in a ==> x !in b
    ensures Distinct(a + b)
  {
    var s := a + b;
    forall i, j | 0 <= i < j < |s|
      ensures s[i] != s[j]
    {
      if i < |a| {
        assert a[i] in a;
      }
    }
  }

  // ---------- a chunk that is wholly free ----------

  predicate Within(a: Addr, ch: Chunk) { ch.memory <= a < ch.memory + ch.bytes }

  function Inside(s: seq<Addr>, ch: Chunk): (r: seq<Addr>)
    ensures forall a :: a in r <==> a in s && Within(a, ch)
    ensures |r| <= |s|
  {
    if s == [] then []
    else
      var last := s[|s| - 1];
      Inside(s[..|s| - 1], ch) + if Within(last, ch) then [last] else []
  }

  function Outside(s: seq<Addr>, ch: Chunk): (r: seq<Addr>)
    ensures forall a :: a in r <==> a in s && !Within(a, ch)
  {
    if s == [] then []
    else
      var last := s[|s| - 1];
      Outside(s[..|s| - 1], ch) + if Within(last, ch) then [] else [last]
  }

  lemma {:induction false} SidesDistinct(s: seq<Addr>, ch: Chunk)
    requires Distinct(s)
    ensures Distinct(Inside(s, ch)) && Distinct(Outside(s, ch))
    decreases |s|
  {
    if s != [] {
      var n := |s| - 1;
      assert s[n] !in s[..n];
      SidesDistinct(s[..n], ch);
    }
  }

  function Members(s: seq<Addr>): (m: set<Addr>)
    ensures forall a :: a in m <==> a in s
  {
    set a | a in s
  }

  lemma {:induction false} AsMany(s: seq<Addr>)
    requires Distinct(s)
    ensures |Members(s)| == |s|
    decreases |s|
  {
    hide Members;
    if s == [] {
      assert Members(s) == {};
    } else {
      var n := |s| - 1;
      AsMany(s[..n]);
      assert s == s[..n] + [s[n]];
      assert s[n] !in s[..n];
      assert Members(s) == Members(s[..n]) + {s[n]};
    }
  }

  /** Distinct members of `t`, as many as `t` has, are all of `t`. */
  lemma AllOfThem(s: seq<Addr>, t: seq<Addr>)
    requires Distinct(s) && Distinct(t) && |s| == |t| && forall a :: a in s ==> a in t
    ensures forall a :: a in t ==> a in s
  {
    AsMany(s);
    AsMany(t);
    assert |Members(t) - Members(s)| == |Members(t)| - |Members(s)|;
    assert Members(t) - Members(s) == {};
    forall a | a in t
      ensures a in s
    {
      assert a in Members(t);
    }
  }

  /** The count `reclaim` takes is the number of blocks exactly when the whole chunk is free. */
  lemma WhollyFree(chunks: seq<Chunk>, free: seq<seq<Addr>>, live: map<Addr, nat>, j: nat)
    requires Separate(chunks) && Partition(chunks, free, live) && j < |chunks|
    requires chunks[j].index < |free|
    ensures |Inside(free[chunks[j].index], chunks[j])| == BlockCount(chunks[j]) <==> !InUse(chunks[j], live)
  {
    hide Inside, IsBlock, BlockCount, Carved;
    var ch := chunks[j];
    var k := ch.index;
    var found := Inside(free[k], ch);
    CarvedAll(ch);
    var blocks := Carved(ch, BlockCount(ch));
    assert Distinct(free[k]);
    SidesDistinct(free[k], ch);
    forall a | a in found
      ensures a in blocks
    {
      assert a in free[k] && InPool(chunks, k, a);
      var i :| 0 <= i < |chunks| && chunks[i].index == k && IsBlock(chunks[i], a);
      OneChunk(chunks, i, j, a);
    }
    if |found| == |blocks| {
      AllOfThem(found, blocks);
    }
    if !InUse(ch, live) {
      forall a | a in blocks
        ensures a in found
      {
        BlockWithin(ch, a);
        assert a in live || a in free[k];
      }
      SameLength(found, blocks);
    }
  }

  lemma BlockWithin(ch: Chunk, a: Addr)
    requires IsBlock(ch, a)
    ensures Within(a, ch)
  {
    hide ClassSize, BlockAt, BlockCount;
    var i: nat :| i < BlockCount(ch) && a == BlockAt(ch, i);
    BlockInside(ch, i);
  }

  lemma SameLength(s: seq<Addr>, t: seq<Addr>)
    requires Distinct(s) && Distinct(t) && (forall a :: a in s ==> a in t) && (forall a :: a in t ==> a in s)
    ensures |s| == |t|
  {
    AsMany(s);
    AsMany(t);
    assert Members(s) == Members(t);
  }

  lemma ChunkRemoved(chunks: seq<Chunk>, free: seq<seq<Addr>>, live: map<Addr, nat>, j: nat)
    requires Separate(chunks) && Partition(chunks, free, live) && j < |chunks|
    requires chunks[j].index < |free| && !InUse(chunks[j], live)
    ensures Separate(chunks[..j] + chunks[j + 1..])
    ensures Partition(chunks[..j] + chunks[j + 1..], free[chunks[j].index := Outside(free[chunks[j].index], chunks[j])], live)
  {
    hide IsBlock, Outside, Within, Covered;
    var ch, left := chunks[j], chunks[..j] + chunks[j + 1..];
    var k := ch.index;
    var free' := free[k := Outside(free[k], ch)];
    assert Distinct(free[k]);
    SidesDistinct(free[k], ch);
    assert EachOnce(free');
    forall k', a | 0 <= k' < |free'| && a in free'[k']
      ensures InPool(left, k', a) && a !in live
    {
      assert a in free[k'] && InPool(chunks, k', a);
      var i :| 0 <= i < |chunks| && chunks[i].index == k' && IsBlock(chunks[i], a);
      BlockWithin(chunks[i], a);
      assert i != j;
      Kept(chunks, j, i);
    }
    forall a | a in live
      ensures live[a] < |free'| && InPool(left, live[a], a)
    {
      var i :| 0 <= i < |chunks| && chunks[i].index == live[a] && IsBlock(chunks[i], a);
      assert i != j;
      Kept(chunks, j, i);
    }
    StillCovered(chunks, free, live, j);
  }

  lemma StillCovered(chunks: seq<Chunk>, free: seq<seq<Addr>>, live: map<Addr, nat>, j: nat)
    requires Separate(chunks) && Covered(chunks, free, live) && j < |chunks| && chunks[j].index < |free|
    ensures Covered(chunks[..j] + chunks[j + 1..], free[chunks[j].index := Outside(free[chunks[j].index], chunks[j])], live)
  {
    hide IsBlock, Outside, Within;
    var ch, left := chunks[j], chunks[..j] + chunks[j + 1..];
    var free' := free[ch.index := Outside(free[ch.index], ch)];
    forall i, a | 0 <= i < |left| && IsBlock(left[i], a)
      ensures a in live || a in free'[left[i].index]
    {
      var i' := if i < j then i else i + 1;
      assert left[i] == chunks[i'];
      assert a in live || a in free[left[i].index];
      if Within(a, ch) {
        Overlaps(chunks, i', j, a);
      }
    }
  }

  lemma Overlaps(chunks: seq<Chunk>, i: nat, j: nat, a: Addr)
    requires Separate(chunks) && i < |chunks| && j < |chunks| && IsBlock(chunks[i], a) && Within(a, chunks[j])
    ensures i == j
  {
    OneChunk(chunks, i, j, a);
  }

  lemma Kept(chunks: seq<Chunk>, j: nat, i: nat)
    requires j < |chunks| && i < |chunks| && i != j
    ensures var left := chunks[..j] + chunks[j + 1..];
            chunks[i] in left && left[if i < j then i else i - 1] == chunks[i]
  {
  }

  // ---------- the memory behind the chunks ----------

  function Reserved(chunks: seq<Chunk>): (n: nat)
  {
    if chunks == [] then 0 else chunks[0].bytes + Reserved(chunks[1..])
  }

  ghost predicate Memories(chunks: seq<Chunk>)
  {
    && (forall i, j :: 0 <= i < j < |chunks| ==> chunks[i].memory != chunks[j].memory && chunks[i].header != chunks[j].header)
    && (forall i, j :: 0 <= i < |chunks| && 0 <= j < |chunks| ==> chunks[i].memory != chunks[j].header)
  }

  ghost predicate Backs(chunks: seq<Chunk>, outstanding: map<Addr, nat>)
  {
    forall j :: 0 <= j < |chunks| ==>
      && chunks[j].memory in outstanding && outstanding[chunks[j].memory] == chunks[j].bytes
      && chunks[j].header in outstanding && outstanding[chunks[j].header] == HEADER_BYTES
  }

  ghost predicate OfChunk(chunks: seq<Chunk>, p: Addr)
  {
    exists j :: 0 <= j < |chunks| && (p == chunks[j].memory || p == chunks[j].header)
  }

  /** What is outstanding is the chunks and their headers, and what others hold: no chunk leaks, none is shared. */
  ghost predicate Accounted(chunks: seq<Chunk>, outstanding: map<Addr, nat>, others: set<Addr>)
  {
    && Memories(chunks) && Backs(chunks, outstanding)
    && (forall p :: p in outstanding <==> p in others || OfChunk(chunks, p))
    && (forall p :: p in others ==> !OfChunk(chunks, p))
  }

  lemma AccountedIsSeparate(chunks: seq<Chunk>, outstanding: map<Addr, nat>)
    requires Memories(chunks) && Backs(chunks, outstanding) && Apart(outstanding)
    ensures Separate(chunks)
  {
    forall i, j | 0 <= i < j < |chunks|
      ensures chunks[i].memory + chunks[i].bytes <= chunks[j].memory || chunks[j].memory + chunks[j].bytes <= chunks[i].memory
    {
      var p, q := chunks[i].memory, chunks[j].memory;
      assert p in outstanding && q in outstanding && p != q;
    }
  }

  lemma OfMore(chunks: seq<Chunk>, ch: Chunk, p: Addr)
    ensures OfChunk([ch] + chunks, p) <==> p == ch.memory || p == ch.header || OfChunk(chunks, p)
  {
    var more := [ch] + chunks;
    assert more[0] == ch;
    if OfChunk(chunks, p) {
      var j :| 0 <= j < |chunks| && (p == chunks[j].memory || p == chunks[j].header);
      assert more[j + 1] == chunks[j];
    }
    if OfChunk(more, p) {
      var j :| 0 <= j < |more| && (p == more[j].memory || p == more[j].header);
      assert j > 0 ==> more[j] == chunks[j - 1];
    }
  }

  lemma OfLess(chunks: seq<Chunk>, j: nat, p: Addr)
    requires Memories(chunks) && j < |chunks|
    ensures OfChunk(chunks[..j] + chunks[j + 1..], p) <==> OfChunk(chunks, p) && p != chunks[j].memory && p != chunks[j].header
  {
    var ch, left := chunks[j], chunks[..j] + chunks[j + 1..];
    if OfChunk(chunks, p) && p != ch.memory && p != ch.header {
      var i :| 0 <= i < |chunks| && (p == chunks[i].memory || p == chunks[i].header);
      Kept(chunks, j, i);
    }
    if OfChunk(left, p) {
      var i :| 0 <= i < |left| && (p == left[i].memory || p == left[i].header);
      var i' := if i < j then i else i + 1;
      assert left[i] == chunks[i'];
    }
  }

  lemma MemoriesAdd(chunks: seq<Chunk>, ch: Chunk)
    requires Memories(chunks) && ch.memory != ch.header && !OfChunk(chunks, ch.memory) && !OfChunk(chunks, ch.header)
    ensures Memories([ch] + chunks)
  {
    var more := [ch] + chunks;
    forall j | 0 <= j < |chunks|
      ensures more[j + 1] == chunks[j]
      ensures chunks[j].memory != ch.memory && chunks[j].memory != ch.header && chunks[j].header != ch.memory
                && chunks[j].header != ch.header
    {
    }
    forall i, j | 0 <= i < |more| && 0 <= j < |more|
      ensures more[i].memory != more[j].header && (i < j ==> more[i].memory != more[j].memory && more[i].header != more[j].header)
    {
      assert i > 0 ==> more[i] == chunks[i - 1];
      assert j > 0 ==> more[j] == chunks[j - 1];
    }
  }

  lemma MemoriesRemove(chunks: seq<Chunk>, j: nat)
    requires Memories(chunks) && j < |chunks|
    ensures Memories(chunks[..j] + chunks[j + 1..])
  {
    var left := chunks[..j] + chunks[j + 1..];
    forall i | 0 <= i < |left|
      ensures left[i] == chunks[if i < j then i else i + 1]
    {
    }
  }

  lemma BacksRemove(chunks: seq<Chunk>, outstanding: map<Addr, nat>, j: nat)
    requires Memories(chunks) && Backs(chunks, outstanding) && j < |chunks|
    ensures Backs(chunks[..j] + chunks[j + 1..], outstanding - {chunks[j].memory} - {chunks[j].header})
  {
    var left := chunks[..j] + chunks[j + 1..];
    forall i | 0 <= i < |left|
      ensures left[i] == chunks[if i < j then i else i + 1]
    {
    }
  }

  lemma AccountedAdd(chunks: seq<Chunk>, outstanding: map<Addr, nat>, others: set<Addr>, ch: Chunk)
    requires Accounted(chunks, outstanding, others) && ch.memory in others && ch.header in others && ch.memory != ch.header
    requires outstanding[ch.memory] == ch.bytes && outstanding[ch.header] == HEADER_BYTES
    ensures Accounted([ch] + chunks, outstanding, others - {ch.memory, ch.header})
  {
    hide OfChunk, Memories;
    MemoriesAdd(chunks, ch);
    forall p
      ensures OfChunk([ch] + chunks, p) <==> p == ch.memory || p == ch.header || OfChunk(chunks, p)
    {
      OfMore(chunks, ch, p);
    }
  }

  lemma AccountedRemove(chunks: seq<Chunk>, outstanding: map<Addr, nat>, others: set<Addr>, j: nat)
    requires Accounted(chunks, outstanding, others) && j < |chunks|
    ensures var ch := chunks[j];
            && ch.memory in outstanding && ch.header in outstanding && ch.memory != ch.header
            && outstanding[ch.memory] == ch.bytes && outstanding[ch.header] == HEADER_BYTES
            && ch.memory !in others && ch.header !in others
            && Accounted(chunks[..j] + chunks[j + 1..], outstanding - {ch.memory} - {ch.header}, others)
  {
    hide OfChunk;
    var left := chunks[..j] + chunks[j + 1..];
    MemoriesRemove(chunks, j);
    BacksRemove(chunks, outstanding, j);
    forall p
      ensures OfChunk(left, p) <==> OfChunk(chunks, p) && p != chunks[j].memory && p != chunks[j].header
    {
      OfLess(chunks, j, p);
    }
    OfItself(chunks, j);
  }

  lemma OfItself(chunks: seq<Chunk>, j: nat)
    requires j < |chunks|
    ensures OfChunk(chunks, chunks[j].memory) && OfChunk(chunks, chunks[j].header)
  {
  }

  lemma {:induction false} ReservedWithout(chunks: seq<Chunk>, j: nat)
    requires j < |chunks|
    ensures Reserved(chunks) == chunks[j].bytes + Reserved(chunks[..j] + chunks[j + 1..])
    decreases |chunks|
  {
    if j == 0 {
      assert chunks[..0] + chunks[1..] == chunks[1..];
    } else {
      ReservedWithout(chunks[1..], j - 1);
      assert (chunks[..j] + chunks[j + 1..])[1..] == chunks[1..][..j - 1] + chunks[1..][j..];
    }
  }

  // ---------- the pool ----------

  function NoLists(): (r: seq<seq<Addr>>)
    ensures |r| == CLASS_COUNT && forall k :: 0 <= k < |r| ==> r[k] == []
  {
    seq(CLASS_COUNT, _ => [])
  }

  /** There is no block of this size to hand out. */
  ghost predicate NoneFree(lists: seq<seq<Addr>>, size: nat)
  {
    forall k :: 0 <= k < |lists| && size <= LARGEST_CLASS && Smallest(size, k) ==> lists[k] == []
  }

  class SlabPool {
    const memory: MemoryResource
    var freeLists: seq<seq<Addr>>   // by class, the next block to hand out first
    var chunks: seq<Chunk>          // the newest first
    var reserved: nat
    ghost var live: map<Addr, nat>  // the small blocks handed out, and their classes
    ghost var others: set<Addr>     // the regions that do not belong to a chunk

    ghost predicate Valid()
      reads this, memory
    {
      && memory.Valid() && |freeLists| == CLASS_COUNT
      && Accounted(chunks, memory.outstanding, others)
      && Partition(chunks, freeLists, live) && reserved == Reserved(chunks)
    }

    constructor (memory: MemoryResource)
      requires memory.Valid()
      ensures Valid() && this.memory == memory && live == map[] && chunks == [] && others == memory.outstanding.Keys
    {
      hide MemoryResource.Valid;
      this.memory := memory;
      freeLists, chunks, reserved := NoLists(), [], 0;
      live, others := map[], memory.outstanding.Keys;
    }

    /** One wholly free chunk leaves the free list, the chunk list and the budget. */
    method Discard(j: nat)
      requires Valid() && j < |chunks| && !InUse(chunks[j], live)
      modifies this, memory
      ensures Valid() && live == old(live) && others == old(others) && memory.used <= old(memory.used)
      ensures chunks == old(chunks)[..j] + old(chunks)[j + 1..]
      ensures forall q :: q in old(others) && q in old(memory.outstanding) ==>
                q in memory.outstanding && memory.outstanding[q] == old(memory.outstanding)[q]
    {
      hide MemoryResource.Valid, Accounted, Partition, Separate, Reserved, InUse, Outside;
      var ch := chunks[j];
      PoolIsSeparate(this);
      ClassInRange(chunks, freeLists, live, j);
      ChunkRemoved(chunks, freeLists, live, j);
      AccountedRemove(chunks, memory.outstanding, others, j);
      ReservedWithout(chunks, j);
      var left := Unthread(freeLists[ch.index], ch);
      freeLists := freeLists[ch.index := left];
      chunks := chunks[..j] + chunks[j + 1..];
      reserved := reserved - ch.bytes;
      memory.Give(ch.memory, ch.bytes);
      memory.Give(ch.header, HEADER_BYTES);
    }

    /** `reclaim`: exactly the wholly free chunks go back; live blocks do not move. */
    method Reclaim()
      requires Valid()
      modifies this, memory
      ensures Valid() && live == old(live) && others == old(others) && memory.used <= old(memory.used)
      ensures forall ch :: ch in chunks <==> ch in old(chunks) && InUse(ch, live)
      ensures forall q :: q in old(others) && q in old(memory.outstanding) ==>
                q in memory.outstanding && memory.outstanding[q] == old(memory.outstanding)[q]
    {
      hide MemoryResource.Valid, Accounted, Partition, Separate, Reserved, Inside, BlockCount, InUse;
      var j := 0;
      while j < |chunks|
        invariant Valid() && live == old(live) && others == old(others) && memory.used <= old(memory.used)
        invariant j <= |chunks| && forall i :: 0 <= i < j ==> InUse(chunks[i], live)
        invariant forall ch :: ch in chunks ==> ch in old(chunks)
        invariant forall ch :: ch in old(chunks) && InUse(ch, live) ==> ch in chunks
        invariant forall q :: q in old(others) && q in old(memory.outstanding) ==>
                    q in memory.outstanding && memory.outstanding[q] == old(memory.outstanding)[q]
        decreases |chunks| - j
      {
        var ch := chunks[j];
        PoolIsSeparate(this);
        ClassInRange(chunks, freeLists, live, j);
        var count := CountFree(freeLists[ch.index], ch);
        WhollyFree(chunks, freeLists, live, j);
        if count != BlockCount(ch) {
          j := j + 1;
        } else {
          LeftOver(chunks, j);
          Discard(j);
        }
      }
    }

    /** `do_allocate` with the pool's reclaim installed: short of budget, it first gives back what it can. */
    method Obtain(bytes: nat, world: World) returns (p: Addr)
      requires Valid() && memory.limit == world.limit
      modifies this, memory, world`asked, world`shortages
      ensures if p != 0 then Fine(old(world.Dealt()), world.Dealt()) else Denied(old(world.Dealt()), world.Dealt())
      ensures !world.memory(old(world.asked)) ==> p == 0
      ensures Valid() && live == old(live)
      ensures p == 0 ==> others == old(others)
      ensures p != 0 ==>
                p !in old(others) && others == old(others) + {p} && p in memory.outstanding && memory.outstanding[p] == bytes
      ensures forall q :: q in old(others) && q in old(memory.outstanding) ==>
                q in memory.outstanding && memory.outstanding[q] == old(memory.outstanding)[q]
    {
      hide Nodes.Total, Apart, Accounted, Partition, Reserved, InUse;
      if memory.Short(bytes) {
        Reclaim();
      }
      ghost var before := memory.outstanding;
      p := memory.Take(bytes, world);
      if p != 0 {
        AccountedOther(chunks, before, others, p, bytes);
        others := others + {p};
      }
    }

    /** `deallocate` of a region that does not belong to a chunk. */
    method Return(p: Addr, bytes: nat)
      requires Valid() && p in others && p in memory.outstanding && memory.outstanding[p] == bytes
      modifies this, memory
      ensures Valid() && live == old(live) && others == old(others) - {p} && chunks == old(chunks) && freeLists == old(freeLists)
      ensures memory.outstanding == old(memory.outstanding) - {p}
    {
      hide MemoryResource.Valid, Accounted, Partition, Reserved;
      AccountedReturn(chunks, memory.outstanding, others, p);
      memory.Give(p, bytes);
      others := others - {p};
    }

    /** `add_chunk`: both allocations may reclaim, and the second may fail, before the chunk exists. */
    method AddChunk(index: nat, world: World) returns (ok: bool)
      requires Valid() && index < CLASS_COUNT && memory.limit == world.limit
      modifies this, memory, world`asked, world`shortages
      ensures Valid() && live == old(live) && others == old(others) && (ok ==> freeLists[index] != [])
      ensures if ok then Fine(old(world.Dealt()), world.Dealt()) else Denied(old(world.Dealt()), world.Dealt())
      ensures !world.memory(old(world.asked)) ==> !ok
      ensures forall q :: q in old(others) && q in old(memory.outstanding) && q in others ==>
                q in memory.outstanding && memory.outstanding[q] == old(memory.outstanding)[q]
    {
      hide Valid, ClassSize, InUse, BlockCount;
      var block := ClassSize(index);
      var bytes: int, wanted: int := CHUNK_BYTES, block * 16;
      while bytes < wanted
        invariant bytes > 0
        decreases wanted - bytes
      {
        bytes := bytes * 2;
      }
      var region := Obtain(bytes, world);
      if region == 0 {
        return false;
      }
      var header := Obtain(HEADER_BYTES, world);
      if header == 0 {
        RegionStays(this, region, bytes);
        Return(region, bytes);
        return false;
      }
      RegionStays(this, region, bytes);
      Carve(Chunk(region, bytes, index, header));
      ok := true;
    }

    /** The chunk is listed and its blocks are threaded onto the free list one by one. */
    method Carve(ch: Chunk)
      requires Valid() && ch.index < CLASS_COUNT && ch.bytes >= ClassSize(ch.index) * 16
      requires ch.memory in others && ch.header in others && ch.memory != ch.header
      requires ch.memory in memory.outstanding && memory.outstanding[ch.memory] == ch.bytes
      requires ch.header in memory.outstanding && memory.outstanding[ch.header] == HEADER_BYTES
      modifies this
      ensures Valid() && live == old(live) && others == old(others) - {ch.memory, ch.header} && freeLists[ch.index] != []
    {
      hide Nodes.Total, Apart, Accounted, Partition, ClassSize, BlockCount, BlockAt, Carved, Separate;
      AccountedAdd(chunks, memory.outstanding, others, ch);
      SeparateAfter([ch] + chunks, memory.outstanding, others - {ch.memory, ch.header});
      ChunkAdded(chunks, freeLists, live, ch);
      assert ([ch] + chunks)[1..] == chunks;
      chunks := [ch] + chunks;
      others := others - {ch.memory, ch.header};
      reserved := reserved + ch.bytes;
      SomeBlocks(ch);
      var list := Thread(ch, freeLists[ch.index]);
      freeLists := freeLists[ch.index := list];
    }

    /** `allocate`: a block nobody holds, of the smallest class that fits, or a region of its own. */
    method Allocate(size: nat, world: World) returns (p: Addr)
      requires Valid() && memory.limit == world.limit
      modifies this, memory, world`asked, world`shortages
      ensures if p != 0 then Fine(old(world.Dealt()), world.Dealt()) else Denied(old(world.Dealt()), world.Dealt())
      ensures old(NoneFree(freeLists, size)) && !world.memory(old(world.asked)) ==> p == 0
      ensures forall q :: q in old(others) && q in old(memory.outstanding) && q in others ==>
                q in memory.outstanding && memory.outstanding[q] == old(memory.outstanding)[q]
      ensures Valid()
      ensures p == 0 ==> live == old(live) && others == old(others)
      ensures p != 0 && size <= LARGEST_CLASS ==>
                p !in old(live) && p in live && live == old(live)[p := live[p]] && Smallest(size, live[p])
                  && others == old(others)
      ensures p != 0 && size > LARGEST_CLASS ==>
                && live == old(live) && others == old(others) + {p} && p !in old(others)
                && p in memory.outstanding && memory.outstanding[p] == size
    {
      hide Nodes.Total, Apart, Accounted, Partition, Reserved, Separate;
      if size > LARGEST_CLASS {
        p := Obtain(size, world);
        return;
      }
      var index := ClassIndex(size);
      if freeLists[index] == [] {
        var ok := AddChunk(index, world);
        if !ok {
          return 0;
        }
      }
      PoolIsSeparate(this);
      Popped(chunks, freeLists, live, index);
      FreeIsNotNull(this, index);
      p := freeLists[index][0];
      freeLists := freeLists[index := freeLists[index][1..]];
      live := live[p := index];
    }

    /** `deallocate`: a block goes back to the list of its class. */
    method Deallocate(p: Addr, size: nat)
      requires Valid()
      requires p != 0 && size <= LARGEST_CLASS ==> p in live && Smallest(size, live[p])
      requires p != 0 && size > LARGEST_CLASS ==> p in others && p in memory.outstanding && memory.outstanding[p] == size
      modifies this, memory
      ensures Valid()
      ensures p == 0 ==> live == old(live) && others == old(others)
      ensures p != 0 && size <= LARGEST_CLASS ==>
                live == old(live) - {p} && others == old(others) && memory.used == old(memory.used)
      ensures p != 0 && size > LARGEST_CLASS ==> live == old(live) && others == old(others) - {p}
      ensures |freeLists| == |old(freeLists)|
                && forall k :: 0 <= k < |freeLists| && (size <= LARGEST_CLASS ==> !Smallest(size, k)) ==>
                     freeLists[k] == old(freeLists)[k]
      ensures forall q :: q in old(others) && q in old(memory.outstanding) && q in others ==>
                q in memory.outstanding && memory.outstanding[q] == old(memory.outstanding)[q]
    {
      hide Nodes.Total, Apart, Accounted, Partition, Reserved, Separate;
      if p == 0 {
        return;
      }
      if size > LARGEST_CLASS {
        Return(p, size);
        return;
      }
      var index := ClassIndex(size);
      SmallestUnique(size, index, live[p]);
      PoolIsSeparate(this);
      Pushed(chunks, freeLists, live, p);
      freeLists := freeLists[index := [p] + freeLists[index]];
      live := live - {p};
    }

    /** `release`: every chunk goes back, whatever was on it. */
    method Release()
      requires Valid()
      modifies this, memory
      ensures Valid() && chunks == [] && reserved == 0 && live == map[] && others == old(others)
      ensures memory.outstanding.Keys == others
    {
      hide MemoryResource.Valid, Accounted, Reserved, Partition;
      live := map[];
      while chunks != []
        invariant memory.Valid() && live == map[] && others == old(others)
        invariant Accounted(chunks, memory.outstanding, others)
        decreases |chunks|
      {
        var ch := chunks[0];
        AccountedRemove(chunks, memory.outstanding, others, 0);
        assert chunks[..0] + chunks[1..] == chunks[1..];
        chunks := chunks[1..];
        memory.Give(ch.memory, ch.bytes);
        memory.Give(ch.header, HEADER_BYTES);
      }
      freeLists := NoLists();
      reserved := 0;
      NoChunks(memory.outstanding, others);
    }
  }

  lemma LeftOver(chunks: seq<Chunk>, j: nat)
    requires j < |chunks|
    ensures forall ch :: ch in chunks[..j] + chunks[j + 1..] ==> ch in chunks
    ensures forall ch :: ch in chunks && ch != chunks[j] ==> ch in chunks[..j] + chunks[j + 1..]
  {
    forall ch | ch in chunks && ch != chunks[j]
      ensures ch in chunks[..j] + chunks[j + 1..]
    {
      var i :| 0 <= i < |chunks| && chunks[i] == ch;
      Kept(chunks, j, i);
    }
  }

  lemma AccountedOther(chunks: seq<Chunk>, outstanding: map<Addr, nat>, others: set<Addr>, p: Addr, bytes: nat)
    requires Accounted(chunks, outstanding, others) && p !in outstanding
    ensures Accounted(chunks, outstanding[p := bytes], others + {p}) && p !in others
  {
    hide Memories, OfChunk;
  }

  lemma AccountedReturn(chunks: seq<Chunk>, outstanding: map<Addr, nat>, others: set<Addr>, p: Addr)
    requires Accounted(chunks, outstanding, others) && p in others
    ensures Accounted(chunks, outstanding - {p}, others - {p})
  {
    hide Memories;
    forall j | 0 <= j < |chunks|
      ensures chunks[j].memory != p && chunks[j].header != p
    {
      OfItself(chunks, j);
    }
  }

  lemma RegionStays(pool: SlabPool, p: Addr, bytes: nat)
    requires pool.Valid() && p in pool.others
    ensures p in pool.memory.outstanding
  {
    hide Partition, MemoryResource.Valid, Reserved, Memories, Backs, OfChunk;
  }

  lemma SeparateAfter(chunks: seq<Chunk>, outstanding: map<Addr, nat>, others: set<Addr>)
    requires Accounted(chunks, outstanding, others) && Apart(outstanding)
    ensures Separate(chunks)
  {
    hide OfChunk;
    AccountedIsSeparate(chunks, outstanding);
  }

  lemma SomeBlocks(ch: Chunk)
    requires ch.bytes >= ClassSize(ch.index) * 16
    ensures BlockCount(ch) > 0 && |Carved(ch, BlockCount(ch))| > 0
  {
    hide ClassSize, Carved;
  }

  lemma FreeIsNotNull(pool: SlabPool, k: nat)
    requires pool.Valid() && k < |pool.freeLists| && pool.freeLists[k] != []
    ensures pool.freeLists[k][0] != 0
  {
    hide Nodes.Total, Apart, Reserved, EachOnce, LiveOk, Covered, IsBlock, OfChunk, Memories;
    var a := pool.freeLists[k][0];
    assert a in pool.freeLists[k] && InPool(pool.chunks, k, a);
    var j :| 0 <= j < |pool.chunks| && pool.chunks[j].index == k && IsBlock(pool.chunks[j], a);
    BlockWithin(pool.chunks[j], a);
    assert pool.chunks[j].memory in pool.memory.outstanding;
  }

  lemma NoChunks(outstanding: map<Addr, nat>, others: set<Addr>)
    requires Accounted([], outstanding, others)
    ensures outstanding.Keys == others && Partition([], NoLists(), map[]) && Reserved([]) == 0
  {
  }

  lemma PoolIsSeparate(pool: SlabPool)
    requires pool.Valid()
    ensures Separate(pool.chunks)
  {
    hide Partition, Nodes.Total, Reserved;
    AccountedIsSeparate(pool.chunks, pool.memory.outstanding);
  }

  lemma LiveInside(chunks: seq<Chunk>, free: seq<seq<Addr>>, live: map<Addr, nat>, a: Addr) returns (j: nat)
    requires LiveOk(chunks, free, live) && a in live
    ensures j < |chunks| && chunks[j].memory <= a && a + ClassSize(live[a]) <= chunks[j].memory + chunks[j].bytes
  {
    hide ClassSize, BlockAt, BlockCount;
    j :| 0 <= j < |chunks| && chunks[j].index == live[a] && IsBlock(chunks[j], a);
    var i: nat :| i < BlockCount(chunks[j]) && a == BlockAt(chunks[j], i);
    BlockInside(chunks[j], i);
  }

  lemma RegionApart(chunks: seq<Chunk>, outstanding: map<Addr, nat>, others: set<Addr>, j: nat, q: Addr)
    requires Accounted(chunks, outstanding, others) && Apart(outstanding) && j < |chunks| && q in others
    ensures q in outstanding
    ensures chunks[j].memory + chunks[j].bytes <= q || q + outstanding[q] <= chunks[j].memory
  {
    hide Memories, OfChunk;
    OfItself(chunks, j);
    assert chunks[j].memory in outstanding && outstanding[chunks[j].memory] == chunks[j].bytes && chunks[j].memory != q;
  }

  /** In every state of the pool, no two live blocks overlap, and no live block overlaps a region others hold. */
  lemma LiveMemoryApart(pool: SlabPool, a: Addr, b: Addr)
    requires pool.Valid() && a in pool.live
    ensures b in pool.live && b != a ==> a + ClassSize(pool.live[a]) <= b || b + ClassSize(pool.live[b]) <= a
    ensures b in pool.others ==>
              b in pool.memory.outstanding && (a + ClassSize(pool.live[a]) <= b || b + pool.memory.outstanding[b] <= a)
  {
    hide ClassSize, Nodes.Total, Reserved, Accounted, Apart, EachOnce, FreeOk, Covered, LiveOk, Separate;
    PoolIsSeparate(pool);
    if b in pool.live && b != a {
      LiveBlocksApart(pool.chunks, pool.freeLists, pool.live, a, b);
    }
    if b in pool.others {
      var j := LiveInside(pool.chunks, pool.freeLists, pool.live, a);
      RegionApart(pool.chunks, pool.memory.outstanding, pool.others, j, b);
    }
  }

  lemma ClassInRange(chunks: seq<Chunk>, free: seq<seq<Addr>>, live: map<Addr, nat>, j: nat)
    requires Partition(chunks, free, live) && j < |chunks|
    ensures chunks[j].index < |free|
  {
    hide EachOnce, FreeOk, LiveOk, IsBlock;
  }

  method Thread(ch: Chunk, before: seq<Addr>) returns (list: seq<Addr>)
    ensures list == Carved(ch, BlockCount(ch)) + before
  {
    hide BlockAt, BlockCount, Carved;
    list := before;
    assert Carved(ch, 0) == [];
    for offset := 0 to BlockCount(ch)
      invariant list == Carved(ch, offset) + before
    {
      CarvedNext(ch, offset);
      list := [BlockAt(ch, offset)] + list;
    }
  }

  method CountFree(list: seq<Addr>, ch: Chunk) returns (n: nat)
    ensures n == |Inside(list, ch)|
  {
    n := 0;
    assert list[..0] == [];
    for i := 0 to |list|
      invariant n == |Inside(list[..i], ch)|
    {
      assert list[..i + 1][..i] == list[..i];
      if Within(list[i], ch) {
        n := n + 1;
      }
    }
    assert list[..|list|] == list;
  }

  /** The list without the blocks of the chunk. */
  method Unthread(list: seq<Addr>, ch: Chunk) returns (left: seq<Addr>)
    ensures left == Outside(list, ch)
  {
    left := [];
    assert list[..0] == [];
    for i := 0 to |list|
      invariant left == Outside(list[..i], ch)
    {
      assert list[..i + 1][..i] == list[..i];
      if !Within(list[i], ch) {
        left := left + [list[i]];
      }
    }
    assert list[..|list|] == list;
  }
}
