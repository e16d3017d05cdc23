/** A list as one sliding run of packed elements, src/database.cpp:334-344 and 630-835. */
module PackedList {
  import opened Bytes
  import opened Pack
  import opened Keyspace
  import opened SizeClasses

  /** The width of the run's head, its used count and its capacity; every operation on them is checked not to wrap. */
  newtype u32 = x: int | 0 <= x < 0x1_0000_0000

  const MAX_CAPACITY: nat := 2 * LIMIT

  // ---------- the bytes of a list ----------

  function EncodeItems(items: seq<Element>): (s: Bytes)
    ensures |s| == UsedBytes(items)
  {
    if items == [] then [] else Encode(items[0]) + EncodeItems(items[1..])
  }

  lemma {:induction false} EncodeItemsConcat(a: seq<Element>, b: seq<Element>)
    ensures EncodeItems(a + b) == EncodeItems(a) + EncodeItems(b)
    decreases |a|
  {
    hide Encode, UsedBytes;
    if a == [] {
      assert a + b == b;
    } else {
      EncodeItemsConcat(a[1..], b);
      assert (a + b)[1..] == a[1..] + b;
      Assoc(Encode(a[0]), EncodeItems(a[1..]), EncodeItems(b));
    }
  }

  lemma EncodeOne(e: Element)
    ensures EncodeItems([e]) == Encode(e)
  {
    hide Encode;
    assert EncodeItems([e]) == Encode(e) + EncodeItems([]);
  }

  /** The element at the front of a run, as `stride` and `decode` see it. */
  lemma ReadFirst(e: Element, rest: Bytes)
    requires Packable(e)
    ensures var p := Encode(e) + rest;
            Readable(p) && Decode(p) == e && Stride(p) == EncodedSize(e)
  {
    hide EncodeBody, EncodeBacklen, Decode, Readable, ElementSize, BodySize, BacklenBytes;
    BodyFits(e);
    var tail := EncodeBacklen(BodySize(e));
    DecodeEncoded(e, tail + rest);
    Assoc(EncodeBody(e), tail, rest);
  }

  /** The element at the back of a run, as the backward walk sees it. */
  lemma ReadLast(before: Bytes, e: Element)
    requires Packable(e)
    ensures var p := before + Encode(e);
            && (exists i :: 0 <= i < |p| && p[i] < 128)
            && Backlen(p) == BodySize(e)
            && Backlen(p) + BacklenBytes(Backlen(p)) == EncodedSize(e)
  {
    hide EncodeBody, EncodeBacklen, Backlen, BacklenBytes, BodySize;
    BodyFits(e);
    var tail := EncodeBacklen(BodySize(e));
    Assoc(before, EncodeBody(e), tail);
    assert before + Encode(e) == before + EncodeBody(e) + tail;
    BacklenRead(before + EncodeBody(e), BodySize(e));
  }

  lemma BodyFits(e: Element)
    requires Packable(e)
    ensures BodySize(e) < 0x8_0000_0000
  {
  }

  lemma SplitItems(items: seq<Element>, k: nat)
    requires k <= |items|
    ensures EncodeItems(items) == EncodeItems(items[..k]) + EncodeItems(items[k..])
    ensures UsedBytes(items) == UsedBytes(items[..k]) + UsedBytes(items[k..])
  {
    hide EncodeItems, UsedBytes;
    assert items == items[..k] + items[k..];
    EncodeItemsConcat(items[..k], items[k..]);
    UsedBytesConcat(items[..k], items[k..]);
  }

  lemma FirstItem(items: seq<Element>)
    requires items != []
    ensures EncodeItems(items) == Encode(items[0]) + EncodeItems(items[1..])
    ensures UsedBytes(items) == EncodedSize(items[0]) + UsedBytes(items[1..])
  {
  }

  lemma LastItem(items: seq<Element>)
    requires items != []
    ensures var m := |items| - 1;
            && EncodeItems(items) == EncodeItems(items[..m]) + Encode(items[m])
            && UsedBytes(items) == UsedBytes(items[..m]) + EncodedSize(items[m])
  {
    hide EncodeItems, Encode, EncodedSize;
    var m := |items| - 1;
    SplitItems(items, m);
    assert items[m..] == [items[m]];
    EncodeOne(items[m]);
  }

  /**
    * Forward strides and backward back-lengths meet at the same boundaries: at the k-th boundary of the
    * run, one step forward from it and one step back from the next both cover exactly element k.
    */
  lemma BoundariesAgree(items: seq<Element>, k: nat)
    requires AllPackable(items) && k < |items|
    ensures var at, next := UsedBytes(items[..k]), UsedBytes(items[..k + 1]);
            && at < next <= |EncodeItems(items)|
            && var forward, backward := EncodeItems(items)[at..], EncodeItems(items)[..next];
            && Readable(forward) && Decode(forward) == items[k] && at + Stride(forward) == next
            && (exists i :: 0 <= i < |backward| && backward[i] < 128)
            && next - (Backlen(backward) + BacklenBytes(Backlen(backward))) == at
  {
    hide EncodeItems, UsedBytes, Encode, EncodedSize, Decode, Readable, Stride, Backlen, BacklenBytes, Packable;
    var s := EncodeItems(items);
    SplitItems(items, k);
    SplitItems(items, k + 1);
    var tail := items[k..];
    assert tail[0] == items[k] && tail[1..] == items[k + 1..];
    FirstItem(tail);
    assert s[UsedBytes(items[..k])..] == EncodeItems(tail);
    ReadFirst(items[k], EncodeItems(items[k + 1..]));
    var upto := items[..k + 1];
    assert upto[..k] == items[..k] && upto[k] == items[k];
    LastItem(upto);
    assert s[..UsedBytes(upto)] == EncodeItems(upto);
    ReadLast(EncodeItems(items[..k]), items[k]);
  }

  // ---------- the run inside its block ----------

  /** The block with `s` written at `at`. */
  function Splice(block: Bytes, at: nat, s: Bytes): (r: Bytes)
    requires at + |s| <= |block|
    ensures |r| == |block|
  {
    block[..at] + s + block[at + |s|..]
  }

  lemma SpliceAt(block: Bytes, at: nat, s: Bytes, from: nat, to: nat)
    requires at + |s| <= |block| && from <= to <= |block|
    ensures Splice(block, at, s)[at..at + |s|] == s
    ensures to <= at || at + |s| <= from ==> Splice(block, at, s)[from..to] == block[from..to]
  {
    var r := Splice(block, at, s);
    assert r == block[..at] + (s + block[at + |s|..]);
    assert forall i :: 0 <= i < |s| ==> r[at + i] == s[i];
    assert forall i :: 0 <= i < |block| && (i < at || i >= at + |s|) ==> r[i] == block[i];
  }

  /** The `used` bytes at `head` are the packed elements. */
  ghost predicate Holds(block: Bytes, head: nat, used: nat, items: seq<Element>)
  {
    && AllPackable(items) && used == UsedBytes(items)
    && head + used <= |block| && block[head..head + used] == EncodeItems(items)
  }

  /** `memmove` of the run within the block. */
  lemma HoldsSlide(block: Bytes, head: nat, used: nat, items: seq<Element>, to: nat)
    requires Holds(block, head, used, items) && to + used <= |block|
    ensures Holds(Splice(block, to, block[head..head + used]), to, used, items)
  {
    hide EncodeItems, UsedBytes, AllPackable, Splice;
    SpliceAt(block, to, block[head..head + used], 0, 0);
  }

  /** The bytes of one block copied to the start of another. */
  lemma HoldsCopy(block: Bytes, head: nat, used: nat, items: seq<Element>, other: Bytes, n: nat)
    requires Holds(block, head, used, items) && head + used <= n <= |block| && n <= |other|
    ensures Holds(Splice(other, 0, block[..n]), head, used, items)
  {
    hide EncodeItems, UsedBytes, AllPackable, Splice;
    var r := Splice(other, 0, block[..n]);
    SpliceAt(other, 0, block[..n], 0, 0);
    assert r[0..n] == r[..n];
    SliceOfPrefix(r, n, head, head + used);
    SliceOfPrefix(block, n, head, head + used);
  }

  lemma HoldsPushFront(block: Bytes, head: nat, used: nat, items: seq<Element>, e: Element)
    requires Holds(block, head, used, items) && Packable(e) && EncodedSize(e) <= head
    ensures var at := head - EncodedSize(e);
            Holds(Splice(block, at, Encode(e)), at, used + EncodedSize(e), [e] + items)
  {
    hide EncodeItems, UsedBytes, AllPackable, Splice, Encode, EncodedSize, Packable;
    var n := EncodedSize(e);
    var r := Splice(block, head - n, Encode(e));
    SpliceAt(block, head - n, Encode(e), head, head + used);
    SlicesMeet(r, head - n, head, head + used);
    PushedRun(items, e);
  }

  lemma HoldsPushBack(block: Bytes, head: nat, used: nat, items: seq<Element>, e: Element)
    requires Holds(block, head, used, items) && Packable(e) && head + used + EncodedSize(e) <= |block|
    ensures Holds(Splice(block, head + used, Encode(e)), head, used + EncodedSize(e), items + [e])
  {
    hide EncodeItems, UsedBytes, AllPackable, Splice, Encode, EncodedSize, Packable;
    var n := EncodedSize(e);
    var r := Splice(block, head + used, Encode(e));
    SpliceAt(block, head + used, Encode(e), head, head + used);
    SlicesMeet(r, head, head + used, head + used + n);
    PushedRun(items, e);
  }

  lemma SlicesMeet(s: Bytes, from: nat, mid: nat, to: nat)
    requires from <= mid <= to <= |s|
    ensures s[from..to] == s[from..mid] + s[mid..to]
  {
  }

  lemma SuffixMeets(s: Bytes, from: nat, mid: nat)
    requires from <= mid <= |s|
    ensures s[from..] == s[from..mid] + s[mid..]
  {
  }

  /** What popping from the front reads, and the run that is left. */
  lemma HoldsPopFront(block: Bytes, head: nat, used: nat, items: seq<Element>)
    requires Holds(block, head, used, items) && items != []
    ensures Readable(block[head..]) && Decode(block[head..]) == items[0]
    ensures Stride(block[head..]) == EncodedSize(items[0]) <= used
    ensures Holds(block, head + EncodedSize(items[0]), used - EncodedSize(items[0]), items[1..])
  {
    hide EncodeItems, UsedBytes, Encode, EncodedSize, Packable, Decode, Readable, Stride;
    var n := EncodedSize(items[0]);
    FirstItem(items);
    var rest := EncodeItems(items[1..]);
    SuffixMeets(block, head, head + used);
    Assoc(Encode(items[0]), rest, block[head + used..]);
    ReadFirst(items[0], rest + block[head + used..]);
    SlicesMeet(block, head, head + n, head + used);
    assert block[head..head + used][n..] == block[head + n..head + used];
  }

  /** The last item's bytes, and the run before them. */
  lemma LastBytes(block: Bytes, head: nat, used: nat, items: seq<Element>)
    requires Holds(block, head, used, items) && items != []
    ensures var n := EncodedSize(items[|items| - 1]);
            && n <= used && Holds(block, head, used - n, items[..|items| - 1])
            && block[head + used - n..head + used] == Encode(items[|items| - 1]) && Packable(items[|items| - 1])
  {
    hide EncodeItems, UsedBytes, Encode, EncodedSize, Packable;
    var m := |items| - 1;
    var end, n := head + used, EncodedSize(items[m]);
    LastItem(items);
    var front := EncodeItems(items[..m]);
    var content := block[head..end];
    assert content == front + Encode(items[m]);
    assert content[..used - n] == front && content[used - n..] == Encode(items[m]);
    SliceSlice(block, head, end, used - n);
  }

  /** Read backward, the bytes end in the element `last`. */
  ghost predicate EndsIn(before: Bytes, last: Element)
  {
    && (exists i :: 0 <= i < |before| && before[i] < 128)
    && Backlen(before) + BacklenBytes(Backlen(before)) == EncodedSize(last)
  }

  /** Read forward, the bytes begin with it. */
  ghost predicate BeginsWith(after: Bytes, first: Element) { Readable(after) && Decode(after) == first }

  /** What popping from the back reads, walking its back-length, and the run that is left. */
  lemma HoldsPopBack(block: Bytes, head: nat, used: nat, items: seq<Element>)
    requires Holds(block, head, used, items) && items != []
    ensures var n := EncodedSize(items[|items| - 1]);
            && n <= used && head + used <= |block|
            && EndsIn(block[..head + used], items[|items| - 1])
            && BeginsWith(block[head + used - n..], items[|items| - 1])
            && Holds(block, head, used - n, items[..|items| - 1])
  {
    hide EncodeItems, UsedBytes, Encode, EncodedSize, Packable, Decode, Readable, Backlen, BacklenBytes;
    var last := items[|items| - 1];
    var end, n := head + used, EncodedSize(last);
    LastBytes(block, head, used, items);
    SuffixMeets(block, end - n, end);
    ReadFirst(last, block[end..]);
    assert block[..end] == block[..end - n] + block[end - n..end];
    ReadLast(block[..end - n], last);
  }

  // ---------- the list node ----------

  function GrownCapacity(required: u32, current: u32): (capacity: u32)
    requires current < 0x8000_0000
    ensures capacity >= required && capacity >= current
    ensures capacity == required || capacity == 32 || capacity == current * 2
  {
    var least := if required > 32 then required else 32;
    if current != 0 && current * 2 > least then current * 2 else least
  }

  /** Where the run goes in a block of `capacity` bytes: the middle, as far as the room asked for allows. */
  function CentredHead(capacity: u32, used: u32, front: u32, back: u32): (head: u32)
    requires used as int + front as int + back as int <= capacity as int
    ensures front <= head && head as int + used as int + back as int <= capacity as int
  {
    var highest := capacity - used - back;
    var middle := (capacity - used) / 2;
    var low := if middle < front then front else middle;
    if low > highest then highest else low
  }

  lemma SmallIsPackable(e: Element)
    requires EncodedSize(e) <= LIMIT
    ensures Packable(e)
  {
  }

  datatype Outcome = Stored | Oversize | NoMemory

  class ListNode {
    const keyLength: nat
    var run: Bytes      // the run area of the node's block, all of it
    var head: u32
    var used: u32
    var count: u32
    ghost var items: seq<Element>

    ghost predicate Valid()
      reads this
    {
      && Holds(run, head as int, used as int, items)
      && |run| <= MAX_CAPACITY && used as int <= LIMIT && count as int == |items|
    }

    /** A new node with room for `bytes` of run and nothing in it. */
    constructor (keyLength: nat, bytes: nat)
      requires bytes <= LIMIT
      ensures Valid() && items == [] && this.keyLength == keyLength && head == 0 && |run| >= bytes
    {
      this.keyLength := keyLength;
      run := Blank(RunCapacity(keyLength, bytes));
      head, used, count, items := 0, 0, 0, [];
    }

    /** `grow_node` for a longer run: the old block is copied to the start of the new one. */
    method Grow(wanted: u32) returns (ok: bool)
      requires Valid() && |run| < wanted as int <= MAX_CAPACITY
      modifies this`run
      ensures Valid()
      ensures if ok then |run| >= wanted as int else run == old(run)
    {
      hide UsedBytes, EncodeItems, AllPackable, RunCapacity, Splice, Holds;
      HoldsFits(run, head as int, used as int, items);
      var granted: bool := *;
      if !granted {
        return false;
      }
      var larger := Blank(RunCapacity(keyLength, wanted as int));
      HoldsCopy(run, head as int, used as int, items, larger, |run|);
      run := Splice(larger, 0, run[..|run|]);
      ok := true;
    }

    /** Make room for `front` bytes before the run and `back` bytes after it: slide it, or move it to a larger block. */
    method Reserve(front: u32, back: u32) returns (ok: bool)
      requires Valid() && used as int + front as int + back as int <= LIMIT
      modifies this`run, this`head
      ensures Valid()
      ensures ok ==> front <= head && head as int + used as int + back as int <= |run|
      ensures !ok ==> run == old(run) && head == old(head)
    {
      hide UsedBytes, EncodeItems, AllPackable, RunCapacity, Splice, Holds, GrownCapacity, CentredHead;
      HoldsFits(run, head as int, used as int, items);
      var capacity := |run| as u32;
      if head >= front && head + used + back <= capacity {
        return true;
      }
      var required := used + front + back;
      var wanted := if required <= capacity then capacity else GrownCapacity(required, capacity);
      if wanted > capacity {
        var grown := Grow(wanted);
        if !grown {
          return false;
        }
      }
      HoldsFits(run, head as int, used as int, items);
      var to := CentredHead(wanted, used, front, back);
      if to != head && used != 0 {
        HoldsSlide(run, head as int, used as int, items, to as int);
        run := Splice(run, to as int, run[head..head as int + used as int]);
      } else if used == 0 {
        HoldsEmpty(run, head as int, items, to as int);
      }
      head := to;
      ok := true;
    }

    /** `list_push` on an existing list. */
    method Push(e: Element, front: bool) returns (outcome: Outcome)
      requires Valid()
      modifies this
      ensures Valid()
      ensures outcome == Oversize <==> UsedBytes(old(items)) + EncodedSize(e) > LIMIT
      ensures items == if outcome == Stored then PushItems(old(items), [e], front) else old(items)
    {
      hide UsedBytes, EncodeItems, Encode, EncodedSize, Packable, Splice, Holds, PushItems;
      HoldsFits(run, head as int, used as int, items);
      if used as int + EncodedSize(e) > LIMIT {
        return Oversize;
      }
      SmallIsPackable(e);
      var encoded := EncodedSize(e) as u32;
      var useFront := front && count != 0;
      var reserved := Reserve(if useFront then encoded else 0, if useFront then 0 else encoded);
      if !reserved {
        return NoMemory;
      }
      CountFits(items, e);
      PushedItems(items, e);
      HoldsFits(run, head as int, used as int, items);
      if useFront {
        HoldsPushFront(run, head as int, used as int, items, e);
        head := head - encoded;
        run := Splice(run, head as int, Encode(e));
        items := [e] + items;
      } else {
        HoldsPushBack(run, head as int, used as int, items, e);
        run := Splice(run, head as int + used as int, Encode(e));
        items := items + [e];
      }
      used := used + encoded;
      count := count + 1;
      outcome := Stored;
    }

    /** `list_pop`: nothing on an empty list, otherwise the element at that end. */
    method Pop(front: bool) returns (e: Option<Element>)
      requires Valid()
      modifies this
      ensures Valid()
      ensures e.None? <==> old(items) == []
      ensures e.Some? ==> old(items) == if front then [e.value] + items else items + [e.value]
    {
      hide UsedBytes, EncodeItems, Encode, EncodedSize, Packable, Decode, Readable, Stride, Backlen, BacklenBytes, Holds;
      if count == 0 {
        return None;
      }
      HoldsFits(run, head as int, used as int, items);
      ghost var m := |items| - 1;
      assert items == [items[0]] + items[1..];
      assert items == items[..m] + [items[m]];
      if front {
        HoldsPopFront(run, head as int, used as int, items);
        var removed := Stride(run[head..]) as u32;
        e := Some(Decode(run[head..]));
        head, used, items := head + removed, used - removed, items[1..];
      } else {
        HoldsPopBack(run, head as int, used as int, items);
        var end := head as int + used as int;
        var payload := DecodeBacklen(run[..end]);
        var full := payload + BacklenBytes(payload);
        e := Some(Decode(run[end - full..]));
        used, items := used - full as u32, items[..m];
      }
      count := count - 1;
      if count != 0 {
        Shrink();
      }
    }

    /** A large block that is less than a quarter full is exchanged for a small one, if memory allows. */
    method Shrink()
      requires Valid()
      modifies this`run, this`head
      ensures Valid()
    {
      hide UsedBytes, EncodeItems, AllPackable, RunCapacity, Splice, Holds;
      HoldsFits(run, head as int, used as int, items);
      if |run| > LARGEST_CLASS && used as int < |run| / 4 {
        HoldsSlide(run, head as int, used as int, items, 0);
        run := Splice(run, 0, run[head..head as int + used as int]);
        head := 0;
        var granted: bool := *;
        if granted {
          var wanted := if used > 32 then used as int else 32;
          var smaller := Blank(RunCapacity(keyLength, wanted));
          var copied := if |run| < |smaller| then |run| else |smaller|;
          HoldsCopy(run, 0, used as int, items, smaller, copied);
          run := Splice(smaller, 0, run[..copied]);
        }
      }
    }

    /** `push_texts`: one new run with the new elements before or after the old ones, or nothing at all. */
    method PushTexts(texts: seq<Bytes>, front: bool) returns (outcome: Outcome)
      requires Valid()
      modifies this
      ensures Valid()
      ensures texts != [] ==> (outcome == Oversize <==> UsedBytes(old(items)) + UsedBytes(Texts(texts)) > LIMIT)
      ensures items == if outcome == Stored then PushItems(old(items), Texts(texts), front) else old(items)
    {
      hide UsedBytes, EncodeItems, Encode, EncodedSize, RunCapacity, Splice, Holds, PushItems;
      HoldsFits(run, head as int, used as int, items);
      if texts == [] {
        PushNothing(items, front);
        return Stored;
      }
      var fits, bytes := TotalBytes(texts, used as int);
      if !fits {
        return Oversize;
      }
      var granted: bool := *;
      if !granted {
        return NoMemory;
      }
      var encoded := EncodeTexts(texts, front);
      var kept := run[head..head as int + used as int];
      var block := Blank(RunCapacity(keyLength, bytes));
      HoldsPushed(run, head as int, used as int, items, texts, front, block, encoded);
      PushedCount(items, Texts(texts), front);
      run := Splice(block, 0, if front then encoded + kept else kept + encoded);
      head, used, count := 0, bytes as u32, count + |texts| as u32;
      items := PushItems(items, Texts(texts), front);
      outcome := Stored;
    }
  }

  /** A freshly allocated run. */
  function Blank(n: nat): (s: Bytes)
    ensures |s| == n
  {
    seq(n, _ => 0)
  }

  lemma HoldsFits(block: Bytes, head: nat, used: nat, items: seq<Element>)
    requires Holds(block, head, used, items)
    ensures head + used <= |block| && used == UsedBytes(items) && AllPackable(items)
  {
  }

  lemma HoldsEmpty(block: Bytes, head: nat, items: seq<Element>, to: nat)
    requires Holds(block, head, 0, items) && to <= |block|
    ensures Holds(block, to, 0, items)
  {
    assert block[to..to] == block[head..head];
  }

  lemma HoldsPushed(run: Bytes, head: nat, used: nat, items: seq<Element>, texts: seq<Bytes>, front: bool,
                    block: Bytes, encoded: Bytes)
    requires Holds(run, head, used, items) && AllPackable(Texts(texts))
    requires encoded == EncodeItems(if front then Reverse(Texts(texts)) else Texts(texts))
    requires used + UsedBytes(Texts(texts)) <= |block|
    ensures var kept := run[head..head + used];
            var bytes := used + UsedBytes(Texts(texts));
            var pushed := if front then encoded + kept else kept + encoded;
            && |pushed| == bytes
            && Holds(Splice(block, 0, pushed), 0, bytes, PushItems(items, Texts(texts), front))
            && UsedBytes(PushItems(items, Texts(texts), front)) == bytes
  {
    hide EncodeItems, UsedBytes, AllPackable, Splice;
    var more := Texts(texts);
    var kept := run[head..head + used];
    UsedBytesReverse(more);
    PushedBytesOf(items, texts, front);
    if front {
      EncodeItemsConcat(Reverse(more), items);
      SpliceAt(block, 0, encoded + kept, 0, 0);
    } else {
      EncodeItemsConcat(items, more);
      SpliceAt(block, 0, kept + encoded, 0, 0);
    }
  }

  // ---------- the loops of push_texts ----------

  method TotalBytes(texts: seq<Bytes>, start: nat) returns (fits: bool, bytes: nat)
    requires start <= LIMIT
    ensures fits <==> start + UsedBytes(Texts(texts)) <= LIMIT
    ensures fits ==> bytes == start + UsedBytes(Texts(texts)) && AllPackable(Texts(texts))
  {
    hide EncodedSize;
    bytes := start;
    var more := Texts(texts);
    assert more[..0] == [];
    for i := 0 to |texts|
      invariant bytes == start + UsedBytes(more[..i]) <= LIMIT
      invariant forall k :: 0 <= k < i ==> |texts[k]| <= LIMIT
    {
      assert more[..i + 1] == more[..i] + [more[i]];
      UsedBytesConcat(more[..i], [more[i]]);
      assert UsedBytes([more[i]]) == EncodedSize(more[i]) + UsedBytes([]);
      assert more == more[..i + 1] + more[i + 1..];
      UsedBytesConcat(more[..i + 1], more[i + 1..]);
      if |texts[i]| > LIMIT {
        TextLarger(texts[i]);
        return false, bytes;
      }
      bytes := bytes + EncodedSize(more[i]);
      if bytes > LIMIT {
        return false, bytes;
      }
    }
    assert more[..|texts|] == more;
    fits := true;
  }

  lemma TextLarger(text: Bytes)
    ensures EncodedSize(Text(text)) > |text|
  {
  }

  /** The encoded texts, in reverse when they are pushed to the front. */
  method EncodeTexts(texts: seq<Bytes>, front: bool) returns (s: Bytes)
    ensures s == EncodeItems(if front then Reverse(Texts(texts)) else Texts(texts))
  {
    hide Encode;
    var more := Texts(texts);
    s := [];
    assert more[..0] == [];
    if front {
      var i := |texts|;
      while i > 0
        invariant 0 <= i <= |texts| && s == EncodeItems(Reverse(more[i..]))
      {
        i := i - 1;
        assert more[i..][1..] == more[i + 1..];
        assert Reverse(more[i..]) == Reverse(more[i + 1..]) + [more[i]];
        EncodeItemsConcat(Reverse(more[i + 1..]), [more[i]]);
        EncodeOne(more[i]);
        s := s + Encode(more[i]);
      }
      assert more[0..] == more;
    } else {
      for i := 0 to |texts|
        invariant s == EncodeItems(more[..i])
      {
        assert more[..i + 1] == more[..i] + [more[i]];
        EncodeItemsConcat(more[..i], [more[i]]);
        EncodeOne(more[i]);
        s := s + Encode(more[i]);
      }
      assert more[..|texts|] == more;
    }
  }

  lemma ReversePackable(items: seq<Element>)
    requires AllPackable(items)
    ensures AllPackable(Reverse(items))
  {
  }

  // ---------- arithmetic and slices ----------

  /** Two bytes at least to an element, so a 32-bit count never wraps. */
  lemma {:induction false} CountBound(items: seq<Element>)
    ensures 2 * |items| <= UsedBytes(items)
  {
    hide EncodedSize;
    if items != [] {
      CountBound(items[1..]);
    }
  }

  lemma CountFits(items: seq<Element>, e: Element)
    requires UsedBytes(items) <= LIMIT
    ensures |items| + 1 < 0x1_0000_0000
  {
    CountBound(items);
  }

  lemma PushedCount(items: seq<Element>, more: seq<Element>, front: bool)
    requires UsedBytes(PushItems(items, more, front)) <= LIMIT
    ensures |PushItems(items, more, front)| == |items| + |more| < 0x1_0000_0000
  {
    CountBound(PushItems(items, more, front));
  }

  lemma PushedRun(items: seq<Element>, e: Element)
    requires AllPackable(items) && Packable(e)
    ensures AllPackable([e] + items) && AllPackable(items + [e])
    ensures EncodeItems([e] + items) == Encode(e) + EncodeItems(items)
    ensures EncodeItems(items + [e]) == EncodeItems(items) + Encode(e)
    ensures UsedBytes([e] + items) == UsedBytes(items) + EncodedSize(e) == UsedBytes(items + [e])
  {
    hide EncodeItems, Encode, EncodedSize, Packable;
    EncodeItemsConcat([e], items);
    EncodeItemsConcat(items, [e]);
    EncodeOne(e);
    UsedBytesConcat([e], items);
    UsedBytesConcat(items, [e]);
    UsedOne(e);
  }

  lemma PushedItems(items: seq<Element>, e: Element)
    ensures PushItems(items, [e], true) == [e] + items && PushItems(items, [e], false) == items + [e]
    ensures items == [] ==> [e] + items == items + [e]
  {
    assert Reverse([e]) == [e];
  }

  lemma UsedOne(e: Element)
    ensures UsedBytes([e]) == EncodedSize(e)
  {
    assert UsedBytes([e]) == EncodedSize(e) + UsedBytes([]);
  }

  lemma PushNothing(items: seq<Element>, front: bool)
    ensures PushItems(items, Texts([]), front) == items
  {
    assert Reverse([]) == [];
  }

  lemma PushedBytesOf(items: seq<Element>, texts: seq<Bytes>, front: bool)
    requires AllPackable(items) && AllPackable(Texts(texts))
    ensures AllPackable(PushItems(items, Texts(texts), front))
    ensures UsedBytes(PushItems(items, Texts(texts), front)) == UsedBytes(items) + UsedBytes(Texts(texts))
  {
    hide UsedBytes, Packable;
    var more := Texts(texts);
    UsedBytesConcat(items, more);
    UsedBytesReverse(more);
    UsedBytesConcat(Reverse(more), items);
    ReversePackable(more);
  }
}
