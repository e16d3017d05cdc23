/**
  * How a payload lies in the body of its node, and the bytes there: the text or the integer at its start, a
  * list as a run at some offset, a hash as packed pairs or as a pointer to a table. Every edit is one of
  * bytes where they are. Source: src/database.hpp:259-330, src/database.cpp:334-344, 630-714, 786-835,
  * 943-1031 and 1092-1124.
  */
module Layouts {
  import opened Bytes
  import opened Pack
  import opened Keyspace
  import PackedList
  import PackedHash

  const LIST_BODY: nat := 8
  const TABLE_ADDRESS: nat := 8

  /**
    * `bytes` are the bytes at the start of the body, as far as they are known. A run has its head and its
    * used bytes in the first eight of them, a packed hash its used bytes in the node's count.
    */
  datatype Layout = Plain(bytes: Bytes) | Run(head: nat, used: nat, bytes: Bytes) | Packed(used: nat, bytes: Bytes) | Promoted

  // ---------- the size of a packed hash ----------

  function PairSize(field: Bytes, item: Element): (n: nat) { BodySize(Text(field)) + BodySize(item) }

  ghost function PackedSize(fields: map<Bytes, Element>): (n: nat)
    decreases |fields|
  {
    if fields == map[] then 0
    else
      var f :| f in fields;
      assert |fields - {f}| < |fields| by { OneLess(fields, f); }
      PairSize(f, fields[f]) + PackedSize(fields - {f})
  }

  lemma OneLess(fields: map<Bytes, Element>, f: Bytes)
    requires f in fields
    ensures |fields - {f}| == |fields| - 1
  {
    assert (fields - {f}).Keys == fields.Keys - {f};
    assert |fields.Keys| == |fields| && |(fields - {f}).Keys| == |fields - {f}|;
  }

  lemma {:induction false} PackedWithout(fields: map<Bytes, Element>, f: Bytes)
    requires f in fields
    ensures PackedSize(fields) == PairSize(f, fields[f]) + PackedSize(fields - {f})
    decreases |fields|
  {
    hide PairSize;
    var g :| g in fields && PackedSize(fields) == PairSize(g, fields[g]) + PackedSize(fields - {g});
    if g != f {
      OneLess(fields, g);
      PackedWithout(fields - {g}, f);
      OneLess(fields, f);
      PackedWithout(fields - {f}, g);
      assert fields - {g} - {f} == fields - {f} - {g};
    }
  }

  lemma PackedWith(fields: map<Bytes, Element>, f: Bytes, e: Element)
    requires f !in fields
    ensures PackedSize(fields[f := e]) == PackedSize(fields) + PairSize(f, e) && |fields[f := e]| == |fields| + 1
  {
    hide PairSize, PackedSize;
    PackedWithout(fields[f := e], f);
    OneLess(fields[f := e], f);
    assert fields[f := e] - {f} == fields;
  }

  lemma PackedChanged(fields: map<Bytes, Element>, f: Bytes, e: Element)
    requires f in fields
    ensures PackedSize(fields[f := e]) == PackedSize(fields) - BodySize(fields[f]) + BodySize(e) && |fields[f := e]| == |fields|
  {
    hide PackedSize;
    PackedWithout(fields, f);
    PackedWith(fields - {f}, f, e);
    OneLess(fields, f);
    assert (fields - {f})[f := e] == fields[f := e];
  }

  /** The sum over a table. */
  method Measure(fields: map<Bytes, Element>) returns (bytes: nat)
    ensures bytes == PackedSize(fields)
  {
    hide PairSize;
    bytes := 0;
    var rest := fields;
    while rest != map[]
      invariant bytes + PackedSize(rest) == PackedSize(fields)
      decreases |rest|
    {
      var f :| f in rest;
      PackedWithout(rest, f);
      OneLess(rest, f);
      bytes := bytes + PairSize(f, rest[f]);
      rest := rest - {f};
    }
  }

  // ---------- bytes in memory ----------

  /** The bytes with `s` written at `at`; what was not known before is taken as zero. */
  function Stored(bytes: Bytes, at: nat, s: Bytes): (r: Bytes)
    ensures |r| == if |bytes| < at + |s| then at + |s| else |bytes|
  {
    PackedList.Splice(if |bytes| < at + |s| then bytes + PackedList.Blank(at + |s| - |bytes|) else bytes, at, s)
  }

  lemma StoredAt(bytes: Bytes, at: nat, s: Bytes, from: nat, to: nat)
    requires from <= to <= |bytes|
    ensures Stored(bytes, at, s)[at..at + |s|] == s
    ensures to <= at || at + |s| <= from ==> Stored(bytes, at, s)[from..to] == bytes[from..to]
  {
    hide PackedList.Splice, PackedList.Blank;
    var wide := if |bytes| < at + |s| then bytes + PackedList.Blank(at + |s| - |bytes|) else bytes;
    PackedList.SpliceAt(wide, at, s, from, to);
    assert wide[from..to] == bytes[from..to];
  }

  // ---------- a payload in its body ----------

  /** The items are the run's. */
  ghost predicate Runs(l: Layout, items: seq<Element>)
  {
    l.Run? && LIST_BODY <= |l.bytes| && PackedList.Holds(l.bytes[LIST_BODY..], l.head, l.used, items)
  }

  /** The fields are those of the packed pairs. */
  ghost predicate Pairs(l: Layout, fields: map<Bytes, Element>)
  {
    l.Packed? && l.used == PackedSize(fields) && exists ps :: PackedHash.Holding(l.bytes, l.used, ps, fields)
  }

  /** The payload lies within the body, and its bytes are there. */
  ghost predicate Lies(v: Value, l: Layout, capacity: int)
  {
    match v
    case Str(text) => l.Plain? && |text| <= |l.bytes| <= capacity && l.bytes[..|text|] == text
    case Int(n) => l.Plain? && 8 <= |l.bytes| <= capacity && l.bytes[..8] == Put64(n)
    case List(items) => Runs(l, items) && |l.bytes| <= capacity
    case Hash(fields) =>
      || (l.Promoted? && TABLE_ADDRESS <= capacity)
      || (Pairs(l, fields) && |l.bytes| <= capacity && MayPack(fields))
  }

  /** A hash that may be packed. */
  ghost predicate MayPack(fields: map<Bytes, Element>)
  {
    |fields| <= PackedHash.PACKED_LIMIT && PackedSize(fields) <= PackedHash.PACKED_BYTES
  }

  lemma LiesWider(v: Value, l: Layout, capacity: int, wider: int)
    requires Lies(v, l, capacity) && capacity <= wider
    ensures Lies(v, l, wider)
  {
  }

  lemma RunFits(l: Layout, items: seq<Element>)
    requires Runs(l, items)
    ensures l.Run? && l.used == UsedBytes(items) && LIST_BODY + l.head + l.used <= |l.bytes| && AllPackable(items)
  {
  }

  // ---------- texts and integers ----------

  /** A text or an integer written over what was there. */
  function Over(l: Layout, s: Bytes): (r: Layout)
    requires l.Plain?
  {
    Plain(Stored(l.bytes, 0, s))
  }

  lemma TextOver(l: Layout, text: Bytes, capacity: int)
    requires l.Plain? && |l.bytes| <= capacity && |text| <= capacity
    ensures Lies(Str(text), Over(l, text), capacity)
  {
    hide Stored;
    StoredAt(l.bytes, 0, text, 0, 0);
    assert Stored(l.bytes, 0, text)[0..|text|] == Stored(l.bytes, 0, text)[..|text|];
  }

  lemma IntegerOver(l: Layout, n: Int64, capacity: int)
    requires l.Plain? && |l.bytes| <= capacity && 8 <= capacity
    ensures Lies(Int(n), Over(l, Put64(n)), capacity)
  {
    hide Stored, Put64;
    StoredAt(l.bytes, 0, Put64(n), 0, 0);
    assert Stored(l.bytes, 0, Put64(n))[0..8] == Stored(l.bytes, 0, Put64(n))[..8];
  }

  lemma NewPlain(text: Bytes, n: Int64)
    ensures Lies(Str(text), Plain(text), |text|) && Lies(Int(n), Plain(Put64(n)), 8)
  {
    hide Put64;
    assert text[..|text|] == text && Put64(n)[..8] == Put64(n);
  }

  // ---------- sizes ----------

  lemma {:induction false} ItemsPackable(items: seq<Element>)
    requires UsedBytes(items) <= LIMIT
    ensures AllPackable(items)
    decreases |items|
  {
    if items != [] {
      assert UsedBytes(items) == EncodedSize(items[0]) + UsedBytes(items[1..]);
      ItemsPackable(items[1..]);
      assert items == [items[0]] + items[1..];
    }
  }

  lemma FieldsPackable(fields: map<Bytes, Element>)
    requires PackedSize(fields) <= MAX_U32
    ensures PackedHash.AllSmallFields(fields)
  {
    hide PackedSize;
    forall f | f in fields
      ensures |f| <= MAX_U32 && Packable(fields[f])
    {
      PackedWithout(fields, f);
    }
  }

  // ---------- runs ----------

  function NewRun(items: seq<Element>): (l: Layout)
  {
    Run(0, UsedBytes(items), PackedList.Blank(LIST_BODY) + PackedList.EncodeItems(items))
  }

  lemma NewRunLies(items: seq<Element>)
    requires AllPackable(items)
    ensures Lies(List(items), NewRun(items), LIST_BODY + UsedBytes(items))
  {
    hide PackedList.EncodeItems, UsedBytes, PackedList.Blank;
    var run := PackedList.EncodeItems(items);
    assert (PackedList.Blank(LIST_BODY) + run)[LIST_BODY..] == run && run[0..|run|] == run;
  }

  /** One more item before or behind the run, where the run is. */
  function Pushed(l: Layout, e: Element, front: bool): (r: Layout)
    requires l.Run? && (front ==> EncodedSize(e) <= l.head)
  {
    var n := EncodedSize(e);
    if front then Run(l.head - n, l.used + n, Stored(l.bytes, LIST_BODY + l.head - n, Encode(e)))
    else Run(l.head, l.used + n, Stored(l.bytes, LIST_BODY + l.head + l.used, Encode(e)))
  }

  lemma PushedRuns(l: Layout, items: seq<Element>, e: Element, front: bool)
    requires Runs(l, items) && Packable(e) && (front ==> EncodedSize(e) <= l.head)
    ensures Runs(Pushed(l, e, front), if front then [e] + items else items + [e])
    ensures |Pushed(l, e, front).bytes| <= Max(|l.bytes|, LIST_BODY + l.head + l.used + if front then 0 else EncodedSize(e))
  {
    hide PackedList.EncodeItems, UsedBytes, AllPackable, Stored, Encode, EncodedSize, Packable;
    if front {
      PushedFront(l, items, e);
    } else {
      PushedBack(l, items, e);
    }
    PackedList.PushedRun(items, e);
  }

  lemma PushedFront(l: Layout, items: seq<Element>, e: Element)
    requires Runs(l, items) && EncodedSize(e) <= l.head
    ensures var n := EncodedSize(e);
            var r := Stored(l.bytes, LIST_BODY + l.head - n, Encode(e));
            && LIST_BODY + l.head + l.used <= |l.bytes| == |r|
            && r[LIST_BODY..][l.head - n..l.head + l.used] == Encode(e) + PackedList.EncodeItems(items)
  {
    hide PackedList.EncodeItems, UsedBytes, AllPackable, Stored, Encode, EncodedSize;
    var n, from, to := EncodedSize(e), l.head, l.head + l.used;
    var r := Stored(l.bytes, LIST_BODY + from - n, Encode(e));
    StoredAt(l.bytes, LIST_BODY + from - n, Encode(e), LIST_BODY + from, LIST_BODY + to);
    Behind(l.bytes, from, to);
    Behind(r, from, to);
    Behind(r, from - n, from);
    PackedList.SlicesMeet(r[LIST_BODY..], from - n, from, to);
  }

  lemma PushedBack(l: Layout, items: seq<Element>, e: Element)
    requires Runs(l, items)
    ensures var n, at := EncodedSize(e), l.head + l.used;
            var r := Stored(l.bytes, LIST_BODY + at, Encode(e));
            && LIST_BODY + at <= |l.bytes| && LIST_BODY + at + n <= |r|
            && r[LIST_BODY..][l.head..at + n] == PackedList.EncodeItems(items) + Encode(e)
  {
    hide PackedList.EncodeItems, UsedBytes, AllPackable, Stored, Encode, EncodedSize;
    var n, at := EncodedSize(e), l.head + l.used;
    var r := Stored(l.bytes, LIST_BODY + at, Encode(e));
    StoredAt(l.bytes, LIST_BODY + at, Encode(e), LIST_BODY + l.head, LIST_BODY + at);
    Behind(l.bytes, l.head, at);
    Behind(r, l.head, at);
    Behind(r, at, at + n);
    PackedList.SlicesMeet(r[LIST_BODY..], l.head, at, at + n);
  }

  lemma Behind(bytes: Bytes, from: nat, to: nat)
    requires from <= to && LIST_BODY + to <= |bytes|
    ensures bytes[LIST_BODY..][from..to] == bytes[LIST_BODY + from..LIST_BODY + to]
  {
  }

  /** The run without `n` bytes at one end: nothing is written. */
  function Popped(l: Layout, n: nat, front: bool): (r: Layout)
    requires l.Run? && n <= l.used
  {
    Run(if front then l.head + n else l.head, l.used - n, l.bytes)
  }

  lemma PoppedRuns(l: Layout, items: seq<Element>, front: bool)
    requires Runs(l, items) && items != []
    ensures var n := EncodedSize(items[if front then 0 else |items| - 1]);
            n <= l.used && Runs(Popped(l, n, front), if front then items[1..] else items[..|items| - 1])
  {
    hide PackedList.Holds, EncodedSize;
    if front {
      PackedList.HoldsPopFront(l.bytes[LIST_BODY..], l.head, l.used, items);
    } else {
      PackedList.LastBytes(l.bytes[LIST_BODY..], l.head, l.used, items);
    }
  }

  /** The item at one end, read forward from the head or back from the end, and how many bytes it takes. */
  method Peek(l: Layout, front: bool, ghost items: seq<Element>) returns (e: Element, n: nat)
    requires Runs(l, items) && items != []
    ensures e == items[if front then 0 else |items| - 1] && n == EncodedSize(e)
  {
    hide UsedBytes, PackedList.EncodeItems, Encode, EncodedSize, Packable, Decode, Readable, Stride, Backlen, BacklenBytes,
      PackedList.Holds;
    var run := l.bytes[LIST_BODY..];
    PackedList.HoldsFits(run, l.head, l.used, items);
    if front {
      PackedList.HoldsPopFront(run, l.head, l.used, items);
      e, n := Decode(run[l.head..]), Stride(run[l.head..]);
    } else {
      PackedList.HoldsPopBack(run, l.head, l.used, items);
      var end := l.head + l.used;
      var payload := DecodeBacklen(run[..end]);
      n := payload + BacklenBytes(payload);
      e := Decode(run[end - n..]);
    }
  }

  /** The run moved to another place in the body. */
  function Slid(l: Layout, to: nat): (r: Layout)
    requires l.Run? && LIST_BODY + l.head + l.used <= |l.bytes|
  {
    Run(to, l.used, Stored(l.bytes, LIST_BODY + to, l.bytes[LIST_BODY + l.head..LIST_BODY + l.head + l.used]))
  }

  lemma SlidRuns(l: Layout, items: seq<Element>, to: nat)
    requires Runs(l, items)
    ensures l.Run? && LIST_BODY + l.head + l.used <= |l.bytes| && Runs(Slid(l, to), items)
    ensures |Slid(l, to).bytes| <= Max(|l.bytes|, LIST_BODY + to + l.used)
  {
    hide PackedList.EncodeItems, UsedBytes, AllPackable, Stored;
    var run := l.bytes[LIST_BODY + l.head..LIST_BODY + l.head + l.used];
    StoredAt(l.bytes, LIST_BODY + to, run, 0, 0);
    Behind(l.bytes, l.head, l.head + l.used);
    Behind(Stored(l.bytes, LIST_BODY + to, run), to, to + l.used);
  }

  /** The run moved to the front, and what lies behind it forgotten. */
  function Cut(l: Layout): (r: Layout)
    requires l.Run? && LIST_BODY + l.head + l.used <= |l.bytes|
  {
    Run(0, l.used, Slid(l, 0).bytes[..LIST_BODY + l.used])
  }

  lemma CutRuns(l: Layout, items: seq<Element>)
    requires Runs(l, items)
    ensures l.Run? && LIST_BODY + l.head + l.used <= |l.bytes|
    ensures Runs(Cut(l), items) && |Cut(l).bytes| == LIST_BODY + l.used
  {
    hide PackedList.EncodeItems, UsedBytes, AllPackable, Slid;
    SlidRuns(l, items, 0);
    SlidIs(l);
    var slid := Slid(l, 0);
    Behind(slid.bytes, 0, l.used);
    Behind(slid.bytes[..LIST_BODY + l.used], 0, l.used);
  }

  lemma SlidIs(l: Layout)
    requires l.Run? && LIST_BODY + l.head + l.used <= |l.bytes|
    ensures Slid(l, 0).head == 0 && Slid(l, 0).used == l.used && |Slid(l, 0).bytes| >= LIST_BODY + l.used
  {
    hide Stored;
  }

  // ---------- packed pairs ----------

  const NO_PAIRS: Layout := Packed(0, [])

  lemma NoPairsThere()
    ensures Pairs(NO_PAIRS, map[])
  {
    PackedHash.NoPairs();
    assert NO_PAIRS.bytes[..0] == [];
    assert PackedHash.Holding(NO_PAIRS.bytes, 0, [], map[]);
  }

  /** As many bytes as are used, for a node of its own. */
  function Copied(l: Layout): (r: Layout)
    requires l.Packed? && l.used <= |l.bytes|
  {
    Packed(l.used, l.bytes[..l.used])
  }

  lemma CopiedPairs(l: Layout, fields: map<Bytes, Element>)
    requires Pairs(l, fields)
    ensures l.Packed? && l.used == PackedSize(fields) <= |l.bytes| && Pairs(Copied(l), fields)
    ensures |Copied(l).bytes| == l.used
  {
    hide PackedHash.Packs, PackedSize;
    var ps :| PackedHash.Holding(l.bytes, l.used, ps, fields);
    assert l.bytes[..l.used][..l.used] == l.bytes[..l.used];
    assert PackedHash.Holding(l.bytes[..l.used], l.used, ps, fields);
  }

  lemma {:induction false} PackedSizeIs(ps: seq<PackedHash.Pair>, fields: map<Bytes, Element>)
    requires PackedHash.Distinct(ps) && PackedHash.PairsMap(ps) == fields
    ensures |PackedHash.EncodePairs(ps)| == PackedSize(fields)
    decreases |ps|
  {
    hide PackedHash.EncodePair, PackedHash.EncodePairs, PackedSize;
    if ps == [] {
      PackedHash.NoPairs();
      NothingPacked();
    } else {
      var m := |ps| - 1;
      var front, last := ps[..m], ps[m];
      PackedSizeIs(front, PackedHash.PairsMap(front));
      PackedHash.MapKeys(front, last.field);
      PackedWith(PackedHash.PairsMap(front), last.field, last.value);
      assert ps == front + [last];
      PackedHash.EncodePairsConcat(front, [last]);
      PackedHash.EncodeOnePair(last);
      EncodedPairSize(last);
    }
  }

  lemma EncodedPairSize(p: PackedHash.Pair)
    ensures |PackedHash.EncodePair(p)| == PairSize(p.field, p.value)
  {
  }

  lemma NothingPacked()
    ensures PackedSize(map[]) == 0
  {
  }

  /** Pairs that start the body, as a layout. */
  lemma PairsThere(bytes: Bytes, used: nat, ps: seq<PackedHash.Pair>, fields: map<Bytes, Element>)
    requires used <= |bytes| && PackedHash.Packs(bytes[..used], ps, fields)
    ensures Pairs(Packed(used, bytes), fields)
  {
    hide PackedHash.EncodePairs, PackedSize, PackedHash.Distinct, PackedHash.PairsMap;
    PackedSizeIs(ps, fields);
    assert PackedHash.Holding(bytes, used, ps, fields);
  }

  /** `hash_find` and then the value. */
  method FieldOf(l: Layout, count: nat, field: Bytes, ghost fields: map<Bytes, Element>) returns (value: Option<Element>)
    requires Pairs(l, fields) && count == |fields|
    ensures value == if field in fields then Some(fields[field]) else None
  {
    hide PackedHash.Holding, PackedHash.EncodePairs, BodySize, Decode, Readable, ElementSize, PackedSize;
    ghost var ps :| PackedHash.Holding(l.bytes, l.used, ps, fields);
    CountIs(l, ps, fields);
    var found, k := PackedHash.Search(l.bytes, count, field, l.used, ps, fields);
    if found.Absent? {
      return None;
    }
    PackedHash.PairAt(l.bytes, l.used, ps, fields, k);
    value := Some(Decode(l.bytes[found.at..]));
  }

  /** `hash_find` and then the edit: the value is replaced and what follows it moved, or the pair is appended. */
  method SetField(l: Layout, count: nat, field: Bytes, item: Element, ghost fields: map<Bytes, Element>) returns (r: Layout)
    requires Pairs(l, fields) && count == |fields| && |field| <= MAX_U32 && Packable(item)
    ensures Pairs(r, fields[field := item]) && |r.bytes| <= Max(|l.bytes|, r.used)
  {
    hide PackedHash.Holding, PackedHash.EncodePairs, PackedHash.EncodePair, PackedSize, BodySize, EncodeBody, Stored,
      PackedHash.Packs, PackedHash.StopsAt, Packable;
    ghost var ps :| PackedHash.Holding(l.bytes, l.used, ps, fields);
    CountIs(l, ps, fields);
    var found, k := PackedHash.Search(l.bytes, count, field, l.used, ps, fields);
    if found.Absent? {
      r := AppendPair(l, field, item, ps, fields);
    } else {
      r := ReplaceValue(l, field, item, found, k, ps, fields);
    }
  }

  lemma CountIs(l: Layout, ps: seq<PackedHash.Pair>, fields: map<Bytes, Element>)
    requires l.Packed? && PackedHash.Holding(l.bytes, l.used, ps, fields)
    ensures |ps| == |fields| && l.used <= |l.bytes|
  {
    PackedHash.MapSize(ps);
  }

  method AppendPair(l: Layout, field: Bytes, item: Element, ghost ps: seq<PackedHash.Pair>, ghost fields: map<Bytes, Element>)
    returns (r: Layout)
    requires l.Packed? && PackedHash.Holding(l.bytes, l.used, ps, fields) && field !in fields
    requires |field| <= MAX_U32 && Packable(item)
    ensures Pairs(r, fields[field := item]) && |r.bytes| <= Max(|l.bytes|, r.used)
  {
    hide PackedHash.Packs, PackedHash.EncodePair, PackedSize, Stored, Packable, Pairs;
    var p := PackedHash.Pair(field, item);
    var s := PackedHash.EncodePair(p);
    PackedHash.PacksAppend(l.bytes[..l.used], ps, fields, p);
    var bytes := Stored(l.bytes, l.used, s);
    StoredAt(l.bytes, l.used, s, 0, l.used);
    assert bytes[..l.used + |s|] == bytes[0..l.used] + bytes[l.used..l.used + |s|];
    assert l.bytes[0..l.used] == l.bytes[..l.used];
    PairsThere(bytes, l.used + |s|, ps + [p], fields[field := item]);
    r := Packed(l.used + |s|, bytes);
  }

  method ReplaceValue(l: Layout, field: Bytes, item: Element, found: PackedHash.Found, ghost k: nat,
                      ghost ps: seq<PackedHash.Pair>, ghost fields: map<Bytes, Element>) returns (r: Layout)
    requires l.Packed? && PackedHash.Holding(l.bytes, l.used, ps, fields) && Packable(item)
    requires PackedHash.StopsAt(ps, field, found, k)
    ensures Pairs(r, fields[field := item]) && |r.bytes| <= Max(|l.bytes|, r.used)
  {
    hide PackedHash.Packs, PackedHash.EncodePairs, EncodeBody, BodySize, PackedSize, Stored, Packable, Pairs, Decode, Readable,
      ElementSize;
    PackedHash.PairAt(l.bytes, l.used, ps, fields, k);
    PackedHash.PacksReplace(l.bytes, l.used, ps, fields, k, item);
    var at := found.at;
    var before := ElementSize(l.bytes[at..]);
    var value, tail := EncodeBody(item), l.bytes[at + before..l.used];
    var moved := Stored(l.bytes, at + |value|, tail);
    var bytes := Stored(moved, at, value);
    ValueBetween(l.bytes, at, value, tail);
    var used := at + |value| + |tail|;
    PairsThere(bytes, used, ps[k := ps[k].(value := item)], fields[field := item]);
    r := Packed(used, bytes);
  }

  /** The tail is moved first, and then the value is written in front of it. */
  lemma ValueBetween(bytes: Bytes, at: nat, value: Bytes, tail: Bytes)
    requires at <= |bytes|
    ensures var r := Stored(Stored(bytes, at + |value|, tail), at, value);
            && at + |value| + |tail| <= |r| <= Max(|bytes|, at + |value| + |tail|)
            && r[..at + |value| + |tail|] == bytes[..at] + value + tail
  {
    hide Stored;
    var n, end := at + |value|, at + |value| + |tail|;
    var moved := Stored(bytes, n, tail);
    var r := Stored(moved, at, value);
    StoredAt(bytes, n, tail, 0, at);
    StoredAt(moved, at, value, 0, at);
    StoredAt(moved, at, value, n, end);
    assert r[..end] == r[0..at] + r[at..n] + r[n..end];
    assert bytes[0..at] == bytes[..at];
  }

  /** `hash_find` and then the pair is cut out: what follows it is moved over it. */
  method CutField(l: Layout, count: nat, field: Bytes, ghost fields: map<Bytes, Element>) returns (r: Layout)
    requires Pairs(l, fields) && count == |fields| && field in fields
    ensures Pairs(r, fields - {field}) && |r.bytes| == |l.bytes|
  {
    hide PackedHash.EncodePairs, BodySize, PackedSize, Stored, PackedHash.Packs, Decode, Readable, ElementSize;
    ghost var ps :| PackedHash.Holding(l.bytes, l.used, ps, fields);
    CountIs(l, ps, fields);
    var found, k := PackedHash.Search(l.bytes, count, field, l.used, ps, fields);
    PackedHash.PairAt(l.bytes, l.used, ps, fields, k);
    PackedHash.PacksRemove(l.bytes, l.used, ps, fields, k);
    var from := found.at - found.fieldBytes;
    var to := found.at + ElementSize(l.bytes[found.at..]);
    var tail := l.bytes[to..l.used];
    var bytes := Stored(l.bytes, from, tail);
    StoredAt(l.bytes, from, tail, 0, from);
    assert bytes[..from + |tail|] == bytes[0..from] + bytes[from..from + |tail|];
    assert l.bytes[0..from] == l.bytes[..from];
    PairsThere(bytes, from + |tail|, ps[..k] + ps[k + 1..], fields - {field});
    r := Packed(from + |tail|, bytes);
  }

  /** A whole table as packed pairs, in whatever order it is visited. */
  method PackTable(fields: map<Bytes, Element>) returns (l: Layout)
    requires PackedHash.AllSmallFields(fields)
    ensures Pairs(l, fields) && |l.bytes| == l.used
  {
    hide PackedHash.AllSmallFields, PackedHash.Packs, PackedSize;
    var order := PackedHash.Visit(fields);
    var used, content, ps := PackedHash.Repack(fields, order);
    assert content[..used] == content;
    PairsThere(content, used, ps, fields);
    l := Packed(used, content);
  }

  // ---------- the decisions about a run ----------

  /** `grown_capacity`. */
  function Grown(required: nat, current: nat): (capacity: nat)
    ensures required <= capacity && capacity >= 32
  {
    var least := if required > 32 then required else 32;
    if current * 2 > least then current * 2 else least
  }

  /** Where `list_reserve` puts the run. */
  function Centred(capacity: nat, used: nat, front: nat, back: nat): (head: nat)
    requires used + front + back <= capacity
    ensures front <= head && head + used + back <= capacity
  {
    var highest, middle := capacity - used - back, (capacity - used) / 2;
    var low := if middle < front then front else middle;
    if low > highest then highest else low
  }

  /** They are the ones that the list itself takes in 32 bits. */
  lemma SameDecisions(required: PackedList.u32, current: PackedList.u32, used: PackedList.u32, front: PackedList.u32,
                      back: PackedList.u32)
    ensures current < 0x8000_0000 ==> PackedList.GrownCapacity(required, current) as nat == Grown(required as nat, current as nat)
    ensures used as nat + front as nat + back as nat <= current as nat ==>
              PackedList.CentredHead(current, used, front, back) as nat ==
                Centred(current as nat, used as nat, front as nat, back as nat)
  {
  }
}
