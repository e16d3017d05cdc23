/** The bytes in the body of a node stand for one payload only. Source: src/database.hpp:255-318. */
module NodeBytes {
  import opened Bytes
  import opened Pack
  import opened Keyspace
  import opened Layouts
  import PackedList
  import PackedHash

  /** The type and the count fields of two nodes agree: the length of a text, and whether a hash is packed. */
  predicate SameHeader(v: Value, w: Value)
  {
    match v
    case Str(text) => w.Str? && |text| == |w.text|
    case Int(_) => w.Int?
    case List(items) => w.List? && |items| == |w.items|
    case Hash(fields) => w.Hash? && |fields| == |w.fields|
  }

  // ---------- bytes stand for one payload ----------

  lemma {:induction false} ItemsDetermined(a: seq<Element>, b: seq<Element>)
    requires AllPackable(a) && AllPackable(b) && PackedList.EncodeItems(a) == PackedList.EncodeItems(b)
    ensures a == b
    decreases |a|
  {
    hide Encode, Decode, Readable, Stride, Packable, EncodedSize, UsedBytes;
    if a == [] || b == [] {
      NoItems(a);
      NoItems(b);
    } else {
      var restA, restB := PackedList.EncodeItems(a[1..]), PackedList.EncodeItems(b[1..]);
      PackedList.ReadFirst(a[0], restA);
      PackedList.ReadFirst(b[0], restB);
      assert a[0] == b[0];
      var n := |Encode(a[0])|;
      assert (Encode(a[0]) + restA)[n..] == restA && (Encode(b[0]) + restB)[n..] == restB;
      ItemsDetermined(a[1..], b[1..]);
      assert a == [a[0]] + a[1..] && b == [b[0]] + b[1..];
    }
  }

  lemma NoItems(a: seq<Element>)
    ensures PackedList.EncodeItems(a) == [] <==> a == []
  {
    if a != [] {
      PackedList.FirstItem(a);
    }
  }

  lemma {:induction false} PairsDetermined(a: seq<PackedHash.Pair>, b: seq<PackedHash.Pair>)
    requires PackedHash.AllSmall(a) && PackedHash.AllSmall(b) && PackedHash.EncodePairs(a) == PackedHash.EncodePairs(b)
    ensures a == b
    decreases |a|
  {
    hide EncodeBody, BodySize, Decode, Readable, ElementSize;
    if a != [] && b != [] {
      var restA, restB := PackedHash.EncodePairs(a[1..]), PackedHash.EncodePairs(b[1..]);
      PairDetermined(a[0], restA, b[0], restB);
      PairsDetermined(a[1..], b[1..]);
      assert a == [a[0]] + a[1..] && b == [b[0]] + b[1..];
    }
  }

  lemma PairDetermined(p: PackedHash.Pair, restP: Bytes, q: PackedHash.Pair, restQ: Bytes)
    requires |p.field| <= MAX_U32 && Packable(p.value) && |q.field| <= MAX_U32 && Packable(q.value)
    requires PackedHash.EncodePair(p) + restP == PackedHash.EncodePair(q) + restQ
    ensures p == q && restP == restQ
  {
    hide EncodeBody, BodySize, Decode, Readable, ElementSize;
    BodyDetermined(Text(p.field), EncodeBody(p.value) + restP, Text(q.field), EncodeBody(q.value) + restQ) by {
      Assoc(EncodeBody(Text(p.field)), EncodeBody(p.value), restP);
      Assoc(EncodeBody(Text(q.field)), EncodeBody(q.value), restQ);
    }
    BodyDetermined(p.value, restP, q.value, restQ);
  }

  lemma BodyDetermined(e: Element, rest: Bytes, f: Element, tail: Bytes)
    requires Packable(e) && Packable(f) && EncodeBody(e) + rest == EncodeBody(f) + tail
    ensures e == f && rest == tail
  {
    hide EncodeBody, BodySize, Decode, Readable, ElementSize;
    DecodeEncoded(e, rest);
    DecodeEncoded(f, tail);
    assert (EncodeBody(e) + rest)[|EncodeBody(e)|..] == rest && (EncodeBody(f) + tail)[|EncodeBody(f)|..] == tail;
  }

  /**
    * A body is read in one way only: the bytes, where the payload lies and the fields of the node's header
    * leave no choice of payload. A promoted hash is the one whose payload is elsewhere.
    */
  lemma BytesDetermine(v: Value, w: Value, l: Layout, capacity: int)
    requires Lies(v, l, capacity) && Lies(w, l, capacity) && SameHeader(v, w) && !l.Promoted?
    ensures v == w
  {
    hide Put64, Get64, PackedList.EncodeItems, PackedHash.EncodePairs, PackedHash.PairsMap, PackedHash.Distinct,
      PackedHash.AllSmall, UsedBytes, PackedSize;
    if v.Int? {
      Get64OfPut64(v.number);
      Get64OfPut64(w.number);
    } else if v.List? {
      ItemsDetermined(v.items, w.items);
    } else if v.Hash? {
      var ps :| PackedHash.Holding(l.bytes, l.used, ps, v.fields);
      var qs :| PackedHash.Holding(l.bytes, l.used, qs, w.fields);
      PairsDetermined(ps, qs);
    }
  }
}
