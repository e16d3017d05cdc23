/** The records compaction writes for a list and for a hash, read off the packed bytes: src/database.cpp:1373-1415. */
module CompactNodes {
  import opened Bytes
  import opened Pack
  import opened Wal
  import opened Keyspace
  import opened Compaction
  import PackedList
  import PackedHash

  /** A list: one cursor over the run, from its head. */
  method WriteList(node: PackedList.ListNode, key: Bytes) returns (rs: seq<Record>)
    requires node.Valid()
    ensures rs == PushRecords(key, node.items, false)
  {
    hide PackedList.Holds, EncodedSize, Decode, Stride, PushRecord, PackedList.EncodeItems, UsedBytes;
    rs := [];
    var cursor: nat := node.head as nat;
    ghost var left: nat := node.used as nat;
    assert node.items[0..] == node.items && node.items[..0] == [];
    for i := 0 to node.count as nat
      invariant PackedList.Holds(node.run, cursor, left, node.items[i..]) && rs == PushRecords(key, node.items[..i], false)
    {
      ghost var items := node.items[i..];
      PackedList.HoldsFits(node.run, cursor, left, items);
      PackedList.HoldsPopFront(node.run, cursor, left, items);
      var item := Decode(node.run[cursor..]);
      rs := rs + [PushRecord(key, item, false)];
      assert node.items[..i + 1] == node.items[..i] + [node.items[i]];
      assert items[1..] == node.items[i + 1..];
      left := left - EncodedSize(items[0]);
      cursor := cursor + Stride(node.run[cursor..]);
    }
    assert node.items[..|node.items|] == node.items;
  }

  ghost function FieldNames(ps: seq<PackedHash.Pair>): (names: seq<Bytes>)
    ensures |names| == |ps| && forall i :: 0 <= i < |ps| ==> names[i] == ps[i].field
  {
    seq(|ps|, i requires 0 <= i < |ps| => ps[i].field)
  }

  lemma NamesVisit(ps: seq<PackedHash.Pair>)
    requires PackedHash.Distinct(ps)
    ensures Visits(FieldNames(ps), PackedHash.PairsMap(ps).Keys)
  {
    var names := FieldNames(ps);
    forall f
      ensures f in names <==> f in PackedHash.PairsMap(ps)
    {
      PackedHash.MapKeys(ps, f);
      if f in names {
        var i :| 0 <= i < |names| && names[i] == f;
        assert ps[i].field == f;
      }
      if PackedHash.HasField(ps, f) {
        var i :| 0 <= i < |ps| && ps[i].field == f;
        assert names[i] == f;
      }
    }
  }

  lemma OneMoreField(key: Bytes, fields: map<Bytes, Element>, order: seq<Bytes>, field: Bytes)
    ensures FieldRecords(key, fields, order + [field])
         == FieldRecords(key, fields, order) + [HSetRecord(key, field, FieldOf(fields, field))]
  {
    FieldRecordsConcat(key, fields, order, [field]);
    assert [field][1..] == [];
  }

  /** A hash: one cursor over the pairs, or the table's own iteration; either way every field once. */
  method WriteHash(node: PackedHash.HashNode, key: Bytes) returns (rs: seq<Record>, ghost order: seq<Bytes>)
    requires node.Valid()
    ensures Visits(order, node.fields.Keys) && rs == FieldRecords(key, node.fields, order)
  {
    if node.promoted {
      rs, order := WriteTable(node, key);
    } else {
      rs, order := WritePairs(node, key);
    }
  }

  method WriteTable(node: PackedHash.HashNode, key: Bytes) returns (rs: seq<Record>, order: seq<Bytes>)
    requires node.Valid() && node.promoted
    ensures Visits(order, node.fields.Keys) && rs == FieldRecords(key, node.fields, order)
  {
    hide HSetRecord;
    rs := [];
    order := PackedHash.Visit(node.table);
    assert order[..0] == [];
    for i := 0 to |order|
      invariant rs == FieldRecords(key, node.fields, order[..i])
    {
      OneMoreField(key, node.fields, order[..i], order[i]);
      assert order[..i + 1] == order[..i] + [order[i]] && order[i] in order;
      rs := rs + [HSetRecord(key, order[i], node.table[order[i]])];
    }
    assert order[..|order|] == order;
  }

  method WritePairs(node: PackedHash.HashNode, key: Bytes) returns (rs: seq<Record>, ghost order: seq<Bytes>)
    requires node.Valid() && !node.promoted
    ensures Visits(order, node.fields.Keys) && rs == FieldRecords(key, node.fields, order)
  {
    hide PackedHash.Holding, PackedHash.EncodePairs, BodySize, Decode, Readable, ElementSize, PackedHash.HashCount,
      PackedHash.HashUsed, HSetRecord, Visits;
    rs := [];
    order := FieldNames(node.pairs);
    var cursor := 0;
    PackedHash.HeldMap(node.body, PackedHash.HashUsed(node.meta), node.pairs, node.fields);
    assert node.pairs[..0] == [] && order[..0] == [];
    PackedHash.NoPairs();
    for i := 0 to PackedHash.HashCount(node.meta)
      invariant cursor == |PackedHash.EncodePairs(node.pairs[..i])| && rs == FieldRecords(key, node.fields, order[..i])
    {
      PackedHash.PairAt(node.body, PackedHash.HashUsed(node.meta), node.pairs, node.fields, i);
      var name := Decode(node.body[cursor..]);
      cursor := cursor + ElementSize(node.body[cursor..]);
      var item := Decode(node.body[cursor..]);
      cursor := cursor + ElementSize(node.body[cursor..]);
      OneMoreField(key, node.fields, order[..i], order[i]);
      assert order[..i + 1] == order[..i] + [order[i]];
      rs := rs + [HSetRecord(key, name.text, item)];
    }
    assert order[..|order|] == order;
    HeldOnce(node.body, PackedHash.HashUsed(node.meta), node.pairs, node.fields);
    NamesVisit(node.pairs);
  }

  lemma HeldOnce(body: Bytes, used: nat, ps: seq<PackedHash.Pair>, m: map<Bytes, Element>)
    requires PackedHash.Holding(body, used, ps, m)
    ensures PackedHash.Distinct(ps) && PackedHash.PairsMap(ps) == m
  {
  }
}
