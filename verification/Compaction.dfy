/** Compaction rewrites the live state as a fresh log, src/database.cpp:1351-1427. */
module Compaction {
  import opened Bytes
  import opened Pack
  import opened Wal
  import opened Keyspace
  import opened Recovery
  import opened CrashRecovery

  // ---------- the records compaction writes ----------

  function FieldOf(fields: map<Bytes, Element>, field: Bytes): (e: Element)
  {
    if field in fields then fields[field] else Text([])
  }

  function FieldRecords(key: Bytes, fields: map<Bytes, Element>, order: seq<Bytes>): (rs: seq<Record>)
  {
    if order == [] then []
    else [HSetRecord(key, order[0], FieldOf(fields, order[0]))] + FieldRecords(key, fields, order[1..])
  }

  /** In what order the fields of each hash are visited; a packed run and a table differ, and neither is sorted. */
  type Orders = map<Bytes, seq<Bytes>>

  predicate Distinct(s: seq<Bytes>) { forall i, j :: 0 <= i < j < |s| ==> s[i] != s[j] }

  predicate Visits(order: seq<Bytes>, keys: set<Bytes>)
  {
    Distinct(order) && (set k | k in order) == keys
  }

  predicate OrdersOk(ks: Ks, orders: Orders)
  {
    forall key :: key in ks && ks[key].value.Hash? ==> key in orders && Visits(orders[key], ks[key].value.fields.Keys)
  }

  function ValueRecords(key: Bytes, v: Value, order: seq<Bytes>): (rs: seq<Record>)
  {
    match v
    case Str(text) => [SetRecord(key, text)]
    case Int(n) => [IntegerRecord(key, n)]
    case List(items) => PushRecords(key, items, false)
    case Hash(fields) => FieldRecords(key, fields, order)
  }

  /** `wall + max(0, deadline - steady)`, with both clocks read once. */
  function Stamp(deadline: int, c: Clock): (wall: int) { c.now + c.offset + Max(0, deadline - c.now) }

  function EntryRecords(key: Bytes, e: Entry, order: seq<Bytes>, c: Clock): (rs: seq<Record>)
  {
    ValueRecords(key, e.value, order)
    + match e.deadline
      case None => []
      case Some(d) => [ExpireRecord(key, Stamp(d, c))]
  }

  function OrderOf(orders: Orders, key: Bytes): (order: seq<Bytes>) { if key in orders then orders[key] else [] }

  /** From the least to the most recently used key. */
  function CompactRecords(ks: Ks, lru: seq<Bytes>, orders: Orders, c: Clock): (rs: seq<Record>)
  {
    if lru == [] then []
    else
      CompactRecords(ks, lru[1..], orders, c)
      + if lru[0] in ks then EntryRecords(lru[0], ks[lru[0]], OrderOf(orders, lru[0]), c) else []
  }

  /** The compacted log file. */
  function CompactLog(ks: Ks, lru: seq<Bytes>, orders: Orders, c: Clock): (file: Bytes)
  {
    var rs := CompactRecords(ks, lru, orders, c);
    if AllFit(rs) then Log(rs) else []
  }

  // ---------- replay with the order of use ----------

  datatype Restored = Restored(ks: Ks, lru: seq<Bytes>)

  /** Every replayed write moves its key to the front; setting a deadline does not. */
  function Touched(lru: seq<Bytes>, r: Record, ks: Ks): (next: seq<Bytes>)
  {
    if r.op == 8 || r.args == [] then lru
    else Recent(lru, r.args[0], r.args[0] in ks)
  }

  function ReplayOrdered(s: Restored, rs: seq<Record>, c: Clock): (result: Option<Restored>)
    decreases |rs|
  {
    if rs == [] then Some(s)
    else
      match Replay(s.ks, rs[0], c)
      case None => None
      case Some(next) => ReplayOrdered(Restored(next, Touched(s.lru, rs[0], next)), rs[1..], c)
  }

  lemma {:induction false} ReplayOrderedConcat(s: Restored, a: seq<Record>, b: seq<Record>, c: Clock)
    ensures ReplayOrdered(s, a + b, c)
         == match ReplayOrdered(s, a, c) case None => None case Some(mid) => ReplayOrdered(mid, b, c)
    decreases |a|
  {
    hide Replay, Touched;
    if a == [] {
      assert a + b == b;
    } else {
      assert (a + b)[1..] == a[1..] + b;
      match Replay(s.ks, a[0], c) {
        case None =>
        case Some(next) => ReplayOrderedConcat(Restored(next, Touched(s.lru, a[0], next)), a[1..], b, c);
      }
    }
  }

  lemma {:induction false} ReplayForgetsOrder(s: Restored, rs: seq<Record>, c: Clock)
    ensures ReplayAll(s.ks, rs, c) == match ReplayOrdered(s, rs, c) case None => None case Some(r) => Some(r.ks)
    decreases |rs|
  {
    hide Replay, Touched;
    if rs != [] {
      match Replay(s.ks, rs[0], c) {
        case None =>
        case Some(next) => ReplayForgetsOrder(Restored(next, Touched(s.lru, rs[0], next)), rs[1..], c);
      }
    }
  }

  lemma TouchedFront(lru: seq<Bytes>, key: Bytes)
    requires key !in lru
    ensures Drop(lru, key) == lru && Drop([key] + lru, key) == lru
  {
    DropAbsent(lru, key);
    assert ([key] + lru)[1..] == lru;
  }

  // ---------- one key ----------

  /** The state while `key` is being rebuilt in front of the keys already rebuilt. */
  function With(ks: Ks, lru: seq<Bytes>, key: Bytes, v: Value): (s: Restored)
  {
    Restored(ks[key := Entry(v, None)], [key] + lru)
  }

  lemma {:induction false} ReplayItems(ks: Ks, lru: seq<Bytes>, key: Bytes, items: seq<Element>, c: Clock)
    requires key !in ks && key !in lru && |key| <= MAX_KEY && items != [] && UsedBytes(items) <= LIMIT
    ensures ReplayOrdered(Restored(ks, lru), PushRecords(key, items, false), c) == Some(With(ks, lru, key, List(items)))
    decreases |items|
  {
    hide UsedBytes, Touched;
    var last := items[|items| - 1];
    var front := items[..|items| - 1];
    assert items == front + [last];
    var before := Restored(ks, lru);
    if front == [] {
      assert items == [last];
    } else {
      UsedBytesConcat(front, [last]);
      ReplayItems(ks, lru, key, front, c);
      before := With(ks, lru, key, List(front));
    }
    assert PushRecords(key, items, false) == PushRecords(key, front, false) + [PushRecord(key, last, false)];
    ReplayOrderedConcat(Restored(ks, lru), PushRecords(key, front, false), [PushRecord(key, last, false)], c);
    assert ReplayOrdered(Restored(ks, lru), PushRecords(key, front, false), c) == Some(before);
    ReplayItem(ks, lru, key, front, last, c);
    ReplayOneRecord(before, PushRecord(key, last, false), c);
  }

  lemma ReplayOneRecord(s: Restored, r: Record, c: Clock)
    ensures ReplayOrdered(s, [r], c)
         == match Replay(s.ks, r, c) case None => None case Some(next) => Some(Restored(next, Touched(s.lru, r, next)))
  {
    hide Replay, Touched;
    assert [r][1..] == [];
  }

  lemma ReplayItem(ks: Ks, lru: seq<Bytes>, key: Bytes, front: seq<Element>, last: Element, c: Clock)
    requires key !in ks && key !in lru && |key| <= MAX_KEY && UsedBytes(front + [last]) <= LIMIT
    ensures var before := if front == [] then Restored(ks, lru) else With(ks, lru, key, List(front));
            var r := PushRecord(key, last, false);
            var after := With(ks, lru, key, List(front + [last]));
            Replay(before.ks, r, c) == Some(after.ks) && Touched(before.lru, r, after.ks) == after.lru
  {
    hide UsedBytes, ParseItem, ItemTag, ItemText;
    ItemRoundTrip(last);
    UsedBytesConcat(front, [last]);
    TouchedFront(lru, key);
    var before := if front == [] then Restored(ks, lru) else With(ks, lru, key, List(front));
    assert OldItems(before.ks, key) == front;
    assert PushItems(front, [last], false) == front + [last];
    UsedBytesNothing();
    var after := Entry(List(front + [last]), None);
    assert before.ks[key := after] == ks[key := after];
  }

  lemma UsedBytesNothing()
    ensures UsedBytes([]) == 0
  {
  }

  /** No stored hash value is one that replay would refuse. */
  predicate Restorable(v: Value) { v.Hash? ==> forall f :: f in v.fields ==> BodySize(v.fields[f]) <= LIMIT }

  lemma ReplayField(ks: Ks, lru: seq<Bytes>, key: Bytes, done: map<Bytes, Element>, field: Bytes, e: Element, c: Clock)
    requires key !in ks && key !in lru && |key| <= MAX_KEY && |field| <= LIMIT && BodySize(e) <= LIMIT
    ensures var before := if done == map[] then Restored(ks, lru) else With(ks, lru, key, Hash(done));
            var r := HSetRecord(key, field, e);
            var after := With(ks, lru, key, Hash(done[field := e]));
            Replay(before.ks, r, c) == Some(after.ks) && Touched(before.lru, r, after.ks) == after.lru
  {
    hide BodySize, ParseItem, ItemTag, ItemText;
    ItemRoundTrip(e);
    TouchedFront(lru, key);
    var before := if done == map[] then Restored(ks, lru) else With(ks, lru, key, Hash(done));
    assert OldFields(before.ks, key) == done;
    var after := Entry(Hash(done[field := e]), None);
    assert before.ks[key := after] == ks[key := after];
  }

  function Pick(fields: map<Bytes, Element>, order: seq<Bytes>): (r: map<Bytes, Element>)
  {
    map f | f in fields && f in order :: fields[f]
  }

  lemma PickLast(fields: map<Bytes, Element>, front: seq<Bytes>, last: Bytes)
    requires last in fields
    ensures Pick(fields, front + [last]) == Pick(fields, front)[last := fields[last]]
    ensures front != [] && front[0] in fields ==> Pick(fields, front) != map[]
    ensures front == [] ==> Pick(fields, front) == map[]
  {
    if front != [] && front[0] in fields {
      assert front[0] in Pick(fields, front);
    }
  }

  lemma FieldRecordsLast(key: Bytes, fields: map<Bytes, Element>, front: seq<Bytes>, last: Bytes)
    requires last in fields
    ensures FieldRecords(key, fields, front + [last]) == FieldRecords(key, fields, front) + [HSetRecord(key, last, fields[last])]
  {
    hide HSetRecord;
    FieldRecordsConcat(key, fields, front, [last]);
    assert [last][1..] == [];
  }

  lemma {:induction false} ReplayFields(ks: Ks, lru: seq<Bytes>, key: Bytes, fields: map<Bytes, Element>,
                                        order: seq<Bytes>, c: Clock)
    requires key !in ks && key !in lru && |key| <= MAX_KEY && order != [] && Restorable(Hash(fields))
    requires forall i :: 0 <= i < |order| ==> order[i] in fields && |order[i]| <= LIMIT
    ensures ReplayOrdered(Restored(ks, lru), FieldRecords(key, fields, order), c)
         == Some(With(ks, lru, key, Hash(Pick(fields, order))))
    decreases |order|
  {
    hide BodySize, Touched, HSetRecord, Replay, Pick, FieldRecords, With, ReplayOrdered;
    var last := order[|order| - 1];
    var front := order[..|order| - 1];
    assert order == front + [last];
    var r := HSetRecord(key, last, fields[last]);
    var done := Pick(fields, front);
    var before := if done == map[] then Restored(ks, lru) else With(ks, lru, key, Hash(done));
    PickLast(fields, front, last);
    FieldRecordsLast(key, fields, front, last);
    if front == [] {
      ReplayNoFields(Restored(ks, lru), key, fields, c);
    } else {
      ReplayFields(ks, lru, key, fields, front, c);
    }
    assert ReplayOrdered(Restored(ks, lru), FieldRecords(key, fields, front), c) == Some(before);
    ReplayOrderedConcat(Restored(ks, lru), FieldRecords(key, fields, front), [r], c);
    ReplayField(ks, lru, key, done, last, fields[last], c);
    ReplayOneRecord(before, r, c);
  }

  lemma ReplayNoFields(s: Restored, key: Bytes, fields: map<Bytes, Element>, c: Clock)
    ensures ReplayOrdered(s, FieldRecords(key, fields, []), c) == Some(s)
  {
  }

  lemma {:induction false} FieldRecordsConcat(key: Bytes, fields: map<Bytes, Element>, a: seq<Bytes>, b: seq<Bytes>)
    ensures FieldRecords(key, fields, a + b) == FieldRecords(key, fields, a) + FieldRecords(key, fields, b)
    decreases |a|
  {
    hide HSetRecord, FieldOf;
    if a == [] {
      assert a + b == b;
    } else {
      FieldRecordsConcat(key, fields, a[1..], b);
      assert (a + b)[1..] == a[1..] + b;
    }
  }

  lemma ReplayValue(ks: Ks, lru: seq<Bytes>, key: Bytes, v: Value, order: seq<Bytes>, c: Clock)
    requires key !in ks && key !in lru && |key| <= MAX_KEY && GoodValue(key, v) && Restorable(v)
    requires v.Hash? ==> Visits(order, v.fields.Keys)
    ensures ReplayOrdered(Restored(ks, lru), ValueRecords(key, v, order), c) == Some(With(ks, lru, key, v))
  {
    hide Replay, FieldRecords, PushRecords, ToDecimal, UsedBytes, Fits, Restorable, ReplayOrdered;
    match v {
      case Str(text) => ReplayText(ks, lru, key, text, c);
      case Int(n) => ReplayInteger(ks, lru, key, n, c);
      case List(items) => ReplayItems(ks, lru, key, items, c);
      case Hash(fields) =>
        forall i | 0 <= i < |order|
          ensures order[i] in fields && |order[i]| <= LIMIT
        {
          assert order[i] in order;
        }
        assert Pick(fields, order) == fields;
        assert order != [] by {
          var f :| f in fields;
          assert f in order;
        }
        ReplayFields(ks, lru, key, fields, order, c);
    }
  }

  lemma ReplayText(ks: Ks, lru: seq<Bytes>, key: Bytes, text: Bytes, c: Clock)
    requires key !in lru && |key| <= MAX_KEY && |text| <= LIMIT
    ensures ReplayOrdered(Restored(ks, lru), [SetRecord(key, text)], c) == Some(With(ks, lru, key, Str(text)))
  {
    ReplayOneRecord(Restored(ks, lru), SetRecord(key, text), c);
    TouchedFront(lru, key);
  }

  lemma ReplayInteger(ks: Ks, lru: seq<Bytes>, key: Bytes, n: Int64, c: Clock)
    requires key !in lru && |key| <= MAX_KEY
    ensures ReplayOrdered(Restored(ks, lru), [IntegerRecord(key, n)], c) == Some(With(ks, lru, key, Int(n)))
  {
    hide ToDecimal, ParseSigned;
    DecimalRoundTrip(n);
    ReplayOneRecord(Restored(ks, lru), IntegerRecord(key, n), c);
    TouchedFront(lru, key);
  }

  lemma ReplayEntry(ks: Ks, lru: seq<Bytes>, key: Bytes, e: Entry, order: seq<Bytes>, c: Clock, c': Clock)
    requires key !in ks && key !in lru && GoodEntry(key, e, c.offset) && Restorable(e.value)
    requires e.value.Hash? ==> Visits(order, e.value.fields.Keys)
    requires ClockOk(c) && ClockOk(c') && c.offset == c'.offset && c.now <= c'.now
    ensures ReplayOrdered(Restored(ks, lru), EntryRecords(key, e, order, c), c')
         == Some(Restored(ks[key := ClampEntry(e, c'.now)], [key] + lru))
  {
    hide ValueRecords, ToDecimal, ParseSigned, GoodValue, Restorable, ReplayOrdered, Visits, Distinct;
    ReplayValue(ks, lru, key, e.value, order, c');
    var mid := With(ks, lru, key, e.value);
    match e.deadline {
      case None =>
        assert ValueRecords(key, e.value, order) + [] == ValueRecords(key, e.value, order);
      case Some(d) =>
        var r := ExpireRecord(key, Stamp(d, c));
        ReplayOrderedConcat(Restored(ks, lru), ValueRecords(key, e.value, order), [r], c');
        DecimalRoundTrip(Stamp(d, c));
        ReplayOneRecord(mid, r, c');
        assert mid.ks[key := ClampEntry(e, c'.now)] == ks[key := ClampEntry(e, c'.now)];
    }
  }

  // ---------- the whole log ----------

  predicate AllRestorable(ks: Ks) { forall key :: key in ks ==> Restorable(ks[key].value) }

  function Keep(ks: Ks, keys: seq<Bytes>): (r: Ks) { map key | key in ks && key in keys :: ks[key] }

  lemma {:induction false} CompactReplays(ks: Ks, lru: seq<Bytes>, orders: Orders, c: Clock, c': Clock)
    requires Good(ks, c.offset) && AllRestorable(ks) && OrdersOk(ks, orders)
    requires Distinct(lru) && forall i :: 0 <= i < |lru| ==> lru[i] in ks
    requires ClockOk(c) && ClockOk(c') && c.offset == c'.offset && c.now <= c'.now
    ensures ReplayOrdered(Restored(map[], []), CompactRecords(ks, lru, orders, c), c')
         == Some(Restored(Clamp(Keep(ks, lru), c'.now), lru))
    decreases |lru|
  {
    hide EntryRecords, GoodEntry, Restorable, ClampEntry, ClockOk, Visits, Clamp, Keep, Replay, Touched;
    if lru == [] {
      KeepNothing(ks, c'.now);
    } else {
      var key, older := lru[0], lru[1..];
      CompactReplays(ks, older, orders, c, c');
      var base := Clamp(Keep(ks, older), c'.now);
      ReplayOrderedConcat(Restored(map[], []), CompactRecords(ks, older, orders, c),
                          EntryRecords(key, ks[key], OrderOf(orders, key), c), c');
      assert key !in base by {
        KeptKeys(ks, older, c'.now);
      }
      ReplayEntry(base, older, key, ks[key], OrderOf(orders, key), c, c');
      KeepStep(ks, lru, c'.now);
      assert lru == [key] + older;
    }
  }

  lemma KeptKeys(ks: Ks, keys: seq<Bytes>, now: int)
    ensures forall key :: key in Clamp(Keep(ks, keys), now) ==> key in keys
  {
  }

  lemma KeepNothing(ks: Ks, now: int)
    ensures Clamp(Keep(ks, []), now) == map[]
  {
  }

  lemma KeepStep(ks: Ks, lru: seq<Bytes>, now: int)
    requires lru != [] && lru[0] in ks
    ensures Clamp(Keep(ks, lru), now) == Clamp(Keep(ks, lru[1..]), now)[lru[0] := ClampEntry(ks[lru[0]], now)]
  {
    hide ClampEntry;
    assert lru == [lru[0]] + lru[1..];
  }

  lemma {:induction false} CompactRecordsFit(ks: Ks, lru: seq<Bytes>, orders: Orders, c: Clock)
    requires Good(ks, c.offset) && OrdersOk(ks, orders) && ClockOk(c)
    ensures AllFit(CompactRecords(ks, lru, orders, c))
    decreases |lru|
  {
    hide EntryRecords, GoodEntry, Fits, ClockOk, Visits;
    if lru != [] {
      CompactRecordsFit(ks, lru[1..], orders, c);
      if lru[0] in ks {
        EntryRecordsFit(lru[0], ks[lru[0]], OrderOf(orders, lru[0]), c);
      }
    }
  }

  lemma EntryRecordsFit(key: Bytes, e: Entry, order: seq<Bytes>, c: Clock)
    requires GoodEntry(key, e, c.offset) && ClockOk(c)
    requires e.value.Hash? ==> Visits(order, e.value.fields.Keys)
    ensures AllFit(EntryRecords(key, e, order, c))
  {
    hide Fits, ToDecimal, Distinct;
    match e.value {
      case Str(text) => SmallRecordsFit(key, text, Text([]), false, 0);
      case Int(n) => SmallRecordsFit(key, [], Text([]), false, n);
      case List(items) =>
        forall i | 0 <= i < |items|
          ensures Fits(PushRecord(key, items[i], false))
        {
          UsedBytesAtLeast(items, i);
          SmallRecordsFit(key, [], items[i], false, 0);
        }
      case Hash(fields) =>
        forall i | 0 <= i < |order|
          ensures order[i] in fields
        {
          assert order[i] in order;
        }
        FieldRecordsFit(key, fields, order);
    }
    if e.deadline.Some? {
      SmallRecordsFit(key, [], Text([]), false, Stamp(e.deadline.value, c));
    }
  }

  lemma {:induction false} FieldRecordsFit(key: Bytes, fields: map<Bytes, Element>, order: seq<Bytes>)
    requires forall i :: 0 <= i < |order| ==> order[i] in fields
    requires forall f :: f in fields ==> Fits(HSetRecord(key, f, fields[f]))
    ensures AllFit(FieldRecords(key, fields, order))
    decreases |order|
  {
    hide Fits;
    if order != [] {
      FieldRecordsFit(key, fields, order[1..]);
    }
  }

  // ---------- a value replay refuses ----------

  lemma {:induction false} FieldIsWritten(key: Bytes, fields: map<Bytes, Element>, order: seq<Bytes>, j: nat)
    requires j < |order| && order[j] in fields
    ensures HSetRecord(key, order[j], fields[order[j]]) in FieldRecords(key, fields, order)
    decreases |order|
  {
    hide HSetRecord;
    if j > 0 {
      FieldIsWritten(key, fields, order[1..], j - 1);
    }
  }

  lemma {:induction false} EntryIsWritten(ks: Ks, lru: seq<Bytes>, orders: Orders, c: Clock, j: nat, r: Record)
    requires j < |lru| && lru[j] in ks && r in EntryRecords(lru[j], ks[lru[j]], OrderOf(orders, lru[j]), c)
    ensures r in CompactRecords(ks, lru, orders, c)
    decreases |lru|
  {
    hide EntryRecords;
    if j > 0 {
      EntryIsWritten(ks, lru[1..], orders, c, j - 1, r);
    }
  }

  /** A key visited and a field visited: the record of an oversized value is among those written. */
  lemma OversizedEntry(key: Bytes, e: Entry, order: seq<Bytes>, c: Clock, f: Bytes)
    requires e.value.Hash? && f in e.value.fields && BodySize(e.value.fields[f]) > LIMIT && Visits(order, e.value.fields.Keys)
    ensures var r := HSetRecord(key, f, e.value.fields[f]);
            OversizedRecord(r) && r in EntryRecords(key, e, order, c)
  {
    hide BodySize, FieldRecords, Distinct;
    var fields := e.value.fields;
    assert f in fields.Keys && f in (set k | k in order);
    var m :| 0 <= m < |order| && order[m] == f;
    FieldIsWritten(key, fields, order, m);
    OnlyTextsAreOversized(fields[f]);
  }

  lemma OversizedIsWritten(ks: Ks, lru: seq<Bytes>, orders: Orders, c: Clock) returns (i: nat)
    requires !AllRestorable(ks) && OrdersOk(ks, orders) && Visits(lru, ks.Keys)
    ensures i < |CompactRecords(ks, lru, orders, c)| && OversizedRecord(CompactRecords(ks, lru, orders, c)[i])
  {
    hide CompactRecords, BodySize, EntryRecords, OversizedRecord, HSetRecord, Distinct;
    var key :| key in ks && !Restorable(ks[key].value);
    var fields := ks[key].value.fields;
    var f :| f in fields && BodySize(fields[f]) > LIMIT;
    OversizedEntry(key, ks[key], OrderOf(orders, key), c, f);
    assert key in ks.Keys && key in (set k | k in lru);
    var j :| 0 <= j < |lru| && lru[j] == key;
    EntryIsWritten(ks, lru, orders, c, j, HSetRecord(key, f, fields[f]));
    i :| 0 <= i < |CompactRecords(ks, lru, orders, c)| && CompactRecords(ks, lru, orders, c)[i] == HSetRecord(key, f, fields[f]);
  }

  lemma OnlyTextsAreOversized(e: Element)
    ensures BodySize(e) > LIMIT ==> e.Text? && Oversized(e.text) && ItemTag(e) == TEXT_TAG && ItemText(e) == e.text
  {
  }

  /**
    * Compaction preserves meaning. Whatever order hash fields are visited in, the compacted log can be
    * written; at any later time it can be reopened exactly when no stored hash value is oversized, and
    * then gives the same keyspace - values, integer and string types, list order, hash maps, deadlines -
    * with the keys in exactly the same order of use.
    */
  lemma CompactionPreservesMeaning(ks: Ks, lru: seq<Bytes>, orders: Orders, c: Clock, c': Clock)
    requires Good(ks, c.offset) && OrdersOk(ks, orders)
    requires Visits(lru, ks.Keys)
    requires ClockOk(c) && ClockOk(c') && c.offset == c'.offset && c.now <= c'.now
    ensures AllFit(CompactRecords(ks, lru, orders, c))
    ensures Reopen(CompactLog(ks, lru, orders, c), c').Some? <==> AllRestorable(ks)
    ensures AllRestorable(ks) ==>
              && ReplayOrdered(Restored(map[], []), CompactRecords(ks, lru, orders, c), c')
              == Some(Restored(Clamp(ks, c'.now), lru))
              && Reopen(CompactLog(ks, lru, orders, c), c') == Some(Live(ks, c'.now))
  {
    hide Good, Live, Clamp, Log, Recovered, ClockOk, AllRestorable, OrdersOk, CompactRecords, ReplayOrdered, Replay, ReplayAll,
      OversizedRecord;
    forall i | 0 <= i < |lru|
      ensures lru[i] in ks
    {
      assert lru[i] in lru;
    }
    CompactRecordsFit(ks, lru, orders, c);
    var rs := CompactRecords(ks, lru, orders, c);
    WholeLogRecovers(rs);
    if AllRestorable(ks) {
      CompactReplays(ks, lru, orders, c, c');
      assert Keep(ks, lru) == ks;
      ReplayForgetsOrder(Restored(map[], []), rs, c');
      LiveClamp(ks, c'.now);
    } else {
      var i := OversizedIsWritten(ks, lru, orders, c);
      OversizedRefused(map[], rs, i, c');
    }
  }

  lemma {:induction false} FieldsNoStamps(key: Bytes, fields: map<Bytes, Element>, order: seq<Bytes>)
    ensures forall i :: 0 <= i < |FieldRecords(key, fields, order)| ==> FieldRecords(key, fields, order)[i].op == 6
    decreases |order|
  {
    if order != [] {
      FieldsNoStamps(key, fields, order[1..]);
    }
  }

  lemma EntryStampable(key: Bytes, e: Entry, order: seq<Bytes>, c: Clock)
    requires GoodEntry(key, e, c.offset) && ClockOk(c)
    ensures AllStampable(EntryRecords(key, e, order, c), c.offset)
  {
    hide ParseSigned, ToDecimal, GoodValue, FieldRecords;
    if e.value.Hash? {
      FieldsNoStamps(key, e.value.fields, order);
    }
    if e.deadline.Some? {
      DecimalRoundTrip(Stamp(e.deadline.value, c));
    }
  }

  lemma {:induction false} CompactStampable(ks: Ks, lru: seq<Bytes>, orders: Orders, c: Clock)
    requires Good(ks, c.offset) && ClockOk(c)
    ensures AllStampable(CompactRecords(ks, lru, orders, c), c.offset)
    decreases |lru|
  {
    hide EntryRecords, Stampable, GoodEntry;
    if lru != [] {
      CompactStampable(ks, lru[1..], orders, c);
      if lru[0] in ks {
        EntryStampable(lru[0], ks[lru[0]], OrderOf(orders, lru[0]), c);
      }
    }
  }

  /** So a compacted log is one that a run can go on from. */
  lemma CompactedRestores(ks: Ks, lru: seq<Bytes>, orders: Orders, c: Clock)
    requires Good(ks, c.offset) && OrdersOk(ks, orders) && Visits(lru, ks.Keys) && ClockOk(c) && AllRestorable(ks)
    ensures Restores(Base(CompactRecords(ks, lru, orders, c), ks, c.now), c.offset)
  {
    hide Good, Clamp, Log, ClockOk, AllRestorable, OrdersOk, CompactRecords, ReplayOrdered, Replay, ReplayAll, Visits,
      Stampable, Reopen, Live;
    var rs := CompactRecords(ks, lru, orders, c);
    CompactStampable(ks, lru, orders, c);
    CompactionPreservesMeaning(ks, lru, orders, c, c);
    forall later | ClockOk(later) && later.offset == c.offset && c.now <= later.now
      ensures ReplayAll(map[], rs, later) == Some(Clamp(ks, later.now))
    {
      CompactionPreservesMeaning(ks, lru, orders, c, later);
      ReplayForgetsOrder(Restored(map[], []), rs, later);
    }
  }

  // ---------- which states can be compacted ----------

  lemma {:induction false} PairsRestorable(fields: map<Bytes, Element>, parts: seq<Bytes>)
    requires Restorable(Hash(fields)) && !AnyOversized(parts)
    ensures Restorable(Hash(SetPairs(fields, parts)))
    decreases |parts|
  {
    hide BodySize, AnyOversized;
    if |parts| >= 2 {
      AnyOversizedSplit(parts);
      PairsRestorable(fields[parts[0] := Text(parts[1])], parts[2..]);
    }
  }

  lemma StepRestorable(ks: Ks, op: Op, c: Clock)
    requires AllRestorable(ks) && !StoresOversized(ks, op, c)
    ensures AllRestorable(Step(ks, op, c).ks)
  {
    hide BodySize, UsedBytes, SetPairs, AddedPairs, LargestPair, PushItems, Fits, ParseSigned, HSetRecords, AnyOversized;
    ReadKeeps(ks, op, c);
    var w := Writable(ks, op.key, c.now);
    if op.HSetTexts? {
      assert Restorable(Hash(OldFields(w, op.key)));
      if !AnyOversized(op.parts) {
        PairsRestorable(OldFields(w, op.key), op.parts);
      }
    } else if op.HSet? {
      HSetRestorable(w, op.key, op.field, op.item);
    }
  }

  lemma HSetRestorable(w: Ks, key: Bytes, field: Bytes, item: Element)
    requires AllRestorable(w)
    ensures AllRestorable(ApplyHSet(w, key, field, item).ks)
  {
    hide BodySize, Fits;
    assert key in w ==> Restorable(w[key].value);
  }

  /** Everything a run reaches that never stored an oversized value can be compacted without loss. */
  lemma {:induction false} RunRestorable(ks: Ks, es: seq<Event>, offset: int)
    requires Good(ks, offset) && AllRestorable(ks) && Clocks(es, offset) && !AnyStored(ks, es)
    ensures Good(Run(ks, es).ks, offset) && AllRestorable(Run(ks, es).ks)
    decreases |es|
  {
    hide Step, Good, AllRestorable, StoresOversized;
    if es != [] {
      StepKeepsGood(ks, es[0].op, es[0].clock);
      StepRestorable(ks, es[0].op, es[0].clock);
      RunRestorable(Step(ks, es[0].op, es[0].clock).ks, es[1..], offset);
    }
  }
}
