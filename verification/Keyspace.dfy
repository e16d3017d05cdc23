/**
  * What a database holds and what each operation does to it: the plain meaning that the indexes,
  * the packed representations, the log and its compaction all have to agree with.
  * Source: src/database.cpp.
  */
module Keyspace {
  import opened Bytes
  import opened Pack
  import opened Wal

  const LIMIT: nat := 64 * 1024 * 1024
  const MAX_KEY: nat := 0x001F_FFFF

  datatype Value = Str(text: Bytes) | Int(number: Int64) | List(items: seq<Element>) | Hash(fields: map<Bytes, Element>)
  datatype Entry = Entry(value: Value, deadline: Option<int>)
  type Ks = map<Bytes, Entry>

  /** One reading of the steady clock in milliseconds, and how far the wall clock is ahead of it. */
  datatype Clock = Clock(now: int, offset: int)

  predicate ClockOk(c: Clock)
  {
    0 <= c.now <= MAX_I64 && 0 <= c.now + c.offset <= MAX_I64
  }

  datatype Error = WrongType | TooLarge | NotInteger | WrongCount
  datatype Reply = Done | Missing | Amount(n: int) | Item(item: Element) | Failed(error: Error)

  datatype Op =
    | Set(key: Bytes, text: Bytes)
    | Incr(key: Bytes)
    | Push(key: Bytes, item: Element, front: bool)
    | PushTexts(key: Bytes, texts: seq<Bytes>, front: bool)
    | Pop(key: Bytes, front: bool)
    | HSet(key: Bytes, field: Bytes, item: Element)
    | HSetTexts(key: Bytes, parts: seq<Bytes>)
    | HDel(key: Bytes, field: Bytes)
    | Expire(key: Bytes, seconds: Int64)
    | Del(key: Bytes)
    | Get(key: Bytes) | LLen(key: Bytes) | HGet(key: Bytes, field: Bytes) | HLen(key: Bytes) | Ttl(key: Bytes)
    | Cleanup(key: Bytes)   // one removal by the expiry pass
    | Evict(key: Bytes)     // one removal by the eviction pass

  datatype Outcome = Outcome(ks: Ks, reply: Reply, records: seq<Record>)

  // ---------- log records ----------

  const TEXT_TAG: Bytes := [115]
  const INTEGER_TAG_ARG: Bytes := [105]

  function ItemTag(e: Element): (s: Bytes) { if e.Number? then INTEGER_TAG_ARG else TEXT_TAG }
  function ItemText(e: Element): (s: Bytes) { if e.Number? then ToDecimal(e.number) else e.text }

  function SetRecord(key: Bytes, text: Bytes): (r: Record) { Record(0, [key, text]) }
  function IncrRecord(key: Bytes): (r: Record) { Record(1, [key]) }
  function PushRecord(key: Bytes, e: Element, front: bool): (r: Record)
  {
    Record(if front then 2 else 3, [key, ItemTag(e), ItemText(e)])
  }
  function PopRecord(key: Bytes, front: bool): (r: Record) { Record(if front then 4 else 5, [key]) }
  function HSetRecord(key: Bytes, field: Bytes, e: Element): (r: Record)
  {
    Record(6, [key, field, ItemTag(e), ItemText(e)])
  }
  function HDelRecord(key: Bytes, field: Bytes): (r: Record) { Record(7, [key, field]) }
  function ExpireRecord(key: Bytes, wall: int): (r: Record) { Record(8, [key, ToDecimal(wall)]) }
  function DelRecord(key: Bytes): (r: Record) { Record(9, [key]) }
  function IntegerRecord(key: Bytes, n: Int64): (r: Record) { Record(10, [key, ToDecimal(n)]) }

  // ---------- sizes and folds ----------

  function UsedBytes(items: seq<Element>): (n: nat)
  {
    if items == [] then 0 else EncodedSize(items[0]) + UsedBytes(items[1..])
  }

  function Texts(texts: seq<Bytes>): (items: seq<Element>)
    ensures |items| == |texts| && forall i :: 0 <= i < |texts| ==> items[i] == Text(texts[i])
  {
    seq(|texts|, i requires 0 <= i < |texts| => Text(texts[i]))
  }

  function Reverse(items: seq<Element>): (r: seq<Element>)
    ensures |r| == |items|
  {
    seq(|items|, i requires 0 <= i < |items| => items[|items| - 1 - i])
  }

  function PushItems(items: seq<Element>, more: seq<Element>, front: bool): (r: seq<Element>)
  {
    if front then Reverse(more) + items else items + more
  }

  function SetPairs(fields: map<Bytes, Element>, parts: seq<Bytes>): (r: map<Bytes, Element>)
    decreases |parts|
  {
    if |parts| < 2 then fields else SetPairs(fields[parts[0] := Text(parts[1])], parts[2..])
  }

  function AddedPairs(fields: map<Bytes, Element>, parts: seq<Bytes>): (n: nat)
    decreases |parts|
  {
    if |parts| < 2 then 0
    else (if parts[0] in fields then 0 else 1) + AddedPairs(fields[parts[0] := Text(parts[1])], parts[2..])
  }

  function LargestPair(parts: seq<Bytes>): (n: nat)
  {
    if |parts| < 2 then 0
    else
      var rest := LargestPair(parts[2..]);
      if |parts[0]| + |parts[1]| > rest then |parts[0]| + |parts[1]| else rest
  }

  // ---------- the operations ----------

  /** Keys most recently used first, without one of them. */
  function Drop(s: seq<Bytes>, key: Bytes): (r: seq<Bytes>)
  {
    if s == [] then [] else if s[0] == key then s[1..] else [s[0]] + Drop(s[1..], key)
  }

  lemma {:induction false} DropAbsent(s: seq<Bytes>, key: Bytes)
    requires key !in s
    ensures Drop(s, key) == s
  {
    if s != [] {
      DropAbsent(s[1..], key);
    }
  }

  /** The order of use after an operation on `key`, which is there afterwards or is not. */
  function Recent(s: seq<Bytes>, key: Bytes, present: bool): (r: seq<Bytes>)
  {
    (if present then [key] else []) + Drop(s, key)
  }

  predicate Expired(ks: Ks, key: Bytes, now: int)
  {
    key in ks && ks[key].deadline.Some? && ks[key].deadline.value <= now
  }

  /** `find_writable`: an expired target is deleted, and logged as deleted, before anything else. */
  function Writable(ks: Ks, key: Bytes, now: int): (r: Ks) { if Expired(ks, key, now) then ks - {key} else ks }

  function WritableRecords(ks: Ks, key: Bytes, now: int): (r: seq<Record>)
  {
    if Expired(ks, key, now) then [DelRecord(key)] else []
  }

  predicate IsRead(op: Op) { op.Get? || op.LLen? || op.HGet? || op.HLen? || op.Ttl? }

  /** Arguments refused before the key is looked up. */
  function Refused(op: Op): (e: Option<Error>)
  {
    if op.Set? && |op.text| > LIMIT then Some(TooLarge)
    else if op.HSetTexts? && |op.parts| % 2 == 1 then Some(WrongCount)
    else if !IsRead(op) && |op.key| > MAX_KEY then Some(TooLarge)
    else None
  }

  function ApplyIncr(ks: Ks, key: Bytes): (r: Outcome)
  {
    if key !in ks then Outcome(ks[key := Entry(Int(1), None)], Amount(1), [IncrRecord(key)])
    else
      var current :=
        match ks[key].value
        case Int(n) => Some(n)
        case Str(text) => ParseSigned(text)
        case _ => None;
      if ks[key].value.List? || ks[key].value.Hash? then Outcome(ks, Failed(WrongType), [])
      else if current.None? || current.value == MAX_I64 then Outcome(ks, Failed(NotInteger), [])
      else
        Outcome(ks[key := ks[key].(value := Int(current.value + 1))], Amount(current.value + 1), [IncrRecord(key)])
  }

  function OldItems(ks: Ks, key: Bytes): (items: seq<Element>)
  {
    if key in ks && ks[key].value.List? then ks[key].value.items else []
  }

  function OldFields(ks: Ks, key: Bytes): (fields: map<Bytes, Element>)
  {
    if key in ks && ks[key].value.Hash? then ks[key].value.fields else map[]
  }

  function OldDeadline(ks: Ks, key: Bytes): (d: Option<int>) { if key in ks then ks[key].deadline else None }

  function PushRecords(key: Bytes, items: seq<Element>, front: bool): (r: seq<Record>)
    ensures |r| == |items| && forall i :: 0 <= i < |items| ==> r[i] == PushRecord(key, items[i], front)
  {
    seq(|items|, i requires 0 <= i < |items| => PushRecord(key, items[i], front))
  }

  /** `list_push` is the case of one item; `push_texts` stores all its items or none. */
  function ApplyPush(ks: Ks, key: Bytes, more: seq<Element>, front: bool): (r: Outcome)
  {
    var items := OldItems(ks, key);
    if key in ks && !ks[key].value.List? then Outcome(ks, Failed(WrongType), [])
    else if more == [] then Outcome(ks, Amount(|items|), [])
    else if UsedBytes(items) + UsedBytes(more) > LIMIT then Outcome(ks, Failed(TooLarge), [])
    else
      var pushed := PushItems(items, more, front);
      Outcome(ks[key := Entry(List(pushed), OldDeadline(ks, key))], Amount(|pushed|), PushRecords(key, more, front))
  }

  function ApplyPop(ks: Ks, key: Bytes, front: bool): (r: Outcome)
  {
    if key !in ks then Outcome(ks, Missing, [])
    else if !ks[key].value.List? then Outcome(ks, Failed(WrongType), [])
    else
      var items := ks[key].value.items;
      if items == [] then Outcome(ks, Missing, [])
      else
        var item := if front then items[0] else items[|items| - 1];
        var rest := if front then items[1..] else items[..|items| - 1];
        var left := if rest == [] then ks - {key} else ks[key := ks[key].(value := List(rest))];
        Outcome(left, Item(item), [PopRecord(key, front)])
  }

  /** `hash_assign` up to the point where it logs. */
  function AssignField(ks: Ks, key: Bytes, field: Bytes, item: Element): (r: Outcome)
  {
    var fields := OldFields(ks, key);
    if key in ks && !ks[key].value.Hash? then Outcome(ks, Failed(WrongType), [])
    else if |field| > LIMIT || BodySize(item) > LIMIT then Outcome(ks, Failed(TooLarge), [])
    else
      Outcome(ks[key := Entry(Hash(fields[field := item]), OldDeadline(ks, key))],
              Amount(if field in fields then 0 else 1), [HSetRecord(key, field, item)])
  }

  /** A field and a value may be too long together for one record, and then nothing is stored. */
  function ApplyHSet(ks: Ks, key: Bytes, field: Bytes, item: Element): (r: Outcome)
  {
    var r := AssignField(ks, key, field, item);
    if r.reply.Amount? && !Fits(HSetRecord(key, field, item)) then Outcome(ks, Failed(TooLarge), []) else r
  }

  function HSetRecords(key: Bytes, parts: seq<Bytes>): (r: seq<Record>)
  {
    if |parts| < 2 then [] else [HSetRecord(key, parts[0], Text(parts[1]))] + HSetRecords(key, parts[2..])
  }

  function ApplyHSetTexts(ks: Ks, key: Bytes, parts: seq<Bytes>): (r: Outcome)
  {
    var fields := OldFields(ks, key);
    if key in ks && !ks[key].value.Hash? then Outcome(ks, Failed(WrongType), [])
    else if parts == [] then Outcome(ks, Amount(0), [])
    else if exists i :: 0 <= i < |parts| && |parts[i]| > LIMIT then Outcome(ks, Failed(TooLarge), [])
    else if |key| + LargestPair(parts) + 64 > MAX_RECORD + 8 then Outcome(ks, Failed(TooLarge), [])
    else
      Outcome(ks[key := Entry(Hash(SetPairs(fields, parts)), OldDeadline(ks, key))],
              Amount(AddedPairs(fields, parts)), HSetRecords(key, parts))
  }

  function ApplyHDel(ks: Ks, key: Bytes, field: Bytes): (r: Outcome)
  {
    if key !in ks then Outcome(ks, Amount(0), [])
    else if !ks[key].value.Hash? then Outcome(ks, Failed(WrongType), [])
    else if field !in ks[key].value.fields then Outcome(ks, Amount(0), [])
    else
      var rest := ks[key].value.fields - {field};
      Outcome(if rest == map[] then ks - {key} else ks[key := ks[key].(value := Hash(rest))],
              Amount(1), [HDelRecord(key, field)])
  }

  function Max(a: int, b: int): (r: int) { if a > b then a else b }

  function ApplyExpire(ks: Ks, key: Bytes, seconds: Int64, c: Clock): (r: Outcome)
  {
    if key !in ks then Outcome(ks, Amount(0), [])
    else if seconds <= 0 then Outcome(ks - {key}, Amount(1), [DelRecord(key)])
    else if seconds > (MAX_I64 - Max(c.now, c.now + c.offset)) / 1000 then Outcome(ks, Failed(NotInteger), [])
    else
      var deadline := c.now + seconds * 1000;
      Outcome(ks[key := ks[key].(deadline := Some(deadline))], Amount(1), [ExpireRecord(key, deadline + c.offset)])
  }

  function ApplyDel(ks: Ks, key: Bytes): (r: Outcome)
  {
    if key in ks then Outcome(ks - {key}, Amount(1), [DelRecord(key)]) else Outcome(ks, Amount(0), [])
  }

  function ApplyRead(ks: Ks, op: Op, c: Clock): (r: Outcome)
    requires IsRead(op)
  {
    var found := op.key in ks && !Expired(ks, op.key, c.now);
    var reply :=
      match op
      case Get(key) =>
        if !found then Missing
        else
          (match ks[key].value
           case Str(text) => Item(Text(text))
           case Int(n) => Item(Text(ToDecimal(n)))
           case _ => Failed(WrongType))
      case LLen(key) =>
        if !found then Amount(0) else if !ks[key].value.List? then Failed(WrongType) else Amount(|ks[key].value.items|)
      case HLen(key) =>
        if !found then Amount(0) else if !ks[key].value.Hash? then Failed(WrongType) else Amount(|ks[key].value.fields|)
      case HGet(key, field) =>
        if !found then Missing
        else if !ks[key].value.Hash? then Failed(WrongType)
        else if field in ks[key].value.fields then Item(ks[key].value.fields[field])
        else Missing
      case Ttl(key) =>
        if !found then Amount(-2)
        else if ks[key].deadline.None? then Amount(-1)
        else Amount((ks[key].deadline.value - c.now) / 1000);
    Outcome(ks, reply, [])
  }

  /** An operation on a keyspace whose target is not expired (or while the log is being replayed). */
  function Apply(ks: Ks, op: Op, c: Clock): (r: Outcome)
  {
    match op
    case Set(key, text) => Outcome(ks[key := Entry(Str(text), None)], Done, [SetRecord(key, text)])
    case Incr(key) => ApplyIncr(ks, key)
    case Push(key, item, front) => ApplyPush(ks, key, [item], front)
    case PushTexts(key, texts, front) => ApplyPush(ks, key, Texts(texts), front)
    case Pop(key, front) => ApplyPop(ks, key, front)
    case HSet(key, field, item) => ApplyHSet(ks, key, field, item)
    case HSetTexts(key, parts) => ApplyHSetTexts(ks, key, parts)
    case HDel(key, field) => ApplyHDel(ks, key, field)
    case Expire(key, seconds) => ApplyExpire(ks, key, seconds, c)
    case Del(key) => ApplyDel(ks, key)
    case Cleanup(key) => Outcome(ks, Done, [])
    case Evict(key) => ApplyDel(ks, key)
    case _ => ApplyRead(ks, op, c)
  }

  /** One operation on the live database. */
  function Step(ks: Ks, op: Op, c: Clock): (r: Outcome)
  {
    if Refused(op).Some? then Outcome(ks, Failed(Refused(op).value), [])
    else if IsRead(op) then ApplyRead(ks, op, c)
    else if op.Evict? then ApplyDel(ks, op.key)
    else
      var r := Apply(Writable(ks, op.key, c.now), op, c);
      r.(records := WritableRecords(ks, op.key, c.now) + r.records)
  }

  // ---------- what every stored value satisfies ----------

  predicate GoodItem(e: Element) { e.Text? ==> |e.text| <= LIMIT }

  /** No stored list or hash is empty, and everything stored is within the limits it was checked against. */
  predicate GoodValue(key: Bytes, v: Value)
  {
    match v
    case Str(text) => |text| <= LIMIT
    case Int(_) => true
    case List(items) => items != [] && UsedBytes(items) <= LIMIT
    case Hash(fields) =>
      fields != map[]
      && forall f :: f in fields ==> |f| <= LIMIT && GoodItem(fields[f]) && Fits(HSetRecord(key, f, fields[f]))
  }

  predicate GoodEntry(key: Bytes, e: Entry, offset: int)
  {
    && |key| <= MAX_KEY
    && GoodValue(key, e.value)
    && (e.deadline.Some? ==> 0 <= e.deadline.value <= MAX_I64 && 0 <= e.deadline.value + offset <= MAX_I64)
  }

  predicate Good(ks: Ks, offset: int)
  {
    forall key :: key in ks ==> GoodEntry(key, ks[key], offset)
  }

  lemma {:induction false} UsedBytesConcat(a: seq<Element>, b: seq<Element>)
    ensures UsedBytes(a + b) == UsedBytes(a) + UsedBytes(b)
  {
    if a == [] {
      assert a + b == b;
    } else {
      UsedBytesConcat(a[1..], b);
      assert (a + b)[1..] == a[1..] + b;
    }
  }

  lemma {:induction false} UsedBytesReverse(a: seq<Element>)
    ensures UsedBytes(Reverse(a)) == UsedBytes(a)
  {
    if a != [] {
      UsedBytesReverse(a[1..]);
      assert Reverse(a) == Reverse(a[1..]) + [a[0]];
      UsedBytesConcat(Reverse(a[1..]), [a[0]]);
    }
  }

  lemma {:induction false} UsedBytesAtLeast(a: seq<Element>, i: nat)
    requires i < |a|
    ensures UsedBytes(a) >= EncodedSize(a[i])
  {
    if i > 0 {
      UsedBytesAtLeast(a[1..], i - 1);
    }
  }

  lemma PushKeepsGood(ks: Ks, key: Bytes, more: seq<Element>, front: bool, offset: int)
    requires Good(ks, offset) && |key| <= MAX_KEY
    ensures Good(ApplyPush(ks, key, more, front).ks, offset)
  {
    hide EncodedSize, Fits;
    var items := OldItems(ks, key);
    UsedBytesConcat(items, more);
    UsedBytesReverse(more);
    UsedBytesConcat(Reverse(more), items);
  }

  lemma PopKeepsGood(ks: Ks, key: Bytes, front: bool, offset: int)
    requires Good(ks, offset)
    ensures Good(ApplyPop(ks, key, front).ks, offset)
  {
    hide EncodedSize, Fits;
    var items := OldItems(ks, key);
    if items != [] {
      UsedBytesConcat(items[..|items| - 1], [items[|items| - 1]]);
      assert items == items[..|items| - 1] + [items[|items| - 1]];
    }
  }

  lemma {:induction false} SetPairsGood(key: Bytes, fields: map<Bytes, Element>, parts: seq<Bytes>)
    requires |key| + LargestPair(parts) + 64 <= MAX_RECORD + 8
    requires forall i :: 0 <= i < |parts| ==> |parts[i]| <= LIMIT
    requires forall f :: f in fields ==> |f| <= LIMIT && GoodItem(fields[f]) && Fits(HSetRecord(key, f, fields[f]))
    ensures var r := SetPairs(fields, parts);
            && (forall f :: f in r ==> |f| <= LIMIT && GoodItem(r[f]) && Fits(HSetRecord(key, f, r[f])))
            && (fields != map[] || |parts| >= 2 ==> r != map[])
    decreases |parts|
  {
    hide Fits;
    if |parts| >= 2 {
      ReservedRecordFits(key, parts[0], parts[1]);
      assert parts[0] in fields[parts[0] := Text(parts[1])];
      SetPairsGood(key, fields[parts[0] := Text(parts[1])], parts[2..]);
    }
  }

  /** The size `reserve_record` is asked for covers the record of every pair. */
  lemma ReservedRecordFits(key: Bytes, field: Bytes, text: Bytes)
    requires |key| + |field| + |text| + 64 <= MAX_RECORD + 8
    ensures Fits(HSetRecord(key, field, Text(text)))
    ensures 10 + ArgsSize(HSetRecord(key, field, Text(text)).args) <= |key| + |field| + |text| + 64
  {
    ArgsSize4(key, field, TEXT_TAG, text);
  }

  lemma ArgsSize4(a: Bytes, b: Bytes, c: Bytes, d: Bytes)
    ensures ArgsSize([d]) == 4 + |d|
    ensures ArgsSize([c, d]) == 8 + |c| + |d|
    ensures ArgsSize([b, c, d]) == 12 + |b| + |c| + |d|
    ensures ArgsSize([a, b, c, d]) == 16 + |a| + |b| + |c| + |d|
  {
    assert [d][1..] == [];
    assert ArgsSize([d]) == 4 + |d|;
    assert [c, d][1..] == [d];
    assert ArgsSize([c, d]) == 8 + |c| + |d|;
    assert [b, c, d][1..] == [c, d];
    assert ArgsSize([b, c, d]) == 12 + |b| + |c| + |d|;
    assert [a, b, c, d][1..] == [b, c, d];
  }

  lemma FieldKeepsGood(key: Bytes, fields: map<Bytes, Element>, field: Bytes, item: Element)
    requires fields == map[] || GoodValue(key, Hash(fields))
    requires |field| <= LIMIT && BodySize(item) <= LIMIT && Fits(HSetRecord(key, field, item))
    ensures GoodValue(key, Hash(fields[field := item]))
  {
    hide Fits, HSetRecord;
    assert field in fields[field := item];
  }

  lemma AssignKeepsGood(ks: Ks, key: Bytes, field: Bytes, item: Element, offset: int)
    requires Good(ks, offset) && |key| <= MAX_KEY
    ensures Fits(HSetRecord(key, field, item)) ==> Good(AssignField(ks, key, field, item).ks, offset)
  {
    hide Fits, GoodValue, BodySize, HSetRecord;
    var fields := OldFields(ks, key);
    assert key in ks ==> GoodEntry(key, ks[key], offset);
    if Fits(HSetRecord(key, field, item)) && AssignField(ks, key, field, item).reply.Amount? {
      FieldKeepsGood(key, fields, field, item);
    }
  }

  lemma HSetKeepsGood(ks: Ks, key: Bytes, field: Bytes, item: Element, offset: int)
    requires Good(ks, offset) && |key| <= MAX_KEY
    ensures Good(ApplyHSet(ks, key, field, item).ks, offset)
  {
    hide Fits, GoodValue, BodySize, HSetRecord, AssignField, Good;
    AssignKeepsGood(ks, key, field, item, offset);
    AssignFails(ks, key, field, item);
  }

  lemma AssignFails(ks: Ks, key: Bytes, field: Bytes, item: Element)
    ensures !AssignField(ks, key, field, item).reply.Amount? ==> AssignField(ks, key, field, item).ks == ks
  {
  }

  lemma HSetTextsKeepsGood(ks: Ks, key: Bytes, parts: seq<Bytes>, offset: int)
    requires Good(ks, offset) && |key| <= MAX_KEY && |parts| % 2 == 0
    ensures Good(ApplyHSetTexts(ks, key, parts).ks, offset)
  {
    hide Fits, LargestPair, SetPairs, AddedPairs, HSetRecords;
    assert key in ks && ks[key].value.Hash? ==> GoodEntry(key, ks[key], offset);
    if ApplyHSetTexts(ks, key, parts).ks != ks {
      SetPairsGood(key, OldFields(ks, key), parts);
    }
  }

  lemma HDelKeepsGood(ks: Ks, key: Bytes, field: Bytes, offset: int)
    requires Good(ks, offset)
    ensures Good(ApplyHDel(ks, key, field).ks, offset)
  {
    hide Fits;
    assert key in ks && ks[key].value.Hash? ==> GoodEntry(key, ks[key], offset);
  }

  lemma ApplyKeepsGood(w: Ks, op: Op, c: Clock)
    requires Good(w, c.offset) && ClockOk(c) && Refused(op).None? && !IsRead(op)
    ensures op.Evict? || Good(Apply(w, op, c).ks, c.offset)
  {
    hide Fits, LargestPair, SetPairs, AddedPairs, HSetRecords, UsedBytes, ApplyPush, ApplyPop, ApplyHSet, ApplyHSetTexts,
    ApplyHDel, ApplyRead;
    match op {
      case Push(key, item, front) => PushKeepsGood(w, key, [item], front, c.offset);
      case PushTexts(key, texts, front) => PushKeepsGood(w, key, Texts(texts), front, c.offset);
      case Pop(key, front) => PopKeepsGood(w, key, front, c.offset);
      case HSet(key, field, item) => HSetKeepsGood(w, key, field, item, c.offset);
      case HSetTexts(key, parts) => HSetTextsKeepsGood(w, key, parts, c.offset);
      case HDel(key, field) => HDelKeepsGood(w, key, field, c.offset);
      case _ =>
    }
  }

  /** Every operation keeps everything stored within its limits, and never leaves an empty list or hash. */
  lemma StepKeepsGood(ks: Ks, op: Op, c: Clock)
    requires Good(ks, c.offset) && ClockOk(c)
    ensures Good(Step(ks, op, c).ks, c.offset)
  {
    hide Apply, ApplyRead, GoodEntry, Refused, ClockOk;
    if Refused(op).None? && !IsRead(op) && !op.Evict? {
      ApplyKeepsGood(Writable(ks, op.key, c.now), op, c);
    } else {
      ReadKeeps(ks, op, c);
    }
  }

  lemma ReadKeeps(ks: Ks, op: Op, c: Clock)
    ensures IsRead(op) ==> ApplyRead(ks, op, c).ks == ks && ApplyRead(ks, op, c).records == []
  {
  }
}
