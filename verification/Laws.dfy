/**
  * What a client sees: how the reply to each command follows from the commands before it. Stated on steps of
  * the plain keyspace and on their replies, at any times. Source: src/database.cpp:417-1305.
  */
module Laws {
  import opened Bytes
  import opened Pack
  import opened Wal
  import opened Keyspace

  const KEY_LIMIT: nat := 2_097_151
  const VALUE_LIMIT: nat := 67_108_864

  /** The reply, and the keyspace after it. */
  function Reply(ks: Ks, op: Op, c: Clock): (r: Reply) { Step(ks, op, c).reply }

  function After(ks: Ks, op: Op, c: Clock): (r: Ks) { Step(ks, op, c).ks }

  /** A client can tell that the key is there. */
  predicate There(ks: Ks, key: Bytes, c: Clock) { Reply(ks, Ttl(key), c) != Amount(-2) }

  lemma ThereMeans(ks: Ks, key: Bytes, c: Clock)
    ensures There(ks, key, c) <==> key in ks && !Expired(ks, key, c.now)
  {
  }

  // ---------- keys that are not there ----------

  lemma AbsentReads(ks: Ks, key: Bytes, field: Bytes, c: Clock)
    requires !There(ks, key, c)
    ensures Reply(ks, Get(key), c) == Missing && Reply(ks, HGet(key, field), c) == Missing
    ensures Reply(ks, LLen(key), c) == Amount(0) && Reply(ks, HLen(key), c) == Amount(0)
  {
  }

  lemma AbsentCounts(ks: Ks, key: Bytes, field: Bytes, seconds: Int64, c: Clock)
    requires !There(ks, key, c) && |key| <= KEY_LIMIT
    ensures Reply(ks, Expire(key, seconds), c) == Amount(0) && Reply(ks, HDel(key, field), c) == Amount(0)
  {
    hide ToDecimal;
  }

  lemma AbsentPop(ks: Ks, key: Bytes, front: bool, c: Clock)
    requires !There(ks, key, c) && |key| <= KEY_LIMIT
    ensures Reply(ks, Pop(key, front), c) == Missing
  {
  }

  lemma DelTakesAway(ks: Ks, key: Bytes, c: Clock, later: Clock)
    requires |key| <= KEY_LIMIT
    ensures Reply(ks, Del(key), c) == Amount(if There(ks, key, c) then 1 else 0)
    ensures !There(After(ks, Del(key), c), key, later)
  {
  }

  // ---------- strings and counters ----------

  lemma SetThenGet(ks: Ks, key: Bytes, text: Bytes, c: Clock, later: Clock)
    requires |key| <= KEY_LIMIT && |text| <= VALUE_LIMIT
    ensures var t := After(ks, Set(key, text), c);
            && Reply(ks, Set(key, text), c) == Done && Reply(t, Get(key), later) == Item(Text(text))
            && Reply(t, Ttl(key), later) == Amount(-1)
  {
  }

  lemma SetRefused(ks: Ks, key: Bytes, text: Bytes, c: Clock)
    ensures |key| > KEY_LIMIT || |text| > VALUE_LIMIT <==> Reply(ks, Set(key, text), c) == Failed(TooLarge)
    ensures |key| > KEY_LIMIT || |text| > VALUE_LIMIT ==> After(ks, Set(key, text), c) == ks
  {
  }

  /** What GET replies, as a number. */
  function Counter(ks: Ks, key: Bytes, c: Clock): (n: Option<Int64>)
  {
    match Reply(ks, Get(key), c)
    case Item(Text(text)) => ParseSigned(text)
    case _ => None
  }

  /** INCR adds one to what GET replies, keeps the deadline, and GET replies the sum. */
  lemma IncrAddsOne(ks: Ks, key: Bytes, c: Clock, later: Clock)
    requires |key| <= KEY_LIMIT && Counter(ks, key, c).Some? && Counter(ks, key, c).value < 0x7FFF_FFFF_FFFF_FFFF
    ensures var n, t := Counter(ks, key, c).value, After(ks, Incr(key), c);
            && Reply(ks, Incr(key), c) == Amount(n + 1)
            && Reply(t, Ttl(key), later) == Reply(ks, Ttl(key), later)
            && (There(ks, key, later) ==>
                  Reply(t, Get(key), later) == Item(Text(ToDecimal(n + 1))) && Counter(t, key, later) == Some(n + 1))
  {
    hide ParseSigned, ToDecimal;
    ThereMeans(ks, key, later);
    var n := Counter(ks, key, c).value;
    DecimalRoundTrip(n + 1);
    if ks[key].value.Int? {
      DecimalRoundTrip(ks[key].value.number);
    }
  }

  /** INCR of a key that is there fails exactly if GET does not reply a number that can be added to. */
  lemma IncrFails(ks: Ks, key: Bytes, c: Clock)
    requires |key| <= KEY_LIMIT && There(ks, key, c)
    ensures var n := Counter(ks, key, c);
            && (Reply(ks, Incr(key), c).Failed? <==> n.None? || n.value == 0x7FFF_FFFF_FFFF_FFFF)
            && (Reply(ks, Incr(key), c).Failed? ==> After(ks, Incr(key), c) == ks)
            && (Reply(ks, Incr(key), c) == Failed(WrongType) <==> Reply(ks, Get(key), c) == Failed(WrongType))
  {
    hide ParseSigned, ToDecimal;
    if ks[key].value.Int? {
      DecimalRoundTrip(ks[key].value.number);
    }
  }

  lemma IncrStarts(ks: Ks, key: Bytes, c: Clock, later: Clock)
    requires |key| <= KEY_LIMIT && !There(ks, key, c)
    ensures var t := After(ks, Incr(key), c);
            && Reply(ks, Incr(key), c) == Amount(1) && Counter(t, key, later) == Some(1)
            && Reply(t, Get(key), later) == Item(Text([49])) && Reply(t, Ttl(key), later) == Amount(-1)
  {
    DecimalRoundTrip(1);
  }

  function Increments(ks: Ks, key: Bytes, cs: seq<Clock>): (r: Ks)
  {
    if cs == [] then ks else After(Increments(ks, key, cs[..|cs| - 1]), Incr(key), cs[|cs| - 1])
  }

  /** Increments of a key that was not there reply 1, 2, 3 and so on. */
  lemma {:induction false} CountsUp(ks: Ks, key: Bytes, cs: seq<Clock>, later: Clock)
    requires |key| <= KEY_LIMIT && cs != [] && !There(ks, key, cs[0]) && |cs| <= 0x7FFF_FFFF_FFFF_FFFF
    ensures var k := |cs| - 1;
            && Reply(Increments(ks, key, cs[..k]), Incr(key), cs[k]) == Amount(|cs|)
            && Counter(Increments(ks, key, cs), key, later) == Some(|cs|)
            && Reply(Increments(ks, key, cs), Ttl(key), later) == Amount(-1)
    decreases |cs|
  {
    hide Reply, After, Counter;
    var k := |cs| - 1;
    var before := Increments(ks, key, cs[..k]);
    if k == 0 {
      assert cs[..0] == [];
      IncrStarts(ks, key, cs[0], later);
    } else {
      assert cs[..k][0] == cs[0];
      CountsUp(ks, key, cs[..k], cs[k]);
      IncrAddsOne(before, key, cs[k], later);
      CountsUp(ks, key, cs[..k], later);
    }
  }

  // ---------- lists ----------

  /** A key that is there holds this list. */
  predicate Holds(ks: Ks, key: Bytes, items: seq<Element>, c: Clock)
  {
    key in ks && !Expired(ks, key, c.now) && ks[key].value == List(items)
  }

  /** A pop takes the item at its end and leaves the others, or no key at all. */
  lemma PopTakesFirst(ks: Ks, key: Bytes, x: Element, rest: seq<Element>, c: Clock)
    requires |key| <= KEY_LIMIT && Holds(ks, key, [x] + rest, c)
    ensures Reply(ks, Pop(key, true), c) == Item(x)
    ensures After(ks, Pop(key, true), c) == if rest == [] then ks - {key} else ks[key := Entry(List(rest), ks[key].deadline)]
  {
    assert ([x] + rest)[1..] == rest;
  }

  lemma PopTakesLast(ks: Ks, key: Bytes, x: Element, rest: seq<Element>, c: Clock)
    requires |key| <= KEY_LIMIT && Holds(ks, key, rest + [x], c)
    ensures Reply(ks, Pop(key, false), c) == Item(x)
    ensures After(ks, Pop(key, false), c) == if rest == [] then ks - {key} else ks[key := Entry(List(rest), ks[key].deadline)]
  {
    assert (rest + [x])[..|rest|] == rest && (rest + [x])[|rest|] == x;
  }

  /** The items a key holds, none if it is not there. */
  function Items(ks: Ks, key: Bytes, c: Clock): (items: seq<Element>)
  {
    if key in ks && !Expired(ks, key, c.now) && ks[key].value.List? then ks[key].value.items else []
  }

  lemma PushStores(ks: Ks, key: Bytes, x: Element, front: bool, c: Clock)
    requires Reply(ks, Push(key, x, front), c).Amount?
    ensures var items := Items(ks, key, c);
            var deadline := if There(ks, key, c) then ks[key].deadline else None;
            && |key| <= KEY_LIMIT && (There(ks, key, c) ==> ks[key].value == List(items))
            && After(ks, Push(key, x, front), c) ==
                 Writable(ks, key, c.now)[key := Entry(List(if front then [x] + items else items + [x]), deadline)]
            && Reply(ks, Push(key, x, front), c) == Amount(|items| + 1)
  {
    hide UsedBytes, PushRecords;
    assert Reverse([x]) == [x];
  }

  /** Popping the end that was pushed replies the item and brings the old keyspace back. */
  lemma PushThenPop(ks: Ks, key: Bytes, x: Element, front: bool, c: Clock, later: Clock)
    requires Reply(ks, Push(key, x, front), c).Amount? && (key in ks ==> ks[key].value != List([]))
    requires There(After(ks, Push(key, x, front), c), key, later)
    ensures var t := After(ks, Push(key, x, front), c);
            Reply(t, Pop(key, front), later) == Item(x) && After(t, Pop(key, front), later) == Writable(ks, key, c.now)
  {
    hide Reply, After;
    var items, t := Items(ks, key, c), After(ks, Push(key, x, front), c);
    PushStores(ks, key, x, front, c);
    ThereMeans(ks, key, c);
    ThereMeans(t, key, later);
    if front {
      PopTakesFirst(t, key, x, items, later);
    } else {
      PopTakesLast(t, key, x, items, later);
    }
  }

  /** A push on a list that is not empty leaves the other end alone. */
  lemma PushThenPopOther(ks: Ks, key: Bytes, x: Element, front: bool, c: Clock, later: Clock)
    requires Reply(ks, Push(key, x, front), c).Amount? && There(ks, key, c) && ks[key].value != List([])
    requires There(After(ks, Push(key, x, front), c), key, later)
    ensures Reply(After(ks, Push(key, x, front), c), Pop(key, !front), later) == Reply(ks, Pop(key, !front), c)
  {
    hide Reply, After;
    var items, t := Items(ks, key, c), After(ks, Push(key, x, front), c);
    PushStores(ks, key, x, front, c);
    ThereMeans(ks, key, c);
    ThereMeans(t, key, later);
    var n := |items| - 1;
    if front {
      assert items == items[..n] + [items[n]] && [x] + items == ([x] + items[..n]) + [items[n]];
      PopTakesLast(ks, key, items[n], items[..n], c);
      PopTakesLast(t, key, items[n], [x] + items[..n], later);
    } else {
      assert items == [items[0]] + items[1..] && items + [x] == [items[0]] + (items[1..] + [x]);
      PopTakesFirst(ks, key, items[0], items[1..], c);
      PopTakesFirst(t, key, items[0], items[1..] + [x], later);
    }
  }

  lemma LLenCounts(ks: Ks, key: Bytes, c: Clock)
    ensures !There(ks, key, c) || ks[key].value.List? ==> Reply(ks, LLen(key), c) == Amount(|Items(ks, key, c)|)
  {
  }

  /** LLEN replies what the last push replied. */
  lemma PushThenLLen(ks: Ks, key: Bytes, x: Element, front: bool, c: Clock, later: Clock)
    requires Reply(ks, Push(key, x, front), c).Amount?
    ensures var t := After(ks, Push(key, x, front), c);
            && (There(t, key, later) ==> Reply(t, LLen(key), later) == Reply(ks, Push(key, x, front), c))
            && (Reply(ks, LLen(key), c).Amount? && Reply(ks, Push(key, x, front), c) == Amount(Reply(ks, LLen(key), c).n + 1))
  {
    hide Reply, After;
    var t := After(ks, Push(key, x, front), c);
    PushStores(ks, key, x, front, c);
    ThereMeans(ks, key, c);
    ThereMeans(t, key, later);
    LLenCounts(t, key, later);
    LLenCounts(ks, key, c);
  }

  /** And one less with each pop. */
  lemma PopThenLLen(ks: Ks, key: Bytes, front: bool, c: Clock, later: Clock)
    requires Reply(ks, Pop(key, front), c).Item? && (There(ks, key, c) ==> There(ks, key, later))
    ensures var t := After(ks, Pop(key, front), c);
            && Reply(ks, LLen(key), c).Amount? && Reply(t, LLen(key), later) == Amount(Reply(ks, LLen(key), c).n - 1)
            && (Reply(ks, LLen(key), c) == Amount(1) ==> !There(t, key, later))
  {
  }

  function Pops(ks: Ks, key: Bytes, front: bool, cs: seq<Clock>): (r: Ks)
  {
    if cs == [] then ks else After(Pops(ks, key, front, cs[..|cs| - 1]), Pop(key, front), cs[|cs| - 1])
  }

  /** Pops from one end reply all the items in the order they have from there, and then that there is nothing. */
  lemma {:induction false} Drains(ks: Ks, key: Bytes, front: bool, items: seq<Element>, cs: seq<Clock>, c: Clock)
    requires |key| <= KEY_LIMIT && key in ks && ks[key] == Entry(List(items), None)
    ensures var left, n := Pops(ks, key, front, cs), |items| - |cs|;
            if n > 0 then
              && left == ks[key := Entry(List(if front then items[|cs|..] else items[..n]), None)]
              && Reply(left, Pop(key, front), c) == Item(if front then items[|cs|] else items[n - 1])
            else items != [] ==> left == ks - {key} && Reply(left, Pop(key, front), c) == Missing
    decreases |cs|
  {
    hide Reply, After;
    var left, n := Pops(ks, key, front, cs), |items| - |cs|;
    if cs != [] && items != [] {
      var k := |cs| - 1;
      var before := Pops(ks, key, front, cs[..k]);
      Drains(ks, key, front, items, cs[..k], cs[k]);
      if n >= 0 {
        PopOnce(before, key, front, if front then items[k..] else items[..n + 1], cs[k]);
        assert items[k..][1..] == items[|cs|..] && items[..n + 1][..n] == items[..n];
      } else {
        PopNothing(before, key, front, cs[k]);
      }
    }
    if n > 0 {
      assert items[0..] == items[..|items|] == items;
      PopOnce(left, key, front, if front then items[|cs|..] else items[..n], c);
    } else {
      PopNothing(left, key, front, c);
    }
  }

  lemma PopOnce(ks: Ks, key: Bytes, front: bool, items: seq<Element>, c: Clock)
    requires |key| <= KEY_LIMIT && key in ks && ks[key] == Entry(List(items), None) && items != []
    ensures Reply(ks, Pop(key, front), c) == Item(if front then items[0] else items[|items| - 1])
    ensures var rest := if front then items[1..] else items[..|items| - 1];
            After(ks, Pop(key, front), c) == if rest == [] then ks - {key} else ks[key := Entry(List(rest), None)]
  {
    hide Reply, After;
    var n := |items| - 1;
    if front {
      assert items == [items[0]] + items[1..];
      PopTakesFirst(ks, key, items[0], items[1..], c);
    } else {
      assert items == items[..n] + [items[n]];
      PopTakesLast(ks, key, items[n], items[..n], c);
    }
  }

  lemma PopNothing(ks: Ks, key: Bytes, front: bool, c: Clock)
    requires |key| <= KEY_LIMIT
    ensures key !in ks ==> Reply(ks, Pop(key, front), c) == Missing && After(ks, Pop(key, front), c) == ks
  {
  }

  // ---------- hashes ----------

  /** The fields a key holds, none if it is not there. */
  function Fields(ks: Ks, key: Bytes, c: Clock): (fields: map<Bytes, Element>)
  {
    if key in ks && !Expired(ks, key, c.now) && ks[key].value.Hash? then ks[key].value.fields else map[]
  }

  lemma HashReads(ks: Ks, key: Bytes, field: Bytes, c: Clock)
    requires There(ks, key, c) ==> ks[key].value.Hash?
    ensures Reply(ks, HLen(key), c) == Amount(|Fields(ks, key, c)|)
    ensures Reply(ks, HGet(key, field), c) ==
              if field in Fields(ks, key, c) then Item(Fields(ks, key, c)[field]) else Missing
  {
  }

  lemma HSetStores(ks: Ks, key: Bytes, field: Bytes, item: Element, c: Clock, later: Clock)
    requires Reply(ks, HSet(key, field, item), c).Amount?
    ensures var t := After(ks, HSet(key, field, item), c);
            && (There(ks, key, c) ==> ks[key].value.Hash?) && key in t && t[key].value.Hash?
            && (There(t, key, later) ==> Fields(t, key, later) == Fields(ks, key, c)[field := item])
            && Reply(ks, HSet(key, field, item), c) == Amount(if field in Fields(ks, key, c) then 0 else 1)
  {
    hide BodySize, Fits;
    ThereMeans(ks, key, c);
    ThereMeans(After(ks, HSet(key, field, item), c), key, later);
  }

  /** HGET replies the item that HSET stored; the other fields reply what they did. */
  lemma HSetThenHGet(ks: Ks, key: Bytes, field: Bytes, item: Element, other: Bytes, c: Clock, later: Clock)
    requires Reply(ks, HSet(key, field, item), c).Amount? && There(After(ks, HSet(key, field, item), c), key, later)
    ensures var t := After(ks, HSet(key, field, item), c);
            && Reply(t, HGet(key, field), later) == Item(item)
            && (other != field ==> Reply(t, HGet(key, other), later) == Reply(ks, HGet(key, other), c))
  {
    hide Reply, After, There, Fields;
    var t := After(ks, HSet(key, field, item), c);
    HSetStores(ks, key, field, item, c, later);
    HashReads(t, key, field, later);
    HashReads(t, key, other, later);
    HashReads(ks, key, other, c);
  }

  /** HSET replies whether the field is new, and HLEN grows by that. */
  lemma HSetThenHLen(ks: Ks, key: Bytes, field: Bytes, item: Element, c: Clock, later: Clock)
    requires Reply(ks, HSet(key, field, item), c).Amount? && There(After(ks, HSet(key, field, item), c), key, later)
    ensures var t, added := After(ks, HSet(key, field, item), c), Reply(ks, HSet(key, field, item), c).n;
            && added == (if Reply(ks, HGet(key, field), c) == Missing then 1 else 0)
            && Reply(ks, HLen(key), c).Amount? && Reply(t, HLen(key), later) == Amount(Reply(ks, HLen(key), c).n + added)
  {
    hide Reply, After, There, Fields;
    HSetStores(ks, key, field, item, c, later);
    HashReads(After(ks, HSet(key, field, item), c), key, field, later);
    HashReads(ks, key, field, c);
    FieldAdded(Fields(ks, key, c), field, item);
  }

  lemma FieldAdded(fields: map<Bytes, Element>, field: Bytes, item: Element)
    ensures |fields[field := item]| == |fields| + if field in fields then 0 else 1
    ensures field in fields ==> |fields - {field}| == |fields| - 1
  {
    assert fields[field := item].Keys == fields.Keys + {field};
    assert |fields.Keys| == |fields| && |fields[field := item].Keys| == |fields[field := item]|;
    assert (fields - {field}).Keys == fields.Keys - {field};
    assert |(fields - {field}).Keys| == |fields - {field}|;
  }

  lemma HDelStores(ks: Ks, key: Bytes, field: Bytes, c: Clock, later: Clock)
    requires Reply(ks, HDel(key, field), c).Amount? && (There(ks, key, c) ==> There(ks, key, later))
    ensures var t := After(ks, HDel(key, field), c);
            && (There(ks, key, c) ==> ks[key].value.Hash?) && (There(t, key, later) ==> t[key].value.Hash?)
            && Fields(t, key, later) == Fields(ks, key, c) - {field}
            && Reply(ks, HDel(key, field), c) == Amount(if field in Fields(ks, key, c) then 1 else 0)
  {
    ThereMeans(ks, key, c);
    ThereMeans(ks, key, later);
    ThereMeans(After(ks, HDel(key, field), c), key, later);
  }

  /** HDEL replies whether the field was there; it is gone, and the others reply what they did. */
  lemma HDelThenHGet(ks: Ks, key: Bytes, field: Bytes, other: Bytes, c: Clock, later: Clock)
    requires Reply(ks, HDel(key, field), c).Amount? && (There(ks, key, c) ==> There(ks, key, later))
    ensures var t, gone := After(ks, HDel(key, field), c), Reply(ks, HDel(key, field), c).n;
            && gone == (if Reply(ks, HGet(key, field), c) == Missing then 0 else 1)
            && Reply(t, HGet(key, field), later) == Missing
            && (other != field ==> Reply(t, HGet(key, other), later) == Reply(ks, HGet(key, other), c))
  {
    hide Reply, After, There, Fields;
    var t := After(ks, HDel(key, field), c);
    HDelStores(ks, key, field, c, later);
    HashReads(t, key, field, later);
    HashReads(t, key, other, later);
    HashReads(ks, key, field, c);
    HashReads(ks, key, other, c);
  }

  /** HLEN falls by what HDEL replied; with its last field the key goes. */
  lemma HDelThenHLen(ks: Ks, key: Bytes, field: Bytes, c: Clock, later: Clock)
    requires Reply(ks, HDel(key, field), c).Amount? && (There(ks, key, c) ==> There(ks, key, later))
    ensures var t, gone := After(ks, HDel(key, field), c), Reply(ks, HDel(key, field), c).n;
            && Reply(ks, HLen(key), c).Amount? && Reply(t, HLen(key), later) == Amount(Reply(ks, HLen(key), c).n - gone)
            && (gone == 1 && Reply(t, HLen(key), later) == Amount(0) ==> !There(t, key, later))
  {
    hide Reply, After, There, Fields;
    HDelStores(ks, key, field, c, later);
    HashReads(After(ks, HDel(key, field), c), key, field, later);
    HashReads(ks, key, field, c);
    FieldAdded(Fields(ks, key, c), field, Number(0));
    LastFieldGone(ks, key, field, c, later);
  }

  lemma LastFieldGone(ks: Ks, key: Bytes, field: Bytes, c: Clock, later: Clock)
    ensures var t := After(ks, HDel(key, field), c);
            Reply(ks, HDel(key, field), c) == Amount(1) && There(t, key, later) ==> Fields(t, key, later) != map[]
  {
  }

  // ---------- deadlines ----------

  /** TTL counts down in whole seconds from EXPIRE on; at the deadline the key is not there any more. */
  lemma ExpireThenTtl(ks: Ks, key: Bytes, seconds: Int64, c: Clock, later: Clock)
    requires |key| <= KEY_LIMIT && There(ks, key, c) && 0 < seconds && c.now <= later.now
    requires Reply(ks, Expire(key, seconds), c) == Amount(1)
    ensures var t, passed := After(ks, Expire(key, seconds), c), later.now - c.now;
            Reply(t, Ttl(key), later) == Amount(if passed < 1000 * seconds then (1000 * seconds - passed) / 1000 else -2)
  {
    hide ToDecimal;
  }

  /** Until then every other read replies what it did. */
  lemma ExpireThenRead(ks: Ks, key: Bytes, seconds: Int64, c: Clock, later: Clock, op: Op)
    requires |key| <= KEY_LIMIT && There(ks, key, c) && 0 < seconds && c.now <= later.now < c.now + 1000 * seconds
    requires Reply(ks, Expire(key, seconds), c) == Amount(1) && IsRead(op) && op.key == key && !op.Ttl?
    ensures Reply(After(ks, Expire(key, seconds), c), op, later) == Reply(ks, op, c)
  {
    hide ToDecimal;
  }

  /** EXPIRE is refused exactly if one of the two clocks would leave 64 bits; a span that is not positive deletes. */
  lemma ExpireOutcomes(ks: Ks, key: Bytes, seconds: Int64, c: Clock, later: Clock)
    requires |key| <= KEY_LIMIT && There(ks, key, c) && ClockOk(c)
    ensures var r, t := Reply(ks, Expire(key, seconds), c), After(ks, Expire(key, seconds), c);
            var far := seconds > 0 && 1000 * seconds > 0x7FFF_FFFF_FFFF_FFFF - Max(c.now, c.now + c.offset);
            && (if far then r == Failed(NotInteger) && t == ks else r == Amount(1))
            && (seconds <= 0 ==> !There(t, key, later))
  {
    hide ToDecimal;
  }

  /** Only SET drops a deadline, only EXPIRE sets one, and only they and a deletion change what TTL replies. */
  lemma DeadlineStays(ks: Ks, op: Op, c: Clock, later: Clock)
    requires !op.Set? && !op.Expire? && !op.Del? && !op.Evict? && There(ks, op.key, c)
    requires There(After(ks, op, c), op.key, c)
    ensures Reply(After(ks, op, c), Ttl(op.key), later) == Reply(ks, Ttl(op.key), later)
  {
    hide ToDecimal, UsedBytes, Fits, SetPairs, AddedPairs, LargestPair, HSetRecords, PushRecords, BodySize, ParseSigned,
      PushItems;
    KeepsDeadline(ks, op, c);
  }

  lemma KeepsDeadline(ks: Ks, op: Op, c: Clock)
    requires !op.Set? && !op.Expire? && !op.Del? && !op.Evict? && op.key in ks && !Expired(ks, op.key, c.now)
    requires op.key in After(ks, op, c)
    ensures After(ks, op, c)[op.key].deadline == ks[op.key].deadline
  {
    hide ToDecimal, UsedBytes, Fits, SetPairs, AddedPairs, LargestPair, HSetRecords, PushRecords, BodySize, ParseSigned,
      PushItems;
  }

  // ---------- kinds, and commands that fail ----------

  /** Which command goes with which kind of value. */
  predicate Suits(op: Op, v: Value)
  {
    match op
    case Get(_) => v.Str? || v.Int?
    case Incr(_) => v.Str? || v.Int?
    case Push(_, _, _) => v.List?
    case PushTexts(_, _, _) => v.List?
    case Pop(_, _) => v.List?
    case LLen(_) => v.List?
    case HSet(_, _, _) => v.Hash?
    case HSetTexts(_, _) => v.Hash?
    case HDel(_, _) => v.Hash?
    case HGet(_, _) => v.Hash?
    case HLen(_) => v.Hash?
    case _ => true
  }

  /** A command complains of the kind exactly if the key is there with a value of another kind. */
  lemma WrongTypeExactly(ks: Ks, op: Op, c: Clock)
    requires Refused(op).None?
    ensures Reply(ks, op, c) == Failed(WrongType) <==> There(ks, op.key, c) && !Suits(op, ks[op.key].value)
  {
    hide ToDecimal, UsedBytes, Fits, SetPairs, AddedPairs, LargestPair, HSetRecords, PushRecords, BodySize, ParseSigned,
      PushItems;
    ThereMeans(ks, op.key, c);
  }

  /** A command that fails changes nothing that can be seen, for any key. */
  lemma FailureChangesNothing(ks: Ks, op: Op, c: Clock, read: Op)
    requires Reply(ks, op, c).Failed? && IsRead(read)
    ensures Reply(After(ks, op, c), read, c) == Reply(ks, read, c)
  {
    hide ToDecimal, UsedBytes, Fits, SetPairs, AddedPairs, LargestPair, HSetRecords, PushRecords, BodySize, ParseSigned,
      PushItems;
    FailureStays(ks, op, c);
  }

  lemma FailureStays(ks: Ks, op: Op, c: Clock)
    requires Reply(ks, op, c).Failed?
    ensures After(ks, op, c) == ks || After(ks, op, c) == Writable(ks, op.key, c.now)
  {
    hide ToDecimal, UsedBytes, Fits, SetPairs, AddedPairs, LargestPair, HSetRecords, PushRecords, BodySize, ParseSigned,
      PushItems;
  }

  // ---------- sizes ----------

  /** Bytes of an item in a list, in a hash, and of the record that sets a field. */
  function Packed(item: Element): (n: nat) { if item.Number? then 9 else |item.text| + if |item.text| <= 127 then 1 else 5 }

  function FieldRecordBytes(key: Bytes, field: Bytes, item: Element): (n: nat)
  {
    2 + (4 + |key|) + (4 + |field|) + (4 + 1) + 4 + if item.Number? then |ToDecimal(item.number)| else |item.text|
  }

  lemma PushRefused(ks: Ks, key: Bytes, item: Element, front: bool, c: Clock)
    requires |key| <= KEY_LIMIT && (There(ks, key, c) ==> ks[key].value.List?)
    ensures var n := Packed(item);
            Reply(ks, Push(key, item, front), c) == Failed(TooLarge) <==>
            UsedBytes(Items(ks, key, c)) + n + BacklenBytes(n) > VALUE_LIMIT
  {
    hide BacklenBytes, PushRecords, ToDecimal;
    ThereMeans(ks, key, c);
    assert [item][1..] == [];
    assert UsedBytes([item]) == EncodedSize(item);
  }

  lemma HSetRefused(ks: Ks, key: Bytes, field: Bytes, item: Element, c: Clock)
    requires |key| <= KEY_LIMIT && (There(ks, key, c) ==> ks[key].value.Hash?)
    ensures Reply(ks, HSet(key, field, item), c) == Failed(TooLarge) <==>
            |field| > VALUE_LIMIT || Packed(item) > VALUE_LIMIT || FieldRecordBytes(key, field, item) > 134_217_728
  {
    hide ToDecimal, Fits, HSetRecord, FieldRecordBytes;
    ThereMeans(ks, key, c);
    FieldRecordFits(key, field, item);
  }

  lemma FieldRecordFits(key: Bytes, field: Bytes, item: Element)
    ensures Fits(HSetRecord(key, field, item)) <==> FieldRecordBytes(key, field, item) <= 134_217_728
  {
    hide ToDecimal;
    var a := HSetRecord(key, field, item).args;
    var b: seq<Bytes> := a[1..];
    var d: seq<Bytes> := b[1..];
    var e: seq<Bytes> := d[1..];
    assert b == [a[1], a[2], a[3]] && d == [a[2], a[3]] && e == [a[3]];
    assert ArgsSize(a) == 4 + |a[0]| + ArgsSize(b) && ArgsSize(b) == 4 + |b[0]| + ArgsSize(d);
    assert ArgsSize(d) == 4 + |d[0]| + ArgsSize(e) && ArgsSize(e) == 4 + |e[0]|;
  }

  /** A push of several texts: of none it replies the length; otherwise it stores all or none, by their size together. */
  lemma PushTextsReplies(ks: Ks, key: Bytes, texts: seq<Bytes>, front: bool, c: Clock)
    requires |key| <= KEY_LIMIT && (There(ks, key, c) ==> ks[key].value.List?)
    ensures var r, n := Reply(ks, PushTexts(key, texts, front), c), |Items(ks, key, c)|;
            if texts == [] then r == Amount(n) == Reply(ks, LLen(key), c)
            else if UsedBytes(Items(ks, key, c)) + UsedBytes(Texts(texts)) > VALUE_LIMIT then r == Failed(TooLarge)
            else r == Amount(n + |texts|)
  {
    hide UsedBytes, PushRecords, ToDecimal;
    ThereMeans(ks, key, c);
  }

  /** A set of several fields: an odd number of parts is refused first, then any part or pair that is too long. */
  lemma HSetTextsReplies(ks: Ks, key: Bytes, parts: seq<Bytes>, c: Clock)
    requires |key| <= KEY_LIMIT && (There(ks, key, c) ==> ks[key].value.Hash?)
    ensures var r := Reply(ks, HSetTexts(key, parts), c);
            if |parts| % 2 == 1 then r == Failed(WrongCount)
            else if parts == [] then r == Amount(0)
            else if (exists i :: 0 <= i < |parts| && |parts[i]| > VALUE_LIMIT) || |key| + LargestPair(parts) + 64 > 134_217_736
            then r == Failed(TooLarge)
            else r.Amount?
  {
    hide SetPairs, AddedPairs, LargestPair, HSetRecords, ToDecimal;
    ThereMeans(ks, key, c);
  }

  /** Whatever the pairs, each field ends up with the value of its last pair. */
  lemma {:induction false} LastPairWins(fields: map<Bytes, Element>, parts: seq<Bytes>, i: nat)
    requires |parts| % 2 == 0 && 2 * i + 1 < |parts| && forall j :: i < j < |parts| / 2 ==> parts[2 * j] != parts[2 * i]
    ensures parts[2 * i] in SetPairs(fields, parts) && SetPairs(fields, parts)[parts[2 * i]] == Text(parts[2 * i + 1])
    decreases |parts|
  {
    var more, rest := fields[parts[0] := Text(parts[1])], parts[2..];
    if i > 0 {
      assert rest[2 * (i - 1)] == parts[2 * i] && rest[2 * (i - 1) + 1] == parts[2 * i + 1];
      forall j | i - 1 < j < |rest| / 2
        ensures rest[2 * j] != rest[2 * (i - 1)]
      {
        assert rest[2 * j] == parts[2 * (j + 1)];
      }
      LastPairWins(more, rest, i - 1);
    } else {
      forall j | 0 <= j < |rest| / 2
        ensures rest[2 * j] != parts[0]
      {
        assert rest[2 * j] == parts[2 * (j + 1)];
      }
      OthersStay(more, rest, parts[0]);
    }
  }

  lemma {:induction false} OthersStay(fields: map<Bytes, Element>, parts: seq<Bytes>, field: Bytes)
    requires |parts| % 2 == 0 && forall j :: 0 <= j < |parts| / 2 ==> parts[2 * j] != field
    ensures field in SetPairs(fields, parts) <==> field in fields
    ensures field in fields ==> SetPairs(fields, parts)[field] == fields[field]
    decreases |parts|
  {
    if |parts| >= 2 {
      var rest := parts[2..];
      forall j | 0 <= j < |rest| / 2
        ensures rest[2 * j] != field
      {
        assert rest[2 * j] == parts[2 * (j + 1)];
      }
      assert parts[2 * 0] != field;
      OthersStay(fields[parts[0] := Text(parts[1])], rest, field);
    }
  }
}
