/** Replaying a log, and what a crash leaves behind: src/database.cpp:1343-1346 and 1428-1522. */
module Recovery {
  import opened Bytes
  import opened Pack
  import opened Wal
  import opened Keyspace

  // ---------- replay ----------

  function ArgCount(op: Byte): (n: nat)
  {
    if op == 6 then 4
    else if op == 2 || op == 3 then 3
    else if op == 0 || op == 10 || op == 7 || op == 8 then 2
    else 1
  }

  function ParseItem(tag: Bytes, text: Bytes): (e: Option<Element>)
  {
    if tag == INTEGER_TAG_ARG then
      match ParseSigned(text)
      case None => None
      case Some(n) => Some(Number(n))
    else if tag == TEXT_TAG then Some(Text(text))
    else None
  }

  function Accepted(r: Outcome): (ks: Option<Ks>) { if r.reply.Failed? then None else Some(r.ks) }

  function ReplayExpire(ks: Ks, key: Bytes, stamp: Bytes, c: Clock): (r: Option<Ks>)
  {
    var wall := ParseSigned(stamp);
    if key !in ks || wall.None? || wall.value < 0 then None
    else
      var current := c.now + c.offset;
      var remaining := if wall.value > current then wall.value - current else 0;
      Some(ks[key := ks[key].(deadline := Some(c.now + remaining))])
  }

  /** One record; `None` is a rejected log. Nothing expires while the log is replayed. */
  function Replay(ks: Ks, r: Record, c: Clock): (result: Option<Ks>)
  {
    var a := r.args;
    if |a| != ArgCount(r.op) || |a[0]| > MAX_KEY then None
    else if r.op == 0 then (if |a[1]| > LIMIT then None else Some(Apply(ks, Set(a[0], a[1]), c).ks))
    else if r.op == 1 then Accepted(ApplyIncr(ks, a[0]))
    else if r.op == 2 || r.op == 3 then
      match ParseItem(a[1], a[2])
      case None => None
      case Some(e) => Accepted(ApplyPush(ks, a[0], [e], r.op == 2))
    else if r.op == 4 || r.op == 5 then Accepted(ApplyPop(ks, a[0], r.op == 4))
    else if r.op == 6 then
      match ParseItem(a[2], a[3])
      case None => None
      case Some(e) => Accepted(AssignField(ks, a[0], a[1], e))
    else if r.op == 7 then Accepted(ApplyHDel(ks, a[0], a[1]))
    else if r.op == 8 then ReplayExpire(ks, a[0], a[1], c)
    else if r.op == 9 then Some(ApplyDel(ks, a[0]).ks)
    else if r.op == 10 then
      match ParseSigned(a[1])
      case None => None
      case Some(n) => Some(ks[a[0] := Entry(Int(n), None)])
    else None
  }

  /** A logged deadline is one that the steady clock can reach. */
  predicate Stampable(r: Record, offset: int)
  {
    r.op == 8 && |r.args| == 2 && ParseSigned(r.args[1]).Some? ==> ParseSigned(r.args[1]).value - offset <= MAX_I64
  }

  predicate AllStampable(rs: seq<Record>, offset: int) { forall i :: 0 <= i < |rs| ==> Stampable(rs[i], offset) }

  function ReplayAll(ks: Ks, rs: seq<Record>, c: Clock): (result: Option<Ks>)
    decreases |rs|
  {
    if rs == [] then Some(ks)
    else
      match Replay(ks, rs[0], c)
      case None => None
      case Some(next) => ReplayAll(next, rs[1..], c)
  }

  function Live(ks: Ks, now: int): (r: Ks) { map key | key in ks && !Expired(ks, key, now) :: ks[key] }

  /** `open_wal`: recover the records, replay them, then remove everything that has expired. */
  function Reopen(file: Bytes, c: Clock): (r: Option<Ks>)
  {
    match Recovered(file)
    case Rejected => None
    case Scanned(records, _, _) =>
      match ReplayAll(map[], records, c)
      case None => None
      case Some(ks) => Some(Live(ks, c.now))
  }

  // ---------- replayed deadlines ----------

  function ClampTime(d: Option<int>, now: int): (r: Option<int>)
  {
    match d
    case None => None
    case Some(t) => Some(Max(t, now))
  }

  function ClampEntry(e: Entry, now: int): (r: Entry) { e.(deadline := ClampTime(e.deadline, now)) }

  /** What replay makes of deadlines: those already passed are moved up to the present. */
  function Clamp(ks: Ks, now: int): (r: Ks) { map key | key in ks :: ClampEntry(ks[key], now) }

  lemma ClampUpdate(ks: Ks, key: Bytes, e: Entry, now: int)
    ensures Clamp(ks[key := e], now) == Clamp(ks, now)[key := ClampEntry(e, now)]
    ensures Clamp(ks - {key}, now) == Clamp(ks, now) - {key}
  {
  }

  lemma LiveClamp(ks: Ks, now: int)
    ensures Live(Clamp(ks, now), now) == Live(ks, now)
  {
  }

  // ---------- every logged record replays to what it logged ----------

  /** A value that `hash_set_texts` accepts although replaying its record would refuse it. */
  predicate Oversized(text: Bytes) { BodySize(Text(text)) > LIMIT }

  predicate Safe(op: Op)
  {
    op.HSetTexts? ==> forall i :: 0 <= i < |op.parts| && i % 2 == 1 ==> !Oversized(op.parts[i])
  }

  predicate Single(op: Op) { !op.PushTexts? && !op.HSetTexts? }

  lemma ItemRoundTrip(e: Element)
    ensures ParseItem(ItemTag(e), ItemText(e)) == Some(e)
  {
    if e.Number? {
      DecimalRoundTrip(e.number);
    }
  }

  lemma ReplayPush(ks: Ks, key: Bytes, item: Element, front: bool, c: Clock, t: int)
    requires |key| <= MAX_KEY && t == c.now
    requires ApplyPush(ks, key, [item], front).reply.Amount?
    ensures Replay(Clamp(ks, t), PushRecord(key, item, front), c)
         == Some(Clamp(ApplyPush(ks, key, [item], front).ks, t))
  {
    hide UsedBytes, ItemTag, ItemText, ParseItem;
    ItemRoundTrip(item);
    ClampUpdate(ks, key, Entry(List(PushItems(OldItems(ks, key), [item], front)), OldDeadline(ks, key)), t);
  }

  lemma ReplayPop(ks: Ks, key: Bytes, front: bool, c: Clock, t: int)
    requires |key| <= MAX_KEY && t == c.now
    requires ApplyPop(ks, key, front).reply.Item?
    ensures Replay(Clamp(ks, t), PopRecord(key, front), c) == Some(Clamp(ApplyPop(ks, key, front).ks, t))
  {
    var items := ks[key].value.items;
    var rest := if front then items[1..] else items[..|items| - 1];
    ClampUpdate(ks, key, ks[key].(value := List(rest)), t);
  }

  lemma ReplayHSet(ks: Ks, key: Bytes, field: Bytes, item: Element, c: Clock, t: int)
    requires |key| <= MAX_KEY && t == c.now
    requires AssignField(ks, key, field, item).reply.Amount?
    ensures Replay(Clamp(ks, t), HSetRecord(key, field, item), c)
         == Some(Clamp(AssignField(ks, key, field, item).ks, t))
  {
    hide BodySize, ItemTag, ItemText, ParseItem;
    ItemRoundTrip(item);
    ClampUpdate(ks, key, Entry(Hash(OldFields(ks, key)[field := item]), OldDeadline(ks, key)), t);
  }

  lemma ReplayHDel(ks: Ks, key: Bytes, field: Bytes, c: Clock, t: int)
    requires |key| <= MAX_KEY && t == c.now
    requires ApplyHDel(ks, key, field).reply == Amount(1)
    ensures Replay(Clamp(ks, t), HDelRecord(key, field), c) == Some(Clamp(ApplyHDel(ks, key, field).ks, t))
  {
    ClampUpdate(ks, key, ks[key].(value := Hash(ks[key].value.fields - {field})), t);
  }

  lemma ReplayIncr(ks: Ks, key: Bytes, c: Clock, t: int)
    requires |key| <= MAX_KEY && t == c.now
    requires ApplyIncr(ks, key).reply.Amount?
    ensures Replay(Clamp(ks, t), IncrRecord(key), c) == Some(Clamp(ApplyIncr(ks, key).ks, t))
  {
    hide ParseSigned;
    var r := ApplyIncr(ks, key);
    ClampUpdate(ks, key, r.ks[key], t);
    assert r.ks == ks[key := r.ks[key]];
  }

  /** With a constant offset between the clocks, a deadline comes back as the same instant, or as the present. */
  lemma ReplayExpiry(ks: Ks, key: Bytes, seconds: Int64, c: Clock, c': Clock)
    requires |key| <= MAX_KEY && ClockOk(c) && ClockOk(c') && c.offset == c'.offset
    requires key in ks && seconds > 0 && ApplyExpire(ks, key, seconds, c).reply.Amount?
    ensures Replay(Clamp(ks, c'.now), ExpireRecord(key, c.now + seconds * 1000 + c.offset), c')
         == Some(Clamp(ApplyExpire(ks, key, seconds, c).ks, c'.now))
  {
    hide ParseSigned, ToDecimal;
    var deadline := c.now + seconds * 1000;
    assert seconds * 1000 <= MAX_I64 - Max(c.now, c.now + c.offset);
    DecimalRoundTrip(deadline + c.offset);
    ClampUpdate(ks, key, ks[key].(deadline := Some(deadline)), c'.now);
  }

  /** A single operation logs nothing and changes nothing, or logs one record that replays to its result. */
  lemma ReplayApplied(ks: Ks, op: Op, c: Clock, c': Clock)
    requires ClockOk(c) && ClockOk(c') && c.offset == c'.offset
    requires Single(op) && Refused(op).None? && !op.Cleanup? && !IsRead(op)
    ensures var r := Apply(ks, op, c);
            || (r.records == [] && r.ks == ks)
            || (|r.records| == 1 && Replay(Clamp(ks, c'.now), r.records[0], c') == Some(Clamp(r.ks, c'.now)))
  {
    hide Replay, ApplyIncr, ApplyPush, ApplyPop, ApplyHSet, AssignField, ApplyHDel, ApplyExpire, ApplyDel, Clamp;
    match op {
      case Set(key, text) => ReplaySet(ks, key, text, c, c');
      case Incr(key) => IncrShape(ks, key); if ApplyIncr(ks, key).reply.Amount? { ReplayIncr(ks, key, c', c'.now); }
      case Push(key, item, front) =>
        PushShape(ks, key, item, front);
        if ApplyPush(ks, key, [item], front).reply.Amount? { ReplayPush(ks, key, item, front, c', c'.now); }
      case Pop(key, front) => PopShape(ks, key, front);
        if ApplyPop(ks, key, front).reply.Item? { ReplayPop(ks, key, front, c', c'.now); }
      case HSet(key, field, item) =>
        HSetShape(ks, key, field, item);
        if ApplyHSet(ks, key, field, item).reply.Amount? { ReplayHSet(ks, key, field, item, c', c'.now); }
      case HDel(key, field) =>
        HDelShape(ks, key, field);
        if ApplyHDel(ks, key, field).reply == Amount(1) { ReplayHDel(ks, key, field, c', c'.now); }
      case Expire(key, seconds) =>
        ExpireShape(ks, key, seconds, c);
        if key in ks && seconds > 0 && ApplyExpire(ks, key, seconds, c).reply.Amount? { ReplayExpiry(ks, key, seconds, c, c'); }
        ReplayDel(ks, key, c');
      case Del(key) => ReplayDel(ks, key, c');
      case Evict(key) => ReplayDel(ks, key, c');
    }
  }

  lemma ReplaySet(ks: Ks, key: Bytes, text: Bytes, c: Clock, c': Clock)
    requires |key| <= MAX_KEY && |text| <= LIMIT
    ensures Replay(Clamp(ks, c'.now), SetRecord(key, text), c') == Some(Clamp(Apply(ks, Set(key, text), c).ks, c'.now))
  {
    ClampUpdate(ks, key, Entry(Str(text), None), c'.now);
  }

  lemma ReplayDel(ks: Ks, key: Bytes, c: Clock)
    requires |key| <= MAX_KEY
    ensures ApplyDel(ks, key).records == [] ==> ApplyDel(ks, key).ks == ks
    ensures ApplyDel(ks, key).records == [] || ApplyDel(ks, key).records == [DelRecord(key)]
    ensures Replay(Clamp(ks, c.now), DelRecord(key), c) == Some(Clamp(ApplyDel(ks, key).ks, c.now))
    ensures key in ks ==> ApplyDel(ks, key).ks == ks - {key}
  {
    ClampUpdate(ks, key, Entry(Int(0), None), c.now);
  }

  // What the outcome of each operation looks like.

  lemma IncrShape(ks: Ks, key: Bytes)
    ensures var r := ApplyIncr(ks, key);
            if r.reply.Amount? then r.records == [IncrRecord(key)] else r.records == [] && r.ks == ks
  {
  }

  lemma PushShape(ks: Ks, key: Bytes, item: Element, front: bool)
    ensures ApplyPush(ks, key, [item], front).reply.Amount? || ApplyPush(ks, key, [item], front).reply.Failed?
    ensures var r := ApplyPush(ks, key, [item], front);
            if r.reply.Amount? then r.records == [PushRecord(key, item, front)] else r.records == [] && r.ks == ks
  {
    assert PushRecords(key, [item], front) == [PushRecord(key, item, front)];
  }

  lemma PopShape(ks: Ks, key: Bytes, front: bool)
    ensures var r := ApplyPop(ks, key, front);
            if r.reply.Item? then r.records == [PopRecord(key, front)] else r.records == [] && r.ks == ks
  {
  }

  lemma HSetShape(ks: Ks, key: Bytes, field: Bytes, item: Element)
    ensures var r := ApplyHSet(ks, key, field, item);
            if r.reply.Amount?
            then r == AssignField(ks, key, field, item) && r.records == [HSetRecord(key, field, item)]
                 && Fits(HSetRecord(key, field, item))
            else r.records == [] && r.ks == ks
  {
    hide Fits, BodySize;
  }

  lemma HDelShape(ks: Ks, key: Bytes, field: Bytes)
    ensures var r := ApplyHDel(ks, key, field);
            if r.reply == Amount(1) then r.records == [HDelRecord(key, field)] else r.records == [] && r.ks == ks
  {
  }

  lemma ExpireShape(ks: Ks, key: Bytes, seconds: Int64, c: Clock)
    ensures var r := ApplyExpire(ks, key, seconds, c);
            if key in ks && seconds <= 0 then r.records == [DelRecord(key)] && r.ks == ks - {key}
            else if key in ks && r.reply.Amount? then
              r.records == [ExpireRecord(key, c.now + seconds * 1000 + c.offset)]
            else r.records == [] && r.ks == ks
  {
  }
}
