/** Runs of the database, the records they log, and what reopening any cut of that log rebuilds. */
module CrashRecovery {
  import opened Bytes
  import opened Pack
  import opened Wal
  import opened Keyspace
  import opened Recovery

  datatype Event = Event(op: Op, clock: Clock)
  datatype Ran = Ran(ks: Ks, records: seq<Record>)

  /** The operations of a run, each at its own reading of the clocks. */
  function Run(ks: Ks, es: seq<Event>): (r: Ran)
    decreases |es|
  {
    if es == [] then Ran(ks, [])
    else
      var s := Step(ks, es[0].op, es[0].clock);
      var rest := Run(s.ks, es[1..]);
      Ran(rest.ks, s.records + rest.records)
  }

  predicate Clocks(es: seq<Event>, offset: int)
  {
    forall i :: 0 <= i < |es| ==> ClockOk(es[i].clock) && es[i].clock.offset == offset
  }

  predicate AllSafe(es: seq<Event>) { forall i :: 0 <= i < |es| ==> Safe(es[i].op) }

  /** A logged hash value that replay refuses. */
  predicate OversizedRecord(r: Record)
  {
    r.op == 6 && |r.args| == 4 && r.args[2] == TEXT_TAG && Oversized(r.args[3])
  }

  predicate Clean(rs: seq<Record>) { forall i :: 0 <= i < |rs| ==> !OversizedRecord(rs[i]) }

  lemma {:induction false} RunConcat(ks: Ks, a: seq<Event>, b: seq<Event>)
    ensures Run(ks, a + b).ks == Run(Run(ks, a).ks, b).ks
    ensures Run(ks, a + b).records == Run(ks, a).records + Run(Run(ks, a).ks, b).records
    decreases |a|
  {
    hide Step;
    if a == [] {
      assert a + b == b;
    } else {
      RunConcat(Step(ks, a[0].op, a[0].clock).ks, a[1..], b);
      assert (a + b)[1..] == a[1..] + b;
    }
  }

  // ---------- multi-element writes are their single writes, one after another ----------

  /** `list_push` for each item in turn; `None` once one of them is refused. */
  function PushEach(ks: Ks, key: Bytes, more: seq<Element>, front: bool): (r: Option<Ks>)
    decreases |more|
  {
    if more == [] then Some(ks)
    else
      var first := ApplyPush(ks, key, [more[0]], front);
      if first.reply.Failed? then None else PushEach(first.ks, key, more[1..], front)
  }

  lemma PushItemsStep(items: seq<Element>, more: seq<Element>, front: bool)
    requires more != []
    ensures PushItems(PushItems(items, [more[0]], front), more[1..], front) == PushItems(items, more, front)
  {
    if front {
      assert Reverse(more) == Reverse(more[1..]) + Reverse([more[0]]);
      assert Reverse(more[1..]) + (Reverse([more[0]]) + items) == Reverse(more[1..]) + Reverse([more[0]]) + items;
    } else {
      assert more == [more[0]] + more[1..];
      assert items + [more[0]] + more[1..] == items + more;
    }
  }

  /** Both ways round: the multi-push is accepted exactly when each push in turn is, with the same result. */
  lemma {:induction false} PushTextsIsPushes(ks: Ks, key: Bytes, more: seq<Element>, front: bool)
    requires more != []
    ensures ApplyPush(ks, key, more, front).reply.Failed? <==> PushEach(ks, key, more, front).None?
    ensures PushEach(ks, key, more, front).Some? ==>
              PushEach(ks, key, more, front).value == ApplyPush(ks, key, more, front).ks
    decreases |more|
  {
    hide EncodedSize, PushItems;
    var items := OldItems(ks, key);
    assert more == [more[0]] + more[1..];
    UsedBytesConcat([more[0]], more[1..]);
    var first := ApplyPush(ks, key, [more[0]], front);
    if !first.reply.Failed? {
      PushItemsStep(items, more, front);
      PushedBytes(items, [more[0]], front);
      if more[1..] != [] {
        PushTextsIsPushes(first.ks, key, more[1..], front);
        var pushed := Entry(List(PushItems(items, more, front)), OldDeadline(ks, key));
        assert first.ks[key := pushed] == ks[key := pushed];
      } else {
        assert more == [more[0]];
      }
    }
  }

  lemma PushedBytes(items: seq<Element>, more: seq<Element>, front: bool)
    ensures UsedBytes(PushItems(items, more, front)) == UsedBytes(items) + UsedBytes(more)
  {
    UsedBytesConcat(items, more);
    UsedBytesReverse(more);
    UsedBytesConcat(Reverse(more), items);
  }

  datatype Assigned = Assigned(ks: Ks, added: nat)

  /** `hash_assign` for each pair in turn, counting the new fields. */
  function HSetEach(ks: Ks, key: Bytes, parts: seq<Bytes>): (r: Option<Assigned>)
    decreases |parts|
  {
    if |parts| < 2 then Some(Assigned(ks, 0))
    else
      var first := ApplyHSet(ks, key, parts[0], Text(parts[1]));
      if !first.reply.Amount? then None
      else
        match HSetEach(first.ks, key, parts[2..])
        case None => None
        case Some(rest) => Some(Assigned(rest.ks, (if first.reply.n == 1 then 1 else 0) + rest.added))
  }

  predicate AnyOversized(parts: seq<Bytes>) { exists i :: 0 <= i < |parts| && i % 2 == 1 && Oversized(parts[i]) }

  /**
    * When `hash_set_texts` succeeds, its single sets in order give the same map and the same count,
    * duplicates included, exactly when no value is within five bytes of the 64 MiB limit: the single
    * set counts the element header and the multi-set does not.
    */
  lemma {:induction false} HSetTextsIsHSets(ks: Ks, key: Bytes, parts: seq<Bytes>)
    requires parts != [] && |parts| % 2 == 0
    requires ApplyHSetTexts(ks, key, parts).reply.Amount?
    ensures HSetEach(ks, key, parts).None? <==> AnyOversized(parts)
    ensures var r := ApplyHSetTexts(ks, key, parts);
            !AnyOversized(parts) ==> HSetEach(ks, key, parts) == Some(Assigned(r.ks, r.reply.n))
    decreases |parts|
  {
    hide Fits, HSetRecords, BodySize;
    var fields := OldFields(ks, key);
    ReservedRecordFits(key, parts[0], parts[1]);
    AnyOversizedSplit(parts);
    var first := ApplyHSet(ks, key, parts[0], Text(parts[1]));
    if first.reply.Amount? {
      if parts[2..] != [] {
        HSetTextsIsHSets(first.ks, key, parts[2..]);
        var done := Entry(Hash(SetPairs(fields, parts)), OldDeadline(ks, key));
        assert first.ks[key := done] == ks[key := done];
      } else {
        assert SetPairs(fields, parts) == fields[parts[0] := Text(parts[1])];
        assert AddedPairs(fields, parts) == if parts[0] in fields then 0 else 1;
      }
    }
  }

  lemma AnyOversizedSplit(parts: seq<Bytes>)
    requires |parts| >= 2
    ensures AnyOversized(parts) <==> Oversized(parts[1]) || AnyOversized(parts[2..])
  {
    if AnyOversized(parts) && !Oversized(parts[1]) {
      var i :| 0 <= i < |parts| && i % 2 == 1 && Oversized(parts[i]);
      assert parts[2..][i - 2] == parts[i];
    }
    if AnyOversized(parts[2..]) {
      var i :| 0 <= i < |parts[2..]| && i % 2 == 1 && Oversized(parts[2..][i]);
      assert parts[i + 2] == parts[2..][i];
    }
  }

  // ---------- a run, record by record ----------

  function PushEvents(key: Bytes, more: seq<Element>, front: bool, c: Clock): (es: seq<Event>)
  {
    if more == [] then [] else [Event(Push(key, more[0], front), c)] + PushEvents(key, more[1..], front, c)
  }

  function HSetEvents(key: Bytes, parts: seq<Bytes>, c: Clock): (es: seq<Event>)
  {
    if |parts| < 2 then []
    else [Event(HSet(key, parts[0], Text(parts[1])), c)] + HSetEvents(key, parts[2..], c)
  }

  /** The operation as operations that log one record each; nothing when it logs nothing. */
  function Singles(w: Ks, op: Op, c: Clock): (es: seq<Event>)
  {
    if Apply(w, op, c).records == [] then []
    else
      match op
      case PushTexts(key, texts, front) => PushEvents(key, Texts(texts), front, c)
      case HSetTexts(key, parts) => HSetEvents(key, parts, c)
      case _ => [Event(op, c)]
  }

  function Unbundle(ks: Ks, e: Event): (es: seq<Event>)
  {
    if Refused(e.op).Some? || IsRead(e.op) then []
    else if e.op.Evict? then (if e.op.key in ks then [e] else [])
    else
      (if Expired(ks, e.op.key, e.clock.now) then [Event(Cleanup(e.op.key), e.clock)] else [])
      + Singles(Writable(ks, e.op.key, e.clock.now), e.op, e.clock)
  }

  function UnbundleAll(ks: Ks, es: seq<Event>): (r: seq<Event>)
    decreases |es|
  {
    if es == [] then [] else Unbundle(ks, es[0]) + UnbundleAll(Step(ks, es[0].op, es[0].clock).ks, es[1..])
  }

  /** Every event of the run logs exactly one record. */
  predicate OneEach(ks: Ks, es: seq<Event>, offset: int)
    decreases |es|
  {
    es == [] || (var s := Step(ks, es[0].op, es[0].clock);
                 && Single(es[0].op) && ClockOk(es[0].clock) && es[0].clock.offset == offset
                 && |s.records| == 1 && OneEach(s.ks, es[1..], offset))
  }

  lemma StepUnexpired(w: Ks, op: Op, c: Clock)
    requires Refused(op).None? && !IsRead(op) && !Expired(w, op.key, c.now)
    ensures Step(w, op, c) == Apply(w, op, c)
  {
    hide Apply;
    assert [] + Apply(w, op, c).records == Apply(w, op, c).records;
    if op.Evict? {
      EvictIsDel(w, op, c);
    }
  }

  lemma EvictIsDel(w: Ks, op: Op, c: Clock)
    requires op.Evict?
    ensures Apply(w, op, c) == ApplyDel(w, op.key)
  {
  }

  lemma {:induction false} PushEventsRun(w: Ks, key: Bytes, more: seq<Element>, front: bool, c: Clock)
    requires |key| <= MAX_KEY && !Expired(w, key, c.now) && ClockOk(c)
    requires PushEach(w, key, more, front).Some?
    ensures var es := PushEvents(key, more, front, c);
            && Run(w, es) == Ran(PushEach(w, key, more, front).value, PushRecords(key, more, front))
            && OneEach(w, es, c.offset)
    decreases |more|
  {
    hide ApplyPush, PushRecord, Step;
    if more != [] {
      var op := Push(key, more[0], front);
      StepUnexpired(w, op, c);
      PushShape(w, key, more[0], front);
      PushKeepsDeadline(w, key, more[0], front, c);
      PushEventsRun(Step(w, op, c).ks, key, more[1..], front, c);
      assert PushRecords(key, more, front)
          == [PushRecord(key, more[0], front)] + PushRecords(key, more[1..], front);
      assert PushEvents(key, more, front, c)[1..] == PushEvents(key, more[1..], front, c);
    }
  }

  lemma PushKeepsDeadline(w: Ks, key: Bytes, item: Element, front: bool, c: Clock)
    requires !Expired(w, key, c.now)
    ensures !Expired(ApplyPush(w, key, [item], front).ks, key, c.now)
  {
  }

  lemma {:induction false} HSetEventsRun(w: Ks, key: Bytes, parts: seq<Bytes>, c: Clock)
    requires |key| <= MAX_KEY && !Expired(w, key, c.now) && ClockOk(c)
    requires HSetEach(w, key, parts).Some?
    ensures var es := HSetEvents(key, parts, c);
            && Run(w, es) == Ran(HSetEach(w, key, parts).value.ks, HSetRecords(key, parts))
            && OneEach(w, es, c.offset)
    decreases |parts|
  {
    hide ApplyHSet, AssignField, HSetRecord, Step;
    if |parts| >= 2 {
      var op := HSet(key, parts[0], Text(parts[1]));
      StepUnexpired(w, op, c);
      HSetShape(w, key, parts[0], Text(parts[1]));
      HSetKeepsDeadline(w, key, parts[0], Text(parts[1]), c);
      HSetEventsRun(Step(w, op, c).ks, key, parts[2..], c);
      assert HSetEvents(key, parts, c)[1..] == HSetEvents(key, parts[2..], c);
    }
  }

  lemma HSetKeepsDeadline(w: Ks, key: Bytes, field: Bytes, item: Element, c: Clock)
    requires !Expired(w, key, c.now)
    ensures !Expired(ApplyHSet(w, key, field, item).ks, key, c.now)
  {
    hide Fits, BodySize;
  }

  lemma OneEvent(ks: Ks, e: Event)
    ensures Run(ks, [e]) == Ran(Step(ks, e.op, e.clock).ks, Step(ks, e.op, e.clock).records)
    ensures OneEach(ks, [e], e.clock.offset) <==>
              Single(e.op) && ClockOk(e.clock) && |Step(ks, e.op, e.clock).records| == 1
  {
    hide Step;
    var s := Step(ks, e.op, e.clock);
    assert [e][1..] == [];
    assert s.records + [] == s.records;
  }

  lemma NoRecordNoChange(w: Ks, op: Op, c: Clock)
    requires Refused(op).None? && Apply(w, op, c).records == []
    ensures Apply(w, op, c).ks == w
  {
    hide UsedBytes, SetPairs, AddedPairs, LargestPair, PushItems, BodySize, Fits, ParseSigned;
    ReadKeeps(w, op, c);
  }

  lemma SinglesRun(w: Ks, op: Op, c: Clock)
    requires Refused(op).None? && !IsRead(op) && !op.Evict? && !Expired(w, op.key, c.now) && ClockOk(c)
    requires Clean(Apply(w, op, c).records)
    ensures var r := Apply(w, op, c);
            Run(w, Singles(w, op, c)) == Ran(r.ks, r.records) && OneEach(w, Singles(w, op, c), c.offset)
  {
    hide Step, ApplyIncr, ApplyPush, ApplyPop, ApplyHSet, ApplyHSetTexts, ApplyHDel, ApplyExpire, ApplyDel, Run, OneEach;
    var r := Apply(w, op, c);
    if r.records == [] {
      NoRecordNoChange(w, op, c);
      RunNothing(w, c.offset);
    } else if op.PushTexts? {
      PushBundle(w, op.key, op.texts, op.front);
      PushEventsRun(w, op.key, Texts(op.texts), op.front, c);
    } else if op.HSetTexts? {
      HSetBundle(w, op.key, op.parts);
      HSetEventsRun(w, op.key, op.parts, c);
    } else {
      StepUnexpired(w, op, c);
      OneEvent(w, Event(op, c));
      SingleRecord(w, op, c);
    }
  }

  lemma RunNothing(ks: Ks, offset: int)
    ensures Run(ks, []) == Ran(ks, []) && OneEach(ks, [], offset)
  {
  }

  lemma PushBundle(w: Ks, key: Bytes, texts: seq<Bytes>, front: bool)
    requires ApplyPush(w, key, Texts(texts), front).records != []
    ensures PushEach(w, key, Texts(texts), front) == Some(ApplyPush(w, key, Texts(texts), front).ks)
    ensures ApplyPush(w, key, Texts(texts), front).records == PushRecords(key, Texts(texts), front)
  {
    PushTextsIsPushes(w, key, Texts(texts), front);
  }

  lemma HSetBundle(w: Ks, key: Bytes, parts: seq<Bytes>)
    requires ApplyHSetTexts(w, key, parts).records != [] && |parts| % 2 == 0
    requires Clean(ApplyHSetTexts(w, key, parts).records)
    ensures HSetEach(w, key, parts).Some? && HSetEach(w, key, parts).value.ks == ApplyHSetTexts(w, key, parts).ks
    ensures ApplyHSetTexts(w, key, parts).records == HSetRecords(key, parts)
  {
    hide SetPairs, AddedPairs, LargestPair, Oversized;
    CleanPairs(key, parts);
    HSetTextsIsHSets(w, key, parts);
  }

  lemma {:induction false} CleanPairs(key: Bytes, parts: seq<Bytes>)
    ensures Clean(HSetRecords(key, parts)) <==> |parts| < 2 || !AnyOversized(parts[..|parts| - |parts| % 2])
    decreases |parts|
  {
    hide Oversized;
    if |parts| >= 2 {
      var even := parts[..|parts| - |parts| % 2];
      var rs, rest := HSetRecords(key, parts), HSetRecords(key, parts[2..]);
      CleanPairs(key, parts[2..]);
      AnyOversizedSplit(even);
      assert even[2..] == parts[2..][..|parts[2..]| - |parts[2..]| % 2];
      assert rs[1..] == rest;
      assert OversizedRecord(rs[0]) <==> Oversized(parts[1]);
      CleanConcat([rs[0]], rest);
      assert rs == [rs[0]] + rest;
    }
  }

  lemma CleanConcat(a: seq<Record>, b: seq<Record>)
    ensures Clean(a + b) <==> Clean(a) && Clean(b)
  {
    hide OversizedRecord;
    if Clean(a + b) {
      assert forall i :: 0 <= i < |a| ==> (a + b)[i] == a[i];
      assert forall i :: 0 <= i < |b| ==> (a + b)[|a| + i] == b[i];
    }
  }

  lemma SingleRecord(w: Ks, op: Op, c: Clock)
    requires Single(op)
    ensures |Apply(w, op, c).records| <= 1
  {
    hide UsedBytes, PushItems, BodySize, Fits, ParseSigned;
    ReadKeeps(w, op, c);
  }

  lemma {:induction false} OneEachConcat(ks: Ks, a: seq<Event>, b: seq<Event>, offset: int)
    requires OneEach(ks, a, offset) && OneEach(Run(ks, a).ks, b, offset)
    ensures OneEach(ks, a + b, offset)
    decreases |a|
  {
    hide Step;
    if a == [] {
      assert a + b == b;
    } else {
      OneEachConcat(Step(ks, a[0].op, a[0].clock).ks, a[1..], b, offset);
      assert (a + b)[1..] == a[1..] + b;
    }
  }

  /** An operation and its single-record operations change the same things and log the same records. */
  lemma UnbundleRun(ks: Ks, e: Event)
    requires Good(ks, e.clock.offset) && ClockOk(e.clock) && Clean(Step(ks, e.op, e.clock).records)
    ensures var s := Step(ks, e.op, e.clock);
            Run(ks, Unbundle(ks, e)) == Ran(s.ks, s.records) && OneEach(ks, Unbundle(ks, e), e.clock.offset)
  {
    hide Apply, ApplyRead, Run, OneEach, Singles, ApplyDel;
    var key, now := e.op.key, e.clock.now;
    RunNothing(ks, e.clock.offset);
    if Refused(e.op).Some? {
    } else if IsRead(e.op) {
      ReadKeeps(ks, e.op, e.clock);
    } else if e.op.Evict? {
      OneEvent(ks, e);
      DelShape(ks, key);
    } else {
      var w := Writable(ks, key, now);
      CleanConcat(WritableRecords(ks, key, now), Apply(w, e.op, e.clock).records);
      SinglesRun(w, e.op, e.clock);
      var tail := Singles(w, e.op, e.clock);
      if Expired(ks, key, now) {
        var cleanup := Event(Cleanup(key), e.clock);
        CleanupStep(ks, key, e.clock);
        OneEvent(ks, cleanup);
        RunConcat(ks, [cleanup], tail);
        OneEachConcat(ks, [cleanup], tail, e.clock.offset);
      } else {
        assert [] + tail == tail;
      }
    }
  }

  lemma DelShape(ks: Ks, key: Bytes)
    ensures ApplyDel(ks, key) == if key in ks then Outcome(ks - {key}, Amount(1), [DelRecord(key)])
              else Outcome(ks, Amount(0), [])
  {
  }

  lemma CleanupStep(ks: Ks, key: Bytes, c: Clock)
    requires Expired(ks, key, c.now) && Good(ks, c.offset)
    ensures Step(ks, Cleanup(key), c) == Outcome(ks - {key}, Done, [DelRecord(key)])
  {
    assert GoodEntry(key, ks[key], c.offset);
    assert [DelRecord(key)] + [] == [DelRecord(key)];
  }

  lemma {:induction false} UnbundleAllRun(ks: Ks, es: seq<Event>, offset: int)
    requires Good(ks, offset) && Clocks(es, offset) && Clean(Run(ks, es).records)
    ensures Run(ks, UnbundleAll(ks, es)) == Run(ks, es) && OneEach(ks, UnbundleAll(ks, es), offset)
    ensures Good(Run(ks, es).ks, offset)
    decreases |es|
  {
    hide Step, Good, OneEach, Unbundle, Clean;
    if es == [] {
      RunNothing(ks, offset);
    } else {
      var next := Step(ks, es[0].op, es[0].clock).ks;
      StepKeepsGood(ks, es[0].op, es[0].clock);
      CleanConcat(Step(ks, es[0].op, es[0].clock).records, Run(next, es[1..]).records);
      UnbundleRun(ks, es[0]);
      UnbundleAllRun(next, es[1..], offset);
      RunConcat(ks, Unbundle(ks, es[0]), UnbundleAll(next, es[1..]));
      OneEachConcat(ks, Unbundle(ks, es[0]), UnbundleAll(next, es[1..]), offset);
    }
  }

  // ---------- every record the database logs can be framed ----------

  lemma SmallRecordsFit(key: Bytes, text: Bytes, e: Element, front: bool, wall: int)
    requires |key| <= MAX_KEY && |text| <= LIMIT && (e.Text? ==> |e.text| <= LIMIT) && MIN_I64 <= wall <= MAX_I64
    ensures Fits(SetRecord(key, text)) && Fits(IncrRecord(key)) && Fits(PopRecord(key, front)) && Fits(DelRecord(key))
    ensures Fits(PushRecord(key, e, front)) && Fits(ExpireRecord(key, wall)) && Fits(IntegerRecord(key, wall))
  {
    hide ToDecimal;
    DecimalRoundTrip(wall);
    if e.Number? {
      DecimalRoundTrip(e.number);
    }
    ArgsSize4([], [], key, text);
    ArgsSize4([], [], [], key);
    ArgsSize4([], key, ItemTag(e), ItemText(e));
    ArgsSize4([], [], key, ToDecimal(wall));
  }

  lemma {:induction false} HSetRecordsFit(key: Bytes, parts: seq<Bytes>)
    requires |key| + LargestPair(parts) + 64 <= MAX_RECORD + 8
    ensures AllFit(HSetRecords(key, parts))
    decreases |parts|
  {
    hide Fits;
    if |parts| >= 2 {
      ReservedRecordFits(key, parts[0], parts[1]);
      HSetRecordsFit(key, parts[2..]);
    }
  }

  lemma PushRecordsFit(w: Ks, key: Bytes, more: seq<Element>, front: bool)
    requires |key| <= MAX_KEY
    ensures AllFit(ApplyPush(w, key, more, front).records)
  {
    hide Fits;
    var r := ApplyPush(w, key, more, front);
    forall i | 0 <= i < |r.records|
      ensures Fits(r.records[i])
    {
      UsedBytesAtLeast(more, i);
      SmallRecordsFit(key, [], more[i], front, 0);
    }
  }

  lemma HDelRecordFits(w: Ks, key: Bytes, field: Bytes, offset: int)
    requires Good(w, offset)
    ensures AllFit(ApplyHDel(w, key, field).records)
  {
    if ApplyHDel(w, key, field).records != [] {
      var e := w[key].value.fields[field];
      assert GoodEntry(key, w[key], offset);
      assert Fits(HSetRecord(key, field, e));
      ArgsSize4(key, field, ItemTag(e), ItemText(e));
      ArgsSize4([], [], key, field);
    }
  }

  lemma ApplyRecordsFit(w: Ks, op: Op, c: Clock)
    requires Good(w, c.offset) && ClockOk(c) && Refused(op).None? && !IsRead(op)
    ensures AllFit(Apply(w, op, c).records)
  {
    hide Fits, UsedBytes, LargestPair, SetPairs, AddedPairs, HSetRecords, PushItems, ToDecimal, ParseSigned, ApplyPush,
    ApplyHDel, ApplyHSet, ApplyExpire;
    match op {
      case Push(key, item, front) => PushRecordsFit(w, key, [item], front);
      case PushTexts(key, texts, front) => PushRecordsFit(w, key, Texts(texts), front);
      case HSet(key, field, item) => HSetShape(w, key, field, item);
      case HSetTexts(key, parts) =>
        if Apply(w, op, c).records != [] { HSetRecordsFit(key, parts); }
      case HDel(key, field) => HDelRecordFits(w, key, field, c.offset);
      case Expire(key, seconds) => ExpireRecordFits(w, key, seconds, c);
      case Set(key, text) => SmallRecordsFit(key, text, Text([]), false, 0);
      case Pop(key, front) => SmallRecordsFit(key, [], Text([]), front, 0);
      case Incr(key) => SmallRecordsFit(key, [], Text([]), false, 0);
      case Del(key) => SmallRecordsFit(key, [], Text([]), false, 0);
      case Evict(key) => SmallRecordsFit(key, [], Text([]), false, 0);
      case Cleanup(key) =>
    }
  }

  lemma ExpireRecordFits(w: Ks, key: Bytes, seconds: Int64, c: Clock)
    requires |key| <= MAX_KEY && ClockOk(c)
    ensures AllFit(ApplyExpire(w, key, seconds, c).records)
  {
    hide Fits, ToDecimal;
    var r := ApplyExpire(w, key, seconds, c);
    if r.records != [] && seconds > 0 {
      SmallRecordsFit(key, [], Number(0), false, c.now + seconds * 1000 + c.offset);
    } else {
      SmallRecordsFit(key, [], Number(0), false, 0);
    }
  }

  lemma {:induction false} RunRecordsFit(ks: Ks, es: seq<Event>, offset: int)
    requires Good(ks, offset) && Clocks(es, offset)
    ensures AllFit(Run(ks, es).records)
    decreases |es|
  {
    hide Fits, Apply, ApplyDel, Good;
    if es != [] {
      var op, c := es[0].op, es[0].clock;
      StepKeepsGood(ks, op, c);
      RunRecordsFit(Step(ks, op, c).ks, es[1..], offset);
      StepRecordsFit(ks, op, c);
    }
  }

  lemma StepRecordsFit(ks: Ks, op: Op, c: Clock)
    requires Good(ks, c.offset) && ClockOk(c)
    ensures AllFit(Step(ks, op, c).records)
  {
    hide Fits, Apply, ApplyDel, ApplyRead, GoodEntry;
    if IsRead(op) {
      ReadKeeps(ks, op, c);
    } else if Refused(op).None? {
      SmallRecordsFit(op.key, [], Number(0), false, 0);
      DelShape(ks, op.key);
      if !op.Evict? {
        ApplyRecordsFit(Writable(ks, op.key, c.now), op, c);
      }
    }
  }

  // ---------- replaying any number of them ----------

  lemma ReplayOne(ks: Ks, e: Event, c: Clock)
    requires ClockOk(e.clock) && ClockOk(c) && e.clock.offset == c.offset && Single(e.op)
    requires |Step(ks, e.op, e.clock).records| == 1
    ensures var s := Step(ks, e.op, e.clock);
            Replay(Clamp(ks, c.now), s.records[0], c) == Some(Clamp(s.ks, c.now))
  {
    hide Apply, Replay, Clamp, ApplyDel, ApplyRead;
    var op := e.op;
    ReadKeeps(ks, op, e.clock);
    var w := Writable(ks, op.key, e.clock.now);
    ReplayDel(ks, op.key, c);
    if !op.Evict? {
      if op.Cleanup? {
        CleanupApplied(w, op, e.clock);
      } else {
        ReplayApplied(w, op, e.clock, c);
      }
    }
  }

  lemma CleanupApplied(w: Ks, op: Op, c: Clock)
    requires op.Cleanup?
    ensures Apply(w, op, c) == Outcome(w, Done, [])
  {
  }

  lemma {:induction false} ReplayRun(ks: Ks, es: seq<Event>, k: nat, c: Clock)
    requires ClockOk(c) && OneEach(ks, es, c.offset) && k <= |es|
    ensures |Run(ks, es).records| == |es|
    ensures ReplayAll(Clamp(ks, c.now), Run(ks, es).records[..k], c) == Some(Clamp(Run(ks, es[..k]).ks, c.now))
    decreases |es|
  {
    hide Step, Replay, Clamp, ClockOk;
    if es != [] {
      var s := Step(ks, es[0].op, es[0].clock);
      var k' := if k > 0 then k - 1 else 0;
      ReplayRun(s.ks, es[1..], k', c);
      if k > 0 {
        ReplayOne(ks, es[0], c);
        var rs := Run(ks, es).records[..k];
        assert rs[0] == s.records[0];
        assert rs[1..] == Run(s.ks, es[1..]).records[..k - 1];
        assert es[..k][1..] == es[1..][..k - 1];
      }
    }
  }

  // ---------- the crash-recovery theorem ----------

  /**
    * How a log begins: with no records, for an empty database, or with the records that compaction wrote
    * for some keyspace. From `since` on, replaying them gives that keyspace back.
    */
  datatype Base = Base(records: seq<Record>, ks: Ks, since: int)

  const SCRATCH := Base([], map[], 0)

  ghost predicate Restores(b: Base, offset: int)
  {
    && AllFit(b.records) && AllStampable(b.records, offset) && Good(b.ks, offset)
    && forall c :: ClockOk(c) && c.offset == offset && b.since <= c.now ==>
       ReplayAll(map[], b.records, c) == Some(Clamp(b.ks, c.now))
  }

  lemma ScratchRestores(offset: int)
    ensures Restores(SCRATCH, offset)
  {
    forall c | ClockOk(c) && c.offset == offset
      ensures ReplayAll(map[], [], c) == Some(Clamp(map[], c.now))
    {
      ClampEmpty(c.now);
    }
  }

  /** The log file of a run: what it begins with, and the records of the run. */
  function RunLog(b: Base, es: seq<Event>, offset: int): (file: Bytes)
    requires AllFit(b.records) && Good(b.ks, offset) && Clocks(es, offset)
    ensures AllFit(b.records + Run(b.ks, es).records) && file == Log(b.records + Run(b.ks, es).records)
  {
    RunRecordsFit(b.ks, es, offset);
    Log(b.records + Run(b.ks, es).records)
  }

  lemma {:induction false} ReplayAllConcat(ks: Ks, a: seq<Record>, b: seq<Record>, c: Clock)
    ensures var mid := ReplayAll(ks, a, c);
            ReplayAll(ks, a + b, c) == if mid.None? then None else ReplayAll(mid.value, b, c)
    decreases |a|
  {
    hide Replay;
    if a == [] {
      assert a + b == b;
    } else {
      assert (a + b)[1..] == a[1..] + b;
      match Replay(ks, a[0], c) {
        case None =>
        case Some(next) => ReplayAllConcat(next, a[1..], b, c);
      }
    }
  }

  /**
    * Take any run, from an empty database or on top of a compacted log, and cut its log anywhere after
    * what it begins with, and let k be the number of complete records of the run in the cut. Reopening
    * the cut succeeds exactly when none of those k holds an oversized hash value, and then gives exactly
    * the unexpired part of the keyspace as it was right after the k-th record was logged.
    */
  lemma CrashRecovers(b: Base, es: seq<Event>, n: nat, c: Clock) returns (k: nat)
    requires ClockOk(c) && Clocks(es, c.offset) && Restores(b, c.offset) && b.since <= c.now
    requires |Log(b.records)| <= n <= |RunLog(b, es, c.offset)|
    ensures var rs, cut := Run(b.ks, es).records, RunLog(b, es, c.offset)[..n];
            && k <= |rs| == |UnbundleAll(b.ks, es)| && |b.records| + k == Whole(b.records + rs, n - 8)
            && Recovered(cut).Scanned? && Recovered(cut).records == b.records + rs[..k]
            && (Reopen(cut, c).Some? <==> Clean(rs[..k]))
            && (Clean(rs[..k]) ==> Reopen(cut, c) == Some(Live(Run(b.ks, UnbundleAll(b.ks, es)[..k]).ks, c.now)))
  {
    hide Run, UnbundleAll, Log, Live, Clamp, Whole, ClockOk, Recovered, Clean, Replay, ReplayAll, Restores, Clocks;
    assert AllFit(b.records) && Good(b.ks, c.offset) by { RestoresHas(b, c.offset); }
    var rs := Run(b.ks, es).records;
    var all := b.records + rs;
    var file := RunLog(b, es, c.offset);
    UnbundleAllLength(b.ks, es);
    KeepsBase(b.records, rs, n);
    CutRecovers(all, n);
    k := Whole(all, n - 8) - |b.records|;
    assert all[..|b.records| + k] == b.records + rs[..k];
    ReplayCut(b, es, k, c);
    if Clean(rs[..k]) {
      LiveClamp(Run(b.ks, UnbundleAll(b.ks, es)[..k]).ks, c.now);
    }
  }

  lemma RestoresHas(b: Base, offset: int)
    requires Restores(b, offset)
    ensures AllFit(b.records) && AllStampable(b.records, offset) && Good(b.ks, offset)
  {
  }

  /** A cut after the first records holds all of them. */
  lemma KeepsBase(first: seq<Record>, rs: seq<Record>, n: nat)
    requires AllFit(first) && AllFit(first + rs) && |Log(first)| <= n <= |Log(first + rs)|
    ensures 8 <= n && |first| <= Whole(first + rs, n - 8) <= |first + rs|
  {
    hide Frames, Whole, Fits;
    var all := first + rs;
    CutRecovers(all, n);
    var k := Whole(all, n - 8);
    if k < |first| {
      assert all[..k + 1] == first[..k + 1];
      FramesSplit(first, k + 1);
    }
  }

  /** Replaying what a run's log begins with, and the first `k` records of the run. */
  lemma ReplayCut(b: Base, es: seq<Event>, k: nat, c: Clock)
    requires ClockOk(c) && Clocks(es, c.offset) && Restores(b, c.offset) && b.since <= c.now
    requires k <= |Run(b.ks, es).records| == |UnbundleAll(b.ks, es)|
    ensures var rs := Run(b.ks, es).records[..k];
            var replayed := ReplayAll(map[], b.records + rs, c);
            && (replayed.Some? <==> Clean(rs))
            && (Clean(rs) ==> replayed == Some(Clamp(Run(b.ks, UnbundleAll(b.ks, es)[..k]).ks, c.now)))
  {
    hide Run, UnbundleAll, Clamp, ClockOk, OversizedRecord, Replay, ReplayAll, Good;
    var rs := Run(b.ks, es).records[..k];
    ReplayAllConcat(map[], b.records, rs, c);
    assert ReplayAll(map[], b.records, c) == Some(Clamp(b.ks, c.now));
    if Clean(rs) {
      var singles := UnbundleAll(b.ks, es)[..k];
      CleanPrefixRun(b.ks, es, k, c.offset);
      ReplayRun(b.ks, singles, k, c);
      assert singles[..k] == singles && rs[..k] == rs;
    } else {
      var i :| 0 <= i < |rs| && OversizedRecord(rs[i]);
      OversizedRefused(Clamp(b.ks, c.now), rs, i, c);
    }
  }

  // ---------- the part of a run before an oversized value ----------

  /** One event for each record, whatever the records hold. */
  lemma {:induction false} UnbundleAllLength(ks: Ks, es: seq<Event>)
    ensures |UnbundleAll(ks, es)| == |Run(ks, es).records|
    decreases |es|
  {
    hide Step, Unbundle;
    if es != [] {
      UnbundleLength(ks, es[0]);
      UnbundleAllLength(Step(ks, es[0].op, es[0].clock).ks, es[1..]);
    }
  }

  lemma UnbundleLength(ks: Ks, e: Event)
    ensures |Unbundle(ks, e)| == |Step(ks, e.op, e.clock).records|
  {
    hide Apply, ApplyRead, ApplyDel, Singles;
    ReadKeeps(ks, e.op, e.clock);
    DelShape(ks, e.op.key);
    if Refused(e.op).None? && !IsRead(e.op) && !e.op.Evict? {
      SinglesLength(Writable(ks, e.op.key, e.clock.now), e.op, e.clock);
    }
  }

  lemma SinglesLength(w: Ks, op: Op, c: Clock)
    ensures |Singles(w, op, c)| == |Apply(w, op, c).records|
  {
    hide ApplyIncr, ApplyPop, ApplyHSet, ApplyHDel, ApplyExpire, ApplyDel, ApplyRead, PushEvents, HSetEvents, HSetRecords,
      UsedBytes, LargestPair, SetPairs, AddedPairs;
    match op {
      case PushTexts(key, texts, front) => PushEventsLength(key, Texts(texts), front, c);
      case HSetTexts(key, parts) => HSetEventsLength(key, parts, c);
      case _ => SingleRecord(w, op, c);
    }
  }

  lemma {:induction false} PushEventsLength(key: Bytes, more: seq<Element>, front: bool, c: Clock)
    ensures |PushEvents(key, more, front, c)| == |more|
  {
    if more != [] {
      PushEventsLength(key, more[1..], front, c);
    }
  }

  lemma {:induction false} HSetEventsLength(key: Bytes, parts: seq<Bytes>, c: Clock)
    ensures |HSetEvents(key, parts, c)| == |HSetRecords(key, parts)| == |parts| / 2
    decreases |parts|
  {
    if |parts| >= 2 {
      HSetEventsLength(key, parts[2..], c);
    }
  }

  lemma {:induction false} HSetEventsPrefix(key: Bytes, parts: seq<Bytes>, c: Clock, j: nat)
    requires 2 * j <= |parts|
    ensures FirstPairs(key, parts, j, c)
    decreases |parts|
  {
    if j > 0 {
      HSetEventsPrefix(key, parts[2..], c, j - 1);
      assert parts[..2 * j][2..] == parts[2..][..2 * (j - 1)];
      HSetEventsLength(key, parts, c);
      assert HSetEvents(key, parts, c)[..j] == [HSetEvents(key, parts, c)[0]] + HSetEvents(key, parts[2..], c)[..j - 1];
      assert HSetRecords(key, parts)[..j] == [HSetRecords(key, parts)[0]] + HSetRecords(key, parts[2..])[..j - 1];
    }
  }

  /** The first `j` pairs give the first `j` events and the first `j` records. */
  ghost predicate FirstPairs(key: Bytes, parts: seq<Bytes>, j: nat, c: Clock)
  {
    && 2 * j <= |parts| && j <= |HSetEvents(key, parts, c)| && j <= |HSetRecords(key, parts)|
    && HSetEvents(key, parts[..2 * j], c) == HSetEvents(key, parts, c)[..j]
    && HSetRecords(key, parts[..2 * j]) == HSetRecords(key, parts)[..j]
  }

  lemma {:induction false} LargestPairPrefix(parts: seq<Bytes>, j: nat)
    requires 2 * j <= |parts|
    ensures LargestPair(parts[..2 * j]) <= LargestPair(parts)
    decreases |parts|
  {
    if j > 0 {
      LargestPairPrefix(parts[2..], j - 1);
      assert parts[..2 * j][2..] == parts[2..][..2 * (j - 1)];
    }
  }

  /** A successful multi-set cut down to its first `j` pairs. */
  lemma FewerPairs(w: Ks, key: Bytes, parts: seq<Bytes>, j: nat, c: Clock)
    requires ApplyHSetTexts(w, key, parts).records != [] && 2 * j <= |parts|
    ensures ApplyHSetTexts(w, key, parts).records == HSetRecords(key, parts)
    ensures FirstPairs(key, parts, j, c)
    ensures ApplyHSetTexts(w, key, parts[..2 * j]).records == HSetRecords(key, parts)[..j]
  {
    hide HSetRecords, HSetEvents, SetPairs, AddedPairs, LargestPair;
    LargestPairPrefix(parts, j);
    HSetEventsPrefix(key, parts, c, j);
    if j == 0 {
      assert parts[..0] == [];
      HSetEventsLength(key, [], c);
    }
  }

  lemma FewerPairsStep(ks: Ks, e: Event, j: nat)
    requires e.op.HSetTexts? && Refused(e.op).None? && 2 * j <= |e.op.parts|
    requires Apply(Writable(ks, e.op.key, e.clock.now), e.op, e.clock).records != []
    ensures var less := Event(HSetTexts(e.op.key, e.op.parts[..2 * j]), e.clock);
            var k := |WritableRecords(ks, e.op.key, e.clock.now)| + j;
            && k <= |Step(ks, e.op, e.clock).records| == |Unbundle(ks, e)|
            && Step(ks, less.op, e.clock).records == Step(ks, e.op, e.clock).records[..k]
            && Unbundle(ks, less) == Unbundle(ks, e)[..k]
  {
    hide ApplyHSetTexts, HSetRecords, HSetEvents;
    var key, parts, c := e.op.key, e.op.parts, e.clock;
    var w := Writable(ks, key, c.now);
    FewerPairs(w, key, parts, j, c);
    UnbundleLength(ks, e);
    HSetEventsLength(key, parts, c);
    HSetEventsLength(key, parts[..2 * j], c);
    var less := Event(HSetTexts(key, parts[..2 * j]), c);
    var before := WritableRecords(ks, key, c.now);
    assert (before + HSetRecords(key, parts))[..|before| + j] == before + HSetRecords(key, parts)[..j];
    var cleanup := if Expired(ks, key, c.now) then [Event(Cleanup(key), c)] else [];
    assert (cleanup + HSetEvents(key, parts, c))[..|before| + j] == cleanup + HSetEvents(key, parts, c)[..j];
    if j == 0 {
      assert HSetEvents(key, parts, c)[..0] == [];
    }
  }

  lemma {:induction false} OneEachPrefix(ks: Ks, es: seq<Event>, k: nat, offset: int)
    requires OneEach(ks, es, offset) && k <= |es|
    ensures OneEach(ks, es[..k], offset)
    ensures |Run(ks, es).records| == |es| && Run(ks, es[..k]).records == Run(ks, es).records[..k]
    decreases |es|
  {
    hide Step, ClockOk;
    if es != [] {
      var s := Step(ks, es[0].op, es[0].clock);
      OneEachPrefix(s.ks, es[1..], if k > 0 then k - 1 else 0, offset);
      if k > 0 {
        assert es[..k][1..] == es[1..][..k - 1];
        assert Run(ks, es).records[..k] == s.records + Run(s.ks, es[1..]).records[..k - 1];
      }
    }
  }

  /** The first `k` records of one operation, if none of them is oversized, are those of its first `k` single events. */
  lemma EventPrefixRun(ks: Ks, e: Event, k: nat)
    requires Good(ks, e.clock.offset) && ClockOk(e.clock)
    requires k <= |Step(ks, e.op, e.clock).records| && Clean(Step(ks, e.op, e.clock).records[..k])
    ensures k <= |Unbundle(ks, e)| && OneEach(ks, Unbundle(ks, e)[..k], e.clock.offset)
    ensures Run(ks, Unbundle(ks, e)[..k]).records == Step(ks, e.op, e.clock).records[..k]
  {
    hide Good, ClockOk, Unbundle, OneEach, Run, Apply, OversizedRecord, Writable;
    UnbundleLength(ks, e);
    var rs := Step(ks, e.op, e.clock).records;
    if Clean(rs) {
      UnbundleRun(ks, e);
      OneEachPrefix(ks, Unbundle(ks, e), k, e.clock.offset);
    } else {
      UncleanStep(ks, e.op, e.clock);
      var d := |WritableRecords(ks, e.op.key, e.clock.now)|;
      if k < d {
        assert rs[..k] == [] && Unbundle(ks, e)[..k] == [];
        RunNothing(ks, e.clock.offset);
      } else {
        PairCount(ks, e);
        FewerPairsStep(ks, e, k - d);
        UnbundleRun(ks, Event(HSetTexts(e.op.key, e.op.parts[..2 * (k - d)]), e.clock));
      }
    }
  }

  lemma PairCount(ks: Ks, e: Event)
    requires e.op.HSetTexts? && Refused(e.op).None? && Apply(Writable(ks, e.op.key, e.clock.now), e.op, e.clock).records != []
    ensures |Step(ks, e.op, e.clock).records| == |WritableRecords(ks, e.op.key, e.clock.now)| + |e.op.parts| / 2
  {
    hide HSetRecords, SetPairs, AddedPairs, LargestPair;
    HSetEventsLength(e.op.key, e.op.parts, e.clock);
  }

  /** Only a successful multi-set with an oversized value logs one, and it always does. */
  lemma CleanExactly(ks: Ks, op: Op, c: Clock)
    ensures Clean(Step(ks, op, c).records) <==> !StoresOversized(ks, op, c)
  {
    hide UsedBytes, SetPairs, AddedPairs, LargestPair, PushItems, Fits, ParseSigned, HSetRecords, Oversized;
    if !op.HSetTexts? {
      SafeStepClean(ks, op, c);
    } else if Refused(op).None? {
      var w := Writable(ks, op.key, c.now);
      CleanConcat(WritableRecords(ks, op.key, c.now), ApplyHSetTexts(w, op.key, op.parts).records);
      CleanPairs(op.key, op.parts);
      assert op.parts[..|op.parts|] == op.parts;
    }
  }

  /** The multi-set was accepted and one of its values is above the limit `hash_assign` checks, as the caller sees it. */
  predicate StoresOversized(ks: Ks, op: Op, c: Clock)
  {
    op.HSetTexts? && Step(ks, op, c).reply.Amount? && AnyOversized(op.parts)
  }

  lemma UncleanStep(ks: Ks, op: Op, c: Clock)
    requires !Clean(Step(ks, op, c).records)
    ensures op.HSetTexts? && Refused(op).None? && Apply(Writable(ks, op.key, c.now), op, c).records != []
  {
    hide Apply, OversizedRecord, AnyOversized;
    CleanExactly(ks, op, c);
    var w := Writable(ks, op.key, c.now);
    if Refused(op).None? {
      CleanConcat(WritableRecords(ks, op.key, c.now), Apply(w, op, c).records);
      DelIsClean(op.key);
    }
  }

  lemma DelIsClean(key: Bytes)
    ensures Clean([DelRecord(key)]) && Clean([])
  {
  }

  predicate AnyStored(ks: Ks, es: seq<Event>)
    decreases |es|
  {
    es != [] && (StoresOversized(ks, es[0].op, es[0].clock) || AnyStored(Step(ks, es[0].op, es[0].clock).ks, es[1..]))
  }

  lemma {:induction false} RunCleanExactly(ks: Ks, es: seq<Event>)
    ensures Clean(Run(ks, es).records) <==> !AnyStored(ks, es)
    decreases |es|
  {
    hide Step, OversizedRecord, StoresOversized;
    if es != [] {
      var s := Step(ks, es[0].op, es[0].clock);
      CleanExactly(ks, es[0].op, es[0].clock);
      RunCleanExactly(s.ks, es[1..]);
      CleanConcat(s.records, Run(s.ks, es[1..]).records);
    }
  }

  lemma {:induction false} CleanPrefixRun(ks: Ks, es: seq<Event>, k: nat, offset: int)
    requires Good(ks, offset) && Clocks(es, offset) && k <= |Run(ks, es).records| && Clean(Run(ks, es).records[..k])
    ensures k <= |UnbundleAll(ks, es)| && OneEach(ks, UnbundleAll(ks, es)[..k], offset)
    ensures Run(ks, UnbundleAll(ks, es)[..k]).records == Run(ks, es).records[..k]
    decreases |es|
  {
    hide Step, Good, ClockOk, OversizedRecord, OneEach, Unbundle;
    UnbundleAllLength(ks, es);
    if es == [] {
      RunNothing(ks, offset);
    } else {
      var e := es[0];
      var s := Step(ks, e.op, e.clock);
      var first, rest := Unbundle(ks, e), UnbundleAll(s.ks, es[1..]);
      var later := Run(s.ks, es[1..]).records;
      UnbundleLength(ks, e);
      StepKeepsGood(ks, e.op, e.clock);
      if k <= |s.records| {
        assert Run(ks, es).records[..k] == s.records[..k];
        assert UnbundleAll(ks, es)[..k] == first[..k];
        EventPrefixRun(ks, e, k);
      } else {
        var j := k - |s.records|;
        assert Run(ks, es).records[..k] == s.records + later[..j];
        assert UnbundleAll(ks, es)[..k] == first + rest[..j];
        CleanConcat(s.records, later[..j]);
        UnbundleRun(ks, e);
        CleanPrefixRun(s.ks, es[1..], j, offset);
        RunConcat(ks, first, rest[..j]);
        OneEachConcat(ks, first, rest[..j], offset);
      }
    }
  }

  lemma ClampEmpty(now: int)
    ensures Clamp(map[], now) == map[]
  {
  }

  /** The uncut log rebuilds the live keyspace: values, types, list order, hash maps and deadlines. */
  lemma {:induction false} PairsNoStamps(key: Bytes, parts: seq<Bytes>)
    ensures forall i :: 0 <= i < |HSetRecords(key, parts)| ==> HSetRecords(key, parts)[i].op == 6
    decreases |parts|
  {
    if |parts| >= 2 {
      PairsNoStamps(key, parts[2..]);
    }
  }

  /** Every deadline that is logged is within reach of the clock it was set by. */
  lemma StepStampable(ks: Ks, op: Op, c: Clock)
    requires ClockOk(c)
    ensures AllStampable(Step(ks, op, c).records, c.offset)
  {
    hide UsedBytes, SetPairs, AddedPairs, LargestPair, PushItems, Fits, HSetRecords, ParseSigned, ToDecimal;
    ReadKeeps(ks, op, c);
    if op.HSetTexts? {
      PairsNoStamps(op.key, op.parts);
    }
    if op.Expire? {
      ExpireStampable(Writable(ks, op.key, c.now), op.key, op.seconds, c);
    }
  }

  lemma ExpireStampable(w: Ks, key: Bytes, seconds: Int64, c: Clock)
    requires ClockOk(c)
    ensures AllStampable(ApplyExpire(w, key, seconds, c).records, c.offset)
  {
    hide ParseSigned, ToDecimal;
    if seconds > 0 && seconds <= (MAX_I64 - Max(c.now, c.now + c.offset)) / 1000 {
      DecimalRoundTrip(c.now + seconds * 1000 + c.offset);
    }
  }

  lemma {:induction false} RunStampable(ks: Ks, es: seq<Event>, offset: int)
    requires Clocks(es, offset)
    ensures AllStampable(Run(ks, es).records, offset)
    decreases |es|
  {
    hide Step, Stampable, ClockOk;
    if es != [] {
      StepStampable(ks, es[0].op, es[0].clock);
      RunStampable(Step(ks, es[0].op, es[0].clock).ks, es[1..], offset);
    }
  }

  lemma {:induction false} RunKeepsGood(ks: Ks, es: seq<Event>, offset: int)
    requires Good(ks, offset) && Clocks(es, offset)
    ensures Good(Run(ks, es).ks, offset)
    decreases |es|
  {
    hide Good, Step, ClockOk;
    if es != [] {
      StepKeepsGood(ks, es[0].op, es[0].clock);
      RunKeepsGood(Step(ks, es[0].op, es[0].clock).ks, es[1..], offset);
    }
  }

  /** The uncut log gives back the live keyspace. */
  lemma UncutLogRestores(b: Base, es: seq<Event>, c: Clock)
    requires ClockOk(c) && Clocks(es, c.offset) && Restores(b, c.offset) && b.since <= c.now && !AnyStored(b.ks, es)
    ensures AllFit(b.records) && Good(b.ks, c.offset) && Reopen(RunLog(b, es, c.offset), c) == Some(Live(Run(b.ks, es).ks, c.now))
  {
    hide Run, UnbundleAll, Log, Live, Clamp, ClockOk, Recovered, OversizedRecord, AnyStored, Restores;
    RestoresHas(b, c.offset);
    var rs := Run(b.ks, es).records;
    var singles := UnbundleAll(b.ks, es);
    var file := RunLog(b, es, c.offset);
    RunCleanExactly(b.ks, es);
    WholeLogRecovers(b.records + rs);
    UnbundleAllRun(b.ks, es, c.offset);
    UnbundleAllLength(b.ks, es);
    ReplayCut(b, es, |rs|, c);
    assert rs[..|rs|] == rs && singles[..|rs|] == singles;
    LiveClamp(Run(b.ks, es).ks, c.now);
  }

  // ---------- exactly when replay refuses ----------

  /**
    * A run's log can be reopened exactly when no `hash_set_texts` in it was accepted with an oversized
    * value, which a caller sees from the arguments and the reply of the call.
    */
  lemma ReopensExactlyWhenClean(b: Base, es: seq<Event>, c: Clock)
    requires ClockOk(c) && Clocks(es, c.offset) && Restores(b, c.offset) && b.since <= c.now
    ensures AllFit(b.records) && Good(b.ks, c.offset) && (Reopen(RunLog(b, es, c.offset), c).Some? <==> !AnyStored(b.ks, es))
  {
    hide Run, Log, Live, ClockOk, Recovered, OversizedRecord, Replay, UnbundleAll, ReplayAll, AnyStored, Restores;
    RestoresHas(b, c.offset);
    var rs := Run(b.ks, es).records;
    var file := RunLog(b, es, c.offset);
    RunCleanExactly(b.ks, es);
    WholeLogRecovers(b.records + rs);
    UnbundleAllLength(b.ks, es);
    ReplayCut(b, es, |rs|, c);
    assert rs[..|rs|] == rs;
  }

  lemma {:induction false} OversizedRefused(ks: Ks, rs: seq<Record>, i: nat, c: Clock)
    requires i < |rs| && OversizedRecord(rs[i])
    ensures ReplayAll(ks, rs, c).None?
    decreases i
  {
    hide OversizedRecord, Replay;
    if i > 0 {
      match Replay(ks, rs[0], c) {
        case None =>
        case Some(next) => OversizedRefused(next, rs[1..], i - 1, c);
      }
    } else {
      OversizedReplay(ks, rs[0], c);
    }
  }

  lemma OversizedReplay(ks: Ks, r: Record, c: Clock)
    requires OversizedRecord(r)
    ensures Replay(ks, r, c).None?
  {
    assert ParseItem(r.args[2], r.args[3]) == Some(Text(r.args[3]));
  }

  /** Only `hash_set_texts` can log an oversized value, so a caller who keeps its values safe gets a clean log. */
  lemma SafeStepClean(ks: Ks, op: Op, c: Clock)
    requires Safe(op)
    ensures Clean(Step(ks, op, c).records)
  {
    hide UsedBytes, SetPairs, AddedPairs, LargestPair, PushItems, Fits, ParseSigned, HSetRecords, Oversized;
    ReadKeeps(ks, op, c);
    if op.HSetTexts? {
      CleanPairs(op.key, op.parts);
      if |op.parts| % 2 == 0 {
        assert op.parts[..|op.parts|] == op.parts;
      }
    }
    if op.HSet? {
      HSetClean(Writable(ks, op.key, c.now), op.key, op.field, op.item);
    }
  }

  lemma HSetClean(w: Ks, key: Bytes, field: Bytes, item: Element)
    ensures Clean(ApplyHSet(w, key, field, item).records)
  {
  }

  lemma {:induction false} SafeRunClean(ks: Ks, es: seq<Event>)
    requires AllSafe(es)
    ensures Clean(Run(ks, es).records) && !AnyStored(ks, es)
    decreases |es|
  {
    hide Step, Clean, Safe, StoresOversized;
    if es == [] {
      CleanNothing();
    } else {
      var s := Step(ks, es[0].op, es[0].clock);
      SafeStepClean(ks, es[0].op, es[0].clock);
      CleanExactly(ks, es[0].op, es[0].clock);
      SafeRunClean(s.ks, es[1..]);
      CleanConcat(s.records, Run(s.ks, es[1..]).records);
    }
  }

  lemma CleanNothing()
    ensures Clean([])
  {
  }

  /** The input that shows the refusal: one field set to a value of exactly 64 MiB. */
  lemma OversizedExample(value: Bytes, c: Clock)
    requires |value| == LIMIT && ClockOk(c)
    ensures var es := [Event(HSetTexts([], [[], value]), c)];
            && Step(map[], es[0].op, c).reply == Amount(1)
            && Clocks(es, c.offset) && Reopen(RunLog(SCRATCH, es, c.offset), c).None?
  {
    hide Reopen, Log;
    var parts: seq<Bytes> := [[], value];
    var es := [Event(HSetTexts([], parts), c)];
    assert parts[2..] == [];
    assert LargestPair(parts) == LIMIT;
    assert SetPairs(map[], parts) == map[[] := Text(value)];
    assert AddedPairs(map[], parts) == 1;
    assert HSetRecords([], parts) == [HSetRecord([], [], Text(value))] + HSetRecords([], []);
    var s := Step(map[], es[0].op, c);
    assert s.records == [HSetRecord([], [], Text(value))];
    OneEvent(map[], es[0]);
    assert Run(map[], es).records[0] == HSetRecord([], [], Text(value));
    assert parts[1] == value && AnyOversized(parts);
    assert StoresOversized(map[], es[0].op, c);
    ScratchRestores(c.offset);
    ReopensExactlyWhenClean(SCRATCH, es, c);
  }
}
