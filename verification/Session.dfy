/**
  * Whole runs of the database: any mix of commands, expiry passes, eviction passes, batches and flushes,
  * with any allocation and any disk write failing anywhere. Each request is answered as the plain
  * keyspace answers it, and the log is the log of a run of that keyspace.
  */
module Session {
  import opened Bytes
  import opened Worlds
  import opened BucketTable
  import opened Wal
  import opened Keyspace
  import opened Recovery
  import opened CrashRecovery
  import Nodes
  import LogFile
  import Slab
  import D = Database

  type State = D.State

  datatype Request =
    | Command(op: Op, clock: Clock)
    | ExpiryPass(limit: nat, clock: Clock)
    | EvictionPass(target: nat, limit: nat, clock: Clock)
    | BatchBegins
    | BatchEnds
    | Tick

  datatype Report = Answered(result: D.Result) | Finished(ok: bool)

  predicate IsCommand(op: Op) { IsRead(op) || (D.IsWrite(op) && !op.Cleanup?) }

  predicate Served(r: Request, offset: int)
  {
    match r
    case Command(op, c) => IsCommand(op) && ClockOk(c) && c.offset == offset
    case ExpiryPass(_, c) => ClockOk(c) && c.offset == offset
    case EvictionPass(_, _, c) => ClockOk(c) && c.offset == offset
    case _ => true
  }

  // ---------- what one request does ----------

  /**
    * One request on the plain keyspace: the events that took place, the events whose records were on
    * their way to the log, and what it left. The two differ only for the request in which the log fails.
    */
  datatype Turn = Turn(did: seq<Event>, tried: seq<Event>, after: State)

  /** A turn that starts in `s` is a run of the plain keyspace, and its log lies between the two runs. */
  ghost predicate Follows(s: State, turn: Turn)
  {
    && turn.after.ks == Run(s.ks, turn.did).ks
    && s.log + Run(s.ks, turn.did).records <= turn.after.log <= s.log + Run(s.ks, turn.tried).records
    && (!turn.after.failed ==> turn.tried == turn.did)
  }

  /** Its events happen at clocks that differ by the same amount. */
  ghost predicate Timed(turn: Turn, offset: int) { Clocks(turn.did, offset) && Clocks(turn.tried, offset) }

  ghost predicate ReadTurn(op: Op, c: Clock, res: D.Result, s: State, turn: Turn)
  {
    && res == D.Replied(Step(s.ks, op, c).reply) && turn.did == turn.tried == [Event(op, c)]
    && turn.after == s.(recent := if op.key in s.ks && !Expired(s.ks, op.key, c.now) then Recent(s.recent, op.key, true)
       else s.recent)
  }

  ghost predicate WriteTurn(op: Op, c: Clock, res: D.Result, s: State, turn: Turn)
  {
    var t := turn.after;
    && (D.Answers(false, op, c, res, s, t, true) || D.Answers(false, op, c, res, s, t, false))
    && (res.Replied? ==>
          && res.reply == Step(s.ks, op, c).reply && t.ks == Step(s.ks, op, c).ks && t.log == s.log + Step(s.ks, op, c).records
          && turn.did == turn.tried == [Event(op, c)])
    && (!res.Replied? ==> turn.did == if t.ks == s.ks then [] else [Event(Cleanup(op.key), c)])
    && (res.NoMemory? ==> turn.tried == turn.did)
    && (res.DiskFailed? ==> t.failed && turn.tried == [Event(op, c)])
  }

  ghost predicate ExpiryTurn(limit: nat, c: Clock, ok: bool, s: State, turn: Turn)
  {
    var t, gone, tried := turn.after, Subjects(turn.did), Subjects(turn.tried);
    && turn.did == Cleanups(gone, c) && turn.tried == Cleanups(tried, c) && t.acked == s.acked
    && D.EachThere(s.ks, gone) && t.ks == D.Fewer(s.ks, gone) && t.recent == D.DropAll(s.recent, gone)
    && D.EachThere(s.ks, tried) && t.log == s.log + D.Dels(tried)
    && D.DueInOrder(s.ks, tried, c.now) && D.DueInOrder(s.ks, gone, c.now) && D.NoneEarlier(s.ks, gone, t.ks)
    && |gone| <= limit && (ok ==> |gone| == limit || forall key :: key in t.ks ==> !Expired(t.ks, key, c.now))
    && D.PassLuck(ok, s, t)
    && (tried == gone || (t.failed && !ok && gone < tried && |tried| == |gone| + 1))
  }

  ghost predicate EvictionTurn(target: nat, limit: nat, c: Clock, ok: bool, s: State, turn: Turn)
  {
    var t, gone, tried := turn.after, Subjects(turn.did), Subjects(turn.tried);
    && turn.did == Evictions(gone, c) && turn.tried == Evictions(tried, c) && t.acked == s.acked
    && D.EachThere(s.ks, gone) && t.ks == D.Fewer(s.ks, gone) && s.recent == t.recent + D.Backward(gone)
    && D.EachThere(s.ks, tried) && t.log == s.log + D.Dels(tried)
    && |gone| <= limit && (ok ==> |gone| == limit || |t.ks| <= target) && (gone != [] ==> |t.ks| >= target)
    && D.PassLuck(ok, s, t)
    && (tried == gone || (t.failed && !ok && t.recent != [] && tried == gone + [t.recent[|t.recent| - 1]]))
  }

  /** The keyspace stays; on success all that was written since the opening is promised, and only the disk prevents it. */
  ghost predicate SyncTurn(promises: bool, initial: nat, ok: bool, s: State, turn: Turn)
  {
    var t := turn.after;
    && turn.did == turn.tried == [] && t.ks == s.ks && t.log == s.log && t.recent == s.recent
    && (if ok then t.failed == s.failed else t.failed && t.acked == s.acked)
    && (if ok || s.failed then t.luck == s.luck else Faulted(s.luck, t.luck))
    && (ok && promises ==> t.acked == |t.log| || |t.log| == initial)
    && s.acked <= t.acked
  }

  /** What each request has to do, from the state `s` it finds. */
  ghost predicate Turned(wal: LogFile.WriteAheadLog, r: Request, report: Report, s: State, turn: Turn)
  {
    match r
    case Command(op, c) =>
      report.Answered? && if IsRead(op) then ReadTurn(op, c, report.result, s, turn) else WriteTurn(op, c, report.result, s, turn)
    case ExpiryPass(limit, c) => report.Finished? && ExpiryTurn(limit, c, report.ok, s, turn)
    case EvictionPass(target, limit, c) => report.Finished? && EvictionTurn(target, limit, c, report.ok, s, turn)
    case BatchBegins => report == Finished(true) && turn == Turn([], [], s)
    case BatchEnds => report.Finished? && SyncTurn(wal.sync == LogFile.Always, wal.initial, report.ok, s, turn)
    case Tick => report.Finished? && SyncTurn(wal.sync != LogFile.NoSync, wal.initial, report.ok, s, turn)
  }

  /** One command. */
  method Execute(db: D.Database, op: Op, c: Clock) returns (res: D.Result)
    requires db.Valid() && !db.status.replaying && IsCommand(op) && ClockOk(c) && c.offset == db.offset
    modifies db, db.table, db.lru, db.expiry, db.pool, db.memory, db.wal, db.world
    ensures db.Valid()
    ensures IsRead(op) ==> res == D.Replied(Step(db.ks, op, c).reply) && db.Now() == old(db.Now()).(recent := db.recent)
    ensures IsRead(op) ==>
              db.recent == if op.key in db.ks && !Expired(db.ks, op.key, c.now) then Recent(old(db.recent), op.key, true)
                           else old(db.recent)
    ensures D.IsWrite(op) ==>
              D.Answers(false, op, c, res, old(db.Now()), db.Now(), old(db.Tight(op.key, c.now)))
  {
    hide D.Database.Valid, D.Database.Tight, D.Answers, ApplyRead, ClockOk;
    if IsRead(op) {
      var reply := db.Read(op, c);
      ReadStep(db.ks, op, c);
      return D.Replied(reply);
    }
    match op {
      case Set(key, text) => res := db.Set(key, text, c);
      case Incr(key) => res := db.Increment(key, c);
      case Push(key, item, front) => res := db.ListPush(key, item, front, c);
      case PushTexts(key, texts, front) => res := db.PushTexts(key, texts, front, c);
      case Pop(key, front) => res := db.ListPop(key, front, c);
      case HSet(key, field, item) => res := db.HashAssign(key, field, item, c);
      case HSetTexts(key, parts) => res := db.HashSetTexts(key, parts, c);
      case HDel(key, field) => res := db.HashDelete(key, field, c);
      case Expire(key, seconds) => res := db.Expire(key, seconds, c);
      case Del(key) => res := db.Delete(key, c);
      case _ =>
    }
  }

  lemma ReadStep(ks: Ks, op: Op, c: Clock)
    requires IsRead(op)
    ensures Step(ks, op, c) == ApplyRead(ks, op, c) && ApplyRead(ks, op, c).ks == ks && ApplyRead(ks, op, c).records == []
  {
    ReadKeeps(ks, op, c);
  }

  /** The turn of a write, read off from its answer. */
  ghost function WriteDone(op: Op, c: Clock, res: D.Result, s: State, t: State): (turn: Turn)
  {
    var did := if res.Replied? then [Event(op, c)] else if t.ks == s.ks then [] else [Event(Cleanup(op.key), c)];
    Turn(did, if res.NoMemory? then did else [Event(op, c)], t)
  }

  lemma WriteIsTurn(op: Op, c: Clock, res: D.Result, s: State, t: State, tight: bool)
    requires D.IsWrite(op) && D.Answers(false, op, c, res, s, t, tight)
    ensures WriteTurn(op, c, res, s, WriteDone(op, c, res, s, t))
  {
    hide D.Effect, Step, D.Looked, Refused, Recent, D.SettledRecords;
    D.LiveEffect(s.ks, op, c);
  }

  lemma WriteFollows(op: Op, c: Clock, res: D.Result, s: State, turn: Turn)
    requires D.IsWrite(op) && WriteTurn(op, c, res, s, turn) && ClockOk(c)
    ensures Follows(s, turn) && Timed(turn, c.offset)
  {
    hide Step, D.Effect, Refused, Run, Recent, Writable, WritableRecords;
    OneEvent(s.ks, Event(op, c));
    OneEvent(s.ks, Event(Cleanup(op.key), c));
    RunNothing(s.ks, c.offset);
    assert s.log + [] == s.log;
    D.LiveEffect(s.ks, op, c);
    SettledSame(s.ks, op.key, c.now);
    if Refused(op).None? {
      CleanupOnly(s.ks, op, c);
      CleanupFirst(s.ks, op, c);
    }
  }

  lemma CleanupFirst(ks: Ks, op: Op, c: Clock)
    requires Refused(op).None? && D.IsWrite(op)
    ensures WritableRecords(ks, op.key, c.now) <= Step(ks, op, c).records
  {
    hide Apply, ApplyRead, Refused, WritableRecords;
  }

  lemma SettledSame(ks: Ks, key: Key, now: int)
    ensures Writable(ks, key, now) == ks ==> WritableRecords(ks, key, now) == []
  {
  }

  lemma CleanupOnly(ks: Ks, op: Op, c: Clock)
    requires Refused(op).None? && D.IsWrite(op)
    ensures Step(ks, Cleanup(op.key), c) == Outcome(Writable(ks, op.key, c.now), Done, WritableRecords(ks, op.key, c.now))
  {
  }

  /**
    * A write that runs out of memory changes nothing anyone can see. The log says that an expired target
    * is gone, and says nothing else, exactly when the target has expired and the memory to say so was there.
    */
  lemma FailedWriteInvisible(op: Op, c: Clock, s: State, t: State, tight: bool)
    requires D.IsWrite(op) && D.Answers(false, op, c, D.NoMemory, s, t, tight)
    ensures Live(t.ks, c.now) == Live(s.ks, c.now) && Denied(s.luck, t.luck)
    ensures t.log == if Expired(s.ks, op.key, c.now) && !tight then s.log + [DelRecord(op.key)] else s.log
  {
    assert s.log + [] == s.log;
  }

  /**
    * And that happens. The target has expired; the log's buffer has room; its block is of no use for an
    * integer and the pool has no other; and the first request for memory is refused. Then the increment
    * fails, the target is gone, and the log says so.
    */
  method FailedIncrement(db: D.Database, key: Key, c: Clock) returns (res: D.Result)
    requires db.Valid() && ClockOk(c) && c.offset == db.offset && db.Starving(key, c.now) && forall i :: db.world.disk(i)
    modifies db, db.table, db.lru, db.expiry, db.pool, db.memory, db.wal, db.world
    ensures db.Valid() && res == D.NoMemory
    ensures db.Now() == old(db.Now()).(ks := old(db.ks) - {key}, log := old(db.wal.attempted) + [DelRecord(key)],
                                       recent := Drop(old(db.recent), key), luck := db.world.Dealt())
  {
    hide D.Database.Valid, D.Effect, Drop, Slab.NoneFree;
    ghost var s := db.Now();
    res := db.Increment(key, c);
    NoFaults(db.world, s.luck);
  }

  /** A disk that never fails has not failed. */
  lemma NoFaults(world: World, l: Luck)
    requires forall i :: world.disk(i)
    ensures world.Dealt().faults == 0
  {
    FailuresGrow(world.disk, 0, world.calls);
  }

  // ---------- the passes ----------

  function Cleanups(gone: seq<Key>, c: Clock): (es: seq<Event>)
    ensures |es| == |gone| && forall i :: 0 <= i < |gone| ==> es[i] == Event(Cleanup(gone[i]), c)
  {
    seq(|gone|, i requires 0 <= i < |gone| => Event(Cleanup(gone[i]), c))
  }

  function Evictions(gone: seq<Key>, c: Clock): (es: seq<Event>)
    ensures |es| == |gone| && forall i :: 0 <= i < |gone| ==> es[i] == Event(Evict(gone[i]), c)
  {
    seq(|gone|, i requires 0 <= i < |gone| => Event(Evict(gone[i]), c))
  }

  /** The keys a pass removed, in the order of its events. */
  function Subjects(es: seq<Event>): (keys: seq<Key>)
  {
    seq(|es|, i requires 0 <= i < |es| => es[i].op.key)
  }

  ghost predicate ShortKeys(ks: Ks) { forall key :: key in ks ==> |key| <= MAX_KEY }

  ghost predicate AllExpired(ks: Ks, gone: seq<Key>, now: int) { forall i :: 0 <= i < |gone| ==> Expired(ks, gone[i], now) }

  lemma CleanupsSplit(gone: seq<Key>, key: Key, c: Clock)
    ensures Cleanups(gone + [key], c) == Cleanups(gone, c) + [Event(Cleanup(key), c)]
  {
    hide Cleanups;
  }

  lemma EvictionsSplit(gone: seq<Key>, key: Key, c: Clock)
    ensures Evictions(gone + [key], c) == Evictions(gone, c) + [Event(Evict(key), c)]
  {
    hide Evictions;
  }

  lemma RemovedSplit(ks: Ks, gone: seq<Key>, key: Key)
    ensures D.Dels(gone + [key]) == D.Dels(gone) + [DelRecord(key)]
    ensures D.Fewer(ks, gone + [key]) == D.Fewer(ks, gone) - {key}
  {
    hide D.Dels, DelRecord;
    assert (gone + [key])[..|gone|] == gone;
  }

  lemma NothingSplits(ks: Ks, c: Clock)
    ensures Cleanups([], c) == [] && Evictions([], c) == [] && D.Dels([]) == [] && D.Fewer(ks, []) == ks
              && Run(ks, []) == Ran(ks, [])
  {
  }

  /** An expiry pass is its cleanups, one after another. */
  lemma {:induction false} CleanupsRun(ks: Ks, gone: seq<Key>, c: Clock)
    requires ShortKeys(ks) && D.EachThere(ks, gone) && AllExpired(ks, gone, c.now)
    ensures Run(ks, Cleanups(gone, c)) == Ran(D.Fewer(ks, gone), D.Dels(gone))
    decreases |gone|
  {
    hide Step, Run, Cleanups, D.Dels, D.Fewer, D.EachThere, AllExpired;
    if gone == [] {
      NothingSplits(ks, c);
    } else {
      var first, key := gone[..|gone| - 1], gone[|gone| - 1];
      FirstOnes(ks, gone, c.now);
      CleanupsRun(ks, first, c);
      D.FewerKeeps(ks, first);
      RemovalStep(D.Fewer(ks, first), key, c);
      OneMore(ks, Cleanups(first, c), Event(Cleanup(key), c));
      assert gone == first + [key];
      CleanupsSplit(first, key, c);
      RemovedSplit(ks, first, key);
    }
  }

  /** An eviction pass is its evictions, one after another. */
  lemma {:induction false} EvictionsRun(ks: Ks, gone: seq<Key>, c: Clock)
    requires ShortKeys(ks) && D.EachThere(ks, gone)
    ensures Run(ks, Evictions(gone, c)) == Ran(D.Fewer(ks, gone), D.Dels(gone))
    decreases |gone|
  {
    hide Step, Run, Evictions, D.Dels, D.Fewer, D.EachThere, AllExpired;
    if gone == [] {
      NothingSplits(ks, c);
    } else {
      var first, key := gone[..|gone| - 1], gone[|gone| - 1];
      FirstOnes(ks, gone, c.now);
      EvictionsRun(ks, first, c);
      D.FewerKeeps(ks, first);
      RemovalStep(D.Fewer(ks, first), key, c);
      OneMore(ks, Evictions(first, c), Event(Evict(key), c));
      assert gone == first + [key];
      EvictionsSplit(first, key, c);
      RemovedSplit(ks, first, key);
    }
  }

  lemma OneMore(ks: Ks, es: seq<Event>, e: Event)
    ensures var s := Step(Run(ks, es).ks, e.op, e.clock);
            Run(ks, es + [e]) == Ran(s.ks, Run(ks, es).records + s.records)
  {
    hide Step, Run;
    RunConcat(ks, es, [e]);
    OneEvent(Run(ks, es).ks, e);
  }

  lemma FirstOnes(ks: Ks, gone: seq<Key>, now: int)
    requires gone != [] && D.EachThere(ks, gone)
    ensures var n := |gone| - 1;
            && D.EachThere(ks, gone[..n]) && gone[n] in D.Fewer(ks, gone[..n])
            && (AllExpired(ks, gone, now) ==> AllExpired(ks, gone[..n], now) && Expired(ks, gone[n], now))
  {
    hide D.Fewer, Expired;
    var n := |gone| - 1;
    forall i | 0 <= i < n
      ensures gone[..n][..i] == gone[..i]
    {
    }
  }

  lemma RemovalStep(ks: Ks, key: Key, c: Clock)
    requires key in ks && |key| <= MAX_KEY
    ensures Step(ks, Evict(key), c) == Outcome(ks - {key}, Amount(1), [DelRecord(key)])
    ensures Expired(ks, key, c.now) ==> Step(ks, Cleanup(key), c) == Outcome(ks - {key}, Done, [DelRecord(key)])
  {
  }

  lemma SubjectsOf(gone: seq<Key>, c: Clock)
    ensures Subjects(Cleanups(gone, c)) == gone && Subjects(Evictions(gone, c)) == gone
  {
  }

  lemma ExpiryFollows(limit: nat, c: Clock, ok: bool, s: State, turn: Turn)
    requires ShortKeys(s.ks) && ClockOk(c) && ExpiryTurn(limit, c, ok, s, turn)
    ensures Follows(s, turn) && Timed(turn, c.offset)
  {
    hide Run, Cleanups, Subjects, D.Fewer, D.EachThere, D.NoneEarlier, Expired;
    var gone, tried := Subjects(turn.did), Subjects(turn.tried);
    CleanupsRun(s.ks, gone, c);
    CleanupsRun(s.ks, tried, c);
    assert D.Dels(gone) <= D.Dels(tried);
  }

  lemma EvictionFollows(target: nat, limit: nat, c: Clock, ok: bool, s: State, turn: Turn)
    requires ShortKeys(s.ks) && ClockOk(c) && EvictionTurn(target, limit, c, ok, s, turn)
    ensures Follows(s, turn) && Timed(turn, c.offset)
  {
    hide Run, Evictions, Subjects, D.Fewer, D.EachThere, D.Backward;
    var gone, tried := Subjects(turn.did), Subjects(turn.tried);
    EvictionsRun(s.ks, gone, c);
    EvictionsRun(s.ks, tried, c);
    assert D.Dels(gone) <= D.Dels(tried);
  }

  // ---------- whole runs ----------

  /** Every request is a run of the plain keyspace. */
  lemma TurnFollows(wal: LogFile.WriteAheadLog, r: Request, report: Report, s: State, turn: Turn, offset: int)
    requires Served(r, offset) && ShortKeys(s.ks) && Turned(wal, r, report, s, turn)
    ensures Follows(s, turn) && Timed(turn, offset)
  {
    hide WriteTurn, ExpiryTurn, EvictionTurn, Run, Step, ShortKeys, Expired;
    match r {
      case Command(op, c) =>
        if IsRead(op) {
          OneEvent(s.ks, Event(op, c));
          ReadStep(s.ks, op, c);
          assert s.log + [] == s.log;
        } else {
          WriteFollows(op, c, report.result, s, turn);
        }
      case ExpiryPass(limit, c) => ExpiryFollows(limit, c, report.ok, s, turn);
      case EvictionPass(target, limit, c) => EvictionFollows(target, limit, c, report.ok, s, turn);
      case _ =>
        RunNothing(s.ks, offset);
        assert s.log + [] == s.log;
    }
  }

  /** After a sync, replies may be sent. */
  ghost method Promise(db: D.Database, synced: bool)
    requires db.Valid() && (synced ==>
              !db.wal.failed && (db.wal.durable == |db.wal.records| || |db.wal.records| == db.wal.initial))
    modifies db.status
    ensures db.Valid() && db.status.replaying == old(db.status.replaying) && old(db.status.acked) <= db.status.acked
    ensures if synced then db.status.acked == |db.wal.attempted| || |db.wal.attempted| == db.wal.initial
            else db.status.acked == old(db.status.acked)
  {
    hide Nodes.Coherent, D.Tallied, D.Database.Lodged, D.Laid, Good, LogFile.Contains;
    if synced {
      db.Acknowledge();
    }
  }

  /** One request. */
  method Handle(db: D.Database, r: Request) returns (report: Report, ghost turn: Turn)
    requires db.Valid() && !db.status.replaying && Served(r, db.offset)
    modifies db, db.table, db.lru, db.expiry, db.pool, db.memory, db.wal, db.world, db.status
    ensures db.Valid() && !db.status.replaying && turn.after == db.Now()
    ensures Turned(db.wal, r, report, old(db.Now()), turn)
  {
    hide D.Database.Valid, D.Answers, Run, Step, D.EachThere, D.Fewer, D.Dels, D.DueInOrder, D.NoneEarlier, D.Backward, D.DropAll,
      Expired, ClockOk, WriteTurn, Recent;
    ghost var s := db.Now();
    match r {
      case Command(op, c) =>
        ghost var tight := db.Tight(op.key, c.now);
        var res := Execute(db, op, c);
        report := Answered(res);
        if IsRead(op) {
          turn := Turn([Event(op, c)], [Event(op, c)], db.Now());
        } else {
          turn := WriteDone(op, c, res, s, db.Now());
          WriteIsTurn(op, c, res, s, db.Now(), tight);
        }
      case ExpiryPass(limit, c) =>
        ghost var gone, tried;
        var ok;
        gone, tried, ok := db.RemoveExpired(limit, c.now);
        SubjectsOf(gone, c);
        SubjectsOf(tried, c);
        report, turn := Finished(ok), Turn(Cleanups(gone, c), Cleanups(tried, c), db.Now());
      case EvictionPass(target, limit, c) =>
        ghost var gone, tried;
        var ok;
        gone, tried, ok := db.EvictTo(target, limit);
        SubjectsOf(gone, c);
        SubjectsOf(tried, c);
        report, turn := Finished(ok), Turn(Evictions(gone, c), Evictions(tried, c), db.Now());
      case BatchBegins =>
        db.BeginBatch();
        report, turn := Finished(true), Turn([], [], db.Now());
      case BatchEnds =>
        var ok := db.EndBatch();
        Promise(db, ok && db.wal.sync == LogFile.Always);
        report, turn := Finished(ok), Turn([], [], db.Now());
      case Tick =>
        var ok := db.Flush();
        Promise(db, ok && db.wal.sync != LogFile.NoSync);
        report, turn := Finished(ok), Turn([], [], db.Now());
    }
  }

  lemma StoredKeysShort(db: D.Database)
    requires db.Valid()
    ensures ShortKeys(db.ks)
  {
    hide Nodes.Coherent, D.Tallied, D.Database.Lodged, D.Laid, D.Database.Parts, GoodValue;
    forall key | key in db.ks
      ensures |key| <= MAX_KEY
    {
      assert GoodEntry(key, db.ks[key], db.offset);
    }
  }

  ghost function Before(s: State, turns: seq<Turn>, i: nat): (r: State)
    requires i <= |turns|
  {
    if i == 0 then s else turns[i - 1].after
  }

  /** Each request has the turn it has to have in the state the ones before it left, and none comes after a failure. */
  ghost predicate InTurn(wal: LogFile.WriteAheadLog, offset: int, requests: seq<Request>, reports: seq<Report>, s: State,
                         turns: seq<Turn>)
  {
    && |turns| == |reports| <= |requests|
    && (forall i :: 0 <= i < |turns| ==>
          var before := Before(s, turns, i);
          && !before.failed && Turned(wal, requests[i], reports[i], before, turns[i])
          && Follows(before, turns[i]) && Timed(turns[i], offset))
  }

  /** The whole of it: what took place, and what was on its way to the log when it failed. */
  ghost function Altogether(s: State, turns: seq<Turn>): (r: Turn)
    decreases |turns|
  {
    if turns == [] then Turn([], [], s)
    else
      var n := |turns| - 1;
      var before := Altogether(s, turns[..n]).did;
      Turn(before + turns[n].did, before + turns[n].tried, turns[n].after)
  }

  lemma FirstTurns(wal: LogFile.WriteAheadLog, offset: int, requests: seq<Request>, reports: seq<Report>,
                   s: State, turns: seq<Turn>, j: nat)
    requires InTurn(wal, offset, requests, reports, s, turns) && j <= |turns|
    ensures |reports| == |turns| && InTurn(wal, offset, requests, reports[..j], s, turns[..j])
    ensures Before(s, turns[..j], j) == Before(s, turns, j)
  {
    hide Turned, Follows, Timed;
    forall i | 0 <= i < j
      ensures Before(s, turns[..j], i) == Before(s, turns, i) && turns[..j][i] == turns[i]
    {
    }
  }

  /** Turns one after another are a run of the plain keyspace. */
  lemma {:induction false} TurnsFollow(wal: LogFile.WriteAheadLog, offset: int, requests: seq<Request>, reports: seq<Report>,
                                       s: State, turns: seq<Turn>)
    requires InTurn(wal, offset, requests, reports, s, turns)
    ensures var all := Altogether(s, turns);
            Follows(s, all) && Timed(all, offset) && all.after == Before(s, turns, |turns|)
    decreases |turns|
  {
    hide Turned, Run, ClockOk;
    if turns == [] {
      RunNothing(s.ks, offset);
      assert s.log + [] == s.log;
    } else {
      var n := |turns| - 1;
      FirstTurns(wal, offset, requests, reports, s, turns, n);
      TurnsFollow(wal, offset, requests, reports[..n], s, turns[..n]);
      OneMoreTurn(s, Altogether(s, turns[..n]), turns[n], offset);
    }
  }

  lemma OneMoreTurn(s: State, first: Turn, turn: Turn, offset: int)
    requires Follows(s, first) && Timed(first, offset) && !first.after.failed && Follows(first.after, turn) && Timed(turn, offset)
    ensures var all := Turn(first.did + turn.did, first.did + turn.tried, turn.after);
            Follows(s, all) && Timed(all, offset)
  {
    hide Run, ClockOk;
    RunConcat(s.ks, first.did, turn.did);
    RunConcat(s.ks, first.did, turn.tried);
    var rs, mid := Run(s.ks, first.did).records, first.after;
    assert mid.log == s.log + rs;
    assert s.log + (rs + Run(mid.ks, turn.did).records) == mid.log + Run(mid.ks, turn.did).records;
    assert s.log + (rs + Run(mid.ks, turn.tried).records) == mid.log + Run(mid.ks, turn.tried).records;
  }

  /**
    * Any requests at all, until the log fails. Each is answered as it has to be in the state the ones
    * before it left; and all of them together are a run of the plain keyspace, logged in full, or as
    * far as the failure let it.
    */
  method Serve(db: D.Database, requests: seq<Request>) returns (reports: seq<Report>, ghost turns: seq<Turn>)
    requires db.Valid() && !db.status.replaying && forall i :: 0 <= i < |requests| ==> Served(requests[i], db.offset)
    modifies db, db.table, db.lru, db.expiry, db.pool, db.memory, db.wal, db.world, db.status
    ensures db.Valid() && !db.status.replaying && InTurn(db.wal, db.offset, requests, reports, old(db.Now()), turns)
    ensures Before(old(db.Now()), turns, |turns|) == db.Now() && (|reports| == |requests| || db.wal.failed)
    ensures Follows(old(db.Now()), Altogether(old(db.Now()), turns))
  {
    hide D.Database.Valid, Run, Served, ClockOk, InTurn, Follows, Timed, ShortKeys, Altogether;
    ghost var s := db.Now();
    reports, turns := [], [];
    assert InTurn(db.wal, db.offset, requests, reports, s, turns) by { NoTurns(db.wal, db.offset, requests, s); }
    while |reports| < |requests| && !db.wal.failed
      invariant db.Valid() && !db.status.replaying && |turns| == |reports| <= |requests| && Before(s, turns, |turns|) == db.Now()
      invariant InTurn(db.wal, db.offset, requests, reports, s, turns)
      decreases |requests| - |reports|
    {
      StoredKeysShort(db);
      var i := |reports|;
      ghost var before := db.Now();
      var report;
      ghost var turn;
      report, turn := Handle(db, requests[i]);
      TurnFollows(db.wal, requests[i], report, before, turn, db.offset);
      NextInTurn(db.wal, db.offset, requests, reports, report, s, turns, turn);
      reports, turns := reports + [report], turns + [turn];
    }
    TurnsFollow(db.wal, db.offset, requests, reports, s, turns);
  }

  lemma NoTurns(wal: LogFile.WriteAheadLog, offset: int, requests: seq<Request>, s: State)
    ensures InTurn(wal, offset, requests, [], s, [])
  {
  }

  lemma NextInTurn(wal: LogFile.WriteAheadLog, offset: int, requests: seq<Request>, reports: seq<Report>, report: Report,
                   s: State, turns: seq<Turn>, turn: Turn)
    requires InTurn(wal, offset, requests, reports, s, turns) && |turns| < |requests| && !Before(s, turns, |turns|).failed
    requires Turned(wal, requests[|turns|], report, Before(s, turns, |turns|), turn)
    requires Follows(Before(s, turns, |turns|), turn) && Timed(turn, offset)
    ensures InTurn(wal, offset, requests, reports + [report], s, turns + [turn])
  {
    hide Turned, Follows, Timed;
    forall i | 0 <= i <= |turns|
      ensures Before(s, turns + [turn], i) == Before(s, turns, i)
    {
    }
  }

  /** What the machine refused never becomes less, and a request that was not answered met a refusal, or a log that had failed. */
  lemma TurnLuck(wal: LogFile.WriteAheadLog, r: Request, report: Report, s: State, turn: Turn)
    requires Turned(wal, r, report, s, turn)
    ensures s.luck.refusals <= turn.after.luck.refusals && s.luck.faults <= turn.after.luck.faults
    ensures s.failed ==> turn.after.failed
    ensures turn.after.luck.refusals == s.luck.refusals && turn.after.luck.faults == s.luck.faults && !s.failed ==>
              Well(report) && !turn.after.failed
  {
    hide Step, D.Effect, D.Settled, D.SettledRecords, D.EachThere, D.Fewer, D.DropAll, D.DueInOrder, D.NoneEarlier,
      D.Dels, D.Backward, Expired, Recent, Refused;
  }

  predicate Well(report: Report) { if report.Answered? then report.result.Replied? else report.ok }

  lemma {:induction false} LuckGrows(wal: LogFile.WriteAheadLog, offset: int, requests: seq<Request>, reports: seq<Report>,
                                     s: State, turns: seq<Turn>, i: nat)
    requires InTurn(wal, offset, requests, reports, s, turns) && i <= |turns|
    ensures Before(s, turns, i).luck.refusals <= Before(s, turns, |turns|).luck.refusals
    ensures Before(s, turns, i).luck.faults <= Before(s, turns, |turns|).luck.faults
    decreases |turns| - i
  {
    hide Turned, Follows, Timed;
    if i < |turns| {
      LuckGrows(wal, offset, requests, reports, s, turns, i + 1);
      TurnLuck(wal, requests[i], reports[i], Before(s, turns, i), turns[i]);
    }
  }

  /**
    * If the machine refuses no memory and the disk does not fail, every request is served: each command
    * is answered and each pass and batch ends well.
    */
  lemma {:induction false} AllServed(wal: LogFile.WriteAheadLog, offset: int, requests: seq<Request>, reports: seq<Report>,
                                     s: State, turns: seq<Turn>, i: nat)
    requires InTurn(wal, offset, requests, reports, s, turns) && !s.failed && i < |turns|
    requires var t := Before(s, turns, |turns|);
             t.luck.refusals == s.luck.refusals && t.luck.faults == s.luck.faults
    ensures Well(reports[i])
  {
    hide Turned, Follows, Timed;
    LuckGrows(wal, offset, requests, reports, s, turns, i + 1);
    FirstTurns(wal, offset, requests, reports, s, turns, i);
    LuckGrows(wal, offset, requests, reports[..i], s, turns[..i], 0);
    TurnLuck(wal, requests[i], reports[i], Before(s, turns, i), turns[i]);
  }

  // ---------- crashes ----------

  const NOTHING := D.State(map[], [], [], false, 0, Luck(0, 0, 0))

  /** What the log of a run that starts in `s` begins with. */
  function Origin(s: State, since: int): (b: Base) { Base(s.log, s.ks, since) }

  /**
    * Whatever a crash leaves of the file, reopening finds the records it began with and `k` records of the
    * run. They are all that was promised, and perhaps more; and they rebuild the keyspace after that many
    * single writes of the run, unless one of them is an oversized hash value.
    */
  lemma Survives(db: D.Database, start: State, since: int, run: Turn, n: nat, c: Clock) returns (k: nat)
    requires ClockOk(c) && Restores(Origin(start, since), c.offset) && since <= c.now
    requires db.Valid() && Follows(start, run) && Timed(run, c.offset) && run.after == db.Now() && |start.log| <= db.status.acked
    requires 8 <= n && db.wal.synced <= n <= |db.wal.file|
    ensures Recovered(db.wal.file[..n]).Scanned?
    ensures var rs := Run(start.ks, run.tried).records;
            && db.status.acked <= |start.log| + k && k <= |rs| == |UnbundleAll(start.ks, run.tried)|
            && Recovered(db.wal.file[..n]).records == start.log + rs[..k]
            && (Reopen(db.wal.file[..n], c).Some? <==> Clean(rs[..k]))
            && (Clean(rs[..k]) ==>
                  Reopen(db.wal.file[..n], c) == Some(Live(Run(start.ks, UnbundleAll(start.ks, run.tried)[..k]).ks, c.now)))
  {
    hide Run, UnbundleAll, Log, Live, ClockOk, Recovered, Clean, Whole, Reopen, Clocks, Restores, D.Database.Valid;
    var b := Origin(start, since);
    RestoresHas(b, c.offset);
    var rs := Run(start.ks, run.tried).records;
    var file := RunLog(b, run.tried, c.offset);
    CrashedLog(db, start.log, start.log + rs, n);
    k := CrashRecovers(b, run.tried, n, c);
  }

  lemma CrashedLog(db: D.Database, first: seq<Record>, rs: seq<Record>, n: nat)
    requires db.Valid() && AllFit(rs) && db.wal.attempted <= rs && 8 <= n && db.wal.synced <= n <= |db.wal.file|
    requires first <= db.wal.attempted && |first| <= db.status.acked
    ensures n <= |Log(rs)| && db.wal.file[..n] == Log(rs)[..n] && db.status.acked <= Whole(rs, n - 8) <= |rs|
    ensures AllFit(first) && |Log(first)| <= n
  {
    hide Nodes.Coherent, D.Tallied, D.Database.Lodged, D.Laid, Good, LogFile.Contains, Frames, Whole, Recovered, Fits;
    LogFile.CrashImageRecovers(db.wal, n);
    var some, k := db.wal.attempted, db.wal.durable;
    assert some == rs[..|some|];
    FramesSplit(rs, |some|);
    assert Log(some)[..n] == Log(rs)[..n];
    CutRecovers(rs, n);
    assert first == rs[..|first|];
    if first != [] {
      assert db.wal.records[..k] == rs[..k];
      assert rs[..k][..|first|] == first;
      FramesSplit(rs[..k], |first|);
    } else {
      FramesNone();
    }
  }

  /** With no failure and the whole file, it is the keyspace itself. */
  lemma WholeFileRestores(db: D.Database, start: State, since: int, run: Turn, c: Clock)
    requires ClockOk(c) && Restores(Origin(start, since), c.offset) && since <= c.now && !db.wal.failed
    requires db.Valid() && Follows(start, run) && Timed(run, c.offset) && run.after == db.Now()
    ensures Reopen(db.wal.file, c).Some? <==> !AnyStored(start.ks, run.did)
    ensures !AnyStored(start.ks, run.did) ==> Reopen(db.wal.file, c) == Some(Live(db.ks, c.now))
  {
    hide Run, Log, Live, ClockOk, Reopen, AnyStored, Restores, D.Database.Valid;
    assert run.after.log == start.log + Run(start.ks, run.did).records;
    FileIsLog(db);
    ReopensExactlyWhenClean(Origin(start, since), run.did, c);
    if !AnyStored(start.ks, run.did) {
      UncutLogRestores(Origin(start, since), run.did, c);
    }
  }

  lemma FileIsLog(db: D.Database)
    requires db.Valid() && !db.wal.failed
    ensures AllFit(db.wal.attempted) && db.wal.file == Log(db.wal.attempted)
  {
    hide Nodes.Coherent, D.Tallied, D.Database.Lodged, D.Laid, Good, LogFile.Contains;
    LogFile.ContainsWhole(db.wal.file, db.wal.records);
    assert db.wal.records + [] == db.wal.records;
  }

  // ---------- what was acknowledged survives ----------

  /** Promises are never taken back. */
  lemma {:induction false} PromisesGrow(wal: LogFile.WriteAheadLog, offset: int, requests: seq<Request>, reports: seq<Report>,
                                        s: State, turns: seq<Turn>, i: nat)
    requires InTurn(wal, offset, requests, reports, s, turns) && i <= |turns|
    ensures Before(s, turns, i).acked <= Before(s, turns, |turns|).acked
    decreases |turns| - i
  {
    hide Turned, Follows, Timed;
    if i < |turns| {
      PromisesGrow(wal, offset, requests, reports, s, turns, i + 1);
      PromiseKept(wal, requests[i], reports[i], Before(s, turns, i), turns[i]);
    }
  }

  lemma PromiseKept(wal: LogFile.WriteAheadLog, r: Request, report: Report, s: State, turn: Turn)
    requires Turned(wal, r, report, s, turn)
    ensures s.acked <= turn.after.acked
  {
    hide Step, D.Effect, D.Settled, D.SettledRecords, D.EachThere, D.Fewer, D.DropAll, D.DueInOrder, D.NoneEarlier,
      D.Dels, D.Backward, Expired, Recent, Refused;
  }

  lemma LastTurn(s: State, turns: seq<Turn>)
    requires turns != []
    ensures var n := |turns| - 1;
            var before := Altogether(s, turns[..n]).did;
            Altogether(s, turns) == Turn(before + turns[n].did, before + turns[n].tried, turns[n].after)
  {
  }

  /** What took place first is part of what took place. */
  lemma {:induction false} DidGrows(s: State, turns: seq<Turn>, j: nat)
    requires j <= |turns|
    ensures Altogether(s, turns[..j]).did <= Altogether(s, turns).did
    decreases |turns|
  {
    hide Altogether;
    if j == |turns| {
      assert turns[..j] == turns;
    } else {
      var n := |turns| - 1;
      DidGrows(s, turns[..n], j);
      assert turns[..n][..j] == turns[..j];
      LastTurn(s, turns);
    }
  }

  lemma TriedGrows(s: State, turns: seq<Turn>, j: nat)
    requires 0 < j <= |turns| && turns[j - 1].tried == turns[j - 1].did
    ensures Altogether(s, turns[..j]).did <= Altogether(s, turns).tried
  {
    hide Altogether;
    var n := |turns| - 1;
    LastTurn(s, turns);
    if j == |turns| {
      assert turns[..j] == turns;
    } else {
      DidGrows(s, turns[..n], j);
      assert turns[..n][..j] == turns[..j];
    }
  }

  lemma {:induction false} UnbundleConcat(ks: Ks, a: seq<Event>, b: seq<Event>)
    ensures UnbundleAll(ks, a + b) == UnbundleAll(ks, a) + UnbundleAll(Run(ks, a).ks, b)
    decreases |a|
  {
    hide Step, Unbundle;
    if a == [] {
      assert a + b == b;
    } else {
      UnbundleConcat(Step(ks, a[0].op, a[0].clock).ks, a[1..], b);
      assert (a + b)[1..] == a[1..] + b;
    }
  }

  lemma Split<T>(all: seq<T>, a: seq<T>, b: seq<T>, k: nat)
    requires all == a + b && |a| <= k <= |all|
    ensures k - |a| <= |b| && all[..k] == a + b[..k - |a|]
  {
  }

  /** A recovered run that is no shorter than the first part of it is that first part, and some of the rest. */
  lemma RecoveredAfter(ks: Ks, a: seq<Event>, b: seq<Event>, k: nat, offset: int)
    requires Good(ks, offset) && Clocks(a, offset)
    requires |Run(ks, a).records| <= k <= |Run(ks, a + b).records| == |UnbundleAll(ks, a + b)|
    requires Clean(Run(ks, a + b).records[..k])
    ensures var mid, j := Run(ks, a).ks, k - |Run(ks, a).records|;
            && j <= |UnbundleAll(mid, b)|
            && Run(ks, UnbundleAll(ks, a + b)[..k]).ks == Run(mid, UnbundleAll(mid, b)[..j]).ks
  {
    hide Run, UnbundleAll, Clean, Clocks, Good;
    var mid, ra := Run(ks, a).ks, Run(ks, a).records;
    var j := k - |ra|;
    PrefixAfter(ks, a, b, k);
    CleanConcat(ra, Run(mid, b).records[..j]);
    UnbundleAllRun(ks, a, offset);
    RunConcat(ks, UnbundleAll(ks, a), UnbundleAll(mid, b)[..j]);
  }

  lemma PrefixAfter(ks: Ks, a: seq<Event>, b: seq<Event>, k: nat)
    requires |Run(ks, a).records| <= k <= |Run(ks, a + b).records| == |UnbundleAll(ks, a + b)|
    ensures var mid, j := Run(ks, a).ks, k - |Run(ks, a).records|;
            && j <= |UnbundleAll(mid, b)| == |Run(mid, b).records|
            && Run(ks, a + b).records[..k] == Run(ks, a).records + Run(mid, b).records[..j]
            && UnbundleAll(ks, a + b)[..k] == UnbundleAll(ks, a) + UnbundleAll(mid, b)[..j]
  {
    hide Run, UnbundleAll;
    var mid := Run(ks, a).ks;
    UnbundleAllLength(ks, a);
    UnbundleAllLength(mid, b);
    RunConcat(ks, a, b);
    Split(Run(ks, a + b).records, Run(ks, a).records, Run(mid, b).records, k);
    UnbundleConcat(ks, a, b);
    Split(UnbundleAll(ks, a + b), UnbundleAll(ks, a), UnbundleAll(mid, b), k);
  }

  /**
    * In mode always, once a batch that wrote something has ended well every write so far survives every
    * crash: if the file reopens, the keyspace is that of the end of the batch, perhaps with some of the
    * later writes. `first` is what happened before these requests: nothing, or all that a server found
    * when it opened the log, on top of what the log began with.
    */
  lemma AcknowledgedSurvives(db: D.Database, start: State, since: int, first: Turn, requests: seq<Request>, reports: seq<Report>,
                             turns: seq<Turn>, i: nat, n: nat, c: Clock)
    returns (rest: seq<Event>, later: seq<Event>)
    requires ClockOk(c) && c.offset == db.offset && Restores(Origin(start, since), c.offset) && since <= c.now
    requires Follows(start, first) && Timed(first, c.offset) && !first.after.failed && |start.log| <= first.after.acked
    requires db.Valid() && db.wal.sync == LogFile.Always
    requires InTurn(db.wal, db.offset, requests, reports, first.after, turns) && Before(first.after, turns, |turns|) == db.Now()
    requires i < |turns| && requests[i].BatchEnds? && reports[i] == Finished(true) && |turns[i].after.log| != db.wal.initial
    requires 8 <= n && db.wal.synced <= n <= |db.wal.file|
    ensures Altogether(first.after, turns).tried == Altogether(first.after, turns[..i + 1]).did + rest
    ensures later <= UnbundleAll(turns[i].after.ks, rest)
    ensures Reopen(db.wal.file[..n], c).Some? ==>
              Reopen(db.wal.file[..n], c) == Some(Live(Run(turns[i].after.ks, later).ks, c.now))
  {
    hide D.Database.Valid, InTurn, Turned, Run, UnbundleAll, Live, Reopen, Clean, Clocks, ClockOk, Altogether,
      Recovered, Restores, Follows, Timed, Good;
    BatchPromises(db.wal, db.offset, requests, reports, first.after, turns, i);
    TurnsFollow(db.wal, db.offset, requests, reports, first.after, turns);
    TriedGrows(first.after, turns, i + 1);
    FirstTurns(db.wal, db.offset, requests, reports, first.after, turns, i + 1);
    TurnsFollow(db.wal, db.offset, requests, reports[..i + 1], first.after, turns[..i + 1]);
    var all, a := Altogether(first.after, turns), Altogether(first.after, turns[..i + 1]);
    rest := all.tried[|a.did|..];
    assert all.tried == a.did + rest;
    OneMoreTurn(start, first, all, c.offset);
    OneMoreTurn(start, first, a, c.offset);
    PromisesGrow(db.wal, db.offset, requests, reports, first.after, turns, 0);
    var k := Survives(db, start, since, Turn(first.did + all.did, first.did + all.tried, all.after), n, c);
    later := [];
    if Reopen(db.wal.file[..n], c).Some? {
      assert first.did + all.tried == (first.did + a.did) + rest;
      RestoresHas(Origin(start, since), c.offset);
      EndOfBatch(start, Turn(first.did + a.did, first.did + a.tried, a.after), c.offset);
      RecoveredAfter(start.ks, first.did + a.did, rest, k, db.offset);
      later := UnbundleAll(turns[i].after.ks, rest)[..k - |Run(start.ks, first.did + a.did).records|];
    }
  }

  lemma EndOfBatch(start: State, run: Turn, offset: int)
    requires Follows(start, run) && Timed(run, offset) && !run.after.failed
    ensures Clocks(run.did, offset) && run.after.ks == Run(start.ks, run.did).ks
    ensures |run.after.log| == |start.log| + |Run(start.ks, run.did).records|
  {
    hide Run, ClockOk;
  }

  lemma BatchPromises(wal: LogFile.WriteAheadLog, offset: int, requests: seq<Request>, reports: seq<Report>,
                      s: State, turns: seq<Turn>, i: nat)
    requires wal.sync == LogFile.Always && InTurn(wal, offset, requests, reports, s, turns) && !s.failed
    requires i < |turns| && requests[i].BatchEnds? && reports[i] == Finished(true) && |turns[i].after.log| != wal.initial
    ensures turns[i].tried == turns[i].did && !turns[i].after.failed
    ensures |turns[i].after.log| <= Before(s, turns, |turns|).acked
  {
    hide Run, ClockOk, Altogether, Follows, Timed, Turned;
    PromisesGrow(wal, offset, requests, reports, s, turns, i + 1);
    assert Turned(wal, requests[i], reports[i], Before(s, turns, i), turns[i]);
    BatchTurn(wal, requests[i], reports[i], Before(s, turns, i), turns[i]);
  }

  lemma BatchTurn(wal: LogFile.WriteAheadLog, r: Request, report: Report, s: State, turn: Turn)
    requires wal.sync == LogFile.Always && Turned(wal, r, report, s, turn) && !s.failed
    requires r.BatchEnds? && report == Finished(true) && |turn.after.log| != wal.initial
    ensures turn.tried == turn.did == [] && |turn.after.log| <= turn.after.acked && !turn.after.failed
  {
    hide WriteTurn, ReadTurn, ExpiryTurn, EvictionTurn;
  }

  /** The same for a server that starts with an empty log. */
  lemma AcknowledgedFromScratch(db: D.Database, requests: seq<Request>, reports: seq<Report>, turns: seq<Turn>, i: nat,
                                n: nat, c: Clock)
    returns (rest: seq<Event>, later: seq<Event>)
    requires ClockOk(c) && c.offset == db.offset && db.Valid() && db.wal.sync == LogFile.Always && db.wal.initial == 0
    requires InTurn(db.wal, db.offset, requests, reports, NOTHING, turns) && Before(NOTHING, turns, |turns|) == db.Now()
    requires i < |turns| && requests[i].BatchEnds? && reports[i] == Finished(true) && turns[i].after.log != []
    requires 8 <= n && db.wal.synced <= n <= |db.wal.file|
    ensures Altogether(NOTHING, turns).tried == Altogether(NOTHING, turns[..i + 1]).did + rest
    ensures later <= UnbundleAll(turns[i].after.ks, rest)
    ensures Reopen(db.wal.file[..n], c).Some? ==>
              Reopen(db.wal.file[..n], c) == Some(Live(Run(turns[i].after.ks, later).ks, c.now))
  {
    hide D.Database.Valid, InTurn, Run, UnbundleAll, Live, Reopen, Altogether, Restores;
    ScratchRestores(c.offset);
    RunNothing(map[], c.offset);
    rest, later := AcknowledgedSurvives(db, NOTHING, 0, Turn([], [], NOTHING), requests, reports, turns, i, n, c);
  }
}
