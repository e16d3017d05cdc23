/**
  * Opening a log: recovery, replay through the operations themselves, and the removal of what has
  * expired. Source: src/database.cpp:223-261, 1428-1522 and src/wal.cpp:122-166.
  */
module Opening {
  import opened Bytes
  import opened Worlds
  import opened BucketTable
  import opened Pack
  import opened Wal
  import opened Keyspace
  import opened Recovery
  import opened CrashRecovery
  import opened Compaction
  import Crc
  import Layouts
  import LogFile
  import Nodes
  import S = Session
  import D = Database
  import opened Sweep

  datatype Verdict = Taken | Rejected | NoRoom

  // ---------- one record ----------

  /** The write a record stands for; a deadline or an integer is not a write that a client can ask for. */
  function Written(r: Record): (op: Option<Op>)
    requires |r.args| == ArgCount(r.op)
  {
    var a := r.args;
    if r.op == 0 then Some(Set(a[0], a[1]))
    else if r.op == 1 then Some(Incr(a[0]))
    else if r.op == 2 || r.op == 3 then
      match ParseItem(a[1], a[2])
      case None => None
      case Some(e) => Some(Push(a[0], e, r.op == 2))
    else if r.op == 4 || r.op == 5 then Some(Pop(a[0], r.op == 4))
    else if r.op == 6 then
      match ParseItem(a[2], a[3])
      case None => None
      case Some(e) => Some(HSet(a[0], a[1], e))
    else if r.op == 7 then Some(HDel(a[0], a[1]))
    else if r.op == 9 then Some(Del(a[0]))
    else None
  }

  predicate Redoable(op: Op) { op.Set? || op.Incr? || op.Push? || op.Pop? || op.HSet? || op.HDel? || op.Del? }

  /** Replaying a record is the write it stands for, with nothing logged and nothing expiring. */
  lemma RedoneIsReplayed(ks: Ks, r: Record, op: Op, c: Clock)
    requires |r.args| == ArgCount(r.op) && |r.args[0]| <= MAX_KEY && Written(r) == Some(op)
    ensures Redoable(op) && op.key == r.args[0] && r.op != 8 && (op.HSet? <==> r.op == 6)
    ensures Replay(ks, r, c) == Accepted(D.Effect(true, ks, op, c))
  {
    hide ApplyIncr, ApplyPush, ApplyPop, ApplyHDel, AssignField, ParseItem;
  }

  lemma ReplayedDirectly(ks: Ks, r: Record, c: Clock)
    requires |r.args| == ArgCount(r.op) && |r.args[0]| <= MAX_KEY
    ensures r.op == 8 ==> Replay(ks, r, c) == ReplayExpire(ks, r.args[0], r.args[1], c)
    ensures r.op == 10 && ParseSigned(r.args[1]).None? ==> Replay(ks, r, c) == None
    ensures r.op == 10 && ParseSigned(r.args[1]).Some? ==>
              Replay(ks, r, c) == Some(ks[r.args[0] := Entry(Int(ParseSigned(r.args[1]).value), None)])
  {
    hide ReplayExpire, ParseSigned;
  }

  lemma ReplayedElsewhere(ks: Ks, r: Record, c: Clock)
    requires |r.args| == ArgCount(r.op) && |r.args[0]| <= MAX_KEY && Written(r).None? && r.op != 8 && r.op != 10
    ensures Replay(ks, r, c).None?
  {
    hide ParseItem;
  }

  /** A field read from a record makes a record no longer than that one. */
  lemma FieldStillFits(r: Record)
    requires Fits(r) && r.op == 6 && |r.args| == 4 && Written(r).Some?
    ensures var op := Written(r).value;
            op.HSet? && Fits(HSetRecord(op.key, op.field, op.item))
  {
    hide ToDecimal, ParseSigned;
    var a := r.args;
    var e := Written(r).value.item;
    assert |ItemText(e)| <= |a[3]| && ItemTag(e) == a[2] by {
      if e.Number? {
        PrintedIsShortest(a[3]);
      }
    }
    FourArgs(a);
    FourArgs(HSetRecord(a[0], a[1], e).args);
  }

  lemma FourArgs(a: seq<Bytes>)
    requires |a| == 4
    ensures ArgsSize(a) == 16 + |a[0]| + |a[1]| + |a[2]| + |a[3]|
  {
    assert a[1..][1..] == a[2..] && a[2..][1..] == a[3..] && a[3..][1..] == [];
    assert ArgsSize(a[3..]) == 4 + |a[3]|;
    assert ArgsSize(a[2..]) == 4 + |a[2]| + ArgsSize(a[3..]);
    assert ArgsSize(a[1..]) == 4 + |a[1]| + ArgsSize(a[2..]);
  }

  /** The operations, as they serve clients. */
  method Redo(db: D.Database, op: Op, c: Clock) returns (res: D.Result)
    requires db.Valid() && db.status.replaying && ClockOk(c) && c.offset == db.offset && Redoable(op)
    requires op.HSet? ==> Fits(HSetRecord(op.key, op.field, op.item))
    modifies db, db.table, db.lru, db.expiry, db.pool, db.memory, db.wal, db.world
    ensures db.Valid() && D.Answers(true, op, c, res, old(db.Now()), db.Now(), false)
  {
    hide D.Database.Valid, D.Answers, ClockOk, Fits;
    match op {
      case Set(key, text) => res := db.Set(key, text, c);
      case Incr(key) => res := db.Increment(key, c);
      case Push(key, item, front) => res := db.ListPush(key, item, front, c);
      case Pop(key, front) => res := db.ListPop(key, front, c);
      case HSet(key, field, item) => res := db.HashAssign(key, field, item, c);
      case HDel(key, field) => res := db.HashDelete(key, field, c);
      case Del(key) => res := db.Delete(key, c);
      case _ =>
    }
  }

  /** `expire_at`: the node is not touched, and a time that has passed becomes the present. */
  method ReplayDeadline(db: D.Database, key: Key, stamp: Bytes, c: Clock) returns (v: Verdict)
    requires db.Valid() && ClockOk(c) && c.offset == db.offset
    requires ParseSigned(stamp).Some? ==> ParseSigned(stamp).value - c.offset <= MAX_I64
    modifies db, db.expiry, db.world
    ensures db.Valid() && db.recent == old(db.recent) && Room(v, old(db.world.Dealt()), db.world.Dealt())
    ensures v == Taken ==> ReplayExpire(old(db.ks), key, stamp, c) == Some(db.ks)
    ensures v == Verdict.Rejected ==> ReplayExpire(old(db.ks), key, stamp, c) == None
  {
    hide D.Database.Valid, ParseSigned, Good;
    var a := db.FindNode(key);
    if a == 0 {
      return Verdict.Rejected;
    }
    var wall := ParseSigned(stamp);
    if wall.None? || wall.value < 0 {
      return Verdict.Rejected;
    }
    var current := c.now + c.offset;
    var deadline := c.now + if wall.value > current then wall.value - current else 0;
    StampIsGood(db, key, deadline);
    var ok := db.Schedule(a, deadline);
    v := if ok then Taken else NoRoom;
  }

  lemma StampIsGood(db: D.Database, key: Key, deadline: int)
    requires db.Valid() && key in db.ks && 0 <= deadline <= MAX_I64 && 0 <= deadline + db.offset <= MAX_I64
    ensures Good(D.Redated(db.ks, key, Some(deadline)), db.offset)
  {
    hide Nodes.Coherent, D.Tallied, D.Database.Parts, GoodValue;
  }

  /** Memory was refused exactly if there was no room; what a pop puts up with aside, nothing else was. */
  predicate Room(v: Verdict, l: Luck, m: Luck)
  {
    m.faults == l.faults && l.refusals <= m.refusals && (v == NoRoom ==> l.refusals < m.refusals)
  }

  /** `integer_set`: whatever was there goes, and a fresh node takes its place. */
  method ReplayInteger(db: D.Database, key: Key, n: Int64) returns (v: Verdict)
    requires db.Valid() && |key| <= MAX_KEY
    modifies db, db.table, db.lru, db.expiry, db.pool, db.memory, db.wal, db.world
    ensures db.Valid() && db.wal.attempted == old(db.wal.attempted) && db.wal.failed == old(db.wal.failed)
    ensures (v == Taken || v == NoRoom) && Room(v, old(db.world.Dealt()), db.world.Dealt())
    ensures v == Taken ==> db.ks == old(db.ks)[key := Entry(Int(n), None)] && db.recent == Recent(old(db.recent), key, true)
  {
    hide D.Database.Valid, Good, Recent, Drop;
    ghost var ks0, recent0 := db.ks, db.recent;
    var a := db.FindNode(key);
    if a != 0 {
      db.Erase(a);
    }
    IntegerIsGood(db, key, n);
    KeyUnused(db, key);
    RecentUnused(recent0, key);
    var o := db.Replace(0, key, Int(n), Layouts.Plain(Put64(n)), 8, false, [], 0);
    v := if o == LogFile.Logged then Taken else NoRoom;
    assert (ks0 - {key})[key := Entry(Int(n), None)] == ks0[key := Entry(Int(n), None)];
  }

  lemma IntegerIsGood(db: D.Database, key: Key, n: Int64)
    requires db.Valid() && |key| <= MAX_KEY
    ensures Good(D.Put(db.ks, key, Int(n), false), db.offset)
  {
    hide Nodes.Coherent, D.Tallied, D.Database.Parts;
  }

  lemma KeyUnused(db: D.Database, key: Key)
    requires db.Valid() && key !in db.ks
    ensures Drop(db.recent, key) == db.recent
  {
    hide Nodes.Coherent, D.Tallied, D.Database.Parts, Good;
    D.NotThere(db.View(), db.ks, db.recent, key);
  }

  lemma RecentUnused(recent: seq<Key>, key: Key)
    ensures Drop(Drop(recent, key), key) == Drop(recent, key) ==>
              Recent(Drop(recent, key), key, true) == Recent(recent, key, true)
  {
  }

  /** `replay`: one record. It is refused exactly when the plain replay refuses it, as long as there is memory. */
  method ReplayRecord(db: D.Database, r: Record, c: Clock) returns (v: Verdict)
    requires db.Valid() && db.status.replaying && ClockOk(c) && c.offset == db.offset && Fits(r) && Stampable(r, c.offset)
    modifies db, db.table, db.lru, db.expiry, db.pool, db.memory, db.wal, db.world
    ensures db.Valid() && db.wal.attempted == old(db.wal.attempted) && db.wal.failed == old(db.wal.failed)
    ensures Room(v, old(db.world.Dealt()), db.world.Dealt())
    ensures v == Taken ==> Replay(old(db.ks), r, c) == Some(db.ks) && db.recent == Touched(old(db.recent), r, db.ks)
    ensures v == Verdict.Rejected ==> Replay(old(db.ks), r, c) == None
  {
    hide D.Database.Valid, D.Answers, Fits, ClockOk, Written, Recent, Replay, ParseSigned;
    var a := r.args;
    if |a| != ArgCount(r.op) || |a[0]| > MAX_KEY {
      WrongShape(db.ks, r, c);
      return Verdict.Rejected;
    }
    ReplayedDirectly(db.ks, r, c);
    if r.op == 8 {
      v := ReplayDeadline(db, a[0], a[1], c);
    } else if r.op == 10 {
      var n := ParseSigned(a[1]);
      if n.None? {
        return Verdict.Rejected;
      }
      v := ReplayInteger(db, a[0], n.value);
    } else {
      var op := Written(r);
      if op.None? {
        ReplayedElsewhere(db.ks, r, c);
        return Verdict.Rejected;
      }
      RedoneIsReplayed(db.ks, r, op.value, c);
      if r.op == 6 {
        FieldStillFits(r);
      }
      ghost var s := db.Now();
      var res := Redo(db, op.value, c);
      v := Judged(res);
      RedoneIsTaken(s, r, op.value, c, res, db.Now());
    }
  }

  function Judged(res: D.Result): (v: Verdict)
  {
    match res
    case Replied(reply) => if reply.Failed? then Verdict.Rejected else Taken
    case NoMemory => NoRoom
    case DiskFailed => NoRoom
  }

  lemma RedoneIsTaken(s: D.State, r: Record, op: Op, c: Clock, res: D.Result, t: D.State)
    requires D.Answers(true, op, c, res, s, t, false) && Replay(s.ks, r, c) == Accepted(D.Effect(true, s.ks, op, c))
    requires r.args != [] && op.key == r.args[0] && r.op != 8
    ensures t.log == s.log && t.failed == s.failed && Room(Judged(res), s.luck, t.luck)
    ensures Judged(res) == Taken ==> Replay(s.ks, r, c) == Some(t.ks) && t.recent == Touched(s.recent, r, t.ks)
    ensures Judged(res) == Verdict.Rejected ==> Replay(s.ks, r, c) == None
  {
    hide Replay, D.Applied, Recent, Refused;
    NothingLogged(s, op, c);
  }

  lemma NothingLogged(s: D.State, op: Op, c: Clock)
    ensures s.log + D.Effect(true, s.ks, op, c).records == s.log
    ensures D.Looked(true, s, op.key, c.now).log == s.log
  {
    hide Apply, AssignField, Refused;
  }

  lemma WrongShape(ks: Ks, r: Record, c: Clock)
    requires |r.args| != ArgCount(r.op) || |r.args[0]| > MAX_KEY
    ensures Replay(ks, r, c) == None
  {
  }

  // ---------- the whole log ----------

  /** All the records, in order. If one of them cannot be replayed, nothing is kept. */
  method Restore(db: D.Database, rs: seq<Record>, c: Clock) returns (v: Verdict)
    requires db.Valid() && db.status.replaying && ClockOk(c) && c.offset == db.offset && AllFit(rs) && AllStampable(rs, c.offset)
    requires db.ks == map[] && db.recent == []
    modifies db, db.table, db.lru, db.expiry, db.pool, db.memory, db.wal, db.world
    ensures db.Valid() && db.wal.attempted == old(db.wal.attempted) && db.wal.failed == old(db.wal.failed)
    ensures Room(v, old(db.world.Dealt()), db.world.Dealt())
    ensures v == Taken ==> ReplayOrdered(Restored(map[], []), rs, c) == Some(Restored(db.ks, db.recent))
    ensures v == Verdict.Rejected ==> ReplayOrdered(Restored(map[], []), rs, c) == None
    ensures v != Taken ==> db.ks == map[] && db.recent == [] && db.trackedBytes == 0
  {
    hide D.Database.Valid, Fits, ClockOk, ReplayOrdered, Replay, Touched, Stampable, World.Dealt;
    StartsRestored(rs, c);
    for i := 0 to |rs|
      invariant db.Valid() && db.wal.attempted == old(db.wal.attempted) && db.wal.failed == old(db.wal.failed)
      invariant ReplayOrdered(Restored(map[], []), rs[..i], c) == Some(Restored(db.ks, db.recent))
      invariant Room(Taken, old(db.world.Dealt()), db.world.Dealt())
    {
      ghost var before := Restored(db.ks, db.recent);
      v := ReplayRecord(db, rs[i], c);
      NextRestored(before, rs, i, c);
      if v != Taken {
        db.ClearKeyspace();
        return;
      }
    }
    assert rs[..|rs|] == rs;
    v := Taken;
  }

  lemma StartsRestored(rs: seq<Record>, c: Clock)
    ensures ReplayOrdered(Restored(map[], []), rs[..0], c) == Some(Restored(map[], []))
  {
  }

  lemma NextRestored(mid: Restored, rs: seq<Record>, i: nat, c: Clock)
    requires i < |rs| && ReplayOrdered(Restored(map[], []), rs[..i], c) == Some(mid)
    ensures var next := Replay(mid.ks, rs[i], c);
            && (next.None? ==> ReplayOrdered(Restored(map[], []), rs, c) == None)
            && (next.Some? ==> ReplayOrdered(Restored(map[], []), rs[..i + 1], c)
                               == Some(Restored(next.value, Touched(mid.lru, rs[i], next.value))))
  {
    hide Replay, Touched;
    assert rs == rs[..i] + rs[i..] && rs[..i + 1] == rs[..i] + [rs[i]];
    ReplayOrderedConcat(Restored(map[], []), rs[..i], rs[i..], c);
    ReplayOrderedConcat(Restored(map[], []), rs[..i], [rs[i]], c);
    assert [rs[i]][1..] == [];
  }

  /** The end of a log is `Ready`; an unreadable log is no log; memory or the disk may not be there when they are needed. */
  datatype Progress = Ready | Unreadable | Unavailable

  /** The log itself: its records, without a torn end; a new file gets its header. */
  method OpenLog(sync: LogFile.SyncMode, table: seq<Crc.Word>, file: Bytes, synced: nat, world: World)
    returns (p: Progress, wal: LogFile.WriteAheadLog?, rs: seq<Record>)
    requires Crc.IsTable(table) && synced <= |file|
    modifies world`calls
    ensures p == Ready <==> wal != null
    ensures p == Unreadable <==> Recovered(file).Rejected?
    ensures if p == Unavailable then Faulted(old(world.Dealt()), world.Dealt()) else world.Dealt() == old(world.Dealt())
    ensures p != Unreadable ==> AllFit(rs) && rs == Recovered(file).records
    ensures wal != null ==>
              fresh(wal) && wal.Valid() && wal.sync == sync && wal.attempted == rs && wal.initial == |rs| && !wal.failed
    ensures wal != null && file != [] ==> wal.file == file[..Recovered(file).length] && AllPromised(rs, synced, wal.durable)
  {
    hide Recovered, Log, Crc.IsTable, Whole, LogFile.Contains, AllPromised;
    var scanned, repaired := LogFile.Recover(table, file);
    p, wal, rs := Unreadable, null, [];
    if scanned.Rejected? {
      return;
    }
    rs := scanned.records;
    var there := 0;
    if file == [] {
      NewFile();
      var written := WriteHeader(sync, world);
      if !written {
        return Unavailable, null, rs;
      }
      repaired := MAGIC;
      there := if sync == LogFile.NoSync then 0 else 8;
    } else {
      LogOfRecovered(file);
      RecoveredLength(file);
      there := if synced < |repaired| then synced else |repaired|;
      PromisedEnough(rs, synced, there);
    }
    SomeDurable(rs, there);
    wal := new LogFile.WriteAheadLog(sync, table, repaired, rs, if there < 8 then 0 else Whole(rs, there - 8), there);
    p := Ready;
  }

  /** The header of a new file is written and flushed, and synced with the directory unless nothing is. */
  method WriteHeader(sync: LogFile.SyncMode, world: World) returns (ok: bool)
    modifies world`calls
    ensures if ok then world.Dealt() == old(world.Dealt()) else Faulted(old(world.Dealt()), world.Dealt())
  {
    hide World.Dealt;
    ok := world.Call();
    if ok {
      ok := world.Call();
    }
    if ok && sync != LogFile.NoSync {
      ok := world.Call();
      if ok {
        ok := world.Call();
      }
    }
  }

  /** No record that lies within the synced bytes is left out. */
  ghost predicate AllPromised(rs: seq<Record>, synced: nat, promised: nat)
  {
    AllFit(rs) && forall j :: 0 < j <= |rs| && |Log(rs[..j])| <= synced ==> j <= promised
  }

  lemma PromisedEnough(rs: seq<Record>, synced: nat, there: nat)
    requires AllFit(rs) && there <= |Log(rs)| && (there == synced || (there == |Log(rs)| && there < synced))
    ensures AllPromised(rs, synced, if there < 8 then 0 else Whole(rs, there - 8))
  {
    hide Recovered, Frames, Whole, Fits;
    forall j | 0 < j <= |rs| && |Log(rs[..j])| <= synced
      ensures there >= 8 && j <= Whole(rs, there - 8)
    {
      FramesSplit(rs, j);
      CutRecovers(rs, there);
      var k := Whole(rs, there - 8);
      if k < j {
        assert rs[..j][..k + 1] == rs[..k + 1];
        FramesSplit(rs[..j], k + 1);
      }
    }
  }

  lemma NewFile()
    ensures Recovered([]) == Scanned([], 0, false) && Log([]) == MAGIC && AllFit([])
  {
  }

  lemma RecoveredLength(file: Bytes)
    requires Recovered(file).Scanned?
    ensures Recovered(file).length <= |file| && (Recovered(file).torn <==> Recovered(file).length < |file|)
  {
    hide Scan;
  }

  lemma SomeDurable(rs: seq<Record>, synced: nat)
    requires AllFit(rs) && synced <= |Log(rs)|
    ensures LogFile.Durable(rs, if synced < 8 then 0 else Whole(rs, synced - 8), synced)
  {
    hide Recovered;
    if synced >= 8 {
      CutRecovers(rs, synced);
    }
  }

  /**
    * `open_wal`: what is stored afterwards is what the log says, in the order the log says, without what
    * has expired; the deletions of that are the first new records. It fails for want of memory or of the
    * disk, and otherwise exactly when the log cannot be read.
    */
  method OpenWal(hash: Key -> nat, sync: LogFile.SyncMode, table: seq<Crc.Word>, file: Bytes, synced: nat, world: World, c: Clock)
    returns (p: Progress, db: D.Database?, ghost restored: Restored, ghost gone: seq<Key>)
    requires Crc.IsTable(table) && ClockOk(c) && synced <= |file|
    requires Recovered(file).Scanned? ==> AllStampable(Recovered(file).records, c.offset)
    modifies world
    ensures p == Ready <==> db != null
    ensures p == Unreadable ==> Reopen(file, c) == None
    ensures p == Unavailable ==> Worse(old(world.Dealt()), world.Dealt())
    ensures db != null ==> fresh(db) && fresh(db.table) && fresh(db.lru) && fresh(db.expiry) && fresh(db.pool) && fresh(db.memory)
    ensures db != null ==> fresh(db.wal) && fresh(db.status) && db.world == world
    ensures db != null ==> db.Valid() && !db.status.replaying && db.offset == c.offset && db.wal.sync == sync && !db.wal.failed
    ensures db != null ==> Recovered(file).Scanned? && Reopen(file, c) == Some(db.ks)
    ensures db != null ==> ReplayOrdered(Restored(map[], []), Recovered(file).records, c) == Some(restored)
    ensures db != null ==> Swept(restored.ks, gone, c.now, db.ks) && db.recent == D.DropAll(restored.lru, gone)
    ensures db != null ==>
              db.wal.attempted == Recovered(file).records + D.Dels(gone) && db.wal.initial == |Recovered(file).records|
    ensures db != null && file != [] ==> AllPromised(Recovered(file).records, synced, db.status.acked)
  {
    hide Recovered, D.Database.Valid, LogFile.WriteAheadLog.Valid, ClockOk, ReplayOrdered, Reopen, Crc.IsTable, Fits,
      D.Dels, D.DropAll, AllPromised, World.Dealt, Stampable;
    restored, gone, db := Restored(map[], []), [], null;
    var wal, rs;
    p, wal, rs := OpenLog(sync, table, file, synced, world);
    ReadOrNot(file, c);
    if wal == null {
      return;
    }
    var made := new D.Database(hash, wal, world, true, c.offset, wal.durable);
    var v := Restore(made, rs, c);
    if v != Taken {
      p := if v == Verdict.Rejected then Unreadable else Unavailable;
      return;
    }
    restored := Restored(made.ks, made.recent);
    made.EndReplay();
    ghost var tried;
    var ok;
    gone, tried, ok := RemoveAllExpired(made, c.now);
    if !ok {
      return Unavailable, null, restored, gone;
    }
    db := made;
  }

  lemma ReadOrNot(file: Bytes, c: Clock)
    ensures Recovered(file).Rejected? ==> Reopen(file, c) == None
    ensures Recovered(file).Scanned? ==>
              var r := ReplayOrdered(Restored(map[], []), Recovered(file).records, c);
              Reopen(file, c) == if r.None? then None else Some(Live(r.value.ks, c.now))
  {
    hide Recovered, ReplayOrdered, Live;
    if Recovered(file).Scanned? {
      ReplayForgetsOrder(Restored(map[], []), Recovered(file).records, c);
    }
  }

  // ---------- carrying on ----------

  lemma {:induction false} OneEachTimed(ks: Ks, es: seq<Event>, offset: int)
    requires OneEach(ks, es, offset)
    ensures Clocks(es, offset)
    decreases |es|
  {
    hide Step, ClockOk;
    if es != [] {
      OneEachTimed(Step(ks, es[0].op, es[0].clock).ks, es[1..], offset);
      forall i | 0 <= i < |es|
        ensures ClockOk(es[i].clock) && es[i].clock.offset == offset
      {
        if i > 0 {
          assert es[1..][i - 1] == es[i];
        }
      }
    }
  }

  /** Moving deadlines that have passed up to the present changes nothing about a sweep. */
  lemma SweptClamped(ks: Ks, gone: seq<Key>, now: int, left: Ks)
    requires Swept(Clamp(ks, now), gone, now, left)
    ensures D.EachThere(ks, gone) && S.AllExpired(ks, gone, now) && left == D.Fewer(ks, gone)
  {
    var clamped := Clamp(ks, now);
    forall i | 0 <= i < |gone|
      ensures gone[i] in D.Fewer(ks, gone[..i]) && Expired(ks, gone[i], now)
    {
      assert gone[i] in D.Fewer(clamped, gone[..i]) && Expired(clamped, gone[i], now);
      FewerHas(ks, gone[..i], gone[i]);
      FewerHas(clamped, gone[..i], gone[i]);
    }
    LiveClamp(ks, now);
    D.FewerKeeps(ks, gone);
    forall key
      ensures key in D.Fewer(ks, gone) <==> key in left
    {
      FewerHas(ks, gone, key);
      FewerHas(clamped, gone, key);
    }
  }

  lemma GoodKeysShort(ks: Ks, offset: int)
    requires Good(ks, offset)
    ensures S.ShortKeys(ks)
  {
    hide GoodValue;
    forall key | key in ks
      ensures |key| <= MAX_KEY
    {
      assert GoodEntry(key, ks[key], offset);
    }
  }

  /** What the log of a run restores is a run again: some of the single writes, then the removal of what has expired. */
  lemma ReopenedIsARun(b: Base, es: seq<Event>, k: nat, c: Clock, restored: Restored, gone: seq<Key>, left: Ks)
    requires ClockOk(c) && Clocks(es, c.offset) && Restores(b, c.offset) && b.since <= c.now
    requires k <= |Run(b.ks, es).records| == |UnbundleAll(b.ks, es)|
    requires ReplayOrdered(Restored(map[], []), b.records + Run(b.ks, es).records[..k], c) == Some(restored)
    requires Swept(restored.ks, gone, c.now, left)
    ensures var all := UnbundleAll(b.ks, es)[..k] + S.Cleanups(gone, c);
            Clocks(all, c.offset) && Run(b.ks, all) == Ran(left, Run(b.ks, es).records[..k] + D.Dels(gone))
  {
    hide Run, UnbundleAll, ReplayOrdered, ReplayAll, Clean, ClockOk, Swept, OneEach, Good, S.ShortKeys, S.AllExpired,
      D.EachThere, D.Fewer, D.Dels, Clamp, Restores;
    RestoresHas(b, c.offset);
    var rs, singles := Run(b.ks, es).records[..k], UnbundleAll(b.ks, es)[..k];
    ReplayForgetsOrder(Restored(map[], []), b.records + rs, c);
    ReplayCut(b, es, k, c);
    CleanPrefixRun(b.ks, es, k, c.offset);
    OneEachTimed(b.ks, singles, c.offset);
    var ks := Run(b.ks, singles).ks;
    RunKeepsGood(b.ks, singles, c.offset);
    GoodKeysShort(ks, c.offset);
    SweptClamped(ks, gone, c.now, left);
    S.CleanupsRun(ks, gone, c);
    RunConcat(b.ks, singles, S.Cleanups(gone, c));
  }

  /** The records of a run, and what its log begins with, hold no deadline that cannot be set. */
  lemma CutStampable(b: Base, es: seq<Event>, k: nat, offset: int)
    requires Restores(b, offset) && Clocks(es, offset) && k <= |Run(b.ks, es).records|
    ensures AllStampable(b.records + Run(b.ks, es).records[..k], offset)
  {
    hide Run, Stampable, Restores, ClockOk;
    RestoresHas(b, offset);
    RunStampable(b.ks, es, offset);
  }

  /**
    * Restarting on whatever a crash left of the log of a run, and serving on. What the server finds is a
    * run again, from what the log began with: that is `first`. Then every request is answered as it has
    * to be, and all of it together is a run with a log of its own. So this holds through any number of
    * crashes; and the promises made before the crash still stand.
    */
  method Resume(hash: Key -> nat, sync: LogFile.SyncMode, table: seq<Crc.Word>, file: Bytes, synced: nat, world: World, c: Clock,
                requests: seq<S.Request>, ghost b: Base, ghost es: seq<Event>, ghost k: nat)
    returns (p: Progress, db: D.Database?, reports: seq<S.Report>, ghost first: S.Turn, ghost turns: seq<S.Turn>)
    requires Crc.IsTable(table) && ClockOk(c) && synced <= |file|
    requires Restores(b, c.offset) && b.since <= c.now && Clocks(es, c.offset)
    requires k <= |Run(b.ks, es).records| == |UnbundleAll(b.ks, es)|
    requires Recovered(file).Scanned? && Recovered(file).records == b.records + Run(b.ks, es).records[..k]
    requires b.records != [] ==> file != [] && |Log(b.records)| <= synced
    requires forall i :: 0 <= i < |requests| ==> S.Served(requests[i], c.offset)
    modifies world
    ensures p == Ready <==> db != null
    ensures p == Unreadable ==> !Clean(Run(b.ks, es).records[..k])
    ensures p == Unavailable ==> Worse(old(world.Dealt()), world.Dealt())
    ensures db != null ==> db.Valid() && db.offset == c.offset && db.world == world && db.wal.initial == |Recovered(file).records|
    ensures db != null ==>
              && S.Follows(Start(b), first) && S.Timed(first, c.offset) && !first.after.failed && |b.records| <= first.after.acked
              && UnbundleAll(b.ks, es)[..k] <= first.did && first.after.ks ==
                 Live(Run(b.ks, UnbundleAll(b.ks, es)[..k]).ks, c.now)
    ensures db != null ==> S.InTurn(db.wal, db.offset, requests, reports, first.after, turns)
    ensures db != null ==> S.Before(first.after, turns, |turns|) == db.Now() && (|reports| == |requests| || db.wal.failed)
    ensures db != null ==> var later := S.Altogether(first.after, turns);
                           S.Follows(Start(b), S.Turn(first.did + later.did, first.did + later.tried, later.after))
  {
    hide D.Database.Valid, LogFile.WriteAheadLog.Valid, ClockOk, ReplayOrdered, Reopen, Crc.IsTable, D.Dels, D.DropAll,
      Run, UnbundleAll, S.InTurn, S.Altogether, S.Served, Restores, AllStampable, World.Dealt, Recovered, Clean,
      AllPromised, Live, D.EachThere, D.DueInOrder, D.Fewer;
    RestoresHas(b, c.offset);
    CutStampable(b, es, k, c.offset);
    ghost var restored, gone;
    first, turns, reports := S.Turn([], [], Start(b)), [], [];
    p, db, restored, gone := OpenWal(hash, sync, table, file, synced, world, c);
    Reopened(b, es, k, file, c);
    if db == null {
      return;
    }
    ReopenedIsARun(b, es, k, c, restored, gone, db.ks);
    BasePromised(b, Run(b.ks, es).records[..k], synced, db.status.acked);
    ghost var did := UnbundleAll(b.ks, es)[..k] + S.Cleanups(gone, c);
    first := S.Turn(did, did, db.Now());
    assert db.wal.attempted == b.records + (Run(b.ks, es).records[..k] + D.Dels(gone));
    reports, turns := S.Serve(db, requests);
    S.TurnsFollow(db.wal, db.offset, requests, reports, first.after, turns);
    ghost var later := S.Altogether(first.after, turns);
    S.OneMoreTurn(Start(b), first, later, c.offset);
  }

  /** A database that holds what a log begins with. */
  function Start(b: Base): (s: D.State) { D.State(b.ks, b.records, [], false, |b.records|, Luck(0, 0, 0)) }

  /** Reopening the cut of a run's log, read off its records. */
  lemma Reopened(b: Base, es: seq<Event>, k: nat, file: Bytes, c: Clock)
    requires ClockOk(c) && Restores(b, c.offset) && b.since <= c.now && Clocks(es, c.offset)
    requires k <= |Run(b.ks, es).records| == |UnbundleAll(b.ks, es)|
    requires Recovered(file).Scanned? && Recovered(file).records == b.records + Run(b.ks, es).records[..k]
    ensures Reopen(file, c).Some? <==> Clean(Run(b.ks, es).records[..k])
    ensures Reopen(file, c).Some? ==> Reopen(file, c) == Some(Live(Run(b.ks, UnbundleAll(b.ks, es)[..k]).ks, c.now))
  {
    hide Run, UnbundleAll, Clean, Live, Recovered, Restores, ReplayAll, Clamp;
    ReplayCut(b, es, k, c);
    LiveClamp(Run(b.ks, UnbundleAll(b.ks, es)[..k]).ks, c.now);
  }

  lemma BasePromised(b: Base, rs: seq<Record>, synced: nat, promised: nat)
    requires AllFit(b.records) && (b.records != [] ==>
              |Log(b.records)| <= synced && AllPromised(b.records + rs, synced, promised))
    ensures |b.records| <= promised
  {
    hide Log, Fits;
    if b.records != [] {
      assert (b.records + rs)[..|b.records|] == b.records;
    }
  }
}
