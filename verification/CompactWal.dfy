/** Writing the compacted log from the database itself, src/database.cpp:1351-1427. */
module CompactWal {
  import opened Bytes
  import opened Addresses
  import opened ExpiryIndex
  import opened Worlds
  import opened BucketTable
  import opened Pack
  import opened Wal
  import opened Keyspace
  import opened Recovery
  import CrashRecovery
  import opened Compaction
  import Nodes
  import Crc
  import LogFile
  import LruList
  import opened Sweep
  import D = Database

  /** The records of one value, item by item or field by field. */
  method WriteValue(key: Key, v: Value, order: seq<Bytes>) returns (rs: seq<Record>)
    ensures rs == ValueRecords(key, v, order)
  {
    match v {
      case Str(text) => return [SetRecord(key, text)];
      case Int(n) => return [IntegerRecord(key, n)];
      case List(items) =>
        rs := [];
        for i := 0 to |items|
          invariant rs == PushRecords(key, items[..i], false)
        {
          assert items[..i + 1] == items[..i] + [items[i]];
          rs := rs + [PushRecord(key, items[i], false)];
        }
        assert items[..|items|] == items;
      case Hash(fields) =>
        rs := [];
        for i := 0 to |order|
          invariant rs == FieldRecords(key, fields, order[..i])
        {
          assert order[..i + 1] == order[..i] + [order[i]];
          OneField(key, fields, order[i]);
          FieldRecordsConcat(key, fields, order[..i], [order[i]]);
          rs := rs + [HSetRecord(key, order[i], FieldOf(fields, order[i]))];
        }
        assert order[..|order|] == order;
    }
  }

  lemma OneField(key: Key, fields: map<Bytes, Element>, field: Bytes)
    ensures FieldRecords(key, fields, [field]) == [HSetRecord(key, field, FieldOf(fields, field))]
  {
    assert [field][1..] == [];
  }

  /** The records of one node; the stamp of a stored deadline never overflows. */
  method WriteNode(db: D.Database, a: Addr, order: seq<Bytes>, c: Clock) returns (rs: seq<Record>)
    requires db.Valid() && a in db.table.keys && ClockOk(c) && c.offset == db.offset
    ensures db.table.keys[a] in db.ks && rs == EntryRecords(db.table.keys[a], db.ks[db.table.keys[a]], order, c)
  {
    hide D.Database.Valid, ValueRecords, ExpireRecord;
    var key := db.table.keys[a];
    var v := NodeValue(db, a, key);
    var deadline := db.DeadlineOf(a, key);
    rs := WriteValue(key, v, order);
    if deadline.None? {
      assert rs + [] == rs;
    } else {
      var wall := c.now + c.offset;
      var remaining := if deadline.value > c.now then deadline.value - c.now else 0;
      StampInRange(db, key, c);
      assert remaining <= MAX_I64 - wall;
      rs := rs + [ExpireRecord(key, wall + remaining)];
    }
  }

  method NodeValue(db: D.Database, a: Addr, ghost key: Key) returns (v: Value)
    requires db.Valid() && a in db.table.keys && db.table.keys[a] == key
    ensures a != 0 && key in db.ks && v == db.ks[key].value
  {
    hide Nodes.Coherent, D.Tallied, D.Database.Lodged, D.Laid, Good, Buckets.Valid, Index.Valid;
    Nodes.Present(db.View(), db.ks, db.recent, a);
    D.NodeIsNotNull(db.View(), db.ks, db.recent, db.lru, a);
    v := db.values[a];
  }

  lemma StampInRange(db: D.Database, key: Key, c: Clock)
    requires db.Valid() && key in db.ks && ClockOk(c) && c.offset == db.offset && db.ks[key].deadline.Some?
    ensures Max(c.now, db.ks[key].deadline.value) + c.offset <= MAX_I64
  {
    hide Nodes.Coherent, D.Tallied, D.Database.Lodged, D.Laid, D.Database.Parts, GoodValue;
    assert GoodEntry(key, db.ks[key], db.offset);
  }

  /** Records appended one after another; the first that cannot be logged ends it. */
  method AppendAll(wal: LogFile.WriteAheadLog, rs: seq<Record>, world: World) returns (ok: bool)
    requires wal.Valid() && !wal.failed && AllFit(rs)
    modifies wal, world
    ensures wal.Valid() && wal.deferSync == old(wal.deferSync)
    ensures if ok then wal.attempted == old(wal.attempted) + rs && !wal.failed && Fine(old(world.Dealt()), world.Dealt())
            else Worse(old(world.Dealt()), world.Dealt())
  {
    hide LogFile.WriteAheadLog.Valid, Fits, World.Dealt;
    assert rs[..0] == [] && wal.attempted + [] == wal.attempted;
    for i := 0 to |rs|
      invariant wal.Valid() && wal.deferSync == old(wal.deferSync) && wal.attempted == old(wal.attempted) + rs[..i]
      invariant !wal.failed && Fine(old(world.Dealt()), world.Dealt())
    {
      var o := wal.Append(rs[i], world);
      if o != LogFile.Logged {
        return false;
      }
      assert rs[..i + 1] == rs[..i] + [rs[i]];
    }
    assert rs[..|rs|] == rs;
    ok := true;
  }

  /** The walk from the tail of the list to its head writes the keys from the least to the most recently used. */
  method Rewrite(db: D.Database, wal: LogFile.WriteAheadLog, orders: Orders, c: Clock) returns (ok: bool)
    requires db.Valid() && ClockOk(c) && c.offset == db.offset && OrdersOk(db.ks, orders)
    requires wal != db.wal && wal.Valid() && !wal.failed && wal.attempted == []
    modifies wal, db.world
    ensures wal.Valid() && wal.deferSync == old(wal.deferSync)
    ensures if ok then wal.attempted == CompactRecords(db.ks, db.recent, orders, c) && !wal.failed
              && Fine(old(db.world.Dealt()), db.world.Dealt())
            else Worse(old(db.world.Dealt()), db.world.Dealt())
  {
    hide D.Database.Valid, EntryRecords, CompactRecords, LogFile.WriteAheadLog.Valid, World.Dealt, OrdersOk;
    var node := db.lru.tail;
    ghost var k := |db.recent|;
    WalkBegins(db, orders, c);
    while node != 0
      invariant 0 <= k <= |db.recent| && wal.attempted == CompactRecords(db.ks, db.recent[k..], orders, c)
      invariant wal.Valid() && wal.deferSync == old(wal.deferSync) && !wal.failed && Fine(old(db.world.Dealt()), db.world.Dealt())
      invariant |db.lru.order| == |db.recent| && node == if k == 0 then 0 else db.lru.order[k - 1]
      decreases k
    {
      WalkStep(db, k - 1, orders, c);
      var more := WriteNode(db, node, OrderOf(orders, db.table.keys[node]), c);
      NodeRecordsFit(db, db.table.keys[node], orders, c);
      ok := AppendAll(wal, more, db.world);
      if !ok {
        return;
      }
      node := LruList.At(db.lru.prev, node);
      k := k - 1;
    }
    WalkEnds(db, k);
    ok := true;
  }

  lemma NodeRecordsFit(db: D.Database, key: Key, orders: Orders, c: Clock)
    requires db.Valid() && key in db.ks && ClockOk(c) && c.offset == db.offset && OrdersOk(db.ks, orders)
    ensures AllFit(EntryRecords(key, db.ks[key], OrderOf(orders, key), c))
  {
    hide Nodes.Coherent, D.Tallied, D.Database.Lodged, D.Laid, D.Database.Parts, EntryRecords, GoodValue, Visits;
    assert GoodEntry(key, db.ks[key], db.offset);
    EntryRecordsFit(key, db.ks[key], OrderOf(orders, key), c);
  }

  lemma WalkBegins(db: D.Database, orders: Orders, c: Clock)
    requires db.Valid()
    ensures CompactRecords(db.ks, db.recent[|db.recent|..], orders, c) == [] && |db.lru.order| == |db.recent|
    ensures db.lru.tail == if db.recent == [] then 0 else db.lru.order[|db.recent| - 1]
  {
    hide D.Database.Lodged, D.Laid, Good, Buckets.Valid, Index.Valid, LruList.Linked, D.Tallied, Nodes.Coherent;
    D.OrderIsNodes(db.View(), db.ks, db.recent);
    LruList.HeadIsFirst(db.lru.order, db.lru.head, db.lru.tail, db.lru.prev, db.lru.next);
  }

  lemma WalkStep(db: D.Database, k: nat, orders: Orders, c: Clock)
    requires db.Valid() && k < |db.recent| && |db.lru.order| == |db.recent|
    ensures var a := db.lru.order[k];
            && a != 0 && a in db.table.keys && db.table.keys[a] == db.recent[k] && db.recent[k] in db.ks
            && LruList.At(db.lru.prev, a) == if k == 0 then 0 else db.lru.order[k - 1]
    ensures CompactRecords(db.ks, db.recent[k..], orders, c)
         == CompactRecords(db.ks, db.recent[k + 1..], orders, c)
            + EntryRecords(db.recent[k], db.ks[db.recent[k]], OrderOf(orders, db.recent[k]), c)
  {
    hide D.Database.Lodged, D.Laid, Good, Buckets.Valid, Index.Valid, LruList.Linked, D.Tallied, Nodes.Coherent, EntryRecords;
    D.OrderIsNodes(db.View(), db.ks, db.recent);
    D.RecentIsKeys(db.View(), db.ks, db.recent);
    LruList.LinkedAt(db.lru.order, db.lru.head, db.lru.tail, db.lru.prev, db.lru.next, k);
    assert db.recent[k] in db.recent;
    assert db.recent[k..][1..] == db.recent[k + 1..];
  }

  lemma WalkEnds(db: D.Database, k: nat)
    requires db.Valid() && k <= |db.recent| == |db.lru.order| && (k > 0 ==> db.lru.order[k - 1] == 0)
    ensures k == 0 && db.recent[k..] == db.recent
  {
    hide D.Database.Lodged, D.Laid, Good, Buckets.Valid, Index.Valid, LruList.Linked, D.Tallied, Nodes.Coherent;
    if k > 0 {
      assert db.lru.order[k - 1] in db.lru.order;
    }
    LruList.ListIsDistinct(db.lru.order, db.lru.head, db.lru.tail, db.lru.prev, db.lru.next);
  }

  /** The replacement file: written in one batch, synced, and read back in full before it may take the place of the old one. */
  method WriteReplacement(db: D.Database, table: seq<Crc.Word>, orders: Orders, c: Clock) returns (ok: bool, file: Bytes)
    requires db.Valid() && ClockOk(c) && c.offset == db.offset && Crc.IsTable(table) && OrdersOk(db.ks, orders)
    modifies db.world
    ensures if ok then
              && AllFit(CompactRecords(db.ks, db.recent, orders, c)) && file == CompactLog(db.ks, db.recent, orders, c)
              && Fine(old(db.world.Dealt()), db.world.Dealt())
            else Worse(old(db.world.Dealt()), db.world.Dealt())
  {
    hide D.Database.Valid, CompactRecords, LogFile.WriteAheadLog.Valid, Log, Crc.IsTable, LogFile.Durable, ClockOk,
      World.Dealt, OrdersOk, Recovered;
    file := [];
    ok := db.world.Call();
    if !ok {
      return;
    }
    EmptyLog();
    var wal := new LogFile.WriteAheadLog(LogFile.Always, table, MAGIC, [], 0, 8);
    wal.BeginBatch();
    ok := Rewrite(db, wal, orders, c);
    ghost var l := db.world.Dealt();
    var ended := wal.EndBatch(db.world);
    if !ok || !ended {
      return false, [];
    }
    ok := wal.FlushLocked(db.world);
    if !ok {
      return;
    }
    WholeFile(wal);
    var scanned, repaired := LogFile.Recover(table, wal.file);
    WholeLogRecovers(wal.attempted);
    ok, file := scanned.Scanned? && scanned.length == |wal.file|, wal.file;
  }

  lemma EmptyLog()
    ensures AllFit([]) && Log([]) == MAGIC && LogFile.Durable([], 0, 8)
  {
  }

  lemma WholeFile(wal: LogFile.WriteAheadLog)
    requires wal.Valid() && !wal.failed
    ensures AllFit(wal.attempted) && wal.file == Log(wal.attempted)
  {
    hide LogFile.Contains, Log;
    LogFile.ContainsWhole(wal.file, wal.records);
    assert wal.records + [] == wal.records;
  }

  /**
    * `compact_wal`, up to the switch: the file it writes, reopened at any later time, gives back exactly
    * what is live, with the keys in exactly the order in which the list has them. It can be reopened
    * exactly when no oversized hash value is stored. Without it, memory was refused or the disk failed.
    */
  method WriteCompacted(db: D.Database, table: seq<Crc.Word>, orders: Orders, c: Clock, ghost later: Clock)
    returns (ok: bool, file: Bytes)
    requires !db.status.replaying && db.Valid() && ClockOk(c) && c.offset == db.offset && OrdersOk(db.ks, orders)
              && Crc.IsTable(table)
    requires ClockOk(later) && later.offset == c.offset && c.now <= later.now
    modifies db, db.table, db.lru, db.expiry, db.pool, db.memory, db.wal, db.world
    ensures db.Valid() && Live(db.ks, c.now) == Live(old(db.ks), c.now) && OrdersOk(db.ks, orders)
    ensures exists tried: seq<Key> :: db.wal.attempted == old(db.wal.attempted) + D.Dels(tried)
    ensures !ok ==> Worse(old(db.world.Dealt()), db.world.Dealt()) || old(db.wal.failed) || db.wal.deferSync
    ensures ok ==> db.ks == Live(old(db.ks), c.now) && AllFit(CompactRecords(db.ks, db.recent, orders, c)) && !db.wal.failed
    ensures ok ==> file == CompactLog(db.ks, db.recent, orders, c) && (Reopen(file, later).Some? <==> AllRestorable(db.ks))
    ensures ok ==> Fine(old(db.world.Dealt()), db.world.Dealt())
    ensures ok && AllRestorable(db.ks) ==>
              && ReplayOrdered(Restored(map[], []), CompactRecords(db.ks, db.recent, orders, c), later)
                 == Some(Restored(Clamp(db.ks, later.now), db.recent))
              && Reopen(file, later) == Some(Live(db.ks, later.now))
  {
    hide D.Database.Valid, Live, Log, Reopen, ReplayOrdered, Clamp, CompactRecords, CompactLog, ClockOk, OrdersOk,
      AllRestorable, AllFit, D.Fewer, D.DropAll, D.Dels, Crc.IsTable, LogFile.WriteAheadLog.Valid, World.Dealt;
    file := [];
    ghost var gone, tried;
    ghost var was := db.ks;
    gone, tried, ok := RemoveAllExpired(db, c.now);
    FewerOrders(was, gone, orders);
    if !ok || db.wal.failed || db.wal.deferSync {
      return false, [];
    }
    ok, file := WriteReplacement(db, table, orders, c);
    if ok {
      Storable(db);
      CompactionPreservesMeaning(db.ks, db.recent, orders, c, later);
    }
  }

  lemma FewerOrders(ks: Ks, gone: seq<Key>, orders: Orders)
    requires OrdersOk(ks, orders)
    ensures OrdersOk(D.Fewer(ks, gone), orders)
  {
    hide Visits, D.Fewer;
    D.FewerKeeps(ks, gone);
  }

  /**
    * `compact_wal`, all of it. Afterwards the log is the compacted one, on the disk to the last byte, and
    * a run can go on from it; or nothing happened to the log but the deletions of what had expired; or
    * the switch broke off, and no record is ever written again.
    */
  method Compact(db: D.Database, table: seq<Crc.Word>, orders: Orders, c: Clock) returns (ok: bool)
    requires !db.status.replaying && db.Valid() && ClockOk(c) && c.offset == db.offset && OrdersOk(db.ks, orders)
              && Crc.IsTable(table)
    modifies db, db.table, db.lru, db.expiry, db.pool, db.memory, db.wal, db.world, db.status
    ensures db.Valid() && !db.status.replaying && Live(db.ks, c.now) == Live(old(db.ks), c.now)
    ensures ok ==>
              && db.ks == Live(old(db.ks), c.now) && !db.wal.failed && db.wal.synced == |db.wal.file|
              && db.wal.attempted == CompactRecords(db.ks, db.recent, orders, c) && db.status.acked == |db.wal.attempted|
              && (AllRestorable(db.ks) ==> CrashRecovery.Restores(CrashRecovery.Base(db.wal.attempted, db.ks, c.now), c.offset))
    ensures !ok ==>
              && (Worse(old(db.world.Dealt()), db.world.Dealt()) || old(db.wal.failed) || db.wal.deferSync)
              && ((exists tried: seq<Key> :: db.wal.attempted == old(db.wal.attempted) + D.Dels(tried))
                  || (db.wal.failed && db.wal.attempted == CompactRecords(db.ks, db.recent, orders, c)))
  {
    hide D.Database.Valid, Live, Log, Reopen, ReplayOrdered, Clamp, CompactRecords, ClockOk, OrdersOk, AllRestorable, AllFit,
      D.Dels, Crc.IsTable, LogFile.WriteAheadLog.Valid, World.Dealt, CrashRecovery.Restores;
    var file;
    ok, file := WriteCompacted(db, table, orders, c, c);
    if !ok {
      return;
    }
    ok := db.Flush();
    if !ok {
      return;
    }
    ghost var tried: seq<Key> :| db.wal.attempted == old(db.wal.attempted) + D.Dels(tried);
    ok := CloseAndRename(db.world);
    if !ok {
      db.FailLog();
      return;
    }
    db.AdoptLog(file, CompactRecords(db.ks, db.recent, orders, c));
    ok := SyncAndOpen(db.world);
    if !ok {
      db.FailLog();
      return;
    }
    if AllRestorable(db.ks) {
      Storable(db);
      CompactedRestores(db.ks, db.recent, orders, c);
    }
  }

  /** The old file is closed, and the new one takes its name. */
  method CloseAndRename(world: World) returns (ok: bool)
    modifies world`calls
    ensures if ok then world.Dealt() == old(world.Dealt()) else Faulted(old(world.Dealt()), world.Dealt())
  {
    hide World.Dealt;
    ok := world.Call();
    if ok {
      ok := world.Call();
    }
  }

  /** The directory is synced, and the file is opened again. */
  method SyncAndOpen(world: World) returns (ok: bool)
    modifies world`calls
    ensures if ok then world.Dealt() == old(world.Dealt()) else Faulted(old(world.Dealt()), world.Dealt())
  {
    hide World.Dealt;
    ok := world.Call();
    if ok {
      ok := world.Call();
    }
  }

  lemma Storable(db: D.Database)
    requires db.Valid()
    ensures Good(db.ks, db.offset) && Visits(db.recent, db.ks.Keys)
  {
    hide D.Tallied, D.Database.Lodged, D.Laid, D.Database.Parts, Good, Nodes.Coherent;
    D.RecentIsKeys(db.View(), db.ks, db.recent);
  }
}
