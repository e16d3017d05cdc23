/** The expiry pass without a limit, as opening and compacting a log run it: src/database.cpp:1269-1290, 1355 and 1445. */
module Sweep {
  import opened Bytes
  import opened BucketTable
  import opened Wal
  import opened Keyspace
  import opened Recovery
  import D = Database

  lemma {:induction false} FewerCount(ks: Ks, gone: seq<Key>)
    requires D.EachThere(ks, gone)
    ensures |D.Fewer(ks, gone)| == |ks| - |gone|
    decreases |gone|
  {
    if gone != [] {
      var n := |gone| - 1;
      var first := gone[..n];
      forall i | 0 <= i < n
        ensures first[i] in D.Fewer(ks, first[..i])
      {
        assert first[..i] == gone[..i];
      }
      FewerCount(ks, first);
      assert gone[n] in D.Fewer(ks, gone[..n]);
      OneFewer(D.Fewer(ks, first), gone[n]);
    }
  }

  lemma OneFewer(ks: Ks, key: Key)
    requires key in ks
    ensures |ks - {key}| == |ks| - 1
  {
    assert (ks - {key}).Keys == ks.Keys - {key};
    assert |ks.Keys| == |ks| && |(ks - {key}).Keys| == |ks - {key}|;
  }

  lemma {:induction false} FewerHas(ks: Ks, gone: seq<Key>, key: Key)
    ensures key in D.Fewer(ks, gone) <==> key in ks && key !in gone
    decreases |gone|
  {
    if gone != [] {
      var n := |gone| - 1;
      FewerHas(ks, gone[..n], key);
      assert gone == gone[..n] + [gone[n]];
    }
  }

  /** Removing expired keys leaves what is live. */
  lemma StillLive(ks: Ks, gone: seq<Key>, now: int)
    requires D.DueInOrder(ks, gone, now)
    ensures Live(D.Fewer(ks, gone), now) == Live(ks, now)
  {
    hide D.Fewer;
    D.FewerKeeps(ks, gone);
    forall key
      ensures key in D.Fewer(ks, gone) <==> key in ks && key !in gone
    {
      FewerHas(ks, gone, key);
    }
  }

  /** Exactly the expired keys went, by deadline. */
  ghost predicate Swept(ks: Ks, gone: seq<Key>, now: int, left: Ks)
  {
    D.EachThere(ks, gone) && D.DueInOrder(ks, gone, now) && left == D.Fewer(ks, gone) == Live(ks, now)
  }

  lemma SweptAll(ks: Ks, gone: seq<Key>, now: int, left: Ks)
    requires D.EachThere(ks, gone) && D.DueInOrder(ks, gone, now) && left == D.Fewer(ks, gone)
    requires |gone| == |ks| || forall key :: key in left ==> !Expired(left, key, now)
    ensures Swept(ks, gone, now, left)
  {
    FewerCount(ks, gone);
    StillLive(ks, gone, now);
    assert left == Live(left, now);
  }

  /** Unless the log or memory fails, all that has expired goes, and its deletions are logged, and nothing else happens. */
  method RemoveAllExpired(db: D.Database, now: int) returns (ghost gone: seq<Key>, ghost tried: seq<Key>, ok: bool)
    requires !db.status.replaying && db.Valid()
    modifies db, db.table, db.lru, db.expiry, db.pool, db.memory, db.wal, db.world
    ensures db.Valid() && db.ks == D.Fewer(old(db.ks), gone) && Live(db.ks, now) == Live(old(db.ks), now)
    ensures db.recent == D.DropAll(old(db.recent), gone) && db.wal.attempted == old(db.wal.attempted) + D.Dels(tried)
    ensures tried == gone || (db.wal.failed && !ok && gone < tried && |tried| == |gone| + 1)
    ensures D.PassLuck(ok, old(db.Now()), db.Now()) && (ok ==> Swept(old(db.ks), gone, now, db.ks))
  {
    hide D.Database.Valid, D.EachThere, D.Fewer, D.DueInOrder, D.NoneEarlier, D.Dels, D.DropAll, Live, Expired, Swept, D.PassLuck;
    D.KeysAreCounted(db);
    gone, tried, ok := db.RemoveExpired(db.keyTotal, now);
    StillLive(old(db.ks), gone, now);
    if ok {
      SweptAll(old(db.ks), gone, now, db.ks);
    }
  }
}
