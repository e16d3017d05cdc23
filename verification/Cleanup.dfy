/** Removing expired keys in the background cannot be observed, src/database.cpp:92-127 and 1269-1305. */
module Cleanup {
  import opened Bytes
  import opened Pack
  import opened Wal
  import opened Keyspace
  import opened Recovery
  import opened CrashRecovery

  /** The two keyspaces hold the same at one key. */
  predicate AgreeAt(a: Ks, b: Ks, key: Bytes)
  {
    (key in a <==> key in b) && (key in a ==> a[key] == b[key])
  }

  /** An operation touches no other key. */
  lemma ApplyTouchesOne(w: Ks, op: Op, c: Clock, other: Bytes)
    requires other != op.key
    ensures AgreeAt(Apply(w, op, c).ks, w, other)
  {
    hide UsedBytes, SetPairs, AddedPairs, LargestPair, PushItems, Fits, ParseSigned, HSetRecords, PushRecords, BodySize;
    ReadKeeps(w, op, c);
  }

  lemma ListSeesOne(a: Ks, b: Ks, key: Bytes, more: seq<Element>, front: bool)
    requires AgreeAt(a, b, key)
    ensures ApplyPush(a, key, more, front).reply == ApplyPush(b, key, more, front).reply
    ensures AgreeAt(ApplyPush(a, key, more, front).ks, ApplyPush(b, key, more, front).ks, key)
    ensures ApplyPop(a, key, front).reply == ApplyPop(b, key, front).reply
    ensures AgreeAt(ApplyPop(a, key, front).ks, ApplyPop(b, key, front).ks, key)
  {
    hide UsedBytes, PushItems, PushRecords;
  }

  lemma HashSeesOne(a: Ks, b: Ks, key: Bytes, field: Bytes, item: Element, parts: seq<Bytes>)
    requires AgreeAt(a, b, key)
    ensures ApplyHSet(a, key, field, item).reply == ApplyHSet(b, key, field, item).reply
    ensures AgreeAt(ApplyHSet(a, key, field, item).ks, ApplyHSet(b, key, field, item).ks, key)
    ensures ApplyHSetTexts(a, key, parts).reply == ApplyHSetTexts(b, key, parts).reply
    ensures AgreeAt(ApplyHSetTexts(a, key, parts).ks, ApplyHSetTexts(b, key, parts).ks, key)
    ensures ApplyHDel(a, key, field).reply == ApplyHDel(b, key, field).reply
    ensures AgreeAt(ApplyHDel(a, key, field).ks, ApplyHDel(b, key, field).ks, key)
  {
    hide SetPairs, AddedPairs, LargestPair, Fits, HSetRecords, BodySize;
  }

  lemma ScalarSeesOne(a: Ks, b: Ks, key: Bytes, seconds: Int64, c: Clock)
    requires AgreeAt(a, b, key)
    ensures ApplyIncr(a, key).reply == ApplyIncr(b, key).reply
    ensures AgreeAt(ApplyIncr(a, key).ks, ApplyIncr(b, key).ks, key)
    ensures ApplyExpire(a, key, seconds, c).reply == ApplyExpire(b, key, seconds, c).reply
    ensures AgreeAt(ApplyExpire(a, key, seconds, c).ks, ApplyExpire(b, key, seconds, c).ks, key)
    ensures ApplyDel(a, key).reply == ApplyDel(b, key).reply && AgreeAt(ApplyDel(a, key).ks, ApplyDel(b, key).ks, key)
  {
    hide ParseSigned, ExpireRecord;
  }

  lemma ReadSeesOne(a: Ks, b: Ks, op: Op, c: Clock)
    requires IsRead(op) && AgreeAt(a, b, op.key)
    ensures ApplyRead(a, op, c).reply == ApplyRead(b, op, c).reply
  {
    hide ToDecimal;
  }

  /** What an operation replies and stores depends on its own key alone. */
  lemma ApplySeesOne(a: Ks, b: Ks, op: Op, c: Clock)
    requires AgreeAt(a, b, op.key)
    ensures Apply(a, op, c).reply == Apply(b, op, c).reply
    ensures AgreeAt(Apply(a, op, c).ks, Apply(b, op, c).ks, op.key)
  {
    hide ApplyPush, ApplyPop, ApplyHSet, ApplyHSetTexts, ApplyHDel, ApplyIncr, ApplyExpire, ApplyDel, ApplyRead;
    match op {
      case Set(key, text) =>
      case Incr(key) => ScalarSeesOne(a, b, key, 0, c);
      case Expire(key, seconds) => ScalarSeesOne(a, b, key, seconds, c);
      case Del(key) => ScalarSeesOne(a, b, key, 0, c);
      case Evict(key) => ScalarSeesOne(a, b, key, 0, c);
      case Cleanup(key) =>
      case Push(key, item, front) => ListSeesOne(a, b, key, [item], front);
      case PushTexts(key, texts, front) => ListSeesOne(a, b, key, Texts(texts), front);
      case Pop(key, front) => ListSeesOne(a, b, key, [], front);
      case HSet(key, field, item) => HashSeesOne(a, b, key, field, item, []);
      case HSetTexts(key, parts) => HashSeesOne(a, b, key, [], Text([]), parts);
      case HDel(key, field) => HashSeesOne(a, b, key, field, Text([]), []);
      case _ =>
        ReadSeesOne(a, b, op, c);
        ReadKeeps(a, op, c);
        ReadKeeps(b, op, c);
    }
  }

  lemma LiveAt(ks: Ks, key: Bytes, now: int)
    ensures key in Live(ks, now) <==> key in ks && !Expired(ks, key, now)
    ensures key in Live(ks, now) ==> Live(ks, now)[key] == ks[key]
    ensures AgreeAt(Writable(ks, key, now), Live(ks, now), key)
  {
  }

  lemma ReadSeesLive(a: Ks, b: Ks, op: Op, c: Clock)
    requires IsRead(op) && Live(a, c.now) == Live(b, c.now)
    ensures ApplyRead(a, op, c).reply == ApplyRead(b, op, c).reply
  {
    hide ApplyRead, Live, Writable;
    var key, now := op.key, c.now;
    LiveAt(a, key, now);
    LiveAt(b, key, now);
    ReadSkipsExpired(a, op, c);
    ReadSkipsExpired(b, op, c);
    ReadSeesOne(Writable(a, key, now), Writable(b, key, now), op, c);
  }

  lemma ReadSkipsExpired(ks: Ks, op: Op, c: Clock)
    requires IsRead(op)
    ensures ApplyRead(Writable(ks, op.key, c.now), op, c).reply == ApplyRead(ks, op, c).reply
  {
    hide ToDecimal;
  }

  /** A write on two such databases: what it leaves differs only in expired keys again. */
  lemma WriteRespectsLive(a: Ks, b: Ks, op: Op, c: Clock)
    requires Live(a, c.now) == Live(b, c.now)
    ensures var wa, wb := Writable(a, op.key, c.now), Writable(b, op.key, c.now);
            && Apply(wa, op, c).reply == Apply(wb, op, c).reply
            && Live(Apply(wa, op, c).ks, c.now) == Live(Apply(wb, op, c).ks, c.now)
  {
    hide Apply, Live, Writable, AgreeAt, Expired;
    var key, now := op.key, c.now;
    var wa, wb := Writable(a, key, now), Writable(b, key, now);
    LiveAt(a, key, now);
    LiveAt(b, key, now);
    AgreeBoth(wa, wb, Live(a, now), key);
    ApplySeesOne(wa, wb, op, c);
    var ra, rb := Apply(wa, op, c).ks, Apply(wb, op, c).ks;
    forall k
      ensures AgreeAt(Live(ra, now), Live(rb, now), k)
    {
      if k == key {
        LiveOfAgreeing(ra, rb, k, now);
      } else {
        ApplyTouchesOne(wa, op, c, k);
        ApplyTouchesOne(wb, op, c, k);
        LiveOfOther(a, key, k, now);
        LiveOfOther(b, key, k, now);
        LiveOfAgreeing(ra, wa, k, now);
        LiveOfAgreeing(rb, wb, k, now);
        AgreeThrough(Live(ra, now), Live(wa, now), Live(a, now), Live(rb, now), Live(wb, now), k);
      }
    }
    AgreeEverywhere(Live(ra, now), Live(rb, now));
  }

  lemma AgreeBoth(a: Ks, b: Ks, m: Ks, key: Bytes)
    requires AgreeAt(a, m, key) && AgreeAt(b, m, key)
    ensures AgreeAt(a, b, key)
  {
  }

  lemma AgreeThrough(ra: Ks, wa: Ks, m: Ks, rb: Ks, wb: Ks, k: Bytes)
    requires AgreeAt(ra, wa, k) && AgreeAt(wa, m, k) && AgreeAt(rb, wb, k) && AgreeAt(wb, m, k)
    ensures AgreeAt(ra, rb, k)
  {
  }

  lemma LiveOfAgreeing(a: Ks, b: Ks, k: Bytes, now: int)
    requires AgreeAt(a, b, k)
    ensures AgreeAt(Live(a, now), Live(b, now), k)
  {
  }

  lemma LiveOfOther(ks: Ks, key: Bytes, k: Bytes, now: int)
    requires k != key
    ensures AgreeAt(Live(Writable(ks, key, now), now), Live(ks, now), k)
  {
  }

  /** A step of two databases that differ only in expired keys: same reply, and again no visible difference. */
  lemma StepRespectsLive(a: Ks, b: Ks, op: Op, c: Clock)
    requires Live(a, c.now) == Live(b, c.now) && !op.Evict?
    ensures Step(a, op, c).reply == Step(b, op, c).reply
    ensures Live(Step(a, op, c).ks, c.now) == Live(Step(b, op, c).ks, c.now)
  {
    hide Apply, ApplyRead, ApplyDel, Live, Writable, WritableRecords, Refused;
    if Refused(op).None? {
      if IsRead(op) {
        ReadKeeps(a, op, c);
        ReadKeeps(b, op, c);
        ReadSeesLive(a, b, op, c);
      } else {
        WriteRespectsLive(a, b, op, c);
      }
    }
  }

  lemma AgreeEverywhere(a: Ks, b: Ks)
    requires forall k :: AgreeAt(a, b, k)
    ensures a == b
  {
    forall k | k in a || k in b
      ensures k in a && k in b && a[k] == b[k]
    {
      assert AgreeAt(a, b, k);
    }
  }

  lemma LiveLater(a: Ks, b: Ks, now: int, later: int)
    requires Live(a, now) == Live(b, now) && now <= later
    ensures Live(a, later) == Live(b, later)
  {
    hide Live;
    forall k
      ensures AgreeAt(Live(a, later), Live(b, later), k)
    {
      LiveAt(a, k, now);
      LiveAt(b, k, now);
      LiveAt(a, k, later);
      LiveAt(b, k, later);
    }
    AgreeEverywhere(Live(a, later), Live(b, later));
  }

  /** One removal by the expiry pass changes nothing that is visible. */
  lemma CleanupInvisible(ks: Ks, key: Bytes, c: Clock)
    ensures Live(Step(ks, Keyspace.Cleanup(key), c).ks, c.now) == Live(ks, c.now)
  {
  }

  // ---------- runs ----------

  function Replies(ks: Ks, es: seq<Event>): (r: seq<Reply>)
    decreases |es|
  {
    if es == [] then []
    else
      var s := Step(ks, es[0].op, es[0].clock);
      (if es[0].op.Cleanup? then [] else [s.reply]) + Replies(s.ks, es[1..])
  }

  function Drop(es: seq<Event>): (r: seq<Event>)
  {
    if es == [] then [] else (if es[0].op.Cleanup? then [] else [es[0]]) + Drop(es[1..])
  }

  predicate Monotone(es: seq<Event>)
  {
    forall i, j :: 0 <= i < j < |es| ==> es[i].clock.now <= es[j].clock.now
  }

  predicate NoEviction(es: seq<Event>) { forall i :: 0 <= i < |es| ==> !es[i].op.Evict? }

  lemma {:induction false} DropSimulates(a: Ks, b: Ks, es: seq<Event>, now: int)
    requires Live(a, now) == Live(b, now) && Monotone(es) && NoEviction(es)
    requires forall i :: 0 <= i < |es| ==> now <= es[i].clock.now
    ensures Replies(a, es) == Replies(b, Drop(es))
    decreases |es|
  {
    hide Step, Live;
    if es != [] {
      var op, c := es[0].op, es[0].clock;
      LiveLater(a, b, now, c.now);
      var a' := Step(a, op, c).ks;
      if op.Cleanup? {
        CleanupInvisible(a, op.key, c);
        DropSimulates(a', b, es[1..], c.now);
        assert [] + Replies(a', es[1..]) == Replies(a', es[1..]);
        assert [] + Drop(es[1..]) == Drop(es[1..]);
      } else {
        StepRespectsLive(a, b, op, c);
        DropSimulates(a', Step(b, op, c).ks, es[1..], c.now);
        assert Drop(es)[1..] == Drop(es[1..]);
      }
    }
  }

  /**
    * With a monotone clock and no eviction, two runs that differ only in expiry-pass removals, put
    * anywhere and on any keys, give every command the same reply.
    */
  lemma CleanupUnobservable(ks: Ks, es: seq<Event>, fs: seq<Event>)
    requires Drop(es) == Drop(fs) && Monotone(es) && Monotone(fs) && NoEviction(es) && NoEviction(fs)
    ensures Replies(ks, es) == Replies(ks, fs)
  {
    hide Replies, Drop, Live;
    Earliest(ks, es);
    Earliest(ks, fs);
  }

  lemma Earliest(ks: Ks, es: seq<Event>)
    requires Monotone(es) && NoEviction(es)
    ensures Replies(ks, es) == Replies(ks, Drop(es))
  {
    hide Replies, Drop, Live;
    if es == [] {
      DropNothing();
    } else {
      DropSimulates(ks, ks, es, es[0].clock.now);
    }
  }

  lemma DropNothing()
    ensures Drop([]) == []
  {
  }
}
