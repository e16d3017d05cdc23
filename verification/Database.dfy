/**
  * The database: bucket chains, the list in order of use, the expiry index, the node blocks and the
  * counters, changed in place by every operation, with the log written before anything is applied.
  * Source: src/database.cpp:79-443, 446-588, 649-1305.
  */
module Database {
  import opened Bytes
  import opened Addresses
  import opened Worlds
  import opened ExpiryIndex
  import opened BucketTable
  import opened Pack
  import opened Wal
  import opened Keyspace
  import opened Nodes
  import opened Chains
  import opened Layouts
  import LruList
  import PackedHash
  import Slab
  import LogFile
  import SizeClasses
  import CrashRecovery

  const MAX_BLOCK: nat := 0xFFFF_FFFF

  /** More than any body: a list in a run of twice its limit. */
  const MAX_BODY: nat := 2 * LIMIT + 64

  /** So no block is ever too large for the 32 bits its size is kept in. */
  lemma BlockInRange(keyLength: nat, body: nat)
    requires keyLength <= MAX_KEY && body <= MAX_BODY
    ensures SizeClasses.BlockSize(keyLength, body) <= MAX_BLOCK
  {
  }

  lemma KeyInRange(ks: Ks, key: Key, offset: int)
    requires Good(ks, offset) && key in ks
    ensures |key| <= MAX_KEY
  {
    hide GoodValue;
    assert GoodEntry(key, ks[key], offset);
  }

  /** An operation answers, or throws because memory ran out or because the log failed. */
  datatype Result = Replied(reply: Reply) | NoMemory | DiskFailed

  /** While the log is replayed nothing is logged, and nothing expires. */
  function Quiet(quiet: bool, rs: seq<Record>): (r: seq<Record>) { if quiet then [] else rs }

  function Settled(quiet: bool, ks: Ks, key: Key, now: int): (r: Ks) { if quiet then ks else Writable(ks, key, now) }

  function SettledRecords(quiet: bool, ks: Ks, key: Key, now: int): (r: seq<Record>)
  {
    Quiet(quiet, WritableRecords(ks, key, now))
  }

  /** An operation on the keyspace its lookup left. In replay the size of its record is not checked again. */
  function Applied(quiet: bool, w: Ks, op: Op, c: Clock): (r: Outcome)
  {
    var o := if quiet && op.HSet? then AssignField(w, op.key, op.field, op.item) else Apply(w, op, c);
    o.(records := Quiet(quiet, o.records))
  }

  /** The whole operation. On the live database this is `Step`. */
  function Effect(quiet: bool, ks: Ks, op: Op, c: Clock): (r: Outcome)
  {
    if Refused(op).Some? then Outcome(ks, Failed(Refused(op).value), [])
    else
      var r := Applied(quiet, Settled(quiet, ks, op.key, c.now), op, c);
      r.(records := SettledRecords(quiet, ks, op.key, c.now) + r.records)
  }

  lemma LiveEffect(ks: Ks, op: Op, c: Clock)
    requires IsWrite(op)
    ensures Effect(false, ks, op, c) == Step(ks, op, c)
  {
    hide Apply, ApplyRead, Refused;
  }

  /**
    * All that a write can change: the keyspace, the records written, the order of use, whether the log has
    * failed, how many records are promised, and what the machine has refused so far.
    */
  datatype State = State(ks: Ks, log: seq<Record>, recent: seq<Key>, failed: bool, acked: nat, luck: Luck)

  /** What looking a key up for writing leaves: an expired key is gone, logged as gone, and a key that is there was used. */
  ghost function Looked(quiet: bool, s: State, key: Key, now: int): (r: State)
  {
    var ks := Settled(quiet, s.ks, key, now);
    s.(ks := ks, log := s.log + SettledRecords(quiet, s.ks, key, now), recent := Recent(s.recent, key, key in ks))
  }

  /** The lookup went well and left `w`. */
  ghost predicate Begun(quiet: bool, s: State, key: Key, now: int, w: State)
  {
    w == Looked(quiet, s, key, now).(luck := w.luck) && Fine(s.luck, w.luck) && (s.failed ==> w.log == s.log)
  }

  lemma StillBegun(quiet: bool, s: State, key: Key, now: int, w: State, t: State)
    requires Begun(quiet, s, key, now, w) && t == w.(luck := t.luck) && Fine(w.luck, t.luck)
    ensures Begun(quiet, s, key, now, t)
  {
    hide Looked;
  }

  /** The log, and what the machine has refused. */
  datatype Journal = Journal(log: seq<Record>, failed: bool, luck: Luck)

  function JournalOf(s: State): (j: Journal) { Journal(s.log, s.failed, s.luck) }

  /** What became of the log when the records `more` were to be appended to it. */
  ghost predicate Wrote(o: LogFile.Outcome, s: Journal, t: Journal, more: seq<Record>)
  {
    && LogFile.Cause(o, s.failed, s.luck, t.luck)
    && match o
       case Logged => t.log == s.log + more && t.failed == s.failed
       case DiskFailed => t.failed && more != [] && s.log <= t.log <= s.log + more && (s.failed ==> t.log == s.log)
       case _ => t.log == s.log && t.failed == s.failed
  }

  /** What a write that answers may have been refused: nothing, except that a pop puts up with a block that cannot shrink. */
  predicate Unharmed(op: Op, l: Luck, m: Luck)
  {
    if op.Pop? then l.asked <= m.asked && l.refusals <= m.refusals <= l.refusals + 1 && m.faults == l.faults else Fine(l, m)
  }

  /** Why a write met a failing disk: the disk failed now, or the log had failed before. */
  predicate DiskCause(s: State, t: State) { if s.failed then Fine(s.luck, t.luck) else Faulted(s.luck, t.luck) }

  /** A record is too large exactly if it does not fit, several exactly if what is reserved for them is too much. */
  ghost predicate Sized(o: LogFile.Outcome, rs: seq<Record>, reserve: nat)
  {
    && (o == LogFile.TooLarge ==> if reserve == 0 then !AllFit(rs) else reserve > MAX_RECORD + 8)
    && (o == LogFile.Logged ==> if reserve == 0 then AllFit(rs) else reserve <= MAX_RECORD + 8)
    && (reserve > MAX_RECORD + 8 ==> o == LogFile.TooLarge || o == LogFile.NoMemory)
  }

  /**
    * What a write may do to `s`. It answers as the plain keyspace does, with exactly its records
    * logged. Or memory was refused: nothing has changed if that was the memory
    * for logging the deletion of an expired target (`tight`), and otherwise the target, if it had
    * expired, is gone. Or the log failed, during the lookup or after it, and then a prefix of the
    * records may be in it, but no more was applied.
    */
  ghost predicate Answers(quiet: bool, op: Op, c: Clock, res: Result, s: State, t: State, tight: bool)
  {
    var w := Looked(quiet, s, op.key, c.now);
    match res
    case Replied(reply) =>
      var o := Effect(quiet, s.ks, op, c);
      var recent := if Refused(op).Some? then s.recent else Recent(s.recent, op.key, op.key in o.ks);
      && reply == o.reply && t == s.(ks := o.ks, log := s.log + o.records, recent := recent, luck := t.luck)
      && Unharmed(op, s.luck, t.luck)
    case NoMemory => Refused(op).None? && Denied(s.luck, t.luck) && t == (if tight then s else w).(luck := t.luck)
    case DiskFailed =>
      && Refused(op).None? && !quiet && DiskCause(s, t) && (s.failed ==> t.log == s.log)
      && ((t == s.(log := t.log, failed := true, luck := t.luck) && s.log <= t.log <= w.log)
          || (t == w.(log := t.log, failed := true, luck := t.luck)
              && w.log <= t.log <= s.log + Effect(quiet, s.ks, op, c).records))
  }

  predicate IsWrite(op: Op) { !IsRead(op) && !op.Evict? }

  lemma AnswersRefused(quiet: bool, op: Op, c: Clock, s: State, tight: bool)
    requires Refused(op).Some?
    ensures Answers(quiet, op, c, Replied(Failed(Refused(op).value)), s, s, tight)
  {
    hide Applied, Recent;
    assert s.log + [] == s.log;
  }

  /** The lookup stopped: there was no memory to log the deletion of the expired target, or the disk failed. */
  ghost predicate Stopped(res: Result, s: State, t: State, key: Key, now: int, tight: bool)
  {
    match res
    case Replied(_) => false
    case NoMemory => tight && Denied(s.luck, t.luck) && t == s.(luck := t.luck)
    case DiskFailed =>
      && DiskCause(s, t) && (s.failed ==> t.log == s.log) && t == s.(log := t.log, failed := true, luck := t.luck)
      && s.log <= t.log <= Looked(false, s, key, now).log
  }

  lemma NothingToBury(quiet: bool, s: State, key: Key, now: int, t: State)
    requires quiet || !Expired(s.ks, key, now)
    requires t == s.(recent := Recent(s.recent, key, key in s.ks))
    ensures Begun(quiet, s, key, now, t)
  {
    assert s.log + [] == s.log;
  }

  lemma Buried(o: LogFile.Outcome, s: State, key: Key, now: int, t: State, tight: bool)
    requires Expired(s.ks, key, now) && o != LogFile.TooLarge && Wrote(o, JournalOf(s), JournalOf(t), [DelRecord(key)])
    requires t.acked == s.acked && (o == LogFile.NoMemory <==> tight)
    requires if o == LogFile.Logged then t.ks == s.ks - {key} && t.recent == Drop(s.recent, key) && !s.failed
              else t.ks == s.ks && t.recent == s.recent
    ensures o == LogFile.Logged ==> Begun(false, s, key, now, t)
    ensures o != LogFile.Logged ==> Stopped(if o == LogFile.DiskFailed then DiskFailed else NoMemory, s, t, key, now, tight)
  {
    hide Fine, Denied, Faulted;
  }

  /** The operation stopped while looking up its key. */
  lemma AnswersStopped(quiet: bool, op: Op, c: Clock, res: Result, s: State, t: State, tight: bool)
    requires IsWrite(op) && Refused(op).None? && !quiet && Stopped(res, s, t, op.key, c.now, tight)
    ensures Answers(quiet, op, c, res, s, t, tight)
  {
    hide Effect, Looked, Recent;
  }

  /** The operation was carried out on the keyspace its lookup left. */
  lemma AnswersDone(quiet: bool, op: Op, c: Clock, s: State, w: State, t: State, tight: bool)
    requires IsWrite(op) && Refused(op).None? && Begun(quiet, s, op.key, c.now, w)
    requires var r := Applied(quiet, w.ks, op, c);
             && t == w.(ks := r.ks, log := w.log + r.records, recent := Recent(s.recent, op.key, op.key in r.ks), luck := t.luck)
             && Unharmed(op, w.luck, t.luck)
    ensures Answers(quiet, op, c, Replied(Applied(quiet, w.ks, op, c).reply), s, t, tight)
  {
    hide Applied, Settled, SettledRecords, Recent;
    var rr, settled := Applied(quiet, w.ks, op, c).records, SettledRecords(quiet, s.ks, op.key, c.now);
    assert s.log + settled + rr == s.log + (settled + rr);
  }

  /** The operation failed after its lookup. */
  lemma AnswersFailed(quiet: bool, op: Op, c: Clock, res: Result, s: State, w: State, t: State, tight: bool)
    requires IsWrite(op) && Refused(op).None? && !res.Replied? && Begun(quiet, s, op.key, c.now, w)
    requires res.NoMemory? ==> !tight && Denied(w.luck, t.luck) && t == w.(luck := t.luck)
    requires res.DiskFailed? ==>
               && !quiet && DiskCause(w, t) && t == w.(log := t.log, failed := true, luck := t.luck)
               && w.log <= t.log <= w.log + Applied(quiet, w.ks, op, c).records && (w.failed ==> t.log == w.log)
    ensures Answers(quiet, op, c, res, s, t, tight)
  {
    hide Applied, Settled, SettledRecords, Recent;
    var rr, settled := Applied(quiet, w.ks, op, c).records, SettledRecords(quiet, s.ks, op.key, c.now);
    assert s.log + settled + rr == s.log + (settled + rr);
  }

  /** The disk failed before any of the records was written, or while they were. */
  lemma AnswersDisk(quiet: bool, op: Op, c: Clock, s: State, w: State, t: State, rs: seq<Record>)
    requires IsWrite(op) && Refused(op).None? && Begun(quiet, s, op.key, c.now, w) && (quiet ==> rs == [])
    requires Wrote(LogFile.DiskFailed, JournalOf(w), JournalOf(t), rs)
              && (rs == Applied(quiet, w.ks, op, c).records || t.log == w.log)
    requires t.ks == w.ks && t.recent == w.recent && t.acked == w.acked
    ensures Answers(quiet, op, c, DiskFailed, s, t, false)
  {
    hide Applied, Answers, Begun, Fine, Faulted;
    AnswersFailed(quiet, op, c, DiskFailed, s, w, t, false);
  }

  lemma WroteNothing(s: Journal, t: Journal, rs: seq<Record>, more: seq<Record>)
    ensures Wrote(LogFile.NoMemory, s, t, rs) ==> Wrote(LogFile.NoMemory, s, t, more)
  {
  }

  lemma DeniedWrote(s: Journal, t: Journal, more: seq<Record>)
    requires Denied(s.luck, t.luck) && t == s.(luck := t.luck)
    ensures Wrote(LogFile.NoMemory, s, t, more)
  {
  }

  lemma TooLargeBegun(quiet: bool, s: State, key: Key, now: int, w: State, t: State, rs: seq<Record>)
    requires Begun(quiet, s, key, now, w) && Wrote(LogFile.TooLarge, JournalOf(w), JournalOf(t), rs)
    requires t.ks == w.ks && t.recent == w.recent && t.acked == w.acked
    ensures Begun(quiet, s, key, now, t)
  {
    hide Looked;
  }

  /** A second use of the key changes nothing. */
  lemma RecentAgain(recent0: seq<Key>, key: Key, there: bool, recent: seq<Key>)
    requires recent == Recent(recent0, key, there) && (!there ==> Drop(recent, key) == recent)
    ensures Drop(recent, key) == Drop(recent0, key)
  {
    if there {
      assert ([key] + Drop(recent0, key))[1..] == Drop(recent0, key);
    }
  }

  /** The blocks, flags and counters beside the indexes. */
  datatype Tally = Tally(blocks: map<Addr, nat>, flagged: set<Addr>, tracked: nat,
                         keyTotal: nat, keyHint: nat, ttlCount: nat, ttlHint: bool)

  /** Each node has one block, its payload in it, and the blocks left over are those of `pending` nodes. */
  ghost predicate Housed(keys: map<Addr, Key>, values: map<Addr, Value>, blocks: map<Addr, nat>, pending: set<Addr>)
  {
    && (forall a :: a in blocks ==> a in values && (a in keys || a in pending))
    && (forall a :: a in values ==> a in blocks)
    && (forall a :: a in keys ==> a in blocks && a !in pending)
    && (forall a :: a in pending ==> a in blocks && a != 0)
  }

  ghost predicate Flagged(flagged: set<Addr>, deadlines: map<Addr, int>) { flagged == deadlines.Keys }

  ghost predicate Counted(n: Nodes, heapSize: nat, t: Tally)
  {
    t.keyTotal == t.keyHint == |n.keys| && t.ttlCount == heapSize && t.ttlHint == (heapSize != 0) && t.tracked == Total(t.blocks)
  }

  /** All of it agrees with the nodes; `pending` are created but not yet committed. */
  ghost predicate Tallied(n: Nodes, heapSize: nat, t: Tally, pending: set<Addr>)
  {
    Counted(n, heapSize, t) && Flagged(t.flagged, n.deadlines) && Housed(n.keys, n.values, t.blocks, pending)
  }

  lemma TallyCreated(n: Nodes, heapSize: nat, t: Tally, p: Addr, v: Value, block: nat)
    requires Tallied(n, heapSize, t, {}) && p !in t.blocks && p != 0
    ensures Tallied(n.(values := n.values[p := v]), heapSize,
              t.(blocks := t.blocks[p := block], tracked := t.tracked + block), {p})
    ensures p !in n.keys
  {
    hide Total, Flagged;
    TotalWith(t.blocks, p, block);
    HousedMore(n.keys, n.values, t.blocks, p, v, block);
  }

  lemma HousedMore(keys: map<Addr, Key>, values: map<Addr, Value>, blocks: map<Addr, nat>, p: Addr, v: Value, block: nat)
    requires Housed(keys, values, blocks, {}) && p !in blocks && p != 0
    ensures Housed(keys, values[p := v], blocks[p := block], {p}) && p !in keys
  {
  }

  lemma HousedLess(keys: map<Addr, Key>, values: map<Addr, Value>, blocks: map<Addr, nat>, a: Addr, p: Addr)
    requires Housed(keys, values, blocks, {p}) && (a == p || a in keys)
    ensures a in blocks && a in values && p !in keys
    ensures Housed(keys - {a}, values - {a}, blocks - {a}, {p} - {a})
  {
  }

  lemma HousedOne(keys: map<Addr, Key>, values: map<Addr, Value>, blocks: map<Addr, nat>, a: Addr)
    requires Housed(keys, values, blocks, {}) && a in keys
    ensures a in blocks && a in values && Housed(keys - {a}, values - {a}, blocks - {a}, {})
  {
  }

  lemma HousedCommitted(keys: map<Addr, Key>, values: map<Addr, Value>, blocks: map<Addr, nat>, p: Addr, key: Key)
    requires Housed(keys, values, blocks, {p})
    ensures Housed(keys[p := key], values, blocks, {})
  {
  }

  lemma Unflagged(flagged: set<Addr>, deadlines: map<Addr, int>, a: Addr)
    requires Flagged(flagged, deadlines)
    ensures Flagged(flagged - {a}, deadlines - {a})
    ensures a !in deadlines ==> deadlines - {a} == deadlines
  {
  }

  lemma TallyAbandoned(n: Nodes, heapSize: nat, t: Tally, p: Addr)
    requires Tallied(n, heapSize, t, {p}) && n.deadlines.Keys <= n.keys.Keys
    ensures p in t.blocks && p in n.values && t.tracked == Total(t.blocks) && p !in n.keys
    ensures Tallied(n.(values := n.values - {p}), heapSize,
                    t.(blocks := t.blocks - {p}, flagged := t.flagged - {p}, tracked := Total(t.blocks - {p})), {})
  {
    hide Total, Housed, Flagged;
    HousedLess(n.keys, n.values, t.blocks, p, p);
    Unflagged(t.flagged, n.deadlines, p);
    assert n.keys - {p} == n.keys && {p} - {p} == {};
  }

  lemma TallyErased(n: Nodes, heapSize: nat, t: Tally, a: Addr, n': Nodes, heapSize': nat, t': Tally)
    requires Tallied(n, heapSize, t, {}) && a in n.keys
    requires n'.keys == n.keys - {a} && n'.deadlines == n.deadlines - {a} && n'.values == n.values - {a}
    requires t'.blocks == t.blocks - {a} && t'.flagged == t.flagged - {a} && Counted(n', heapSize', t')
    ensures Tallied(n', heapSize', t', {})
  {
    hide Total, Housed;
    HousedOne(n.keys, n.values, t.blocks, a);
  }

  /** The nodes once `p` is committed for `key` in the place of `a`, if there is one. */
  function Committed(n: Nodes, a: Addr, p: Addr, key: Key, keep: bool): (r: Nodes)
  {
    if a == 0 then Nodes(n.keys[p := key], [p] + n.order, n.deadlines, n.values)
    else Nodes((n.keys - {a})[p := key], [p] + LruList.Without(n.order, a), Inherited(n.deadlines, a, p, keep), n.values - {a})
  }

  lemma TallyCommitted(n: Nodes, heapSize: nat, t: Tally, a: Addr, p: Addr, key: Key, keep: bool, heapSize': nat, t': Tally)
    requires Tallied(n, heapSize, t, {p}) && (a != 0 ==> a in n.keys)
    requires t'.blocks == (if a == 0 then t.blocks else t.blocks - {a})
    requires Flagged(t'.flagged, Committed(n, a, p, key, keep).deadlines) && Counted(Committed(n, a, p, key, keep), heapSize', t')
    ensures Tallied(Committed(n, a, p, key, keep), heapSize', t', {})
  {
    hide Counted, Housed, LruList.Without, Flagged;
    if a == 0 {
      HousedCommitted(n.keys, n.values, t.blocks, p, key);
    } else {
      HousedLess(n.keys, n.values, t.blocks, a, p);
      assert {p} - {a} == {p};
      HousedCommitted(n.keys - {a}, n.values - {a}, t.blocks - {a}, p, key);
    }
  }

  /** What committing does to the keyspace. */
  function Put(ks: Ks, key: Key, v: Value, keep: bool): (r: Ks)
  {
    ks[key := Entry(v, if keep then OldDeadline(ks, key) else None)]
  }

  function Revalued(ks: Ks, key: Key, v: Value): (r: Ks) { if key in ks then ks[key := ks[key].(value := v)] else ks }

  function Redated(ks: Ks, key: Key, d: Option<int>): (r: Ks) { if key in ks then ks[key := ks[key].(deadline := d)] else ks }

  lemma CommittedCoherent(n: Nodes, ks: Ks, recent: seq<Key>, a: Addr, p: Addr, key: Key, keep: bool)
    requires Coherent(n, ks, recent) && p in n.values && p !in n.keys
    requires a == 0 ==> forall b :: b in n.keys ==> n.keys[b] != key
    requires a != 0 ==> a in n.keys && n.keys[a] == key
    ensures Coherent(Committed(n, a, p, key, keep), Put(ks, key, n.values[p], keep), Recent(recent, key, true))
  {
    hide Coherent, Drop, LruList.Without;
    if a == 0 {
      Absent(n, ks, recent, key);
      Added(n, ks, recent, p, key, n.values[p]);
      assert n.values[p := n.values[p]] == n.values;
    } else {
      Present(n, ks, recent, a);
      Succeeded(n, ks, recent, a, p, n.values[p], keep);
      assert (n.values - {a})[p := n.values[p]] == n.values - {a};
    }
  }

  /**
    * What no operation changes: whether the log is being replayed, and how many of its records belong to
    * commands whose replies may have been sent.
    */
  class Status {
    var replaying: bool
    ghost var acked: nat

    constructor (replaying: bool, ghost acked: nat)
      ensures this.replaying == replaying && this.acked == acked
    {
      this.replaying, this.acked := replaying, acked;
    }
  }

  /**
    * Each block is live in the pool, in the smallest class that holds it, or is a region of its own; and
    * nothing else is live there.
    */
  ghost predicate Lent(blocks: map<Addr, nat>, live: map<Addr, nat>, others: set<Addr>, outstanding: map<Addr, nat>)
  {
    && (forall a :: a in blocks ==> a != 0 && LentAs(a, blocks[a], live, others, outstanding))
    && (forall a :: a in live ==> a in blocks && blocks[a] <= SizeClasses.LARGEST_CLASS)
  }

  ghost predicate LentAs(a: Addr, size: nat, live: map<Addr, nat>, others: set<Addr>, outstanding: map<Addr, nat>)
  {
    if size <= SizeClasses.LARGEST_CLASS then a in live && SizeClasses.Smallest(size, live[a])
    else a in others && a in outstanding && outstanding[a] == size
  }

  /** Every payload lies within its block. */
  ghost predicate Laid(keys: map<Addr, Key>, values: map<Addr, Value>, blocks: map<Addr, nat>, layouts: map<Addr, Layout>)
  {
    forall a :: a in keys ==> a in values && a in blocks && a in layouts && LiesIn(keys[a], values[a], layouts[a], blocks[a])
  }

  ghost predicate LiesIn(key: Key, v: Value, l: Layout, block: nat) { Lies(v, l, SizeClasses.Capacity(|key|, block)) }

  /** A payload that lies in a body lies in the block that is taken for the body. */
  lemma LiesInBlock(key: Key, v: Value, l: Layout, body: nat)
    requires Lies(v, l, body)
    ensures LiesIn(key, v, l, SizeClasses.BlockSize(|key|, body))
    ensures SizeClasses.Capacity(|key|, SizeClasses.BlockSize(|key|, body)) >= body
  {
    hide SizeClasses.BlockSize, Lies, SizeClasses.Capacity;
    SizeClasses.BlockHoldsBody(|key|, body);
    LiesWider(v, l, body, SizeClasses.Capacity(|key|, SizeClasses.BlockSize(|key|, body)));
  }

  lemma ListThere(key: Key, items: seq<Element>, l: Layout, block: nat)
    requires LiesIn(key, List(items), l, block)
    ensures Runs(l, items)
  {
  }

  lemma LaidAt(keys: map<Addr, Key>, values: map<Addr, Value>, blocks: map<Addr, nat>, layouts: map<Addr, Layout>, a: Addr)
    requires Laid(keys, values, blocks, layouts) && a in keys
    ensures a in values && a in blocks && a in layouts && LiesIn(keys[a], values[a], layouts[a], blocks[a])
  {
  }

  lemma LaidCreated(keys: map<Addr, Key>, values: map<Addr, Value>, blocks: map<Addr, nat>, layouts: map<Addr, Layout>,
                    p: Addr, v: Value, block: nat, l: Layout)
    requires Laid(keys, values, blocks, layouts) && p !in keys
    ensures Laid(keys, values[p := v], blocks[p := block], layouts[p := l])
    ensures Laid(keys, values - {p}, blocks - {p}, layouts - {p})
  {
    hide LiesIn;
  }

  lemma LaidErased(keys: map<Addr, Key>, values: map<Addr, Value>, blocks: map<Addr, nat>, layouts: map<Addr, Layout>, a: Addr)
    requires Laid(keys, values, blocks, layouts)
    ensures Laid(keys - {a}, values - {a}, blocks - {a}, layouts - {a})
  {
    hide LiesIn;
  }

  lemma LaidCommitted(n: Nodes, blocks: map<Addr, nat>, layouts: map<Addr, Layout>, a: Addr, p: Addr, key: Key, keep: bool)
    requires Laid(n.keys, n.values, blocks, layouts) && p !in n.keys && (a != 0 ==> a in n.keys)
    requires p in n.values && p in blocks && p in layouts && LiesIn(key, n.values[p], layouts[p], blocks[p])
    ensures var m := Committed(n, a, p, key, keep);
            if a == 0 then Laid(m.keys, m.values, blocks, layouts) else Laid(m.keys, m.values, blocks - {a}, layouts - {a})
  {
    hide LiesIn;
  }

  lemma LaidMoved(keys: map<Addr, Key>, values: map<Addr, Value>, blocks: map<Addr, nat>, layouts: map<Addr, Layout>,
                  a: Addr, b: Addr, block: nat)
    requires Laid(keys, values, blocks, layouts) && a in keys && a in values && a in layouts && b !in keys && a != b
    requires LiesIn(keys[a], values[a], layouts[a], block)
    ensures Laid((keys - {a})[b := keys[a]], (values - {a})[b := values[a]], blocks[b := block] - {a},
              (layouts - {a})[b := layouts[a]])
  {
    hide LiesIn;
  }

  lemma LaidAssigned(keys: map<Addr, Key>, values: map<Addr, Value>, blocks: map<Addr, nat>, layouts: map<Addr, Layout>,
                     a: Addr, v: Value, l: Layout)
    requires Laid(keys, values, blocks, layouts) && a in keys && a in blocks && LiesIn(keys[a], v, l, blocks[a])
    ensures Laid(keys, values[a := v], blocks, layouts[a := l])
  {
    hide LiesIn;
  }

  /** A small block and a large one are never at the same place. */
  lemma NotBoth(pool: Slab.SlabPool, a: Addr)
    requires pool.Valid() && a in pool.live
    ensures a in pool.others ==> a in pool.memory.outstanding && pool.memory.outstanding[a] == 0
  {
    hide Slab.SlabPool.Valid;
    if a in pool.others {
      Slab.LiveMemoryApart(pool, a, a);
    }
  }

  lemma LentMore(blocks: map<Addr, nat>, live: map<Addr, nat>, others: set<Addr>, outstanding: map<Addr, nat>, p: Addr,
                 block: nat,
                 live': map<Addr, nat>, others': set<Addr>, outstanding': map<Addr, nat>)
    requires Lent(blocks, live, others, outstanding) && p != 0 && LentAs(p, block, live', others', outstanding')
    requires if block <= SizeClasses.LARGEST_CLASS then p !in live && live' == live[p := live'[p]] && others' == others
             else live' == live && others' == others + {p} && p !in others
    requires forall q :: q in others && q in outstanding && q in others' ==>
              q in outstanding' && outstanding'[q] == outstanding[q]
    requires p in live' && p in others' ==> p in outstanding' && outstanding'[p] == 0
    ensures p !in blocks && Lent(blocks[p := block], live', others', outstanding')
  {
    hide SizeClasses.Smallest;
  }

  lemma LentLess(blocks: map<Addr, nat>, live: map<Addr, nat>, others: set<Addr>, outstanding: map<Addr, nat>, a: Addr,
                 live': map<Addr, nat>, others': set<Addr>, outstanding': map<Addr, nat>)
    requires Lent(blocks, live, others, outstanding) && a in blocks
    requires if blocks[a] <= SizeClasses.LARGEST_CLASS then live' == live - {a} && others' == others
             else live' == live && others' == others - {a} && a !in live
    requires forall q :: q in others && q in outstanding && q in others' ==>
              q in outstanding' && outstanding'[q] == outstanding[q]
    ensures Lent(blocks - {a}, live', others', outstanding')
  {
    hide SizeClasses.Smallest;
  }

  class Database {
    const table: Buckets
    const lru: LruList.List
    const expiry: Index
    const wal: LogFile.WriteAheadLog
    const status: Status
    const world: World
    const pool: Slab.SlabPool
    const memory: Slab.MemoryResource
    ghost const offset: int
    var values: map<Addr, Value>   // the payload of each node
    var layouts: map<Addr, Layout> // how it lies there
    var blocks: map<Addr, nat>     // the block of each node, and of a node not committed yet
    var flagged: set<Addr>         // the nodes whose TTL flag is set
    var trackedBytes: nat
    var keyTotal: nat
    var keyHint: nat
    var ttlCount: nat
    var ttlHint: bool
    ghost var ks: Ks               // what is stored
    ghost var recent: seq<Key>     // and in which order it was last used

    ghost function View(): (n: Nodes)
      reads this, table, lru, expiry
    {
      Nodes(table.keys, lru.order, Deadlines(expiry.expiries), values)
    }

    ghost function Counts(): (t: Tally)
      reads this
    {
      Tally(blocks, flagged, trackedBytes, keyTotal, keyHint, ttlCount, ttlHint)
    }

    ghost function Now(): (s: State)
      reads this, wal, status, world
    {
      State(ks, wal.attempted, recent, wal.failed, status.acked, world.Dealt())
    }

    /** The block of the key, once it is given back, is of no use for an integer, and there is no other, nor any memory. */
    ghost predicate Starving(key: Key, now: int)
      reads this, table, wal, status, world, pool
    {
      && !Replaying() && Expired(ks, key, now) && !wal.failed
      && |key| <= MAX_KEY && wal.capacity >= 14 + |key| && !world.memory(world.asked)
      && Slab.NoneFree(pool.freeLists, SizeClasses.BlockSize(|key|, 8))
      && (forall a :: a in table.keys && table.keys[a] == key && a in blocks ==>
         OtherClass(SizeClasses.BlockSize(|key|, 8), blocks[a]))
    }

    ghost function Written(): (j: Journal)
      reads wal, world
    {
      Journal(wal.attempted, wal.failed, world.Dealt())
    }

    predicate Replaying()
      reads status
    {
      status.replaying
    }

    /** The node has the key, and holds what is stored under it. */
    ghost predicate NodeAt(a: Addr, key: Key)
      reads this, table
    {
      && a in table.keys && table.keys[a] == key && a in values && a in blocks && a in layouts
         && LiesIn(key, values[a], layouts[a], blocks[a])
      && key in ks && ks[key].value == values[a]
    }

    /** The lookup that begins `op` in `s0` has found the node `a`, or none. */
    ghost predicate Found(op: Op, c: Clock, a: Addr, s0: State)
      reads this, table, lru, expiry, wal, status, pool, memory, world
    {
      && Valid() && ClockOk(c) && c.offset == offset && IsWrite(op) && Refused(op).None? && |op.key| <= MAX_KEY
      && Begun(Replaying(), s0, op.key, c.now, Now()) && Good(Applied(Replaying(), ks, op, c).ks, offset)
      && Drop(recent, op.key) == Drop(s0.recent, op.key) && recent == Recent(s0.recent, op.key, op.key in ks)
      && (a == 0 <==> op.key !in ks) && (a != 0 ==> NodeAt(a, op.key))
    }

    /** There is no memory for the record that says that the key has expired. */
    ghost predicate Tight(key: Key, now: int)
      reads this, wal, status, world
    {
      && !Replaying() && Expired(ks, key, now) && !wal.failed
      && wal.capacity < 14 + |key| && !world.memory(world.asked)
    }

    ghost predicate Parts()
      reads table, lru, expiry, wal, status
    {
      table.Valid() && lru.Valid() && expiry.Valid() && wal.Valid() && status.acked <= wal.durable
    }

    /** The pool has lent exactly the blocks of the nodes. */
    ghost predicate Lodged()
      reads this`blocks, pool, memory
    {
      pool.memory == memory && pool.Valid() && memory.limit == world.limit
        && Lent(blocks, pool.live, pool.others, pool.memory.outstanding)
    }

    /** Every structure describes the same nodes, which hold the keyspace. */
    ghost predicate Holding(pending: set<Addr>)
      reads this, table, lru, expiry, wal, status, pool, memory
    {
      Parts() && Lodged() && Laid(table.keys, values, blocks, layouts) && Tallied(View(), |expiry.heap|, Counts(), pending)
        && Coherent(View(), ks, recent) && Good(ks, offset)
    }

    ghost predicate Valid()
      reads this, table, lru, expiry, wal, status, pool, memory
    {
      Holding({})
    }

    constructor (hash: Key -> nat, wal: LogFile.WriteAheadLog, world: World, replaying: bool, ghost offset: int, ghost acked: nat)
      requires wal.Valid() && acked <= wal.durable
      ensures Valid() && ks == map[] && recent == [] && this.wal == wal && this.world == world && this.offset == offset
      ensures fresh(table) && fresh(lru) && fresh(expiry) && fresh(pool) && fresh(memory) && fresh(status)
      ensures Replaying() == replaying && status.acked == acked
    {
      hide Buckets.Valid, Index.Valid, LruList.List.Valid, LogFile.WriteAheadLog.Valid, Slab.SlabPool.Valid,
        Slab.MemoryResource.Valid, Coherent, Tallied, Good, Lent, Laid;
      table := new Buckets(hash);
      lru := new LruList.List();
      expiry := new Index();
      status := new Status(replaying, acked);
      var budget := new Slab.MemoryResource(world.limit);
      memory := budget;
      pool := new Slab.SlabPool(budget);
      this.wal, this.world, this.offset := wal, world, offset;
      values, layouts, blocks, flagged, trackedBytes := map[], map[], map[], {}, 0;
      keyTotal, keyHint, ttlCount, ttlHint := 0, 0, 0, false;
      ks, recent := map[], [];
      NothingStored(offset);
      NothingLent(budget.outstanding);
      NothingLaid();
    }

    // ---------- nodes ----------

    /** A block from the pool. */
    method TakeBlock(block: nat) returns (p: Addr)
      requires Lodged() && trackedBytes == Total(blocks)
      modifies this`blocks, this`trackedBytes, pool, memory, world
      ensures Lodged() && trackedBytes == Total(blocks)
      ensures p == 0 ==> blocks == old(blocks) && trackedBytes == old(trackedBytes) && Denied(old(world.Dealt()), world.Dealt())
      ensures p != 0 ==>
                p !in old(blocks) && blocks == old(blocks)[p := block] && trackedBytes == old(trackedBytes) + block
                && Fine(old(world.Dealt()), world.Dealt())
      ensures old(Slab.NoneFree(pool.freeLists, block)) && !world.memory(old(world.asked)) ==> p == 0
      ensures world.Dealt().faults == old(world.Dealt().faults)
    {
      hide Slab.SlabPool.Valid, Slab.NoneFree, Total, Lent, SizeClasses.Smallest;
      ghost var live, others, outstanding := pool.live, pool.others, pool.memory.outstanding;
      p := pool.Allocate(block, world);
      if p == 0 {
        LentStill(blocks, live, others, outstanding, pool.memory.outstanding);
        return;
      }
      if p in pool.live {
        NotBoth(pool, p);
      }
      LentMore(blocks, live, others, outstanding, p, block, pool.live, pool.others, pool.memory.outstanding);
      TotalWith(blocks, p, block);
      trackedBytes := trackedBytes + block;
      blocks := blocks[p := block];
    }

    /** The block goes back to the pool. */
    method GiveBlock(a: Addr)
      requires Lodged() && a in blocks && trackedBytes == Total(blocks)
      modifies this`blocks, this`trackedBytes, pool, memory
      ensures Lodged() && trackedBytes == Total(blocks) && blocks == old(blocks) - {a}
      ensures forall size :: old(Slab.NoneFree(pool.freeLists, size)) && OtherClass(size, old(blocks)[a]) ==>
                Slab.NoneFree(pool.freeLists, size)
    {
      hide Slab.SlabPool.Valid, Slab.NoneFree, Total, Lent, SizeClasses.Smallest, OtherClass;
      ghost var live, others, outstanding, lists := pool.live, pool.others, pool.memory.outstanding, pool.freeLists;
      LentIs(blocks, live, others, outstanding, a);
      pool.Deallocate(a, blocks[a]);
      LentLess(blocks, live, others, outstanding, a, pool.live, pool.others, pool.memory.outstanding);
      StillBarren(pool, lists, blocks[a]);
      TotalWithout(blocks, a);
      trackedBytes := trackedBytes - blocks[a];
      blocks := blocks - {a};
    }

    /** `create_node`: a node that is not linked anywhere yet. */
    method CreateNode(key: Key, v: Value, l: Layout, body: nat) returns (p: Addr)
      requires Valid() && |key| <= MAX_KEY && body <= MAX_BODY && Lies(v, l, body)
      modifies this`values, this`layouts, this`blocks, this`trackedBytes, pool, memory, world
      ensures p == 0 ==> Valid() && values == old(values) && blocks == old(blocks) && layouts == old(layouts)
      ensures p != 0 ==> Holding({p}) && p !in old(blocks) && values == old(values)[p := v] && layouts == old(layouts)[p := l]
      ensures p != 0 ==> blocks == old(blocks)[p := SizeClasses.BlockSize(|key|, body)]
      ensures if p != 0 then Fine(old(world.Dealt()), world.Dealt()) else Denied(old(world.Dealt()), world.Dealt())
      ensures old(Slab.NoneFree(pool.freeLists, SizeClasses.BlockSize(|key|, body))) && !world.memory(old(world.asked)) ==> p == 0
    {
      hide Lodged, Laid, Coherent, Tallied, Good, Parts, Deadlines, SizeClasses.BlockSize, Total, Lies, World.Dealt,
        Fine, Denied, Slab.NoneFree;
      ghost var n, heap, t := View(), |expiry.heap|, Counts();
      var block := SizeClasses.BlockSize(|key|, body);
      BlockInRange(|key|, body);
      TalliedTotal(n, heap, t, {});
      p := TakeBlock(block);
      if p == 0 {
        return;
      }
      TallyCreated(n, heap, t, p, v, block);
      OtherValues(n, ks, recent, values[p := v]);
      LaidCreated(n.keys, n.values, t.blocks, layouts, p, v, block, l);
      values, layouts := values[p := v], layouts[p := l];
    }

    /** `destroy`: the block goes back to the pool. */
    method Destroy(a: Addr)
      requires Lodged() && a in blocks && a in values && trackedBytes == Total(blocks)
      modifies this`values, this`layouts, this`blocks, this`flagged, this`trackedBytes, pool, memory
      ensures Lodged() && values == old(values) - {a} && layouts == old(layouts) - {a} && blocks == old(blocks) - {a}
                && flagged == old(flagged) - {a}
      ensures trackedBytes == Total(blocks)
      ensures forall size :: old(Slab.NoneFree(pool.freeLists, size)) && OtherClass(size, old(blocks)[a]) ==>
                Slab.NoneFree(pool.freeLists, size)
    {
      hide Lodged, Laid, Total;
      GiveBlock(a);
      values, layouts, flagged := values - {a}, layouts - {a}, flagged - {a};
    }

    /** A node that was never committed is destroyed when its operation fails. */
    method Abandon(p: Addr)
      requires Holding({p})
      modifies this`values, this`layouts, this`blocks, this`flagged, this`trackedBytes, pool, memory
      ensures Valid()
    {
      hide Lodged, Laid, Coherent, Tallied, Good, Parts, Deadlines, Total;
      NodesAreOne(View(), ks, recent);
      TallyAbandoned(View(), |expiry.heap|, Counts(), p);
      OtherValues(View(), ks, recent, values - {p});
      PendingIsNew(View(), |expiry.heap|, Counts(), p);
      LaidCreated(table.keys, values, blocks, layouts, p, Int(0), 0, Plain([]));
      Destroy(p);
    }

    /** `clear_expiry`. */
    method ClearExpiry(a: Addr)
      requires expiry.Valid() && ttlCount == |expiry.heap| && ttlHint == (ttlCount != 0)
      modifies expiry, this`flagged, this`ttlCount, this`ttlHint
      ensures expiry.Valid() && ttlCount == |expiry.heap| && ttlHint == (ttlCount != 0)
      ensures Deadlines(expiry.expiries) == old(Deadlines(expiry.expiries)) - {a}
      ensures flagged == if a in old(Deadlines(expiry.expiries)) then old(flagged) - {a} else old(flagged)
    {
      hide Index.Valid;
      if a !in expiry.expiries {
        expiry.Clear(a);
        assert Deadlines(expiry.expiries) - {a} == Deadlines(expiry.expiries);
        return;
      }
      expiry.Clear(a);
      flagged := flagged - {a};
      ttlCount := |expiry.heap|;
      ttlHint := ttlCount != 0;
    }

    /** The node is taken out of the expiry index, the list and its chain. */
    method Unindex(a: Addr)
      requires Parts() && a in table.keys && a in lru.order && ttlCount == |expiry.heap| && ttlHint == (ttlCount != 0)
      requires keyTotal == |table.keys|
      modifies table, lru, expiry, this`flagged, this`ttlCount, this`ttlHint, this`keyTotal, this`keyHint
      ensures keyTotal == keyHint == |table.keys|
      ensures Parts() && table.keys == old(table.keys) - {a} && lru.order == LruList.Without(old(lru.order), a)
      ensures Deadlines(expiry.expiries) == old(Deadlines(expiry.expiries)) - {a}
      ensures ttlCount == |expiry.heap| && ttlHint == (ttlCount != 0) && flagged - {a} == old(flagged) - {a}
    {
      hide Buckets.Valid, Index.Valid, LruList.List.Valid, LogFile.WriteAheadLog.Valid, Deadlines, LruList.Without;
      Smaller(table.keys, a);
      ClearExpiry(a);
      lru.Unlink(a);
      table.Unlink(a);
      keyTotal := keyTotal - 1;
      keyHint := keyTotal;
    }

    /** `erase_node`. */
    method EraseNode(a: Addr)
      requires Parts() && Lodged() && a in table.keys && a in lru.order && a in blocks && a in values
      requires keyTotal == |table.keys| && trackedBytes == Total(blocks)
      requires ttlCount == |expiry.heap| && ttlHint == (ttlCount != 0)
      modifies this, table, lru, expiry, pool, memory
      ensures ks == old(ks) && recent == old(recent)
      ensures Parts() && Lodged() && table.keys == old(table.keys) - {a} && lru.order == LruList.Without(old(lru.order), a)
      ensures Deadlines(expiry.expiries) == old(Deadlines(expiry.expiries)) - {a}
      ensures values == old(values) - {a} && layouts == old(layouts) - {a} && blocks == old(blocks) - {a}
                && flagged == old(flagged) - {a}
      ensures keyTotal == keyHint == |table.keys| && trackedBytes == Total(blocks)
      ensures ttlCount == |expiry.heap| && ttlHint == (ttlCount != 0)
      ensures forall size :: old(Slab.NoneFree(pool.freeLists, size)) && OtherClass(size, old(blocks)[a]) ==>
                Slab.NoneFree(pool.freeLists, size)
    {
      hide Lodged, Laid, Parts, Total, Deadlines, LruList.Without;
      Unindex(a);
      Destroy(a);
    }

    /** A committed node is erased. */
    method Erase(a: Addr)
      requires Valid() && a in table.keys
      modifies this, table, lru, expiry, pool, memory
      ensures Valid() && ks == old(ks) - {old(table.keys)[a]} && recent == Drop(old(recent), old(table.keys)[a])
      ensures forall size :: old(Slab.NoneFree(pool.freeLists, size)) && a in old(blocks) && OtherClass(size, old(blocks)[a]) ==>
                Slab.NoneFree(pool.freeLists, size)
    {
      hide Lodged, Laid, Coherent, Tallied, Good, Parts, Deadlines, Total, LruList.Without, Drop;
      ghost var n, heap, t := View(), |expiry.heap|, Counts();
      Present(n, ks, recent, a);
      Erased(n, ks, recent, a);
      FewerGood(ks, offset, table.keys[a]);
      TalliedIn(n, heap, t, a);
      LaidErased(n.keys, n.values, t.blocks, layouts, a);
      EraseNode(a);
      TallyErased(n, heap, t, a, View(), |expiry.heap|, Counts());
      ks, recent := ks - {n.keys[a]}, Drop(recent, n.keys[a]);
    }

    /** Link a created node into its chain and make it the most recently used. */
    method Adopt(p: Addr, key: Key)
      requires Parts() && p !in table.keys && p !in lru.order && p != 0 && keyTotal == |table.keys|
      requires forall b :: b in table.keys ==> table.keys[b] != key
      modifies table, lru, this`keyTotal, this`keyHint
      ensures Parts() && table.keys == old(table.keys)[p := key] && lru.order == [p] + old(lru.order)
      ensures keyTotal == keyHint == |table.keys|
    {
      hide Buckets.Valid, Index.Valid, LruList.List.Valid, LogFile.WriteAheadLog.Valid, LruList.Without;
      Larger(table.keys, p, key);
      ListAsIs(lru, p);
      table.Link(p, key);
      lru.Touch(p);
      keyTotal := keyTotal + 1;
      keyHint := keyTotal;
    }

    /** `commit_node`: the created node takes the place of `a`, if there is one, and is the most recently used. */
    method CommitNode(a: Addr, p: Addr, key: Key, keep: bool)
      requires Holding({p}) && p in values && p in blocks && p in layouts && LiesIn(key, values[p], layouts[p], blocks[p])
      requires a == 0 ==> forall b :: b in table.keys ==> table.keys[b] != key
      requires a != 0 ==> a in table.keys && table.keys[a] == key
      requires Good(Put(ks, key, values[p], keep), offset)
      modifies this, table, lru, expiry, pool, memory
      ensures Valid() && ks == Put(old(ks), key, old(values)[p], keep) && recent == Recent(old(recent), key, true)
    {
      hide Lodged, Laid, Coherent, Tallied, Good, Parts, Deadlines, Recent, Put, Committed, Counted, Flagged, LiesIn;
      ghost var n, heap, t := View(), |expiry.heap|, Counts();
      BeforeCommit(n, heap, t, ks, recent, a, p);
      CommittedCoherent(n, ks, recent, a, p, key, keep);
      PendingIsNew(n, heap, t, p);
      LaidCommitted(n, t.blocks, layouts, a, p, key, keep);
      Swap(a, p, key, keep, ks, recent);
      TallyCommitted(n, heap, t, a, p, key, keep, |expiry.heap|, Counts());
      ks, recent := Put(ks, key, n.values[p], keep), Recent(recent, key, true);
    }

    /** The same on the structures themselves. */
    method Swap(a: Addr, p: Addr, key: Key, keep: bool, ghost ks0: Ks, ghost recent0: seq<Key>)
      requires Parts() && Lodged() && Coherent(View(), ks0, recent0) && Counted(View(), |expiry.heap|, Counts())
      requires p != 0 && p !in table.keys && p !in lru.order && p !in Deadlines(expiry.expiries)
      requires Flagged(flagged, Deadlines(expiry.expiries))
      requires a == 0 ==> forall b :: b in table.keys ==> table.keys[b] != key
      requires a != 0 ==> a in table.keys && table.keys[a] == key && a in lru.order && a in blocks && a in values
      modifies this, table, lru, expiry, pool, memory
      ensures ks == old(ks) && recent == old(recent) && Parts() && Lodged()
      ensures View() == Committed(old(View()), a, p, key, keep) && Counted(View(), |expiry.heap|, Counts())
      ensures Flagged(flagged, Deadlines(expiry.expiries))
      ensures blocks == (if a == 0 then old(blocks) else old(blocks) - {a})
                && layouts == if a == 0 then old(layouts) else old(layouts) - {a}
    {
      hide Lodged, Laid, Coherent, Parts, Deadlines, LruList.Without, Inherited, Total, Flagged;
      ghost var n := View();
      if a != 0 {
        Inherit(a, p, keep);
        EraseNode(a);
        AfterErase(n, ks0, recent0, a, p);
      }
      Adopt(p, key);
    }

    /** The first part of `commit_node`: the deadline of `a` becomes that of `p`. */
    method Inherit(a: Addr, p: Addr, keep: bool)
      requires Parts() && p !in Deadlines(expiry.expiries) && Flagged(flagged, Deadlines(expiry.expiries))
      modifies expiry, this`flagged
      ensures Parts() && |expiry.heap| == old(|expiry.heap|)
      ensures Deadlines(expiry.expiries) - {a} == Inherited(old(Deadlines(expiry.expiries)), a, p, keep)
      ensures Flagged(flagged - {a}, Deadlines(expiry.expiries) - {a})
    {
      hide Buckets.Valid, Index.Valid, LruList.List.Valid, LogFile.WriteAheadLog.Valid;
      ghost var before := Deadlines(expiry.expiries);
      if keep && a in flagged {
        expiry.Rekey(a, p);
        flagged := flagged + {p};
      }
    }

    /** `grow_node`: a larger or smaller block with the same contents, in the same place everywhere. */
    method GrowNode(a: Addr, body: nat) returns (b: Addr)
      requires Valid() && a in table.keys && body <= MAX_BODY && a in values && a in layouts && Lies(values[a], layouts[a], body)
      modifies this, table, lru, expiry, pool, memory, world
      ensures Valid() && ks == old(ks) && recent == old(recent)
      ensures b == 0 ==>
                table.keys == old(table.keys) && values == old(values) && blocks == old(blocks) && layouts == old(layouts)
      ensures b != 0 ==> table.keys == (old(table.keys) - {a})[b := old(table.keys)[a]] && b in values
      ensures b != 0 ==> values[b] == old(values)[a] && b in layouts && layouts[b] == old(layouts)[a] && b in blocks
      ensures b != 0 ==> SizeClasses.Capacity(|old(table.keys)[a]|, blocks[b]) >= body
      ensures if b != 0 then Fine(old(world.Dealt()), world.Dealt()) else Denied(old(world.Dealt()), world.Dealt())
    {
      hide Lodged, Laid, Coherent, Tallied, Good, Parts, Deadlines, SizeClasses.BlockSize, Total, Counted, Flagged,
        Housed, Inherited, Lies, LiesIn, SizeClasses.Capacity;
      ghost var n, heap, t := View(), |expiry.heap|, Counts();
      Present(n, ks, recent, a);
      var block := SizeClasses.BlockSize(|table.keys[a]|, body);
      KeyInRange(ks, table.keys[a], offset);
      BlockInRange(|table.keys[a]|, body);
      TalliedIn(n, heap, t, a);
      LiesInBlock(table.keys[a], values[a], layouts[a], body);
      b := TakeBlock(block);
      if b == 0 {
        return;
      }
      Move(a, b, block, n, heap, t);
    }

    /** Everything moves to the block `b`, which was just taken. */
    method Move(a: Addr, b: Addr, block: nat, ghost n: Nodes, ghost heap: nat, ghost t: Tally)
      requires Parts() && Lodged() && Good(ks, offset) && b != 0 && a in table.keys && b !in t.blocks
      requires a in values && a in layouts && LiesIn(table.keys[a], values[a], layouts[a], block)
      requires Laid(table.keys, values, t.blocks, layouts)
      requires n == View() && heap == |expiry.heap| && Tallied(n, heap, t, {}) && Coherent(n, ks, recent)
      requires trackedBytes == Total(blocks) && Counts() == t.(blocks := t.blocks[b := block], tracked := trackedBytes)
      modifies this, table, lru, expiry, pool, memory
      ensures Valid() && ks == old(ks) && recent == old(recent)
      ensures table.keys == (old(table.keys) - {a})[b := old(table.keys)[a]]
      ensures a in old(values) && values == (old(values) - {a})[b := old(values)[a]]
      ensures layouts == (old(layouts) - {a})[b := old(layouts)[a]] && blocks == t.blocks[b := block] - {a}
    {
      hide Lodged, Laid, Coherent, Tallied, Good, Parts, Deadlines, Total, Inherited, Flagged, LiesIn, OtherClass, Slab.NoneFree;
      ghost var was := layouts;
      BeforeMove(n, heap, t, ks, recent, a, b);
      Repoint(a, b);
      MovePayload(a, b);
      MovedAll(n, heap, t, was, ks, recent, a, b, block, lru.order, Counts());
    }

    /** The contents move, and the old block goes back. */
    method MovePayload(a: Addr, b: Addr)
      requires a in values && a in blocks && Lodged() && trackedBytes == Total(blocks)
      modifies this`values, this`layouts, this`blocks, this`trackedBytes, pool, memory
      ensures Lodged() && trackedBytes == Total(blocks) && blocks == old(blocks) - {a}
      ensures values == (old(values) - {a})[b := old(values)[a]] && layouts == MovedLayouts(old(layouts), a, b)
    {
      hide Lodged, Total, OtherClass, Slab.NoneFree;
      values, layouts := (values - {a})[b := values[a]], MovedLayouts(layouts, a, b);
      GiveBlock(a);
    }

    /** Everything that pointed at `a` points at `b`. */
    method Repoint(a: Addr, b: Addr)
      requires Parts() && a in table.keys && b !in table.keys && a in lru.order && b !in lru.order && b != 0
      requires b !in Deadlines(expiry.expiries) && Flagged(flagged, Deadlines(expiry.expiries))
      modifies table, lru, expiry, this`flagged
      ensures Parts() && table.keys == (old(table.keys) - {a})[b := old(table.keys)[a]]
      ensures |lru.order| == |old(lru.order)|
      ensures forall i :: 0 <= i < |lru.order| ==> lru.order[i] == if old(lru.order)[i] == a then b else old(lru.order)[i]
      ensures Deadlines(expiry.expiries) == Inherited(old(Deadlines(expiry.expiries)), a, b, true)
      ensures |expiry.heap| == old(|expiry.heap|) && Flagged(flagged, Deadlines(expiry.expiries))
    {
      hide Buckets.Valid, Index.Valid, LruList.List.Valid, LogFile.WriteAheadLog.Valid, Deadlines;
      ghost var before := Deadlines(expiry.expiries);
      FlagsAre(expiry.expiries);
      lru.Replace(a, b);
      if a in flagged {
        expiry.Rekey(a, b);
        flagged := flagged - {a} + {b};
      } else {
        assert before - {a} == before;
      }
      table.Replace(a, b);
    }

    // ---------- looking keys up ----------

    /** `find_node` is lookup in the keyspace. */
    method FindNode(key: Key) returns (a: Addr)
      requires Valid()
      ensures a == 0 <==> key !in ks
      ensures a != 0 ==>
                a in table.keys && table.keys[a] == key && a in values
                && ks[key] == EntryOf(Deadlines(expiry.expiries), values, a)
    {
      hide Lodged, Laid, Coherent, Tallied, Good, Buckets.Valid, Index.Valid, LruList.List.Valid, LogFile.WriteAheadLog.Valid;
      a := table.Find(key);
      if a == 0 {
        Absent(View(), ks, recent, key);
      } else {
        Present(View(), ks, recent, a);
      }
    }

    method Touch(a: Addr)
      requires Valid() && a in table.keys
      modifies lru, this`recent
      ensures Valid() && recent == Recent(old(recent), table.keys[a], true)
    {
      hide Lodged, Laid, Coherent, Tallied, Good, Buckets.Valid, Index.Valid, LruList.List.Valid,
        LogFile.WriteAheadLog.Valid, Recent, LruList.Without;
      Retouched(View(), ks, recent, a);
      NodeIsNotNull(View(), ks, recent, lru, a);
      TallyReordered(View(), |expiry.heap|, Counts(), [a] + LruList.Without(lru.order, a));
      lru.Touch(a);
      recent := Recent(recent, table.keys[a], true);
    }

    method IsExpired(a: Addr, now: int) returns (r: bool)
      requires Valid() && a in table.keys
      ensures r == Expired(ks, table.keys[a], now)
    {
      hide Lodged, Laid, Coherent, Counted, Housed, Good, Parts;
      Present(View(), ks, recent, a);
      r := a in flagged && expiry.expiries[a].deadline <= now;
    }

    /** `find_active`: an expired node is as good as absent, and is not touched. */
    method FindActive(key: Key, now: int) returns (a: Addr)
      requires Valid()
      modifies lru, this`recent
      ensures Valid() && (a == 0 <==> key !in ks || (Expired(ks, key, now) && !Replaying()))
      ensures a != 0 ==>
                a in table.keys && table.keys[a] == key && a in values
                && ks[key] == EntryOf(Deadlines(expiry.expiries), values, a)
      ensures recent == if a == 0 then old(recent) else Recent(old(recent), key, true)
    {
      hide Valid, Expired, Recent, Deadlines, EntryOf;
      a := FindNode(key);
      if a == 0 {
        MissingIsNotExpired(ks, key, now);
        return;
      }
      var expired := IsExpired(a, now);
      if expired && !status.replaying {
        return 0;
      }
      Touch(a);
    }

    /** An expired node goes, after its deletion is logged. */
    method Bury(a: Addr, key: Key) returns (o: LogFile.Outcome)
      requires Valid() && a in table.keys && table.keys[a] == key && |key| <= MAX_KEY
      modifies this, table, lru, expiry, pool, memory, wal, world
      ensures Valid() && o != LogFile.TooLarge && Wrote(o, old(Written()), Written(), [DelRecord(key)])
      ensures if o == LogFile.Logged then ks == old(ks) - {key} && recent == Drop(old(recent), key)
              else ks == old(ks) && recent == old(recent)
      ensures o == LogFile.NoMemory <==> !old(wal.failed) && old(wal.capacity) < 14 + |key| && !world.memory(old(world.asked))
      ensures old(wal.capacity) >= 14 + |key| ==> world.asked == old(world.asked)
      ensures o == LogFile.Logged ==> !old(wal.failed)
      ensures forall size :: old(Slab.NoneFree(pool.freeLists, size)) && a in old(blocks) && OtherClass(size, old(blocks)[a]) ==>
                Slab.NoneFree(pool.freeLists, size)
    {
      hide Lodged, Laid, Coherent, Tallied, Good, Buckets.Valid, Index.Valid, LruList.List.Valid,
        LogFile.WriteAheadLog.Valid, Drop, Fits, Slab.NoneFree, OtherClass, World.Dealt, Fine, Denied, Faulted;
      CrashRecovery.SmallRecordsFit(key, [], Number(0), false, 0);
      DelSize(key);
      o := wal.Append(DelRecord(key), world);
      if o == LogFile.Logged {
        Erase(a);
      }
    }

    /** `find_writable`: an expired node is deleted first, and the deletion logged before it happens. */
    method FindWritable(key: Key, now: int) returns (a: Addr, stop: Option<Result>)
      requires Valid()
      modifies this, table, lru, expiry, pool, memory, wal, world
      ensures Valid()
      ensures stop.None? ==> |key| <= MAX_KEY && Begun(Replaying(), old(Now()), key, now, Now()) && !old(Tight(key, now))
      ensures stop.None? ==> (a == 0 <==> key !in ks) && (a != 0 ==> a in table.keys && table.keys[a] == key)
      ensures stop.Some? && stop.value.Replied? ==> |key| > MAX_KEY && stop.value.reply == Failed(TooLarge) && Now() == old(Now())
      ensures stop.Some? && !stop.value.Replied? ==>
                |key| <= MAX_KEY && !Replaying() && Stopped(stop.value, old(Now()), Now(), key, now, old(Tight(key, now)))
      ensures old(Starving(key, now)) && stop.None? ==>
                a == 0 && !world.memory(world.asked) && Slab.NoneFree(pool.freeLists, SizeClasses.BlockSize(|key|, 8))
    {
      hide Lodged, Laid, Coherent, Tallied, Good, Parts, Drop, Fits, Slab.NoneFree, OtherClass, World.Dealt,
        SizeClasses.BlockSize, Wrote, Begun, Stopped, Fine, Denied, Faulted;
      a, stop := 0, None;
      ghost var s0, tight := Now(), Tight(key, now);
      if |key| > MAX_KEY {
        return 0, Some(Replied(Failed(TooLarge)));
      }
      a := FindNode(key);
      if a == 0 {
        NotThere(View(), ks, recent, key);
        NothingToBury(status.replaying, s0, key, now, Now());
        return;
      }
      var expired := IsExpired(a, now);
      if !expired || status.replaying {
        Touch(a);
        NothingToBury(status.replaying, s0, key, now, Now());
        return;
      }
      TalliedIn(View(), |expiry.heap|, Counts(), a);
      var o := Bury(a, key);
      Buried(o, s0, key, now, Now(), tight);
      if o != LogFile.Logged {
        return 0, Some(if o == LogFile.DiskFailed then DiskFailed else NoMemory);
      }
      a := 0;
    }

    // ---------- writing ----------

    /** Log the records of one write: none in replay, one on its own, or several after `reserve_record`. */
    method LogAll(rs: seq<Record>, reserve: nat) returns (o: LogFile.Outcome)
      requires wal.Valid() && (reserve == 0 ==> |rs| <= 1)
      requires 0 < reserve <= MAX_RECORD + 8 ==> AllFit(rs) && forall i :: 0 <= i < |rs| ==> 10 + ArgsSize(rs[i].args) <= reserve
      modifies wal, world
      ensures wal.Valid() && old(wal.durable) <= wal.durable && Wrote(o, old(Written()), Written(), rs)
      ensures Sized(o, rs, reserve)
      ensures o == LogFile.DiskFailed && reserve == 0 && !AllFit(rs) ==> wal.attempted == old(wal.attempted)
    {
      hide LogFile.WriteAheadLog.Valid, Fits, ArgsSize;
      if reserve == 0 {
        if rs == [] {
          return LogFile.Logged;
        }
        assert rs == [rs[0]];
        o := wal.Append(rs[0], world);
      } else {
        o := wal.ReserveRecord(reserve, world);
        if o == LogFile.Logged {
          o := wal.AppendReserved(rs, world);
        }
      }
    }

    /** A new node that is not committed yet; for a new key the table may have to grow first. */
    method BuildNode(a: Addr, key: Key, v: Value, l: Layout, body: nat) returns (p: Addr)
      requires Valid() && (a == 0 <==> key !in ks) && |key| <= MAX_KEY && body <= MAX_BODY && Lies(v, l, body)
      modifies table, this`values, this`layouts, this`blocks, this`trackedBytes, pool, memory, world
      ensures table.keys == old(table.keys)
      ensures p == 0 ==> Valid() && Denied(old(world.Dealt()), world.Dealt())
      ensures p != 0 ==>
                Holding({p}) && values == old(values)[p := v] && p in layouts && p in blocks
                && LiesIn(key, v, layouts[p], blocks[p])
      ensures p != 0 ==> Fine(old(world.Dealt()), world.Dealt())
      ensures old(Slab.NoneFree(pool.freeLists, SizeClasses.BlockSize(|key|, body))) && !world.memory(old(world.asked)) ==> p == 0
      ensures p != 0 && a == 0 ==> forall b :: b in table.keys ==> table.keys[b] != key
    {
      hide Lodged, Laid, Coherent, Tallied, Good, Buckets.Valid, Index.Valid, LruList.List.Valid,
        LogFile.WriteAheadLog.Valid, SizeClasses.BlockSize, Lies, LiesIn, SizeClasses.Capacity;
      p := 0;
      if a == 0 {
        var ok := table.MaybeRehash(keyTotal, world);
        if !ok {
          return;
        }
        NoSuchKey(View(), ks, recent, key);
      }
      LiesInBlock(key, v, l, body);
      p := CreateNode(key, v, l, body);
    }

    /** The write that builds a new node: create it, log, and only then commit it. */
    method Replace(a: Addr, key: Key, v: Value, l: Layout, body: nat, keep: bool, rs: seq<Record>, reserve: nat)
      returns (o: LogFile.Outcome)
      requires Valid() && (a == 0 <==> key !in ks) && (a != 0 ==> a in table.keys && table.keys[a] == key)
      requires (reserve == 0 ==> |rs| <= 1) && |key| <= MAX_KEY && body <= MAX_BODY && Lies(v, l, body)
      requires (if reserve == 0 then AllFit(rs) else reserve <= MAX_RECORD + 8) ==> Good(Put(ks, key, v, keep), offset)
      requires 0 < reserve <= MAX_RECORD + 8 ==> AllFit(rs) && forall i :: 0 <= i < |rs| ==> 10 + ArgsSize(rs[i].args) <= reserve
      modifies this, table, lru, expiry, pool, memory, wal, world
      ensures Valid() && Wrote(o, old(Written()), Written(), rs)
      ensures o == LogFile.Logged ==> ks == Put(old(ks), key, v, keep) && recent == Recent(old(recent), key, true)
      ensures o != LogFile.Logged ==> ks == old(ks) && recent == old(recent)
      ensures Sized(o, rs, reserve)
      ensures o == LogFile.DiskFailed && reserve == 0 && !AllFit(rs) ==> wal.attempted == old(wal.attempted)
      ensures old(Slab.NoneFree(pool.freeLists, SizeClasses.BlockSize(|key|, body))) && !world.memory(old(world.asked)) ==>
                o == LogFile.NoMemory
    {
      hide Lodged, Laid, Coherent, Tallied, Good, Parts, World.Dealt, ArgsSize, OtherClass,
        AllFit, Put, Recent, Lies, LiesIn, SizeClasses.BlockSize, Slab.NoneFree, Wrote, Fine, Denied;
      ghost var j0 := Written();
      var p := BuildNode(a, key, v, l, body);
      ghost var j1 := Written();
      if p == 0 {
        DeniedWrote(j0, j1, rs);
        return LogFile.NoMemory;
      }
      o := LogOnly({p}, rs, reserve);
      WroteAfter(o, j0, j1, Written(), rs);
      if o != LogFile.Logged {
        Abandon(p);
        return;
      }
      CommitNode(a, p, key, keep);
    }

    /** The write in place: log, then change the payload. */
    method Assign(a: Addr, ghost key: Key, v: Value, l: Layout, rs: seq<Record>) returns (o: LogFile.Outcome)
      requires a in table.keys && table.keys[a] == key && Valid() && |rs| <= 1 && a in blocks && LiesIn(key, v, l, blocks[a])
      requires AllFit(rs) ==> Good(Revalued(ks, key, v), offset)
      modifies this, wal, world
      ensures Valid() && recent == old(recent) && Wrote(o, old(Written()), Written(), rs)
      ensures o == LogFile.Logged ==> ks == Revalued(old(ks), key, v) && AllFit(rs)
      ensures o == LogFile.Logged ==> values == old(values)[a := v] && layouts == old(layouts)[a := l] && blocks == old(blocks)
      ensures o != LogFile.Logged ==> ks == old(ks) && values == old(values)
      ensures Sized(o, rs, 0)
      ensures o == LogFile.DiskFailed && !AllFit(rs) ==> wal.attempted == old(wal.attempted)
    {
      hide Lodged, Laid, Coherent, Tallied, Good, Parts, AllFit, Wrote, LiesIn, World.Dealt;
      o := LogOnly({}, rs, 0);
      if o == LogFile.Logged {
        Assigned(View(), ks, recent, a, v);
        TallyAssigned(View(), |expiry.heap|, Counts(), a, v);
        LaidAssigned(table.keys, values, blocks, layouts, a, v, l);
        values, layouts := values[a := v], layouts[a := l];
        ks := Revalued(ks, key, v);
      }
    }

    /** The payload is slid to another place in its body. */
    method Relay(a: Addr, l: Layout)
      requires Valid() && a in table.keys && a in values && a in blocks && LiesIn(table.keys[a], values[a], l, blocks[a])
      modifies this`layouts
      ensures Valid() && layouts == old(layouts)[a := l]
    {
      hide Lodged, Laid, Coherent, Tallied, Good, Parts, LiesIn;
      LaidAssigned(table.keys, values, blocks, layouts, a, values[a], l);
      assert values[a := values[a]] == values;
      layouts := layouts[a := l];
    }

    // ---------- the operations ----------

    /** The start of every write: look the key up, and know what it means to go on from there. */
    method Begin(ghost op: Op, c: Clock, key: Key) returns (a: Addr, stop: Option<Result>)
      requires ClockOk(c) && c.offset == offset && op.key == key && IsWrite(op)
      requires Refused(op).None? || |key| > MAX_KEY
      requires |key| > MAX_KEY ==> Refused(op) == Some(TooLarge)
      requires Replaying() && op.HSet? ==> Fits(HSetRecord(op.key, op.field, op.item))
      requires Valid()
      modifies this, table, lru, expiry, pool, memory, wal, world
      ensures Valid()
      ensures stop.Some? ==> Answers(Replaying(), op, c, stop.value, old(Now()), Now(), old(Tight(key, c.now)))
      ensures stop.None? ==> Found(op, c, a, old(Now())) && !old(Tight(key, c.now))
      ensures old(Starving(key, c.now)) ==>
                if stop.None? then a == 0 && !world.memory(world.asked)
                  && Slab.NoneFree(pool.freeLists, SizeClasses.BlockSize(|key|, 8))
                else !stop.value.Replied?
    {
      hide Good, Applied, Refused, Recent, Answers, Fits, Drop, Settled, SettledRecords, Lodged, Laid, Coherent,
        Tallied, Parts, LiesIn;
      ghost var s0, tight := Now(), Tight(key, c.now);
      a, stop := FindWritable(key, c.now);
      if stop.Some? {
        if stop.value.Replied? {
          AnswersRefused(status.replaying, op, c, s0, tight);
        } else {
          AnswersStopped(status.replaying, op, c, stop.value, s0, Now(), tight);
        }
        return;
      }
      AppliedGood(status.replaying, ks, op, c, offset);
      if a == 0 {
        NotThere(View(), ks, recent, key);
      } else {
        Present(View(), ks, recent, a);
        TalliedIn(View(), |expiry.heap|, Counts(), a);
        LaidAt(table.keys, values, blocks, layouts, a);
      }
      RecentAgain(s0.recent, key, key in ks, recent);
    }

    /** The end of a write that logged and applied its effect, or failed before. */
    method Finish(ghost op: Op, c: Clock, o: LogFile.Outcome, reply: Reply, ghost s0: State, ghost w: State) returns (res: Result)
      requires IsWrite(op) && Refused(op).None? && o != LogFile.TooLarge && Begun(Replaying(), s0, op.key, c.now, w)
      requires Wrote(o, JournalOf(w), if op.Pop? && o == LogFile.Logged then Written().(luck := w.luck) else Written(),
                     Applied(Replaying(), w.ks, op, c).records)
      requires op.Pop? && o == LogFile.Logged ==> Unharmed(op, w.luck, world.Dealt())
      requires status.acked == w.acked
      requires o == LogFile.Logged ==>
                 && ks == Applied(Replaying(), w.ks, op, c).ks && reply == Applied(Replaying(), w.ks, op, c).reply
                 && recent == Recent(s0.recent, op.key, op.key in ks)
      requires o != LogFile.Logged ==> ks == w.ks && recent == w.recent
      ensures Answers(Replaying(), op, c, res, s0, Now(), false) && (res.Replied? <==> o == LogFile.Logged)
    {
      hide Refused, Recent, Answers, Apply, AssignField, Settled, SettledRecords, Fine, Denied, Faulted, Looked;
      if o == LogFile.Logged {
        AnswersDone(status.replaying, op, c, s0, w, Now(), false);
        return Replied(reply);
      }
      res := if o == LogFile.NoMemory then NoMemory else DiskFailed;
      AnswersFailed(status.replaying, op, c, res, s0, w, Now(), false);
    }

    /** The end of a write that found nothing to do. */
    method Leave(ghost op: Op, c: Clock, reply: Reply, ghost s0: State) returns (res: Result)
      requires IsWrite(op) && Refused(op).None? && Begun(Replaying(), s0, op.key, c.now, Now())
      requires Applied(Replaying(), ks, op, c) == Outcome(ks, reply, [])
      ensures Answers(Replaying(), op, c, res, s0, Now(), false)
    {
      hide Applied, Refused, Answers, Recent, Settled, SettledRecords;
      assert wal.attempted + [] == wal.attempted;
      AnswersDone(status.replaying, op, c, s0, Now(), Now(), false);
      res := Replied(reply);
    }

    method Increment(key: Key, c: Clock) returns (res: Result)
      requires Valid() && ClockOk(c) && c.offset == offset
      modifies this, table, lru, expiry, pool, memory, wal, world
      ensures Valid() && Answers(Replaying(), Incr(key), c, res, old(Now()), Now(), old(Tight(key, c.now)))
      ensures old(Starving(key, c.now)) ==> !res.Replied?
    {
      hide Valid, Found, Tight, Answers, Fits, ClockOk, Starving, Slab.NoneFree, SizeClasses.BlockSize;
      ghost var op := Incr(key);
      ghost var s0 := Now();
      var a, stop := Begin(op, c, key);
      if stop.Some? {
        return stop.value;
      }
      res := IncrementFound(a, key, c, s0);
    }

    method IncrementFound(a: Addr, key: Key, c: Clock, ghost s0: State) returns (res: Result)
      requires Found(Incr(key), c, a, s0)
      modifies this, table, lru, expiry, pool, memory, wal, world
      ensures Valid() && Answers(Replaying(), Incr(key), c, res, s0, Now(), false)
      ensures old(a == 0 && !world.memory(world.asked) && Slab.NoneFree(pool.freeLists, SizeClasses.BlockSize(|key|, 8))) ==>
                !res.Replied?
    {
      hide Valid, Good, Begun, Wrote, Applied, Put, Revalued, Redated, World.Dealt, Fine, Denied, Faulted,
        LogFile.Cause, SizeClasses.BlockSize, Slab.NoneFree, LiesIn, Answers, Fits, Drop, ClockOk, EntryOf;
      ghost var op := Incr(key);
      ghost var w := Now();
      IncrApplied(status.replaying, w.ks, key, c);
      IncrementFits(key);
      if a == 0 {
        NewPlain([], 1);
        var o := Replace(0, key, Int(1), Plain(Put64(1)), 8, true, Quiet(status.replaying, [IncrRecord(key)]), 0);
        res := Finish(op, c, o, Amount(1), s0, w);
        return;
      }
      var v := values[a];
      if v.List? || v.Hash? {
        res := Leave(op, c, Failed(WrongType), s0);
        return;
      }
      var current := Counter(v);
      if current.None? || current.value == MAX_I64 {
        res := Leave(op, c, Failed(NotInteger), s0);
        return;
      }
      var o := AssignInteger(a, key, current.value + 1, Quiet(status.replaying, [IncrRecord(key)]));
      res := Finish(op, c, o, Amount(current.value + 1), s0, w);
    }

    /** An integer in place of what a node holds, in a larger block if a text was in a block too small for it. */
    method AssignInteger(a: Addr, ghost key: Key, n: Int64, rs: seq<Record>) returns (o: LogFile.Outcome)
      requires Valid() && a in table.keys && table.keys[a] == key && |rs| <= 1
      requires a in values && a in layouts && a in blocks && LiesIn(key, values[a], layouts[a], blocks[a])
                && (values[a].Str? || values[a].Int?)
      requires AllFit(rs) && Good(Revalued(ks, key, Int(n)), offset)
      modifies this, table, lru, expiry, pool, memory, wal, world
      ensures Valid() && recent == old(recent) && Wrote(o, old(Written()), Written(), rs)
      ensures o != LogFile.TooLarge && ks == if o == LogFile.Logged then Revalued(old(ks), key, Int(n)) else old(ks)
    {
      hide Valid, Good, AllFit, Revalued, SizeClasses.Capacity, Over, Put64;
      var b := a;
      if values[a].Str? && SizeClasses.Capacity(|table.keys[a]|, blocks[a]) < 8 {
        b := GrowNode(a, 8);
        if b == 0 {
          return LogFile.NoMemory;
        }
      }
      IntegerOver(layouts[b], n, SizeClasses.Capacity(|table.keys[b]|, blocks[b]));
      o := Assign(b, key, Int(n), Over(layouts[b], Put64(n)), rs);
    }

    /** `set` into a node that has room: log, then overwrite, touch and forget the deadline. */
    method Overwrite(a: Addr, v: Value, l: Layout, rs: seq<Record>) returns (o: LogFile.Outcome)
      requires Valid() && a in table.keys && |rs| <= 1 && a in blocks && LiesIn(table.keys[a], v, l, blocks[a])
      requires table.keys[a] in ks && Good(Put(ks, table.keys[a], v, false), offset)
      modifies this, lru, expiry, wal, world
      ensures Valid()
      ensures o == LogFile.Logged ==>
                ks == Put(old(ks), table.keys[a], v, false) && recent == Recent(old(recent), table.keys[a], true)
      ensures o != LogFile.Logged ==> ks == old(ks) && recent == old(recent)
      ensures Wrote(o, old(Written()), Written(), rs) && (o == LogFile.TooLarge ==> !AllFit(rs))
    {
      hide Lodged, Laid, Good, Parts, Coherent, Tallied, Fits, Recent, LiesIn;
      ghost var key := table.keys[a];
      ghost var ks1 := ks[key := ks[key].(value := v)];
      GoodBoth(ks, key, v, offset);
      o := Assign(a, table.keys[a], v, l, rs);
      if o != LogFile.Logged {
        return;
      }
      Touch(a);
      assert ks1[key := ks1[key].(deadline := None)] == Put(old(ks), key, v, false);
      Forget(a);
    }

    /** `clear_expiry` of a committed node. */
    method Forget(a: Addr)
      requires Valid() && a in table.keys && table.keys[a] in ks
      requires Good(Redated(ks, table.keys[a], None), offset)
      modifies this, expiry
      ensures Valid() && ks == Redated(old(ks), table.keys[a], None) && recent == old(recent)
      ensures values == old(values) && blocks == old(blocks)
    {
      hide Lodged, Laid, Good, Coherent, Tallied, Deadlines, Buckets.Valid, Index.Valid, LruList.List.Valid,
        LogFile.WriteAheadLog.Valid, Counted, Flagged;
      ghost var n, heap, t := View(), |expiry.heap|, Counts();
      TalliedIn(n, heap, t, a);
      Unscheduled(n, ks, recent, a);
      ClearExpiry(a);
      TallyUnscheduled(n, heap, t, a, |expiry.heap|, Counts());
      ks := Redated(ks, table.keys[a], None);
    }

    /** `schedule_expiry` of a committed node; without memory nothing changes. */
    method Schedule(a: Addr, deadline: int) returns (ok: bool)
      requires Valid() && a in table.keys && table.keys[a] in ks
      requires Good(Redated(ks, table.keys[a], Some(deadline)), offset)
      modifies this, expiry, world`asked
      ensures Valid() && recent == old(recent) && (old(ks)[table.keys[a]].deadline.Some? ==> ok)
      ensures if ok then Fine(old(world.Dealt()), world.Dealt()) else Denied(old(world.Dealt()), world.Dealt())
      ensures ks == if ok then Redated(old(ks), table.keys[a], Some(deadline)) else old(ks)
    {
      hide Lodged, Laid, Good, Coherent, Tallied, Deadlines, Parts;
      ghost var n, heap, t := View(), |expiry.heap|, Counts();
      Present(n, ks, recent, a);
      Scheduled(n, ks, recent, a, deadline);
      ok := Enlist(a, deadline);
      if ok {
        TallyScheduled(n, heap, t, a, deadline, |expiry.heap|, Counts());
        ks := Redated(ks, table.keys[a], Some(deadline));
      }
    }

    /** The same on the index, the flags and the counters. */
    method Enlist(a: Addr, deadline: int) returns (ok: bool)
      requires Parts()
      modifies expiry, this`flagged, this`ttlCount, this`ttlHint, world`asked
      ensures Parts() && (a in old(Deadlines(expiry.expiries)) ==> ok)
      ensures if ok then Fine(old(world.Dealt()), world.Dealt()) else Denied(old(world.Dealt()), world.Dealt())
      ensures ok ==> Deadlines(expiry.expiries) == old(Deadlines(expiry.expiries))[a := deadline] && flagged == old(flagged) + {a}
      ensures ok ==> ttlCount == |expiry.heap| && ttlHint == (ttlCount != 0)
      ensures !ok ==> expiry.expiries == old(expiry.expiries) && expiry.heap == old(expiry.heap)
      ensures !ok ==> flagged == old(flagged) && ttlCount == old(ttlCount) && ttlHint == old(ttlHint)
    {
      hide Deadlines, Buckets.Valid, Index.Valid, LruList.List.Valid, LogFile.WriteAheadLog.Valid;
      FlagsAre(expiry.expiries);
      ok := expiry.Schedule(a, deadline, world);
      if ok {
        flagged := flagged + {a};
        ttlCount := |expiry.heap|;
        ttlHint := true;
        ScheduledHeap(expiry, a, deadline);
      }
    }

    method Set(key: Key, text: Bytes, c: Clock) returns (res: Result)
      requires Valid() && ClockOk(c) && c.offset == offset
      modifies this, table, lru, expiry, pool, memory, wal, world
      ensures Valid() && Answers(Replaying(), Op.Set(key, text), c, res, old(Now()), Now(), old(Tight(key, c.now)))
    {
      hide Valid, Found, Tight, Answers, Fits, ClockOk;
      ghost var op := Op.Set(key, text);
      ghost var s0 := Now();
      if |text| > LIMIT {
        AnswersRefused(status.replaying, op, c, Now(), Tight(key, c.now));
        return Replied(Failed(TooLarge));
      }
      var a, stop := Begin(op, c, key);
      if stop.Some? {
        return stop.value;
      }
      res := SetFound(a, key, text, c, s0);
    }

    method SetFound(a: Addr, key: Key, text: Bytes, c: Clock, ghost s0: State) returns (res: Result)
      requires Found(Op.Set(key, text), c, a, s0)
      modifies this, table, lru, expiry, pool, memory, wal, world
      ensures Valid() && Answers(Replaying(), Op.Set(key, text), c, res, s0, Now(), false)
    {
      hide Valid, Good, Begun, Wrote, Applied, Put, Revalued, Redated, World.Dealt, Fine, Denied, Faulted,
        LogFile.Cause, SizeClasses.BlockSize, Slab.NoneFree, Answers, Fits, Drop, ClockOk, EntryOf,
        SizeClasses.Capacity;
      ghost var op := Op.Set(key, text);
      ghost var w := Now();
      SetApplied(status.replaying, w.ks, key, text, c);
      CrashRecovery.SmallRecordsFit(key, text, Number(0), false, 0);
      var o;
      if a == 0 || !values[a].Str? || SizeClasses.Capacity(|key|, blocks[a]) < |text|
         || (SizeClasses.Capacity(|key|, blocks[a]) > SizeClasses.LARGEST_CLASS
           && |text| < SizeClasses.Capacity(|key|, blocks[a]) / 4)
      {
        NewPlain(text, 0);
        o := Replace(a, key, Str(text), Plain(text), |text|, false, Quiet(status.replaying, [SetRecord(key, text)]), 0);
      } else {
        TextOver(layouts[a], text, SizeClasses.Capacity(|key|, blocks[a]));
        o := Overwrite(a, Str(text), Over(layouts[a], text), Quiet(status.replaying, [SetRecord(key, text)]));
      }
      res := Finish(op, c, o, Done, s0, w);
    }

    method Delete(key: Key, c: Clock) returns (res: Result)
      requires Valid() && ClockOk(c) && c.offset == offset
      modifies this, table, lru, expiry, pool, memory, wal, world
      ensures Valid() && Answers(Replaying(), Del(key), c, res, old(Now()), Now(), old(Tight(key, c.now)))
    {
      hide Valid, Found, Tight, Answers, Fits, ClockOk;
      ghost var op := Del(key);
      ghost var s0 := Now();
      var a, stop := Begin(op, c, key);
      if stop.Some? {
        return stop.value;
      }
      res := DeleteFound(a, key, c, s0);
    }

    method DeleteFound(a: Addr, key: Key, c: Clock, ghost s0: State) returns (res: Result)
      requires Found(Del(key), c, a, s0)
      modifies this, table, lru, expiry, pool, memory, wal, world
      ensures Valid() && Answers(Replaying(), Del(key), c, res, s0, Now(), false)
    {
      hide Valid, Good, Begun, Wrote, Applied, Put, Revalued, Redated, World.Dealt, Fine, Denied, Faulted,
        LogFile.Cause, SizeClasses.BlockSize, Slab.NoneFree, Answers, Fits, Drop, ClockOk, EntryOf;
      ghost var op := Del(key);
      ghost var w := Now();
      DelApplied(status.replaying, w.ks, key, c);
      if a == 0 {
        res := Leave(op, c, Amount(0), s0);
        return;
      }
      CrashRecovery.SmallRecordsFit(key, [], Number(0), false, 0);
      var o := LogErase(a, Quiet(status.replaying, [DelRecord(key)]));
      res := Finish(op, c, o, Amount(1), s0, w);
    }

    /** Log, then erase the node. */
    method LogErase(a: Addr, rs: seq<Record>) returns (o: LogFile.Outcome)
      requires Valid() && a in table.keys && |rs| <= 1
      modifies this, table, lru, expiry, pool, memory, wal, world
      ensures Valid()
      ensures o == LogFile.Logged ==> ks == old(ks) - {old(table.keys)[a]} && recent == Drop(old(recent), old(table.keys)[a])
      ensures o != LogFile.Logged ==> ks == old(ks) && recent == old(recent)
      ensures Wrote(o, old(Written()), Written(), rs) && (o == LogFile.TooLarge ==> !AllFit(rs))
    {
      hide Lodged, Laid, Coherent, Tallied, Good, Parts, AllFit, Drop, Wrote, World.Dealt, OtherClass, Slab.NoneFree;
      o := LogOnly({}, rs, 0);
      if o == LogFile.Logged {
        Erase(a);
      }
    }

    method Expire(key: Key, seconds: Int64, c: Clock) returns (res: Result)
      requires Valid() && ClockOk(c) && c.offset == offset
      modifies this, table, lru, expiry, pool, memory, wal, world
      ensures Valid() && Answers(Replaying(), Op.Expire(key, seconds), c, res, old(Now()), Now(), old(Tight(key, c.now)))
    {
      hide Valid, Found, Tight, Answers, Fits, ClockOk;
      ghost var op := Op.Expire(key, seconds);
      ghost var s0 := Now();
      var a, stop := Begin(op, c, key);
      if stop.Some? {
        return stop.value;
      }
      res := ExpireFound(a, key, seconds, c, s0);
    }

    method ExpireFound(a: Addr, key: Key, seconds: Int64, c: Clock, ghost s0: State) returns (res: Result)
      requires Found(Op.Expire(key, seconds), c, a, s0)
      modifies this, table, lru, expiry, pool, memory, wal, world
      ensures Valid() && Answers(Replaying(), Op.Expire(key, seconds), c, res, s0, Now(), false)
    {
      hide Valid, Good, Begun, Wrote, Applied, Put, Revalued, Redated, World.Dealt, Fine, Denied, Faulted,
        LogFile.Cause, SizeClasses.BlockSize, Slab.NoneFree, Answers, Fits, Drop, ClockOk, EntryOf, ToDecimal;
      ghost var op := Op.Expire(key, seconds);
      ghost var w := Now();
      ExpireApplied(status.replaying, w.ks, key, seconds, c);
      if a == 0 {
        res := Leave(op, c, Amount(0), s0);
        return;
      }
      if seconds <= 0 {
        CrashRecovery.SmallRecordsFit(key, [], Number(0), false, 0);
        var o := LogErase(a, Quiet(status.replaying, [DelRecord(key)]));
        res := Finish(op, c, o, Amount(1), s0, w);
        return;
      }
      if seconds > (MAX_I64 - Max(c.now, c.now + c.offset)) / 1000 {
        res := Leave(op, c, Failed(NotInteger), s0);
        return;
      }
      DeadlineInRange(c, seconds);
      CrashRecovery.SmallRecordsFit(key, [], Number(0), false, c.now + seconds * 1000 + c.offset);
      var o := ScheduleLogged(a, c.now + seconds * 1000,
                              Quiet(status.replaying, [ExpireRecord(key, c.now + seconds * 1000 + c.offset)]));
      res := Finish(op, c, o, Amount(1), s0, w);
    }

    /** The deadline is set before it is logged, and put back as it was if the log refuses. */
    method ScheduleLogged(a: Addr, deadline: int, rs: seq<Record>) returns (o: LogFile.Outcome)
      requires Valid() && a in table.keys && table.keys[a] in ks && |rs| <= 1
      requires Good(Redated(ks, table.keys[a], Some(deadline)), offset)
      modifies this, expiry, wal, world
      ensures Valid() && recent == old(recent)
      ensures o == LogFile.Logged ==> ks == Redated(old(ks), table.keys[a], Some(deadline))
      ensures o != LogFile.Logged ==> ks == old(ks)
      ensures Wrote(o, old(Written()), Written(), rs) && (o == LogFile.TooLarge ==> !AllFit(rs))
    {
      hide Lodged, Laid, Coherent, Tallied, Good, Fits, Parts, Deadlines;
      ghost var key := table.keys[a];
      var previous := Previous(a);
      var ok := Schedule(a, deadline);
      if !ok {
        return LogFile.NoMemory;
      }
      o := LogOnly({}, rs, 0);
      if o == LogFile.Logged {
        return;
      }
      if previous < 0 {
        assert ks[key := ks[key].(deadline := None)] == old(ks);
        Forget(a);
      } else {
        assert ks[key := ks[key].(deadline := Some(previous))] == old(ks);
        var again := Schedule(a, previous);
      }
    }

    method Previous(a: Addr) returns (previous: int)
      requires Valid() && a in table.keys && table.keys[a] in ks
      ensures ks[table.keys[a]].deadline == if previous < 0 then None else Some(previous)
    {
      hide Lodged, Laid, Coherent, Good, Parts, Counted, Housed;
      Present(View(), ks, recent, a);
      StoredDeadline(ks, table.keys[a], offset);
      previous := if a in expiry.expiries then expiry.expiries[a].deadline else -1;
    }

    /** Log while the database is as it is, perhaps with a node that is not committed yet. */
    method LogOnly(ghost pending: set<Addr>, rs: seq<Record>, reserve: nat) returns (o: LogFile.Outcome)
      requires reserve == 0 ==> |rs| <= 1
      requires 0 < reserve <= MAX_RECORD + 8 ==> AllFit(rs) && forall i :: 0 <= i < |rs| ==> 10 + ArgsSize(rs[i].args) <= reserve
      requires Holding(pending)
      modifies wal, world
      ensures Holding(pending) && Wrote(o, old(Written()), Written(), rs) && Sized(o, rs, reserve)
      ensures o == LogFile.DiskFailed && reserve == 0 && !AllFit(rs) ==> wal.attempted == old(wal.attempted)
    {
      hide Lodged, Laid, Coherent, Tallied, Good, Buckets.Valid, Index.Valid, LruList.List.Valid,
        LogFile.WriteAheadLog.Valid, AllFit, Wrote, ArgsSize, World.Dealt;
      o := LogAll(rs, reserve);
    }

    /** `list_push`: one item on either end. */
    method ListPush(key: Key, item: Element, front: bool, c: Clock) returns (res: Result)
      requires Valid() && ClockOk(c) && c.offset == offset
      modifies this, table, lru, expiry, pool, memory, wal, world
      ensures Valid() && Answers(Replaying(), Push(key, item, front), c, res, old(Now()), Now(), old(Tight(key, c.now)))
    {
      hide Valid, Found, Tight, Answers, Fits, ClockOk;
      ghost var op := Push(key, item, front);
      ghost var s0 := Now();
      var a, stop := Begin(op, c, key);
      if stop.Some? {
        return stop.value;
      }
      res := PushFound(a, key, item, front, c, s0);
    }

    method PushFound(a: Addr, key: Key, item: Element, front: bool, c: Clock, ghost s0: State) returns (res: Result)
      requires Found(Push(key, item, front), c, a, s0)
      modifies this, table, lru, expiry, pool, memory, wal, world
      ensures Valid() && Answers(Replaying(), Push(key, item, front), c, res, s0, Now(), false)
    {
      hide Valid, Good, Begun, Wrote, Applied, Put, Revalued, Redated, World.Dealt, Fine, Denied, Faulted,
        LogFile.Cause, SizeClasses.BlockSize, Slab.NoneFree, LiesIn, Lies, PushItems, Answers, Fits, Drop, ClockOk,
        EntryOf, EncodedSize, UsedBytes, Reverse, PushRecord;
      ghost var op := Push(key, item, front);
      ghost var w := Now();
      PushApplied(status.replaying, w.ks, key, item, front, c);
      OneItem(key, item, front);
      if a != 0 && !values[a].List? {
        res := Leave(op, c, Failed(WrongType), s0);
        return;
      }
      var items := if a == 0 then [] else values[a].items;
      if UsedBytes(items) + EncodedSize(item) > LIMIT {
        res := Leave(op, c, Failed(TooLarge), s0);
        return;
      }
      CrashRecovery.SmallRecordsFit(key, [], item, front, 0);
      PushedLies(items, item, front);
      var pushed := PushItems(items, [item], front);
      var o;
      if a == 0 {
        o := Replace(0, key, List(pushed), NewRun(pushed), LIST_BODY + EncodedSize(item), true,
                     Quiet(status.replaying, [PushRecord(key, item, front)]), 0);
      } else {
        o := PushWrite(a, key, items, item, front, Quiet(status.replaying, [PushRecord(key, item, front)]));
      }
      res := Finish(op, c, o, Amount(|pushed|), s0, w);
    }

    /** `list_reserve`: room for so many bytes at either end, in place, by sliding the run, or in a larger block. */
    method ReserveRun(a: Addr, ghost key: Key, front: nat, back: nat) returns (b: Addr)
      requires Valid() && a in table.keys && table.keys[a] == key && a in values && a in layouts && a in blocks
      requires a != 0 && values[a].List? && LiesIn(key, values[a], layouts[a], blocks[a])
                && layouts[a].used + front + back <= LIMIT
      modifies this, table, lru, expiry, pool, memory, world
      ensures Valid() && ks == old(ks) && recent == old(recent)
      ensures if b == 0 then Denied(old(world.Dealt()), world.Dealt()) else Fine(old(world.Dealt()), world.Dealt())
      ensures b != 0 ==>
                && b in table.keys && table.keys[b] == key && b in values && b in blocks && b in layouts
                   && values[b] == old(values)[a]
                && LiesIn(key, values[b], layouts[b], blocks[b])
                && layouts[b].Run? && layouts[b].used == old(layouts)[a].used && front <= layouts[b].head
                && LIST_BODY + layouts[b].head + layouts[b].used + back <= SizeClasses.Capacity(|key|, blocks[b])
    {
      hide Valid, SizeClasses.Capacity, UsedBytes, World.Dealt, Runs, Slid;
      RunFits(layouts[a], values[a].items);
      var capacity := SizeClasses.Capacity(|table.keys[a]|, blocks[a]) - LIST_BODY;
      var head, used := layouts[a].head, layouts[a].used;
      if head >= front && head + used + back <= capacity {
        return a;
      }
      var required := used + front + back;
      var wanted := if required <= capacity then capacity else Grown(required, capacity);
      b := a;
      if wanted > capacity {
        b := GrowNode(a, LIST_BODY + wanted);
        if b == 0 {
          return;
        }
      }
      SlidRuns(layouts[b], values[b].items, Centred(wanted, used, front, back));
      SlidTo(layouts[b], Centred(wanted, used, front, back));
      Relay(b, Slid(layouts[b], Centred(wanted, used, front, back)));
    }

    /** One more item in a list that is there: room for it, then the log, then the item. */
    method PushWrite(a: Addr, ghost key: Key, items: seq<Element>, item: Element, front: bool, rs: seq<Record>)
      returns (o: LogFile.Outcome)
      requires Valid() && a in table.keys && table.keys[a] == key && a in values && a in layouts && a in blocks && |rs| <= 1
                && AllFit(rs)
      requires a != 0 && values[a] == List(items) && LiesIn(key, values[a], layouts[a], blocks[a])
      requires key in ks && UsedBytes(items) + EncodedSize(item) <= LIMIT
      requires Good(Revalued(ks, key, List(PushItems(items, [item], front))), offset)
      modifies this, table, lru, expiry, pool, memory, wal, world
      ensures Valid() && Wrote(o, old(Written()), Written(), rs) && o != LogFile.TooLarge
      ensures o == LogFile.Logged ==>
                ks == Revalued(old(ks), key, List(PushItems(items, [item], front))) && recent == Recent(old(recent), key, true)
      ensures o != LogFile.Logged ==> ks == old(ks) && recent == old(recent)
    {
      hide Valid, Good, AllFit, Revalued, SizeClasses.Capacity, UsedBytes, EncodedSize, PushItems, Recent, World.Dealt, Runs,
        Layouts.Pushed;
      RunFits(layouts[a], items);
      var useFront, encoded := front && items != [], EncodedSize(item);
      var b := ReserveRun(a, key, if useFront then encoded else 0, if useFront then 0 else encoded);
      if b == 0 {
        return LogFile.NoMemory;
      }
      PushedInside(layouts[b], items, item, front, SizeClasses.Capacity(|table.keys[b]|, blocks[b]));
      o := Assign(b, key, List(PushItems(items, [item], front)), Pushed(layouts[b], item, useFront), rs);
      if o == LogFile.Logged {
        Touch(b);
      }
    }

    /** `push_texts`: all the items or none, in a node built for them. */
    method PushTexts(key: Key, texts: seq<Bytes>, front: bool, c: Clock) returns (res: Result)
      requires !Replaying() && Valid() && ClockOk(c) && c.offset == offset
      modifies this, table, lru, expiry, pool, memory, wal, world
      ensures Valid() && Answers(Replaying(), Op.PushTexts(key, texts, front), c, res, old(Now()), Now(), old(Tight(key, c.now)))
    {
      hide Valid, Found, Tight, Answers, Fits, ClockOk;
      ghost var op := Op.PushTexts(key, texts, front);
      ghost var s0 := Now();
      var a, stop := Begin(op, c, key);
      if stop.Some? {
        return stop.value;
      }
      res := PushTextsFound(a, key, texts, front, c, s0);
    }

    method PushTextsFound(a: Addr, key: Key, texts: seq<Bytes>, front: bool, c: Clock, ghost s0: State) returns (res: Result)
      requires Found(Op.PushTexts(key, texts, front), c, a, s0)
      requires !Replaying()
      modifies this, table, lru, expiry, pool, memory, wal, world
      ensures Valid() && Answers(Replaying(), Op.PushTexts(key, texts, front), c, res, s0, Now(), false)
    {
      hide Valid, Good, Begun, Wrote, Applied, Put, Revalued, Redated, World.Dealt, Fine, Denied, Faulted,
        LogFile.Cause, SizeClasses.BlockSize, Slab.NoneFree, LiesIn, Answers, Fits, Drop, ClockOk, EntryOf, EncodedSize,
        UsedBytes, Reverse, PushRecord, Largest, ArgsSize, AllFit, PushItems, Texts;
      ghost var op := Op.PushTexts(key, texts, front);
      ghost var w := Now();
      PushTextsApplied(w.ks, key, texts, front, c);
      var more := Texts(texts);
      if a != 0 && !values[a].List? {
        res := Leave(op, c, Failed(WrongType), s0);
        return;
      }
      var items := if a == 0 then [] else values[a].items;
      if more == [] {
        res := Leave(op, c, Amount(|items|), s0);
        return;
      }
      if UsedBytes(items) + UsedBytes(more) > LIMIT {
        res := Leave(op, c, Failed(TooLarge), s0);
        return;
      }
      PushesReserved(key, texts, front);
      CrashRecovery.PushedBytes(items, more, front);
      var bytes := UsedBytes(items) + UsedBytes(more);
      var pushed := PushItems(items, more, front);
      NewRunThere(pushed);
      var o := Replace(a, key, List(pushed), NewRun(pushed), LIST_BODY + bytes, true,
                       PushRecords(key, more, front), |key| + Largest(texts) + 64);
      res := Finish(op, c, o, Amount(|pushed|), s0, w);
    }

    /** `list_pop`: an emptied list is erased; a sparse one may be moved to a smaller block, if there is memory. */
    method ListPop(key: Key, front: bool, c: Clock) returns (res: Result)
      requires Valid() && ClockOk(c) && c.offset == offset
      modifies this, table, lru, expiry, pool, memory, wal, world
      ensures Valid() && Answers(Replaying(), Pop(key, front), c, res, old(Now()), Now(), old(Tight(key, c.now)))
    {
      hide Valid, Found, Tight, Answers, Fits, ClockOk;
      ghost var op := Pop(key, front);
      ghost var s0 := Now();
      var a, stop := Begin(op, c, key);
      if stop.Some? {
        return stop.value;
      }
      res := PopFound(a, key, front, c, s0);
    }

    method PopFound(a: Addr, key: Key, front: bool, c: Clock, ghost s0: State) returns (res: Result)
      requires Found(Pop(key, front), c, a, s0)
      modifies this, table, lru, expiry, pool, memory, wal, world
      ensures Valid() && Answers(Replaying(), Pop(key, front), c, res, s0, Now(), false)
    {
      hide Valid, Good, Begun, Wrote, Applied, Put, Revalued, World.Dealt, Fine, Denied, Faulted, LogFile.Cause, LiesIn,
        Answers, Drop, ClockOk, Rest, EncodedSize, ItemAt;
      ghost var op, w := Pop(key, front), Now();
      PopApplied(status.replaying, w.ks, key, front, c);
      if a == 0 {
        res := Leave(op, c, Missing, s0);
        return;
      }
      if !values[a].List? {
        res := Leave(op, c, Failed(WrongType), s0);
        return;
      }
      if values[a].items == [] {
        res := Leave(op, c, Missing, s0);
        return;
      }
      var item, size := PeekAt(a, key, front);
      if item.Text? {
        var granted := world.Grant();
        if !granted {
          DeniedWrote(JournalOf(w), Written(), Applied(status.replaying, w.ks, op, c).records);
          res := Finish(op, c, LogFile.NoMemory, Done, s0, w);
          return;
        }
        StillBegun(status.replaying, s0, key, c.now, w, Now());
      }
      res := PopItem(a, key, values[a].items, item, size, front, c, s0);
    }

    method PeekAt(a: Addr, ghost key: Key, front: bool) returns (item: Element, size: nat)
      requires a in values && values[a].List? && values[a].items != [] && a in layouts && a in blocks
      requires LiesIn(key, values[a], layouts[a], blocks[a])
      ensures item == ItemAt(values[a].items, front) && size == EncodedSize(item)
    {
      hide LiesIn, Runs, EncodedSize;
      ListThere(key, values[a].items, layouts[a], blocks[a]);
      item, size := Peek(layouts[a], front, values[a].items);
    }

    method PopItem(a: Addr, key: Key, items: seq<Element>, item: Element, size: nat, front: bool, c: Clock, ghost s0: State)
      returns (res: Result)
      requires a != 0 && a in values && values[a] == List(items) && items != [] && Found(Pop(key, front), c, a, s0)
      requires item == ItemAt(items, front) && size == EncodedSize(item)
      modifies this, table, lru, expiry, pool, memory, wal, world
      ensures Valid() && Answers(Replaying(), Pop(key, front), c, res, s0, Now(), false)
    {
      hide Valid, Good, Begun, Wrote, Applied, Put, Revalued, World.Dealt, Fine, Denied, Faulted, LogFile.Cause, LiesIn,
        Answers, Drop, ClockOk, Rest, Fits;
      ghost var op, w := Pop(key, front), Now();
      PopApplied(status.replaying, w.ks, key, front, c);
      CrashRecovery.SmallRecordsFit(key, [], Number(0), front, 0);
      var o := RemoveItem(a, key, items, size, front, Quiet(status.replaying, [PopRecord(key, front)]));
      res := Finish(op, c, o, Item(item), s0, w);
    }

    /** What is left of a list takes its place, or the key goes; a block much too large is exchanged if there is memory. */
    method RemoveItem(a: Addr, ghost key: Key, items: seq<Element>, removed: nat, front: bool, rs: seq<Record>)
      returns (o: LogFile.Outcome)
      requires Valid() && a in table.keys && table.keys[a] == key && |rs| <= 1 && AllFit(rs) && items != []
      requires removed == EncodedSize(ItemAt(items, front))
      requires a in values && a in layouts && a in blocks && values[a] == List(items)
                && LiesIn(key, values[a], layouts[a], blocks[a])
      requires key in ks && (Rest(items, front) != [] ==> Good(Revalued(ks, key, List(Rest(items, front))), offset))
      modifies this, table, lru, expiry, pool, memory, wal, world
      ensures Valid() && recent == if o == LogFile.Logged && Rest(items, front) == [] then Drop(old(recent), key) else old(recent)
      ensures ks == if o != LogFile.Logged then old(ks) else if Rest(items, front) == [] then old(ks) - {key}
                    else Revalued(old(ks), key, List(Rest(items, front)))
      ensures Wrote(o, old(Written()), if o == LogFile.Logged then Written().(luck := old(world.Dealt())) else Written(), rs)
      ensures o != LogFile.TooLarge && (o == LogFile.Logged ==> Unharmed(Pop(key, true), old(world.Dealt()), world.Dealt()))
    {
      hide Valid, Good, AllFit, Drop, Revalued, SizeClasses.Capacity, UsedBytes, EncodedSize, ItemAt, Rest, Runs, Layouts.Popped;
      var rest := Rest(items, front);
      if rest == [] {
        o := LogErase(a, rs);
        return;
      }
      ListInRange(this, a);
      PoppedInside(layouts[a], items, front);
      o := Assign(a, key, List(rest), Popped(layouts[a], removed, front), rs);
      if o == LogFile.Logged {
        ShrinkRun(a, key);
      }
    }

    /** A large run that is less than a quarter full is moved to the front and then to a smaller block. */
    method ShrinkRun(a: Addr, ghost key: Key)
      requires Valid() && a in table.keys && table.keys[a] == key && a in values && a in layouts && a in blocks
      requires values[a].List? && LiesIn(key, values[a], layouts[a], blocks[a]) && layouts[a].used <= LIMIT
      modifies this, table, lru, expiry, pool, memory, world
      ensures Valid() && ks == old(ks) && recent == old(recent) && Unharmed(Pop(key, true), old(world.Dealt()), world.Dealt())
    {
      hide Valid, SizeClasses.Capacity, UsedBytes, Runs, Layouts.Cut;
      CutRuns(layouts[a], values[a].items);
      var capacity, used := SizeClasses.Capacity(|table.keys[a]|, blocks[a]) - LIST_BODY, layouts[a].used;
      if capacity > SizeClasses.LARGEST_CLASS && used < capacity / 4 {
        Relay(a, Layouts.Cut(layouts[a]));
        var b := GrowNode(a, LIST_BODY + if used > 32 then used else 32);
      }
    }

    /** `hash_assign`: into the promoted table, into a node built for it, or in place. */
    method HashAssign(key: Key, field: Bytes, item: Element, c: Clock) returns (res: Result)
      requires Valid() && ClockOk(c) && c.offset == offset && (Replaying() ==> Fits(HSetRecord(key, field, item)))
      modifies this, table, lru, expiry, pool, memory, wal, world
      ensures Valid() && Answers(Replaying(), HSet(key, field, item), c, res, old(Now()), Now(), old(Tight(key, c.now)))
    {
      hide Valid, Found, Tight, Answers, Fits, ClockOk;
      ghost var op := HSet(key, field, item);
      ghost var s0 := Now();
      var a, stop := Begin(op, c, key);
      if stop.Some? {
        return stop.value;
      }
      res := AssignFound(a, key, field, item, c, s0);
    }

    method AssignFound(a: Addr, key: Key, field: Bytes, item: Element, c: Clock, ghost s0: State) returns (res: Result)
      requires Found(HSet(key, field, item), c, a, s0)
      modifies this, table, lru, expiry, pool, memory, wal, world
      ensures Valid() && Answers(Replaying(), HSet(key, field, item), c, res, s0, Now(), false)
    {
      hide Valid, Good, Begun, Wrote, Applied, Put, Revalued, Redated, World.Dealt, Fine, Denied, Faulted,
        LogFile.Cause, SizeClasses.BlockSize, Slab.NoneFree, LiesIn, Answers, Fits, AllFit, Drop, ClockOk, EntryOf,
        BodySize, HSetRecord;
      ghost var op := HSet(key, field, item);
      ghost var w := Now();
      FieldApplied(status.replaying, w.ks, key, field, item, c);
      if a != 0 && !values[a].Hash? {
        res := Leave(op, c, Failed(WrongType), s0);
        return;
      }
      if |field| > LIMIT || BodySize(item) > LIMIT {
        res := Leave(op, c, Failed(TooLarge), s0);
        return;
      }
      var fields := if a == 0 then map[] else values[a].fields;
      var rs := Quiet(status.replaying, [HSetRecord(key, field, item)]);
      assert a == 0 ==> OldFields(w.ks, key) == map[];
      var o := HashWrite(a, key, fields, field, item, rs);
      if o == LogFile.TooLarge {
        TooLargeBegun(status.replaying, s0, key, c.now, w, Now(), rs);
        res := Leave(op, c, Failed(TooLarge), s0);
        return;
      }
      if o == LogFile.DiskFailed {
        AnswersDisk(status.replaying, op, c, s0, w, Now(), rs);
        return DiskFailed;
      }
      WroteNothing(JournalOf(w), Written(), rs, Applied(status.replaying, w.ks, op, c).records);
      res := Finish(op, c, o, Amount(if field in fields then 0 else 1), s0, w);
    }

    /** A node with a table of its own: memory for the table, and then the node. */
    method ReplaceByTable(a: Addr, key: Key, v: Value, rs: seq<Record>) returns (o: LogFile.Outcome)
      requires (a == 0 <==> key !in ks) && (a != 0 ==> a in table.keys && table.keys[a] == key) && v.Hash? && |rs| <= 1
                && |key| <= MAX_KEY
      requires (AllFit(rs) ==> Good(Put(ks, key, v, true), offset)) && Valid()
      modifies this, table, lru, expiry, pool, memory, wal, world
      ensures Valid() && Wrote(o, old(Written()), Written(), rs) && Sized(o, rs, 0)
      ensures o == LogFile.Logged ==> ks == Put(old(ks), key, v, true) && recent == Recent(old(recent), key, true)
      ensures o != LogFile.Logged ==> ks == old(ks) && recent == old(recent)
      ensures o == LogFile.DiskFailed && !AllFit(rs) ==> wal.attempted == old(wal.attempted)
    {
      hide Valid, Good, AllFit, Put, Recent, World.Dealt, Wrote, Slab.NoneFree, SizeClasses.BlockSize;
      ghost var s := Written();
      var granted := world.Grant();
      if !granted {
        DeniedWrote(s, Written(), rs);
        return LogFile.NoMemory;
      }
      ghost var t := Written();
      o := Replace(a, key, v, Promoted, TABLE_ADDRESS, true, rs, 0);
      WroteAfter(o, s, t, Written(), rs);
    }

    /** A field of a table; a new field, or a text, takes memory. */
    method AssignInTable(a: Addr, ghost key: Key, v: Value, takes: bool, rs: seq<Record>) returns (o: LogFile.Outcome)
      requires a in table.keys && table.keys[a] == key && a in blocks && |rs| <= 1 && LiesIn(key, v, Promoted, blocks[a])
      requires (AllFit(rs) ==> Good(Revalued(ks, key, v), offset)) && Valid()
      modifies this, wal, world
      ensures Valid() && recent == old(recent) && Wrote(o, old(Written()), Written(), rs) && Sized(o, rs, 0)
      ensures ks == if o == LogFile.Logged then Revalued(old(ks), key, v) else old(ks)
      ensures o == LogFile.DiskFailed && !AllFit(rs) ==> wal.attempted == old(wal.attempted)
    {
      hide Valid, Good, AllFit, Revalued, World.Dealt, Wrote, LiesIn;
      ghost var s := Written();
      if takes {
        var granted := world.Grant();
        if !granted {
          DeniedWrote(s, Written(), rs);
          return LogFile.NoMemory;
        }
      }
      ghost var t := Written();
      o := Assign(a, key, v, Promoted, rs);
      WroteAfter(o, s, t, Written(), rs);
    }

    /** Into the promoted table, by promoting, in a node built for it, or in place, as the size and the count decide. */
    method HashWrite(a: Addr, key: Key, fields: map<Bytes, Element>, field: Bytes, item: Element, rs: seq<Record>)
      returns (o: LogFile.Outcome)
      requires a == 0 ==> fields == map[] && key !in ks
      requires a != 0 ==> NodeAt(a, key) && values[a] == Hash(fields)
      requires (AllFit(rs) ==> Good(Put(ks, key, Hash(fields[field := item]), true), offset)) && |rs| <= 1
                && |key| <= MAX_KEY && Valid()
      modifies this, table, lru, expiry, pool, memory, wal, world
      ensures Valid() && Wrote(o, old(Written()), Written(), rs) && Sized(o, rs, 0)
      ensures o == LogFile.Logged ==> ks == Put(old(ks), key, Hash(fields[field := item]), true)
      ensures o == LogFile.Logged ==> recent == Recent(old(recent), key, true) || (a != 0 && recent == old(recent))
      ensures o != LogFile.Logged ==> ks == old(ks) && recent == old(recent)
      ensures o == LogFile.DiskFailed && !AllFit(rs) ==> wal.attempted == old(wal.attempted)
    {
      hide Valid, Good, AllFit, Put, Recent, SizeClasses.Capacity, SizeClasses.BlockSize, BodySize, World.Dealt, Wrote,
        PackedSize, PairSize, Slab.NoneFree, Copied;
      var updated := Hash(fields[field := item]);
      PutInPlace(ks, key, updated);
      if a != 0 && layouts[a].Promoted? {
        o := AssignInTable(a, key, updated, item.Text? || field !in fields, rs);
        return;
      }
      PackedField(fields, field, item);
      NoFields(fields);
      var used := if a == 0 then 0 else layouts[a].used;
      var needed := if field in fields then used - BodySize(fields[field]) + BodySize(item) else used + PairSize(field, item);
      var count := |fields| + if field in fields then 0 else 1;
      if count > PackedHash.PACKED_LIMIT || needed > PackedHash.PACKED_BYTES {
        o := ReplaceByTable(a, key, updated, rs);
      } else if a == 0 || needed > SizeClasses.Capacity(|key|, blocks[a]) {
        var current := if a == 0 then 0 else SizeClasses.Capacity(|key|, blocks[a]);
        var l := EditField(a, fields, field, item);
        CopyLies(l, updated.fields, Grown(needed, current));
        o := Replace(a, key, updated, Copied(l), Grown(needed, current), true, rs, 0);
      } else {
        var l := EditField(a, fields, field, item);
        o := Assign(a, key, updated, l, rs);
      }
    }

    /** The packed pairs of a node, or of none, with one field set. */
    method EditField(a: Addr, fields: map<Bytes, Element>, field: Bytes, item: Element) returns (l: Layout)
      requires a == 0 ==> fields == map[]
      requires a != 0 ==> a in layouts && Pairs(layouts[a], fields)
      requires PackedSize(fields[field := item]) <= MAX_U32
      ensures Pairs(l, fields[field := item]) && (a != 0 ==> |l.bytes| <= Max(|layouts[a].bytes|, l.used))
    {
      hide PackedSize, Pairs, PackedHash.AllSmallFields;
      NoPairsThere();
      SmallField(fields, field, item);
      l := SetField(if a == 0 then NO_PAIRS else layouts[a], |fields|, field, item, fields);
    }

    /** `hash_set_texts`: the whole table is rebuilt, and all its pairs are logged, or nothing happens. */
    method HashSetTexts(key: Key, parts: seq<Bytes>, c: Clock) returns (res: Result)
      requires !Replaying() && Valid() && ClockOk(c) && c.offset == offset
      modifies this, table, lru, expiry, pool, memory, wal, world
      ensures Valid() && Answers(Replaying(), Op.HSetTexts(key, parts), c, res, old(Now()), Now(), old(Tight(key, c.now)))
    {
      hide Valid, Found, Tight, Answers, Fits, ClockOk;
      ghost var op := Op.HSetTexts(key, parts);
      if |parts| % 2 == 1 {
        AnswersRefused(status.replaying, op, c, Now(), Tight(key, c.now));
        return Replied(Failed(WrongCount));
      }
      ghost var s0 := Now();
      var a, stop := Begin(op, c, key);
      if stop.Some? {
        return stop.value;
      }
      res := SetTextsFound(a, key, parts, c, s0);
    }

    method SetTextsFound(a: Addr, key: Key, parts: seq<Bytes>, c: Clock, ghost s0: State) returns (res: Result)
      requires Found(Op.HSetTexts(key, parts), c, a, s0)
      requires !Replaying()
      modifies this, table, lru, expiry, pool, memory, wal, world
      ensures Valid() && Answers(Replaying(), Op.HSetTexts(key, parts), c, res, s0, Now(), false)
    {
      hide Valid, Good, Begun, Wrote, Applied, Put, World.Dealt, Fine, Denied, Faulted, LogFile.Cause, LiesIn, Answers,
        Drop, ClockOk, LargestPair, SetPairs, AddedPairs, HSetRecords;
      ghost var op, w := Op.HSetTexts(key, parts), Now();
      HSetTextsApplied(w.ks, key, parts, c);
      if a != 0 && !values[a].Hash? {
        res := Leave(op, c, Failed(WrongType), s0);
        return;
      }
      if parts == [] {
        res := Leave(op, c, Amount(0), s0);
        return;
      }
      var granted := world.Grant();
      if !granted {
        DeniedWrote(JournalOf(w), Written(), Applied(status.replaying, w.ks, op, c).records);
        res := Finish(op, c, LogFile.NoMemory, Done, s0, w);
        return;
      }
      StillBegun(status.replaying, s0, key, c.now, w, Now());
      if exists i :: 0 <= i < |parts| && |parts[i]| > LIMIT {
        res := Leave(op, c, Failed(TooLarge), s0);
        return;
      }
      res := RebuildHash(a, key, if a == 0 then map[] else values[a].fields, parts, c, s0);
    }

    /** A table is packed exactly if it has few and short enough fields. */
    static method LayTable(fields: map<Bytes, Element>) returns (l: Layout, body: nat)
      ensures Lies(Hash(fields), l, body) && body <= MAX_BODY && (l.Promoted? <==> !MayPack(fields))
    {
      hide PackedSize;
      var bytes := Measure(fields);
      if |fields| > PackedHash.PACKED_LIMIT || bytes > PackedHash.PACKED_BYTES {
        return Promoted, TABLE_ADDRESS;
      }
      FieldsPackable(fields);
      l := PackTable(fields);
      body := bytes;
    }

    /** The table is packed again if it may be, and takes the place of what was there. */
    method RebuildHash(a: Addr, key: Key, fields: map<Bytes, Element>, parts: seq<Bytes>, c: Clock, ghost s0: State)
      returns (res: Result)
      requires parts != [] && !exists i :: 0 <= i < |parts| && |parts[i]| > LIMIT
      requires fields == OldFields(ks, key) && (a != 0 ==> a in values && values[a].Hash?)
      requires Found(Op.HSetTexts(key, parts), c, a, s0) && !Replaying()
      modifies this, table, lru, expiry, pool, memory, wal, world
      ensures Valid() && Answers(Replaying(), Op.HSetTexts(key, parts), c, res, s0, Now(), false)
    {
      hide Valid, Good, Begun, Wrote, Applied, Put, World.Dealt, Fine, Denied, Faulted, LogFile.Cause, LiesIn, Answers,
        Drop, ClockOk, LargestPair, SetPairs, AddedPairs, HSetRecords, Fits, ArgsSize, AllFit, Recent;
      ghost var op, w := Op.HSetTexts(key, parts), Now();
      HSetTextsApplied(w.ks, key, parts, c);
      var updated := SetPairs(fields, parts);
      var l, body := LayTable(updated);
      PairsReserved(key, parts);
      UsedAgain(s0.recent, recent, key);
      var o := Replace(a, key, Hash(updated), l, body, true, HSetRecords(key, parts), |key| + LargestPair(parts) + 64);
      if o == LogFile.TooLarge {
        TooLargeBegun(status.replaying, s0, key, c.now, w, Now(), HSetRecords(key, parts));
        res := Leave(op, c, Failed(TooLarge), s0);
        return;
      }
      WroteNothing(JournalOf(w), Written(), HSetRecords(key, parts), Applied(status.replaying, w.ks, op, c).records);
      res := Finish(op, c, o, Amount(AddedPairs(fields, parts)), s0, w);
    }

    /** `hash_del`: the last field takes the key with it. */
    method HashDelete(key: Key, field: Bytes, c: Clock) returns (res: Result)
      requires Valid() && ClockOk(c) && c.offset == offset
      modifies this, table, lru, expiry, pool, memory, wal, world
      ensures Valid() && Answers(Replaying(), HDel(key, field), c, res, old(Now()), Now(), old(Tight(key, c.now)))
    {
      hide Valid, Found, Tight, Answers, Fits, ClockOk;
      ghost var op := HDel(key, field);
      ghost var s0 := Now();
      var a, stop := Begin(op, c, key);
      if stop.Some? {
        return stop.value;
      }
      res := DeleteFieldFound(a, key, field, c, s0);
    }

    method DeleteFieldFound(a: Addr, key: Key, field: Bytes, c: Clock, ghost s0: State) returns (res: Result)
      requires Found(HDel(key, field), c, a, s0)
      modifies this, table, lru, expiry, pool, memory, wal, world
      ensures Valid() && Answers(Replaying(), HDel(key, field), c, res, s0, Now(), false)
    {
      hide Valid, Good, Begun, Wrote, Applied, Put, Revalued, Redated, World.Dealt, Fine, Denied, Faulted,
        LogFile.Cause, SizeClasses.BlockSize, Slab.NoneFree, SizeClasses.Capacity, PairSize, PackedSize, Answers, Fits,
        Drop, ClockOk, EntryOf;
      ghost var op := HDel(key, field);
      ghost var w := Now();
      HDelApplied(status.replaying, w.ks, key, field, c);
      if a == 0 {
        res := Leave(op, c, Amount(0), s0);
        return;
      }
      if !values[a].Hash? {
        res := Leave(op, c, Failed(WrongType), s0);
        return;
      }
      var fields := values[a].fields;
      if field !in fields {
        res := Leave(op, c, Amount(0), s0);
        return;
      }
      FieldRecordFits(this, key, field);
      var o := RemoveField(a, key, fields, field, Quiet(status.replaying, [HDelRecord(key, field)]));
      res := Finish(op, c, o, Amount(1), s0, w);
    }

    /** What is left of a hash takes its place, or the key goes. */
    method RemoveField(a: Addr, ghost key: Key, fields: map<Bytes, Element>, field: Bytes, rs: seq<Record>)
      returns (o: LogFile.Outcome)
      requires Valid() && NodeAt(a, key) && values[a] == Hash(fields) && field in fields && |rs| <= 1 && AllFit(rs)
      requires fields - {field} != map[] ==> Good(Revalued(ks, key, Hash(fields - {field})), offset)
      modifies this, table, lru, expiry, pool, memory, wal, world
      ensures Valid()
      ensures recent == if o == LogFile.Logged && fields - {field} == map[] then Drop(old(recent), key) else old(recent)
      ensures ks == if o != LogFile.Logged then old(ks) else if fields - {field} == map[] then old(ks) - {key}
                    else Revalued(old(ks), key, Hash(fields - {field}))
      ensures Wrote(o, old(Written()), Written(), rs) && o != LogFile.TooLarge
    {
      hide Valid, Good, AllFit, Drop, Revalued, SizeClasses.Capacity, PackedSize, PairSize, World.Dealt, Wrote,
        PackedHash.Holding;
      if fields - {field} == map[] {
        o := LogErase(a, rs);
        return;
      }
      var l := layouts[a];
      if !l.Promoted? {
        l := CutField(l, |fields|, field, fields);
        CutLies(layouts[a], l, fields, field, SizeClasses.Capacity(|table.keys[a]|, blocks[a]));
      }
      o := Assign(a, key, Hash(fields - {field}), l, rs);
    }

    // ---------- opening ----------

    /** From here on operations are logged, and keys expire. */
    method EndReplay()
      requires Valid()
      modifies status
      ensures Valid() && !Replaying() && status.acked == old(status.acked)
    {
      hide Lodged, Laid, Coherent, Tallied, Good, Buckets.Valid, Index.Valid, LruList.List.Valid, LogFile.WriteAheadLog.Valid;
      status.replaying := false;
    }

    /** One chain of nodes goes back to the pool. */
    method DestroyChain(first: Addr, next: map<Addr, Addr>, ghost chain: seq<Addr>)
      requires Lodged() && Chained(next, first, chain) && Distinct(chain) && trackedBytes == Total(blocks)
      requires forall a :: a in chain ==> a in blocks && a in values
      modifies this`values, this`layouts, this`blocks, this`flagged, this`trackedBytes, pool, memory
      ensures Lodged() && trackedBytes == Total(blocks)
      ensures forall a :: a in blocks <==> a in old(blocks) && a !in chain
      ensures forall a :: a in values <==> a in old(values) && a !in chain
    {
      hide Lodged, Laid, Total;
      var node := first;
      ghost var k := 0;
      while node != 0
        invariant k <= |chain| && Chained(next, node, chain[k..]) && trackedBytes == Total(blocks) && Lodged()
        invariant forall a :: a in blocks <==> a in old(blocks) && a !in chain[..k]
        invariant forall a :: a in values <==> a in old(values) && a !in chain[..k]
        decreases |chain| - k
      {
        assert chain[k..][0] == chain[k] && chain[k..][1..] == chain[k + 1..];
        assert chain[..k + 1] == chain[..k] + [chain[k]];
        assert node !in chain[..k];
        var following := next[node];
        Destroy(node);
        node, k := following, k + 1;
      }
      assert chain[..k] == chain;
    }

    /** Every chain of every bucket. */
    method DestroyAll()
      requires Lodged() && table.Valid() && trackedBytes == Total(blocks) && blocks.Keys == values.Keys == table.keys.Keys
      modifies table, this`values, this`layouts, this`blocks, this`flagged, this`trackedBytes, pool, memory
      ensures Lodged() && table.Valid() && table.keys == map[] && values == map[] && blocks == map[] && trackedBytes == 0
    {
      hide Lodged, Laid, Total, Holds, Left;
      ghost var keys, chains, first := table.keys, table.chains, Table(table.buckets, table.next);
      AllLeft(first, chains, keys, table.hash);
      var i := 0;
      while i < |table.buckets|
        invariant 0 <= i <= |table.buckets| == |first.buckets| && table.next == first.next && trackedBytes == Total(blocks)
                  && Lodged()
        invariant forall j :: 0 <= j < |first.buckets| ==> table.buckets[j] == if j < i then 0 else first.buckets[j]
        invariant blocks.Keys == values.Keys && Left(blocks.Keys, keys, table.hash, |first.buckets|, i)
      {
        FirstLeft(first, chains, keys, table.hash, blocks.Keys, i);
        ghost var before := blocks.Keys;
        DestroyChain(table.buckets[i], table.next, chains[i]);
        FewerLeft(first, chains, keys, table.hash, i, before, blocks.Keys);
        table.buckets := table.buckets[i := 0];
        i := i + 1;
      }
      NoneLeft(blocks.Keys, keys, table.hash, |first.buckets|);
      table.Reset();
      NoBlocks(blocks);
    }

    method ClearParts()
      requires Parts() && Lodged() && trackedBytes == Total(blocks) && blocks.Keys == values.Keys == table.keys.Keys
      modifies table, lru, expiry, pool, memory, this`values, this`layouts, this`blocks, this`flagged, this`trackedBytes
      ensures Parts() && Lodged() && table.keys == map[] && lru.order == [] && expiry.expiries == map[] && expiry.heap == []
      ensures values == map[] && blocks == map[] && flagged == {} && trackedBytes == 0
    {
      hide Lodged, Laid, Buckets.Valid, Index.Valid, LruList.List.Valid, LogFile.WriteAheadLog.Valid, Total;
      DestroyAll();
      lru.Reset();
      expiry.Reset();
      flagged := {};
    }

    /** `clear_keyspace`. */
    method ClearKeyspace()
      requires Valid()
      modifies this, table, lru, expiry, pool, memory
      ensures Valid() && ks == map[] && recent == [] && trackedBytes == 0
    {
      hide Lodged, Laid, Coherent, Tallied, Good, Parts, Deadlines, Total;
      AllHoused(View(), |expiry.heap|, Counts());
      ClearParts();
      keyTotal, keyHint, ttlCount, ttlHint := 0, 0, 0, false;
      ks, recent := map[], [];
      LaidNone(values, blocks, layouts);
      NothingStored(offset);
    }

    // ---------- reading ----------

    /** Every read: an expired key reads as absent; only a key that is found is touched. */
    method Read(op: Op, c: Clock) returns (reply: Reply)
      requires !Replaying() && Valid() && IsRead(op)
      modifies lru, this`recent
      ensures Valid() && reply == ApplyRead(ks, op, c).reply
      ensures recent == if op.key in ks && !Expired(ks, op.key, c.now) then Recent(old(recent), op.key, true) else old(recent)
    {
      hide Valid, Recent, ToDecimal, Deadlines;
      var key := op.key;
      var a := FindActive(key, c.now);
      var deadline := DeadlineOf(a, key);
      match op {
        case Get(_) =>
          if a == 0 {
            return Missing;
          }
          if values[a].List? || values[a].Hash? {
            return Failed(WrongType);
          }
          var text := TextOf(a);
          return Item(Text(text));
        case LLen(_) =>
          return if a == 0 then Amount(0) else if values[a].List? then Amount(|values[a].items|) else Failed(WrongType);
        case HLen(_) =>
          return if a == 0 then Amount(0) else if values[a].Hash? then Amount(|values[a].fields|) else Failed(WrongType);
        case HGet(_, field) =>
          if a == 0 {
            return Missing;
          }
          if !values[a].Hash? {
            return Failed(WrongType);
          }
          var item := ItemOf(a, field);
          return if item.Some? then Item(item.value) else Missing;
        case Ttl(_) =>
          if a == 0 {
            return Amount(-2);
          }
          if deadline.None? {
            return Amount(-1);
          }
          var remaining := deadline.value - c.now;
          return if remaining <= 0 then Amount(-2) else Amount(remaining / 1000);
      }
    }

    /** A text, or the numeral of an integer, from the bytes. */
    method TextOf(a: Addr) returns (text: Bytes)
      requires Valid() && a in table.keys && a in values && (values[a].Str? || values[a].Int?)
      ensures text == if values[a].Str? then values[a].text else ToDecimal(values[a].number)
    {
      hide Lodged, Laid, Coherent, Tallied, Good, Parts, ToDecimal, Get64, Put64;
      LaidAt(table.keys, values, blocks, layouts, a);
      if values[a].Str? {
        return layouts[a].bytes[..|values[a].text|];
      }
      Get64OfPut64(values[a].number);
      text := ToDecimal(Get64(layouts[a].bytes[..8]));
    }

    /** A field, from the table or from the bytes. */
    method ItemOf(a: Addr, field: Bytes) returns (item: Option<Element>)
      requires Valid() && a in table.keys && a in values && values[a].Hash?
      ensures item == if field in values[a].fields then Some(values[a].fields[field]) else None
    {
      hide Lodged, Laid, Coherent, Tallied, Good, Parts, PackedSize, PackedHash.Holding;
      LaidAt(table.keys, values, blocks, layouts, a);
      var fields := values[a].fields;
      if layouts[a].Promoted? {
        return if field in fields then Some(fields[field]) else None;
      }
      item := FieldOf(layouts[a], |fields|, field, fields);
    }

    method DeadlineOf(a: Addr, ghost key: Key) returns (d: Option<int>)
      requires Valid() && (a != 0 ==> a in table.keys && table.keys[a] == key)
      ensures a != 0 ==> key in ks && d == ks[key].deadline
    {
      hide Lodged, Laid, Coherent, Tallied, Good, Parts;
      if a != 0 {
        Present(View(), ks, recent, a);
      }
      d := if a in expiry.expiries then Some(expiry.expiries[a].deadline) else None;
    }

    // ---------- removing keys in bulk ----------

    method BeginBatch()
      requires Valid()
      modifies wal
      ensures Valid() && wal.attempted == old(wal.attempted) && wal.failed == old(wal.failed)
    {
      hide Lodged, Laid, Coherent, Tallied, Good, Buckets.Valid, Index.Valid, LruList.List.Valid, LogFile.WriteAheadLog.Valid;
      wal.BeginBatch();
    }

    method EndBatch() returns (ok: bool)
      requires Valid()
      modifies wal, world`calls
      ensures Valid() && wal.attempted == old(wal.attempted)
      ensures ok ==> wal.AllSynced()
      ensures ok && wal.sync == LogFile.Always ==> !wal.failed
      ensures if ok then wal.failed == old(wal.failed) else wal.failed
      ensures if ok || old(wal.failed) then world.Dealt() == old(world.Dealt()) else Faulted(old(world.Dealt()), world.Dealt())
    {
      hide Lodged, Laid, Coherent, Tallied, Good, Buckets.Valid, Index.Valid, LruList.List.Valid, LogFile.WriteAheadLog.Valid;
      ok := wal.EndBatch(world);
    }

    /** The log's own thread, once a second. */
    method Flush() returns (ok: bool)
      requires Valid()
      modifies wal, world`calls
      ensures Valid() && wal.attempted == old(wal.attempted) && ok == !wal.failed && (old(wal.failed) ==> wal.failed)
      ensures ok && wal.sync != LogFile.NoSync ==> wal.durable == |wal.records| || |wal.records| == wal.initial
      ensures if ok || old(wal.failed) then world.Dealt() == old(world.Dealt()) else Faulted(old(world.Dealt()), world.Dealt())
    {
      hide Lodged, Laid, Coherent, Tallied, Good, Buckets.Valid, Index.Valid, LruList.List.Valid, LogFile.WriteAheadLog.Valid;
      ok := wal.FlushLocked(world);
    }

    /** Replies are sent: what is on the disk is promised from now on. */
    ghost method Acknowledge()
      requires Valid()
      modifies status
      ensures Valid() && status.acked == wal.durable && Replaying() == old(status.replaying)
    {
      hide Lodged, Laid, Coherent, Tallied, Good, Buckets.Valid, Index.Valid, LruList.List.Valid, LogFile.WriteAheadLog.Valid;
      status.acked := wal.durable;
    }

    /** The log goes on in a new file, all of which is on the disk; so all of it is promised. */
    method AdoptLog(file: Bytes, ghost records: seq<Record>)
      requires Valid() && !wal.failed && AllFit(records) && file == Log(records)
      modifies wal, status
      ensures Valid() && Replaying() == old(status.replaying) && status.acked == |records| && !wal.failed
      ensures wal.file == file && wal.attempted == records && wal.synced == |file| && wal.durable == |records|
    {
      hide Lodged, Laid, Coherent, Tallied, Good, Buckets.Valid, Index.Valid, LruList.List.Valid,
        LogFile.WriteAheadLog.Valid, Log, AllFit;
      wal.Switch(file, records);
      status.acked := |records|;
    }

    /** Nothing more is ever logged. */
    method FailLog()
      requires Valid()
      modifies wal`failed
      ensures Valid() && wal.failed
    {
      hide Lodged, Laid, Coherent, Tallied, Good, Buckets.Valid, Index.Valid, LruList.List.Valid, LogFile.WriteAheadLog.Valid;
      wal.Fail();
    }

    /** One deletion of a pass. If it fails, its record may be in a log that failed, and nothing else happened. */
    method EraseLogged(a: Addr, ghost key: Key) returns (ok: bool, ghost tried: bool)
      requires Valid() && a in table.keys && table.keys[a] == key && Fits(DelRecord(key))
      modifies this, table, lru, expiry, pool, memory, wal, world
      ensures Valid() && wal.attempted == old(wal.attempted) + (if tried then [DelRecord(key)] else [])
      ensures if ok then tried && ks == old(ks) - {key} && recent == Drop(old(recent), key)
                else ks == old(ks) && recent == old(recent)
      ensures PassLuck(ok, old(Now()), Now())
      ensures !ok && tried ==> wal.failed
    {
      hide Valid, Fits, Drop;
      ghost var rs0 := wal.attempted;
      var o := LogErase(a, [DelRecord(table.keys[a])]);
      ok, tried := o == LogFile.Logged, wal.attempted != rs0;
    }

    /**
      * `evict_to`: exactly the least recently used keys go, least recent first, as many as needed and
      * allowed. The log has their deletions, and of one more key at most, if it failed.
      */
    method EvictTo(target: nat, limit: nat) returns (ghost gone: seq<Key>, ghost tried: seq<Key>, ok: bool)
      requires !Replaying() && Valid()
      modifies this, table, lru, expiry, pool, memory, wal, world
      ensures Valid() && old(recent) == recent + Backward(gone)
      ensures EachThere(old(ks), gone) && ks == Fewer(old(ks), gone)
      ensures wal.attempted == old(wal.attempted) + Dels(tried) && EachThere(old(ks), tried)
      ensures tried == gone || (wal.failed && !ok && recent != [] && tried == gone + [recent[|recent| - 1]])
      ensures |gone| <= limit && (ok ==> |gone| == limit || |ks| <= target) && (gone != [] ==> |ks| >= target)
      ensures PassLuck(ok, old(Now()), Now()) && (ok ==> wal.AllSynced())
    {
      hide Valid, Fits, Drop, Dels, Backward, Fewer, PassLuck, World.Dealt, EachThere, Evicted;
      gone, ok := [], true;
      tried := gone;
      ghost var s0 := Now();
      NothingEvicted(s0, target);
      KeysAreCounted(this);
      BeginBatch();
      var count := 0;
      while count < limit && keyTotal > target
        invariant Valid() && ok && count == |gone| <= limit && keyTotal == |ks| == |recent| && tried == gone
        invariant Evicted(s0, Now(), gone, gone, target, true)
      {
        var victim := lru.tail;
        ghost var key := TailIsLast(this);
        ghost var once, before := false, Now();
        ok, once := EraseLogged(victim, key);
        OneMoreEvicted(s0, before, gone, key, target, Now(), ok, once);
        if once {
          tried := tried + [key];
        }
        if !ok {
          break;
        }
        KeysAreCounted(this);
        gone := gone + [key];
        count := count + 1;
      }
      KeysAreCounted(this);
      ghost var before := Now();
      var ended := EndBatch();
      EndEvicted(s0, before, gone, tried, target, ok, ended, Now());
      ok := ok && ended;
      WhatWasEvicted(s0, Now(), gone, tried, target, ok);
    }

    /**
      * `remove_expired_locked`: the expired keys go, earliest deadline first, all of them unless the
      * limit is reached. The log has their deletions, and of one more such key at most, if it failed.
      */
    method RemoveExpired(limit: nat, now: int) returns (ghost gone: seq<Key>, ghost tried: seq<Key>, ok: bool)
      requires !Replaying() && Valid()
      modifies this, table, lru, expiry, pool, memory, wal, world
      ensures Valid() && EachThere(old(ks), gone) && ks == Fewer(old(ks), gone) && recent == DropAll(old(recent), gone)
      ensures wal.attempted == old(wal.attempted) + Dels(tried) && EachThere(old(ks), tried)
      ensures tried == gone || (wal.failed && !ok && gone < tried && |tried| == |gone| + 1)
      ensures DueInOrder(old(ks), tried, now) && DueInOrder(old(ks), gone, now) && NoneEarlier(old(ks), gone, ks)
      ensures |gone| <= limit && (ok ==> |gone| == limit || forall key :: key in ks ==> !Expired(ks, key, now))
      ensures PassLuck(ok, old(Now()), Now()) && (ok && gone != [] ==> wal.AllSynced())
    {
      hide Valid, Fits, Dels, Fewer, DropAll, Removed, Expired, PassLuck, World.Dealt, EachThere, DueInOrder, NoneEarlier;
      gone, ok := [], true;
      tried := gone;
      ghost var s0 := Now();
      NothingRemoved(s0, now);
      HintIsRight(this, now);
      if ttlHint {
        BeginBatch();
        var count := 0;
        while count < limit && expiry.heap != []
          invariant Valid() && ok && count == |gone| <= limit && tried == gone && Removed(s0, Now(), gone, gone, now, true)
        {
          var node, deadline := Earliest();
          if deadline > now {
            NoneDue(ks, table.keys[node], now);
            break;
          }
          ghost var key, before, once := table.keys[node], Now(), false;
          DelFits(this, key);
          ok, once := EraseLogged(node, key);
          OneMoreRemoved(s0, before, gone, key, now, Now(), ok, once);
          if once {
            tried := tried + [key];
          }
          if !ok {
            break;
          }
          gone := gone + [key];
          count := count + 1;
        }
        HintIsRight(this, now);
        ghost var before := Now();
        var ended := EndBatch();
        EndRemoved(s0, before, gone, tried, now, ok, ended, Now());
        ok := ok && ended;
      }
      WhatWasRemoved(s0, Now(), gone, tried, now, ok);
    }

    /** The front of the heap: no stored deadline is earlier. */
    method Earliest() returns (a: Addr, deadline: int)
      requires Valid() && expiry.heap != []
      ensures a in table.keys && table.keys[a] in ks && ks[table.keys[a]].deadline == Some(deadline)
      ensures forall key :: key in ks && ks[key].deadline.Some? ==> deadline <= ks[key].deadline.value
    {
      hide Lodged, Laid, Tallied, Good, Buckets.Valid, Index.Valid, LruList.List.Valid, LogFile.WriteAheadLog.Valid, Coherent;
      a := expiry.Front();
      deadline := expiry.expiries[a].deadline;
      EarliestStored(View(), ks, recent, a);
    }
  }

  lemma NoBlocks(blocks: map<Addr, nat>)
    requires forall a :: a !in blocks
    ensures blocks == map[] && Total(blocks) == 0
  {
  }

  lemma LentIs(blocks: map<Addr, nat>, live: map<Addr, nat>, others: set<Addr>, outstanding: map<Addr, nat>, a: Addr)
    requires Lent(blocks, live, others, outstanding) && a in blocks
    ensures a != 0 && LentAs(a, blocks[a], live, others, outstanding) && (a in live ==> blocks[a] <= SizeClasses.LARGEST_CLASS)
  {
    hide LentAs;
  }

  lemma TalliedTotal(n: Nodes, heapSize: nat, t: Tally, pending: set<Addr>)
    requires Tallied(n, heapSize, t, pending)
    ensures t.tracked == Total(t.blocks)
  {
    hide Total;
  }

  /** Where everything is once a node has moved. */
  function MovedNodes(n: Nodes, a: Addr, b: Addr, order: seq<Addr>): (r: Nodes)
  {
    if a in n.keys && a in n.values then
      Nodes((n.keys - {a})[b := n.keys[a]], order, Inherited(n.deadlines, a, b, true), (n.values - {a})[b := n.values[a]])
    else n
  }

  function MovedLayouts(layouts: map<Addr, Layout>, a: Addr, b: Addr): (r: map<Addr, Layout>)
  {
    if a in layouts then (layouts - {a})[b := layouts[a]] else layouts
  }

  ghost predicate MovedOrder(order: seq<Addr>, order': seq<Addr>, a: Addr, b: Addr)
  {
    |order'| == |order| && forall i :: 0 <= i < |order'| ==> order'[i] == if order[i] == a then b else order[i]
  }

  lemma MovedAll(n: Nodes, heapSize: nat, t: Tally, layouts: map<Addr, Layout>, ks: Ks, recent: seq<Key>, a: Addr, b: Addr,
                 block: nat,
                 order: seq<Addr>, t': Tally)
    requires a in n.keys && a in n.values && a in layouts && b !in t.blocks && b != 0
              && LiesIn(n.keys[a], n.values[a], layouts[a], block)
    requires MovedOrder(n.order, order, a, b)
    requires t'.blocks == t.blocks[b := block] - {a} && t'.tracked == Total(t'.blocks)
    requires Flagged(t'.flagged, Inherited(n.deadlines, a, b, true))
    requires t'.keyTotal == t.keyTotal && t'.keyHint == t.keyHint && t'.ttlCount == t.ttlCount && t'.ttlHint == t.ttlHint
    requires Tallied(n, heapSize, t, {}) && Coherent(n, ks, recent) && Laid(n.keys, n.values, t.blocks, layouts)
    ensures var m := MovedNodes(n, a, b, order);
            Tallied(m, heapSize, t', {}) && Coherent(m, ks, recent)
              && Laid(m.keys, m.values, t'.blocks, MovedLayouts(layouts, a, b))
  {
    hide Tallied, Coherent, Laid, LiesIn, Total, Flagged, Inherited;
    BeforeMove(n, heapSize, t, ks, recent, a, b);
    assert t.blocks[b := block] - {a} == (t.blocks - {a})[b := block];
    Relocated(n, ks, recent, a, b, order);
    TallyMoved(n, heapSize, t, a, b, block, order, t');
    LaidMoved(n.keys, n.values, t.blocks, layouts, a, b, block);
  }

  lemma PendingIsNew(n: Nodes, heapSize: nat, t: Tally, p: Addr)
    requires Tallied(n, heapSize, t, {p})
    ensures p !in n.keys
  {
  }

  lemma LaidNone(values: map<Addr, Value>, blocks: map<Addr, nat>, layouts: map<Addr, Layout>)
    ensures Laid(map[], values, blocks, layouts)
  {
  }

  lemma NothingLaid()
    ensures Laid(map[], map[], map[], map[])
  {
  }

  lemma NothingLent(outstanding: map<Addr, nat>)
    ensures Lent(map[], map[], outstanding.Keys, outstanding)
  {
  }

  lemma LentStill(blocks: map<Addr, nat>, live: map<Addr, nat>, others: set<Addr>, outstanding: map<Addr, nat>,
                  outstanding': map<Addr, nat>)
    requires Lent(blocks, live, others, outstanding)
    requires forall q :: q in others && q in outstanding ==> q in outstanding' && outstanding'[q] == outstanding[q]
    ensures Lent(blocks, live, others, outstanding')
  {
    hide SizeClasses.Smallest;
  }

  /** A block of one size cannot be handed out for the other. */
  ghost predicate OtherClass(size: nat, block: nat)
  {
    forall k :: size <= SizeClasses.LARGEST_CLASS && SizeClasses.Smallest(size, k) ==>
      !(block <= SizeClasses.LARGEST_CLASS && SizeClasses.Smallest(block, k))
  }

  lemma StillBarren(pool: Slab.SlabPool, lists: seq<seq<Addr>>, block: nat)
    requires |lists| == |pool.freeLists|
    requires forall k :: 0 <= k < |lists| && (block <= SizeClasses.LARGEST_CLASS ==> !SizeClasses.Smallest(block, k)) ==>
              pool.freeLists[k] == lists[k]
    ensures forall size :: OtherClass(size, block) && Slab.NoneFree(lists, size) ==> Slab.NoneFree(pool.freeLists, size)
  {
    hide SizeClasses.Smallest;
  }

  lemma NothingStored(offset: int)
    ensures Good(map[], offset)
    ensures var n := Nodes(map[], [], map[], map[]);
            Coherent(n, map[], []) && Tallied(n, 0, Tally(map[], {}, 0, 0, 0, 0, false), {}) && Deadlines(map[]) == map[]
  {
  }

  lemma AllHoused(n: Nodes, heapSize: nat, t: Tally)
    requires Tallied(n, heapSize, t, {})
    ensures t.tracked == Total(t.blocks) && t.blocks.Keys == n.values.Keys == n.keys.Keys
  {
    hide Total;
  }

  /** The nodes of the buckets from `i` on. */
  ghost predicate Left(nodes: set<Addr>, keys: map<Addr, Key>, hash: Key -> nat, n: nat, i: nat)
  {
    n > 0 && forall a :: a in nodes <==> a in keys && Slot(hash, keys[a], n) >= i
  }

  lemma AllLeft(t: Table, chains: seq<seq<Addr>>, keys: map<Addr, Key>, hash: Key -> nat)
    requires Holds(t, chains, keys, hash)
    ensures Left(keys.Keys, keys, hash, |t.buckets|, 0)
  {
  }

  lemma FirstLeft(t: Table, chains: seq<seq<Addr>>, keys: map<Addr, Key>, hash: Key -> nat, nodes: set<Addr>, i: nat)
    requires Holds(t, chains, keys, hash) && i < |t.buckets| && Left(nodes, keys, hash, |t.buckets|, i)
    ensures |chains| == |t.buckets| && Chained(t.next, t.buckets[i], chains[i]) && Distinct(chains[i])
    ensures forall a :: a in chains[i] ==> a in nodes
  {
    hide Slot;
    assert ChainOk(t, chains[i], i, keys, hash);
  }

  lemma FewerLeft(t: Table, chains: seq<seq<Addr>>, keys: map<Addr, Key>, hash: Key -> nat, i: nat, before: set<Addr>,
                  after: set<Addr>)
    requires Holds(t, chains, keys, hash) && i < |t.buckets| && Left(before, keys, hash, |t.buckets|, i)
    requires forall a :: a in after <==> a in before && a !in chains[i]
    ensures Left(after, keys, hash, |t.buckets|, i + 1)
  {
    hide Slot;
    assert ChainOk(t, chains[i], i, keys, hash);
  }

  lemma NoneLeft(nodes: set<Addr>, keys: map<Addr, Key>, hash: Key -> nat, n: nat)
    requires Left(nodes, keys, hash, n, n)
    ensures nodes == {}
  {
  }

  /** The keyspace without some keys, one after another. */
  function Fewer(ks: Ks, gone: seq<Key>): (r: Ks)
    decreases |gone|
  {
    if gone == [] then ks else Fewer(ks, gone[..|gone| - 1]) - {gone[|gone| - 1]}
  }

  function DropAll(recent: seq<Key>, gone: seq<Key>): (r: seq<Key>)
    decreases |gone|
  {
    if gone == [] then recent else Drop(DropAll(recent, gone[..|gone| - 1]), gone[|gone| - 1])
  }

  lemma NothingDropped(recent: seq<Key>)
    ensures DropAll(recent, []) == recent
  {
  }

  lemma OneMoreDropped(recent: seq<Key>, gone: seq<Key>, key: Key)
    ensures DropAll(recent, gone + [key]) == Drop(DropAll(recent, gone), key)
  {
    assert (gone + [key])[..|gone|] == gone;
  }

  /** A pass that ends well was refused nothing. One that does not met memory that was refused, or a failing disk. */
  ghost predicate PassLuck(ok: bool, s: State, t: State)
  {
    && s.luck.refusals <= t.luck.refusals && s.luck.faults <= t.luck.faults
    && if ok then t.failed == s.failed && Fine(s.luck, t.luck)
       else if !t.failed then !s.failed && Denied(s.luck, t.luck)
       else s.failed || s.luck.faults < t.luck.faults
  }

  /** How far an expiry pass that began in `s` has got in `t`. */
  ghost predicate Removed(s: State, t: State, gone: seq<Key>, tried: seq<Key>, now: int, ok: bool)
  {
    && EachThere(s.ks, gone) && t.ks == Fewer(s.ks, gone) && t.recent == DropAll(s.recent, gone)
    && t.log == s.log + Dels(tried) && EachThere(s.ks, tried)
    && (tried == gone || (t.failed && !ok && gone < tried && |tried| == |gone| + 1))
    && DueInOrder(s.ks, tried, now) && DueInOrder(s.ks, gone, now) && NoneEarlier(s.ks, gone, t.ks)
    && PassLuck(ok, s, t)
  }

  lemma WhatWasRemoved(s: State, t: State, gone: seq<Key>, tried: seq<Key>, now: int, ok: bool)
    requires Removed(s, t, gone, tried, now, ok)
    ensures EachThere(s.ks, gone) && t.ks == Fewer(s.ks, gone) && t.recent == DropAll(s.recent, gone)
    ensures t.log == s.log + Dels(tried) && EachThere(s.ks, tried)
    ensures tried == gone || (t.failed && !ok && gone < tried && |tried| == |gone| + 1)
    ensures DueInOrder(s.ks, tried, now) && DueInOrder(s.ks, gone, now) && NoneEarlier(s.ks, gone, t.ks)
    ensures PassLuck(ok, s, t)
  {
    hide EachThere, Fewer, DropAll, Dels, DueInOrder, NoneEarlier, PassLuck;
  }

  lemma NothingRemoved(s: State, now: int)
    ensures Removed(s, s, [], [], now, true)
    ensures forall t: State :: t == s.(log := t.log) && t.log == s.log ==> Removed(s, t, [], [], now, true)
  {
    hide Dels, Fewer, DropAll, DueInOrder, NoneEarlier, EachThere;
    NothingGone(s.ks, s.recent, s.log);
    NothingDue(s.ks, now);
    NothingDropped(s.recent);
  }

  lemma OneMoreRemoved(s: State, t: State, gone: seq<Key>, key: Key, now: int, u: State, ok: bool, once: bool)
    requires Removed(s, t, gone, gone, now, true) && PassLuck(ok, t, u) && (!ok && once ==> u.failed)
    requires key in t.ks && t.ks[key].deadline.Some? && t.ks[key].deadline.value <= now
    requires forall k :: k in t.ks && t.ks[k].deadline.Some? ==> t.ks[key].deadline.value <= t.ks[k].deadline.value
    requires u.log == t.log + (if once then [DelRecord(key)] else [])
    requires if ok then once && u.ks == t.ks - {key} && u.recent == Drop(t.recent, key) else u.ks == t.ks && u.recent == t.recent
    ensures Removed(s, u, if ok then gone + [key] else gone, if once then gone + [key] else gone, now, ok)
  {
    hide Dels, Fewer, DropAll, DueInOrder, NoneEarlier, Expired, PassLuck, EachThere, Drop;
    NowDue(t.ks, key, now);
    OneMoreDue(s.ks, gone, t.ks, key, now);
    OneMoreGone(s.ks, t.recent, t.recent, gone, key, s.log);
    OneMoreDropped(s.recent, gone, key);
    MorePassLuck(ok, s, t, u);
    assert t.log + [] == t.log;
  }

  lemma EndRemoved(s: State, t: State, gone: seq<Key>, tried: seq<Key>, now: int, ok: bool, ended: bool, u: State)
    requires Removed(s, t, gone, tried, now, ok) && u == t.(failed := u.failed, luck := u.luck)
    requires if ended then u.failed == t.failed else u.failed
    requires if ended || t.failed then u.luck == t.luck else Faulted(t.luck, u.luck)
    ensures Removed(s, u, gone, tried, now, ok && ended)
  {
    hide Dels, Fewer, DropAll, DueInOrder, NoneEarlier, PassLuck, EachThere;
    EndPassLuck(ok, ended, s, t, u);
  }

  /** How far an eviction pass that began in `s` has got in `t`. */
  ghost predicate Evicted(s: State, t: State, gone: seq<Key>, tried: seq<Key>, target: nat, ok: bool)
  {
    && s.recent == t.recent + Backward(gone) && EachThere(s.ks, gone) && t.ks == Fewer(s.ks, gone)
    && t.log == s.log + Dels(tried) && EachThere(s.ks, tried)
    && (tried == gone || (t.failed && !ok && t.recent != [] && tried == gone + [t.recent[|t.recent| - 1]]))
    && (gone != [] ==> |t.ks| >= target) && PassLuck(ok, s, t)
  }

  lemma WhatWasEvicted(s: State, t: State, gone: seq<Key>, tried: seq<Key>, target: nat, ok: bool)
    requires Evicted(s, t, gone, tried, target, ok)
    ensures s.recent == t.recent + Backward(gone) && EachThere(s.ks, gone) && t.ks == Fewer(s.ks, gone)
    ensures t.log == s.log + Dels(tried) && EachThere(s.ks, tried)
    ensures tried == gone || (t.failed && !ok && t.recent != [] && tried == gone + [t.recent[|t.recent| - 1]])
    ensures (gone != [] ==> |t.ks| >= target) && PassLuck(ok, s, t)
  {
    hide EachThere, Fewer, Backward, Dels, PassLuck;
  }

  lemma NothingEvicted(s: State, target: nat)
    ensures forall t: State :: t == s.(log := t.log) && t.log == s.log ==> Evicted(s, t, [], [], target, true)
  {
    hide Dels, Fewer, Backward, EachThere;
    NothingGone(s.ks, s.recent, s.log);
  }

  lemma OneMoreEvicted(s: State, t: State, gone: seq<Key>, key: Key, target: nat, u: State, ok: bool, once: bool)
    requires Evicted(s, t, gone, gone, target, true) && PassLuck(ok, t, u) && (!ok && once ==> u.failed)
    requires key in t.ks && t.recent != [] && t.recent[|t.recent| - 1] == key && |t.ks| > target
    requires u.log == t.log + (if once then [DelRecord(key)] else [])
    requires if ok then once && u.ks == t.ks - {key} && u.recent == t.recent[..|t.recent| - 1] && |u.ks| == |t.ks| - 1
             else u.ks == t.ks && u.recent == t.recent
    ensures Evicted(s, u, if ok then gone + [key] else gone, if once then gone + [key] else gone, target, ok)
  {
    hide Dels, Fewer, Backward, PassLuck, EachThere;
    OneMoreGone(s.ks, s.recent, t.recent, gone, key, s.log);
    MorePassLuck(ok, s, t, u);
    assert t.log + [] == t.log;
  }

  lemma EndEvicted(s: State, t: State, gone: seq<Key>, tried: seq<Key>, target: nat, ok: bool, ended: bool, u: State)
    requires Evicted(s, t, gone, tried, target, ok) && u == t.(failed := u.failed, luck := u.luck)
    requires if ended then u.failed == t.failed else u.failed
    requires if ended || t.failed then u.luck == t.luck else Faulted(t.luck, u.luck)
    ensures Evicted(s, u, gone, tried, target, ok && ended)
  {
    hide Dels, Fewer, Backward, PassLuck, EachThere;
    EndPassLuck(ok, ended, s, t, u);
  }

  lemma MorePassLuck(ok: bool, s: State, t: State, u: State)
    requires PassLuck(true, s, t) && PassLuck(ok, t, u)
    ensures PassLuck(ok, s, u)
  {
  }

  /** A pass ends with its batch. */
  lemma EndPassLuck(ok: bool, ended: bool, s: State, t: State, u: State)
    requires PassLuck(ok, s, t)
    requires if ended then u.failed == t.failed else u.failed
    requires if ended || t.failed then u.luck == t.luck else Faulted(t.luck, u.luck)
    ensures PassLuck(ok && ended, s, u)
  {
  }

  lemma DelSize(key: Key)
    ensures 10 + ArgsSize(DelRecord(key).args) == 14 + |key|
  {
    assert [key][1..] == [];
  }

  /** Each of them was there when its turn came. */
  ghost predicate EachThere(ks: Ks, gone: seq<Key>)
  {
    forall i :: 0 <= i < |gone| ==> gone[i] in Fewer(ks, gone[..i])
  }

  function Backward(s: seq<Key>): (r: seq<Key>)
    ensures |r| == |s| && forall i :: 0 <= i < |s| ==> r[i] == s[|s| - 1 - i]
  {
    seq(|s|, i requires 0 <= i < |s| => s[|s| - 1 - i])
  }

  function Dels(gone: seq<Key>): (r: seq<Record>)
    ensures |r| == |gone| && forall i :: 0 <= i < |gone| ==> r[i] == DelRecord(gone[i])
  {
    seq(|gone|, i requires 0 <= i < |gone| => DelRecord(gone[i]))
  }

  /** All of them had expired, and they went by deadline. */
  ghost predicate DueInOrder(ks: Ks, gone: seq<Key>, now: int)
  {
    && (forall i :: 0 <= i < |gone| ==> Expired(ks, gone[i], now))
    && (forall i, j :: 0 <= i < j < |gone| ==> ks[gone[i]].deadline.value <= ks[gone[j]].deadline.value)
  }

  /** Nothing that is left has an earlier deadline than something that went. */
  ghost predicate NoneEarlier(ks: Ks, gone: seq<Key>, left: Ks)
  {
    forall i, key :: 0 <= i < |gone| && gone[i] in ks && ks[gone[i]].deadline.Some? && key in left && left[key].deadline.Some? ==>
      ks[gone[i]].deadline.value <= left[key].deadline.value
  }

  lemma NothingGone(ks: Ks, recent: seq<Key>, rs: seq<Record>)
    ensures Fewer(ks, []) == ks && EachThere(ks, []) && recent + Backward([]) == recent && rs + Dels([]) == rs
  {
  }

  lemma OneMoreGone(ks: Ks, recent0: seq<Key>, recent: seq<Key>, gone: seq<Key>, key: Key, rs: seq<Record>)
    ensures Fewer(ks, gone + [key]) == Fewer(ks, gone) - {key}
    ensures EachThere(ks, gone) && key in Fewer(ks, gone) ==> EachThere(ks, gone + [key])
    ensures rs + Dels(gone + [key]) == (rs + Dels(gone)) + [DelRecord(key)]
    ensures recent0 == recent + Backward(gone) && recent != [] && recent[|recent| - 1] == key ==>
              recent0 == recent[..|recent| - 1] + Backward(gone + [key])
  {
    var more := gone + [key];
    assert more[..|gone|] == gone;
    forall i | 0 <= i < |gone|
      ensures more[..i] == gone[..i] && more[i] == gone[i]
    {
    }
    assert Dels(more) == Dels(gone) + [DelRecord(key)];
    assert Backward(more) == [key] + Backward(gone);
  }

  lemma {:induction false} FewerKeeps(ks: Ks, gone: seq<Key>)
    ensures forall key :: key in Fewer(ks, gone) ==> key in ks && Fewer(ks, gone)[key] == ks[key]
    decreases |gone|
  {
    if gone != [] {
      FewerKeeps(ks, gone[..|gone| - 1]);
    }
  }

  lemma NothingDue(ks: Ks, now: int)
    ensures DueInOrder(ks, [], now) && NoneEarlier(ks, [], ks)
  {
  }

  lemma OneMoreDue(ks: Ks, gone: seq<Key>, left: Ks, key: Key, now: int)
    requires left == Fewer(ks, gone) && DueInOrder(ks, gone, now) && NoneEarlier(ks, gone, left) && Expired(left, key, now)
    requires forall k :: k in left && left[k].deadline.Some? ==> left[key].deadline.value <= left[k].deadline.value
    ensures DueInOrder(ks, gone + [key], now) && NoneEarlier(ks, gone + [key], left - {key})
  {
    hide Fewer;
    FewerKeeps(ks, gone);
  }

  lemma NoneDue(ks: Ks, key: Key, now: int)
    requires key in ks && ks[key].deadline.Some? && ks[key].deadline.value > now
    requires forall k :: k in ks && ks[k].deadline.Some? ==> ks[key].deadline.value <= ks[k].deadline.value
    ensures forall k :: k in ks ==> !Expired(ks, k, now)
  {
  }

  lemma EarliestStored(n: Nodes, ks: Ks, recent: seq<Key>, a: Addr)
    requires Coherent(n, ks, recent) && a in n.deadlines && forall b :: b in n.deadlines ==> n.deadlines[a] <= n.deadlines[b]
    ensures a in n.keys && n.keys[a] in ks && ks[n.keys[a]].deadline == Some(n.deadlines[a])
    ensures forall key :: key in ks && ks[key].deadline.Some? ==> n.deadlines[a] <= ks[key].deadline.value
  {
    hide InOrder, Distinct, UniqueKeys;
  }

  /** Without the hint there is no deadline, and so nothing to remove; an empty heap means the same. */
  lemma HintIsRight(db: Database, now: int)
    requires db.Valid()
    ensures !db.ttlHint || db.expiry.heap == [] ==> forall key :: key in db.ks ==> !Expired(db.ks, key, now)
  {
    hide Database.Lodged, Laid, Good, Buckets.Valid, LruList.List.Valid, LogFile.WriteAheadLog.Valid, Housed, Total,
      InOrder, Distinct, UniqueKeys;
    if !db.ttlHint || db.expiry.heap == [] {
      EmptyHeap(db.expiry);
    }
  }

  lemma EmptyHeap(expiry: Index)
    requires expiry.Valid() && expiry.heap == []
    ensures Deadlines(expiry.expiries) == map[]
  {
  }

  lemma NowDue(ks: Ks, key: Key, now: int)
    ensures key in ks && ks[key].deadline.Some? && ks[key].deadline.value <= now ==> Expired(ks, key, now)
  {
  }

  /** The keys in order of use are the stored keys, each once. */
  lemma KeysAreCounted(db: Database)
    requires db.Valid()
    ensures db.keyTotal == |db.ks| == |db.recent|
  {
    hide Database.Lodged, Laid, Good, Database.Parts, Housed, Total, Coherent;
    var n := db.View();
    RecentIsKeys(n, db.ks, db.recent);
    OrderIsNodes(n, db.ks, db.recent);
    CountOnce(db.recent, db.ks.Keys);
    CountOnce(db.lru.order, db.table.keys.Keys);
  }

  lemma TailIsLast(db: Database) returns (key: Key)
    requires db.Valid() && db.recent != []
    ensures db.lru.tail in db.table.keys && key == db.table.keys[db.lru.tail] && key in db.ks
    ensures key == db.recent[|db.recent| - 1] && Drop(db.recent, key) == db.recent[..|db.recent| - 1] && Fits(DelRecord(key))
  {
    hide Database.Lodged, Laid, Good, Buckets.Valid, Index.Valid, LogFile.WriteAheadLog.Valid, LruList.Linked, Tallied,
      Coherent, Fits;
    RecentIsKeys(db.View(), db.ks, db.recent);
    OrderIsNodes(db.View(), db.ks, db.recent);
    LruList.HeadIsFirst(db.lru.order, db.lru.head, db.lru.tail, db.lru.prev, db.lru.next);
    key := db.recent[|db.recent| - 1];
    DropLast(db.recent);
    DelFits(db, key);
  }

  ghost predicate Once<T>(s: seq<T>) { forall i, j :: 0 <= i < j < |s| ==> s[i] != s[j] }

  lemma RecentIsKeys(n: Nodes, ks: Ks, recent: seq<Key>)
    requires Coherent(n, ks, recent)
    ensures Once(recent) && forall key :: key in recent <==> key in ks.Keys
  {
    forall key | key in ks
      ensures key in recent
    {
      var a :| a in n.keys && n.keys[a] == key;
      var i :| 0 <= i < |n.order| && n.order[i] == a;
      assert recent[i] == key;
    }
  }

  lemma OrderIsNodes(n: Nodes, ks: Ks, recent: seq<Key>)
    requires Coherent(n, ks, recent)
    ensures Once(n.order) && |n.order| == |recent| && forall a :: a in n.order <==> a in n.keys.Keys
    ensures forall i :: 0 <= i < |recent| ==> n.order[i] in n.keys && n.keys[n.order[i]] == recent[i]
  {
  }

  lemma {:induction false} CountOnce<T(!new)>(s: seq<T>, m: set<T>)
    requires Once(s) && forall x :: x in s <==> x in m
    ensures |s| == |m|
    decreases |s|
  {
    if s == [] {
      assert m == {};
    } else {
      var last := s[|s| - 1];
      assert s == s[..|s| - 1] + [last];
      CountOnce(s[..|s| - 1], m - {last});
    }
  }

  lemma {:induction false} DropLast(s: seq<Key>)
    requires Once(s) && s != []
    ensures Drop(s, s[|s| - 1]) == s[..|s| - 1]
    decreases |s|
  {
    if |s| > 1 {
      assert s[0] != s[|s| - 1];
      DropLast(s[1..]);
      assert s[..|s| - 1] == [s[0]] + s[1..][..|s| - 2];
    }
  }

  lemma DelFits(db: Database, key: Key)
    requires db.Valid() && key in db.ks
    ensures Fits(DelRecord(key))
  {
    hide Coherent, Tallied, Database.Lodged, Laid, Database.Parts, Fits, GoodValue;
    assert GoodEntry(key, db.ks[key], db.offset);
    CrashRecovery.SmallRecordsFit(key, [], Number(0), false, 0);
  }

  lemma OneItem(key: Key, item: Element, front: bool)
    ensures UsedBytes([item]) == EncodedSize(item) && EncodedSize(item) >= BodySize(item)
    ensures item.Text? ==> EncodedSize(item) > |item.text|
    ensures PushRecords(key, [item], front) == [PushRecord(key, item, front)]
  {
    assert [item][1..] == [];
  }

  function Largest(texts: seq<Bytes>): (n: nat)
    ensures forall i :: 0 <= i < |texts| ==> |texts[i]| <= n
  {
    if texts == [] then 0
    else
      var rest := Largest(texts[1..]);
      if |texts[0]| > rest then |texts[0]| else rest
  }

  lemma {:induction false} LargestIsOne(texts: seq<Bytes>)
    ensures Largest(texts) <= UsedBytes(Texts(texts))
  {
    if texts != [] {
      LargestIsOne(texts[1..]);
      assert Texts(texts)[1..] == Texts(texts[1..]);
    }
  }

  /** What `push_texts` reserves is enough for each of its records. */
  lemma PushesReserved(key: Key, texts: seq<Bytes>, front: bool)
    requires |key| <= MAX_KEY && UsedBytes(Texts(texts)) <= LIMIT
    ensures |key| + Largest(texts) + 64 <= MAX_RECORD + 8
    ensures var rs := PushRecords(key, Texts(texts), front);
            AllFit(rs) && forall i :: 0 <= i < |rs| ==> 10 + ArgsSize(rs[i].args) <= |key| + Largest(texts) + 64
  {
    hide UsedBytes, Fits, ArgsSize, Largest;
    LargestIsOne(texts);
    forall i | 0 <= i < |texts|
      ensures Fits(PushRecord(key, Text(texts[i]), front))
      ensures 10 + ArgsSize(PushRecord(key, Text(texts[i]), front).args) <= |key| + Largest(texts) + 64
    {
      CrashRecovery.SmallRecordsFit(key, [], Text(texts[i]), front, 0);
      ArgsSize4([], key, TEXT_TAG, texts[i]);
    }
  }

  /** And so is what `hash_set_texts` reserves. */
  lemma {:induction false} PairsReserved(key: Key, parts: seq<Bytes>)
    ensures var rs := HSetRecords(key, parts);
            && (|key| + LargestPair(parts) + 64 <= MAX_RECORD + 8 ==> AllFit(rs))
            && forall i :: 0 <= i < |rs| ==> 10 + ArgsSize(rs[i].args) <= |key| + LargestPair(parts) + 64
    decreases |parts|
  {
    hide ArgsSize, Fits;
    if |parts| >= 2 {
      PairsReserved(key, parts[2..]);
      ArgsSize4(key, parts[0], TEXT_TAG, parts[1]);
      if |key| + LargestPair(parts) + 64 <= MAX_RECORD + 8 {
        ReservedRecordFits(key, parts[0], parts[1]);
      }
    }
  }

  lemma FieldRecordFits(db: Database, key: Key, field: Bytes)
    requires db.Valid() && key in db.ks && db.ks[key].value.Hash? && field in db.ks[key].value.fields
    ensures Fits(HDelRecord(key, field))
  {
    hide Coherent, Tallied, Fits, Database.Lodged, Laid, Database.Parts;
    CrashRecovery.HDelRecordFits(db.ks, key, field, db.offset);
    assert ApplyHDel(db.ks, key, field).records[0] == HDelRecord(key, field);
  }

  lemma StoredDeadline(ks: Ks, key: Key, offset: int)
    requires Good(ks, offset) && key in ks
    ensures ks[key].deadline.Some? ==> ks[key].deadline.value >= 0
  {
    hide GoodValue;
    assert GoodEntry(key, ks[key], offset);
  }

  lemma DeadlineInRange(c: Clock, seconds: Int64)
    requires ClockOk(c) && 0 < seconds <= (MAX_I64 - Max(c.now, c.now + c.offset)) / 1000
    ensures 0 <= c.now + seconds * 1000 <= MAX_I64 && 0 <= c.now + seconds * 1000 + c.offset <= MAX_I64
  {
  }

  lemma GoodBoth(ks: Ks, key: Key, v: Value, offset: int)
    requires Good(ks, offset) && key in ks && Good(Put(ks, key, v, false), offset)
    ensures Good(ks[key := ks[key].(value := v)], offset)
  {
    hide GoodValue;
    assert GoodEntry(key, ks[key], offset);
    assert GoodEntry(key, Put(ks, key, v, false)[key], offset);
  }

  lemma TallyUnscheduled(n: Nodes, heapSize: nat, t: Tally, a: Addr, heapSize': nat, t': Tally)
    requires Tallied(n, heapSize, t, {}) && a in n.keys
    requires t'.blocks == t.blocks && t'.tracked == t.tracked && t'.keyTotal == t.keyTotal && t'.keyHint == t.keyHint
    requires t'.flagged == (if a in n.deadlines then t.flagged - {a} else t.flagged)
    requires t'.ttlCount == heapSize' && t'.ttlHint == (heapSize' != 0)
    ensures Tallied(n.(deadlines := n.deadlines - {a}), heapSize', t', {})
  {
    hide Total, Housed;
  }

  lemma TallyScheduled(n: Nodes, heapSize: nat, t: Tally, a: Addr, deadline: int, heapSize': nat, t': Tally)
    requires Tallied(n, heapSize, t, {}) && a in n.keys
    requires t'.blocks == t.blocks && t'.tracked == t.tracked && t'.keyTotal == t.keyTotal && t'.keyHint == t.keyHint
    requires t'.flagged == t.flagged + {a} && t'.ttlCount == heapSize' && t'.ttlHint == (heapSize' != 0)
    ensures Tallied(n.(deadlines := n.deadlines[a := deadline]), heapSize', t', {})
  {
    hide Total, Housed;
  }

  lemma ScheduledHeap(expiry: Index, a: Addr, deadline: int)
    requires expiry.Valid() && a in Deadlines(expiry.expiries)
    ensures |expiry.heap| != 0
  {
    assert a in expiry.expiries;
  }

  lemma AppliedGood(quiet: bool, w: Ks, op: Op, c: Clock, offset: int)
    requires Good(w, offset) && ClockOk(c) && c.offset == offset && IsWrite(op) && Refused(op).None?
    requires quiet && op.HSet? ==> Fits(HSetRecord(op.key, op.field, op.item))
    ensures Good(Applied(quiet, w, op, c).ks, offset)
  {
    hide Good, Apply, Refused, AssignField;
    ApplyKeepsGood(w, op, c);
    if op.HSet? {
      WritesKeepKeysShort(op);
      AssignKeepsGood(w, op.key, op.field, op.item, offset);
    }
  }

  // What each operation comes to on the keyspace its lookup left, case by case.

  /** What a value counts as when it is incremented. */
  function Counter(v: Value): (n: Option<Int64>)
  {
    if v.Int? then Some(v.number) else if v.Str? then ParseSigned(v.text) else None
  }

  lemma IncrApplied(quiet: bool, w: Ks, key: Key, c: Clock)
    ensures var o, rs := Applied(quiet, w, Incr(key), c), Quiet(quiet, [IncrRecord(key)]);
            if key !in w then o == Outcome(Put(w, key, Int(1), true), Amount(1), rs) && key in o.ks
            else
              var v, n := w[key].value, Counter(w[key].value);
              if v.List? || v.Hash? then o == Outcome(w, Failed(WrongType), [])
              else if n.None? || n.value == MAX_I64 then o == Outcome(w, Failed(NotInteger), [])
              else o == Outcome(Revalued(w, key, Int(n.value + 1)), Amount(n.value + 1), rs) && key in o.ks
  {
    hide ParseSigned;
  }

  lemma SetApplied(quiet: bool, w: Ks, key: Key, text: Bytes, c: Clock)
    ensures var o := Applied(quiet, w, Op.Set(key, text), c);
            o == Outcome(Put(w, key, Str(text), false), Done, Quiet(quiet, [SetRecord(key, text)])) && key in o.ks
  {
  }

  lemma DelApplied(quiet: bool, w: Ks, key: Key, c: Clock)
    ensures Applied(quiet, w, Del(key), c)
         == if key in w then Outcome(w - {key}, Amount(1), Quiet(quiet, [DelRecord(key)])) else Outcome(w, Amount(0), [])
  {
  }

  lemma ExpireApplied(quiet: bool, w: Ks, key: Key, seconds: Int64, c: Clock)
    ensures var o := Applied(quiet, w, Op.Expire(key, seconds), c);
            if key !in w then o == Outcome(w, Amount(0), [])
            else if seconds <= 0 then o == Outcome(w - {key}, Amount(1), Quiet(quiet, [DelRecord(key)]))
            else if seconds > (MAX_I64 - Max(c.now, c.now + c.offset)) / 1000 then o == Outcome(w, Failed(NotInteger), [])
            else
              && o == Outcome(Redated(w, key, Some(c.now + seconds * 1000)), Amount(1),
                              Quiet(quiet, [ExpireRecord(key, c.now + seconds * 1000 + c.offset)]))
              && key in o.ks
  {
    hide ExpireRecord;
  }

  lemma PushApplied(quiet: bool, w: Ks, key: Key, item: Element, front: bool, c: Clock)
    ensures var o, items, more := Applied(quiet, w, Push(key, item, front), c), OldItems(w, key), [item];
            if key in w && !w[key].value.List? then o == Outcome(w, Failed(WrongType), [])
            else if UsedBytes(items) + EncodedSize(item) > LIMIT then o == Outcome(w, Failed(TooLarge), [])
            else
              && o == Outcome(Put(w, key, List(PushItems(items, more, front)), true), Amount(|PushItems(items, more, front)|),
                              Quiet(quiet, [PushRecord(key, item, front)]))
              && key in o.ks && (key in w ==> o.ks == Revalued(w, key, List(PushItems(items, more, front))))
  {
    hide UsedBytes, PushItems, PushRecord, EncodedSize;
    OneItem(key, item, front);
  }

  lemma PushTextsApplied(w: Ks, key: Key, texts: seq<Bytes>, front: bool, c: Clock)
    ensures var o, items, more := Applied(false, w, Op.PushTexts(key, texts, front), c), OldItems(w, key), Texts(texts);
            if key in w && !w[key].value.List? then o == Outcome(w, Failed(WrongType), [])
            else if more == [] then o == Outcome(w, Amount(|items|), [])
            else if UsedBytes(items) + UsedBytes(more) > LIMIT then o == Outcome(w, Failed(TooLarge), [])
            else
              && o == Outcome(Put(w, key, List(PushItems(items, more, front)), true), Amount(|PushItems(items, more, front)|),
                              PushRecords(key, more, front))
              && key in o.ks
  {
    hide UsedBytes, PushItems, PushRecords, Texts;
  }

  lemma PopApplied(quiet: bool, w: Ks, key: Key, front: bool, c: Clock)
    ensures var o := Applied(quiet, w, Pop(key, front), c);
            if key !in w then o == Outcome(w, Missing, [])
            else if !w[key].value.List? then o == Outcome(w, Failed(WrongType), [])
            else
              var items := w[key].value.items;
              if items == [] then o == Outcome(w, Missing, [])
              else
                var item, rest := ItemAt(items, front), Rest(items, front);
                o == Outcome(if rest == [] then w - {key} else Revalued(w, key, List(rest)), Item(item),
                             Quiet(quiet, [PopRecord(key, front)]))
                && (rest != [] ==> key in o.ks)
  {
  }

  function ItemAt(items: seq<Element>, front: bool): (item: Element)
    requires items != []
  {
    if front then items[0] else items[|items| - 1]
  }

  function Rest(items: seq<Element>, front: bool): (rest: seq<Element>)
    requires items != []
  {
    if front then items[1..] else items[..|items| - 1]
  }

  lemma HDelApplied(quiet: bool, w: Ks, key: Key, field: Bytes, c: Clock)
    ensures var o := Applied(quiet, w, HDel(key, field), c);
            if key !in w then o == Outcome(w, Amount(0), [])
            else if !w[key].value.Hash? then o == Outcome(w, Failed(WrongType), [])
            else if field !in w[key].value.fields then o == Outcome(w, Amount(0), [])
            else
              var rest := w[key].value.fields - {field};
              o == Outcome(if rest == map[] then w - {key} else Revalued(w, key, Hash(rest)), Amount(1),
                           Quiet(quiet, [HDelRecord(key, field)]))
              && (rest != map[] ==> key in o.ks)
  {
  }

  lemma HSetTextsApplied(w: Ks, key: Key, parts: seq<Bytes>, c: Clock)
    ensures var o, fields := Applied(false, w, Op.HSetTexts(key, parts), c), OldFields(w, key);
            if key in w && !w[key].value.Hash? then o == Outcome(w, Failed(WrongType), [])
            else if parts == [] then o == Outcome(w, Amount(0), [])
            else if (exists i :: 0 <= i < |parts| && |parts[i]| > LIMIT) || |key| + LargestPair(parts) + 64 > MAX_RECORD + 8
            then o == Outcome(w, Failed(TooLarge), [])
            else
              && o == Outcome(Put(w, key, Hash(SetPairs(fields, parts)), true), Amount(AddedPairs(fields, parts)),
                              HSetRecords(key, parts))
              && key in o.ks
  {
    hide LargestPair, SetPairs, AddedPairs, HSetRecords;
  }

  lemma ListInRange(db: Database, a: Addr)
    requires db.Valid() && a in db.table.keys && a in db.values && db.values[a].List?
    ensures UsedBytes(db.values[a].items) <= LIMIT
  {
    hide Coherent, Tallied, Database.Lodged, Laid, Database.Parts, UsedBytes, Fits;
    Present(db.View(), db.ks, db.recent, a);
    assert GoodEntry(db.table.keys[a], db.ks[db.table.keys[a]], db.offset);
  }

  lemma PackedField(fields: map<Bytes, Element>, field: Bytes, item: Element)
    ensures var more := fields[field := item];
            if field in fields then PackedSize(more) == PackedSize(fields) - BodySize(fields[field]) + BodySize(item)
              && |more| == |fields|
            else PackedSize(more) == PackedSize(fields) + PairSize(field, item) && |more| == |fields| + 1
  {
    hide PackedSize, PairSize;
    if field in fields {
      PackedChanged(fields, field, item);
    } else {
      PackedWith(fields, field, item);
    }
  }

  lemma DeletedLies(fields: map<Bytes, Element>, field: Bytes)
    requires field in fields
    ensures PackedSize(fields - {field}) == PackedSize(fields) - PairSize(field, fields[field]) && |fields - {field}| < |fields|
  {
    hide PackedSize, PairSize;
    PackedWithout(fields, field);
    OneLess(fields, field);
  }

  lemma UsedAgain(recent0: seq<Key>, recent: seq<Key>, key: Key)
    requires Drop(recent, key) == Drop(recent0, key)
    ensures Recent(recent, key, true) == Recent(recent0, key, true)
  {
  }

  lemma NoFields(fields: map<Bytes, Element>)
    ensures fields == map[] ==> PackedSize(fields) == 0
  {
  }

  lemma PutInPlace(ks: Ks, key: Key, v: Value)
    ensures key in ks ==> Revalued(ks, key, v) == Put(ks, key, v, true)
  {
  }

  lemma WroteAfter(o: LogFile.Outcome, s: Journal, t: Journal, u: Journal, rs: seq<Record>)
    requires t == s.(luck := t.luck) && Fine(s.luck, t.luck) && Wrote(o, t, u, rs)
    ensures Wrote(o, s, u, rs)
  {
  }

  /** What a pop leaves lies where it lay. */
  lemma PoppedInside(l: Layout, items: seq<Element>, front: bool)
    requires Runs(l, items) && items != []
    ensures var n := EncodedSize(ItemAt(items, front));
            && l.Run? && n <= l.used && Runs(Popped(l, n, front), Rest(items, front))
            && Popped(l, n, front).bytes == l.bytes && Popped(l, n, front).used <= l.used == UsedBytes(items)
  {
    hide EncodedSize, Runs, UsedBytes;
    RunFits(l, items);
    PoppedRuns(l, items, front);
  }

  /** One more item, where there is room for it. */
  lemma PushedInside(l: Layout, items: seq<Element>, item: Element, front: bool, capacity: int)
    requires Runs(l, items) && |l.bytes| <= capacity && UsedBytes(items) + EncodedSize(item) <= LIMIT
    requires front && items != [] ==> EncodedSize(item) <= l.head
    requires (front && items != []) || LIST_BODY + l.head + l.used + EncodedSize(item) <= capacity
    ensures Lies(List(PushItems(items, [item], front)), Pushed(l, item, front && items != []), capacity)
  {
    hide EncodedSize, UsedBytes, Runs, Pushed, Packable;
    RunFits(l, items);
    PushedIs(items, item, front);
    ItemsPackable([item]) by {
      OneItem([], item, front);
    }
    assert Packable([item][0]);
    PushedRuns(l, items, item, front && items != []);
  }

  lemma PushedIs(items: seq<Element>, item: Element, front: bool)
    ensures PushItems(items, [item], front) == if front then [item] + items else items + [item]
    ensures items == [] ==> [item] + items == items + [item]
  {
    assert Reverse([item]) == [item];
  }

  lemma NewRunThere(items: seq<Element>)
    requires UsedBytes(items) <= LIMIT
    ensures Lies(List(items), NewRun(items), LIST_BODY + UsedBytes(items))
  {
    hide UsedBytes, NewRun;
    ItemsPackable(items);
    NewRunLies(items);
  }

  lemma CopyLies(l: Layout, fields: map<Bytes, Element>, capacity: nat)
    requires Pairs(l, fields) && MayPack(fields) && PackedSize(fields) <= capacity
    ensures l.Packed? && l.used <= |l.bytes| && Lies(Hash(fields), Copied(l), capacity)
  {
    hide PackedSize, Pairs, Copied;
    CopiedPairs(l, fields);
  }

  lemma CutLies(l: Layout, r: Layout, fields: map<Bytes, Element>, field: Bytes, capacity: int)
    requires Lies(Hash(fields), l, capacity) && !l.Promoted? && field in fields
    requires Pairs(r, fields - {field}) && |r.bytes| == |l.bytes|
    ensures Lies(Hash(fields - {field}), r, capacity)
  {
    hide PackedSize, PairSize;
    DeletedLies(fields, field);
  }

  lemma SlidTo(l: Layout, to: nat)
    requires l.Run? && LIST_BODY + l.head + l.used <= |l.bytes|
    ensures Slid(l, to).Run? && Slid(l, to).head == to && Slid(l, to).used == l.used
  {
    hide Stored;
  }

  lemma SmallField(fields: map<Bytes, Element>, field: Bytes, item: Element)
    requires PackedSize(fields[field := item]) <= MAX_U32
    ensures |field| <= MAX_U32 && Packable(item)
  {
    hide PackedSize;
    FieldsPackable(fields[field := item]);
    assert fields[field := item][field] == item;
  }

  lemma PushedLies(items: seq<Element>, item: Element, front: bool)
    requires UsedBytes(items) + EncodedSize(item) <= LIMIT
    ensures UsedBytes(PushItems(items, [item], front)) == UsedBytes(items) + EncodedSize(item)
    ensures items == [] ==>
              Lies(List(PushItems(items, [item], front)), NewRun(PushItems(items, [item], front)), LIST_BODY + EncodedSize(item))
  {
    hide EncodedSize, NewRun;
    CrashRecovery.PushedBytes(items, [item], front);
    OneItem([], item, front);
    NewRunThere(PushItems(items, [item], front));
  }

  /** A field is assigned when its record fits, and always in replay. */
  lemma FieldApplied(quiet: bool, w: Ks, key: Key, field: Bytes, item: Element, c: Clock)
    ensures var o, rs := Applied(quiet, w, HSet(key, field, item), c), Quiet(quiet, [HSetRecord(key, field, item)]);
            var fields := OldFields(w, key);
            if key in w && !w[key].value.Hash? then o == Outcome(w, Failed(WrongType), [])
            else if |field| > LIMIT || BodySize(item) > LIMIT then o == Outcome(w, Failed(TooLarge), [])
            else if AllFit(rs) then
              && o == Outcome(Put(w, key, Hash(fields[field := item]), true), Amount(if field in fields then 0 else 1), rs)
              && key in o.ks
            else o == Outcome(w, Failed(TooLarge), []) && !quiet
  {
    hide Fits, HSetRecord, BodySize;
    var r := HSetRecord(key, field, item);
    assert AllFit([r]) <==> Fits([r][0]);
  }

  lemma WritesKeepKeysShort(op: Op)
    requires IsWrite(op) && Refused(op).None?
    ensures |op.key| <= MAX_KEY
  {
  }

  lemma IncrementFits(key: Key)
    ensures |key| <= MAX_KEY ==> Fits(IncrRecord(key))
  {
    hide Fits;
    if |key| <= MAX_KEY {
      CrashRecovery.SmallRecordsFit(key, [], Number(0), false, 0);
    }
  }

  lemma NoSuchKey(n: Nodes, ks: Ks, recent: seq<Key>, key: Key)
    requires Coherent(n, ks, recent) && key !in ks
    ensures forall b :: b in n.keys ==> n.keys[b] != key
  {
    hide Distinct, UniqueKeys, InOrder;
  }

  lemma TallyAssigned(n: Nodes, heapSize: nat, t: Tally, a: Addr, v: Value)
    requires Tallied(n, heapSize, t, {}) && a in n.keys
    ensures Tallied(n.(values := n.values[a := v]), heapSize, t, {})
  {
    hide Total, Flagged;
  }

  lemma MissingIsNotExpired(ks: Ks, key: Key, now: int)
    ensures key !in ks ==> !Expired(ks, key, now)
  {
  }

  lemma NotThere(n: Nodes, ks: Ks, recent: seq<Key>, key: Key)
    requires Coherent(n, ks, recent) && key !in ks
    ensures Drop(recent, key) == recent
  {
    hide Distinct, UniqueKeys;
    assert forall a :: a in n.keys ==> n.keys[a] != key;
    Absent(n, ks, recent, key);
  }

  lemma NodeIsNotNull(n: Nodes, ks: Ks, recent: seq<Key>, lru: LruList.List, a: Addr)
    requires Coherent(n, ks, recent) && a in n.keys && lru.Valid() && lru.order == n.order
    ensures a != 0
  {
    hide Represents, InOrder, UniqueKeys, LruList.Linked;
    LruList.ListIsDistinct(lru.order, lru.head, lru.tail, lru.prev, lru.next);
  }

  lemma TallyReordered(n: Nodes, heapSize: nat, t: Tally, order: seq<Addr>)
    requires Tallied(n, heapSize, t, {})
    ensures Tallied(n.(order := order), heapSize, t, {})
  {
    hide Total, Housed, Flagged;
  }

  lemma FlagsAre(expiries: map<Addr, Expiry>)
    ensures Deadlines(expiries).Keys == expiries.Keys
  {
  }

  lemma BeforeMove(n: Nodes, heapSize: nat, t: Tally, ks: Ks, recent: seq<Key>, a: Addr, b: Addr)
    requires Tallied(n, heapSize, t, {}) && Coherent(n, ks, recent) && a in n.keys && b !in t.blocks
    ensures b !in n.keys && b !in n.order && b !in n.deadlines && a in n.order && a in t.blocks && a in n.values
    ensures Flagged(t.flagged, n.deadlines) && t.tracked == Total(t.blocks)
  {
    hide Total, Distinct, UniqueKeys, Represents, InOrder;
  }

  lemma TallyMoved(n: Nodes, heapSize: nat, t: Tally, a: Addr, b: Addr, block: nat, order: seq<Addr>, t': Tally)
    requires Tallied(n, heapSize, t, {}) && a in n.keys && a in n.values && b !in t.blocks && b != 0
    requires t'.blocks == (t.blocks - {a})[b := block] && t'.tracked == Total(t'.blocks)
    requires Flagged(t'.flagged, Inherited(n.deadlines, a, b, true))
    requires t'.keyTotal == t.keyTotal && t'.keyHint == t.keyHint && t'.ttlCount == t.ttlCount && t'.ttlHint == t.ttlHint
    ensures Tallied(Nodes((n.keys - {a})[b := n.keys[a]], order, Inherited(n.deadlines, a, b, true),
                          (n.values - {a})[b := n.values[a]]), heapSize, t', {})
  {
    hide Total, Flagged, Inherited;
    Smaller(n.keys, a);
    Larger(n.keys - {a}, b, n.keys[a]);
    HousedMoved(n.keys, n.values, t.blocks, a, b, block);
  }

  lemma HousedMoved(keys: map<Addr, Key>, values: map<Addr, Value>, blocks: map<Addr, nat>, a: Addr, b: Addr, block: nat)
    requires Housed(keys, values, blocks, {}) && a in keys && a in values && b !in blocks
    ensures Housed((keys - {a})[b := keys[a]], (values - {a})[b := values[a]], (blocks - {a})[b := block], {})
  {
  }

  lemma BeforeCommit(n: Nodes, heapSize: nat, t: Tally, ks: Ks, recent: seq<Key>, a: Addr, p: Addr)
    requires Tallied(n, heapSize, t, {p}) && Coherent(n, ks, recent) && (a != 0 ==> a in n.keys)
    ensures p != 0 && p !in n.keys && p !in n.order && p !in n.deadlines
    ensures Flagged(t.flagged, n.deadlines) && Counted(n, heapSize, t)
    ensures a != 0 ==> a in n.order && a in t.blocks && a in n.values
  {
    hide Total, Distinct, UniqueKeys, Represents, InOrder;
    assert p in {p};
  }

  lemma AfterErase(n: Nodes, ks: Ks, recent: seq<Key>, a: Addr, p: Addr)
    requires Coherent(n, ks, recent) && a in n.keys && p !in n.keys
    ensures p !in LruList.Without(n.order, a) && forall b :: b in n.keys - {a} ==> n.keys[b] != n.keys[a]
  {
    hide Represents, InOrder;
    LruList.WithoutMembers(n.order, a);
  }

  lemma ListAsIs(lru: LruList.List, p: Addr)
    requires lru.Valid() && p !in lru.order
    ensures LruList.Without(lru.order, p) == lru.order
  {
    LruList.WithoutMembers(lru.order, p);
  }

  lemma NodesAreOne(n: Nodes, ks: Ks, recent: seq<Key>)
    requires Coherent(n, ks, recent)
    ensures n.deadlines.Keys <= n.keys.Keys && forall a :: a in n.order <==> a in n.keys
  {
  }

  lemma FewerGood(ks: Ks, offset: int, key: Key)
    requires Good(ks, offset)
    ensures Good(ks - {key}, offset)
  {
    hide GoodEntry;
  }

  lemma TalliedIn(n: Nodes, heapSize: nat, t: Tally, a: Addr)
    requires Tallied(n, heapSize, t, {}) && a in n.keys
    ensures a in t.blocks && a in n.values && t.keyTotal == |n.keys| && t.tracked == Total(t.blocks)
    ensures t.ttlCount == heapSize && t.ttlHint == (heapSize != 0)
  {
  }
}
