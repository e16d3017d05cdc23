/** The open log: recovery, appending, batches and sync, src/wal.cpp:57-119 and 215-295. */
module LogFile {
  import opened Bytes
  import opened Wal
  import opened Worlds
  import Crc

  // ---------- words and frames, written and read in loops ----------

  method WriteWord(out: Bytes, n: nat) returns (r: Bytes)
    requires n <= MAX_U32
    ensures r == out + Put32(n)
  {
    r := out;
    var rest := n;
    var i := 0;
    while i < 4
      invariant 0 <= i <= 4 && r == out + Put32(n)[..i]
      invariant i == 1 ==> rest == n / 256
      invariant i == 2 ==> rest == n / 256 / 256
      invariant i == 3 ==> rest == n / 256 / 256 / 256
      invariant i == 0 ==> rest == n
    {
      r := r + [rest % 256];
      rest := rest / 256;
      i := i + 1;
    }
  }

  method ReadWord(p: Bytes) returns (n: nat)
    requires |p| == 4
    ensures n == Get32(p)
  {
    n := 0;
    var i: nat, weight: nat := 0, 1;
    while i < 4
      invariant 0 <= i <= 4
      invariant weight == [1, 256, 65536, 16777216, 4294967296][i]
      invariant n == (if i > 0 then p[0] else 0) + (if i > 1 then p[1] else 0) as int * 256
                     + (if i > 2 then p[2] else 0) as int * 65536 + (if i > 3 then p[3] else 0) as int * 16777216
    {
      n := n + p[i] * weight;
      weight := weight * 256;
      i := i + 1;
    }
  }

  /** The width of the sizes in `append`: an operation that would leave the range does not verify. */
  newtype u64 = n: int | 0 <= n <= MAX_U64

  /** The size check of `append` in 64-bit arithmetic: its guards keep every sum and difference in range. */
  method CheckedSize(args: seq<Bytes>) returns (size: Option<nat>)
    ensures size.Some? <==> 2 + ArgsSize(args) <= MAX_RECORD
    ensures size.Some? ==> size.value == 2 + ArgsSize(args)
  {
    var total: u64, limit: u64 := 2, MAX_RECORD as u64;
    for i := 0 to |args|
      invariant 2 <= total <= limit
      invariant 2 + ArgsSize(args) == total as int + ArgsSize(args[i..])
    {
      if |args[i]| > MAX_RECORD - 4 {
        return None;
      }
      var length := |args[i]| as u64;
      if total > limit - length - 4 {
        return None;
      }
      total := total + (4 + length);
    }
    size := Some(total as int);
  }

  method BuildFrame(table: seq<Crc.Word>, r: Record) returns (buffer: Bytes)
    requires Crc.IsTable(table) && Fits(r)
    ensures buffer == Frame(r)
  {
    hide Put32, Crc.Checksum, Crc.WordOf;
    var body: Bytes := [r.op, |r.args|];
    for i := 0 to |r.args|
      invariant ArgsSize(r.args[i..]) <= MAX_RECORD
      invariant Payload(r) == body + ArgsBytes(r.args[i..])
    {
      var grown := WriteWord(body, |r.args[i]|);
      grown := grown + r.args[i];
      assert r.args[i..][1..] == r.args[i + 1..];
      assert grown + ArgsBytes(r.args[i + 1..]) == body + ArgsBytes(r.args[i..]);
      body := grown;
    }
    assert body == Payload(r);
    buffer := WriteWord([], |body|);
    var checksum := Crc.ComputeCrc(table, body);
    buffer := WriteWord(buffer, Crc.WordOf(checksum));
    buffer := buffer + body;
  }

  // ---------- recovery ----------

  method ReadArgs(payload: Bytes) returns (args: Option<seq<Bytes>>)
    requires |payload| >= 2
    ensures args == DecodeArgs(payload[2..], payload[1])
  {
    hide Get32;
    var read: seq<Bytes>, pos := [], 2;
    OntoNothing(DecodeArgs(payload[2..], payload[1]));
    for i := 0 to payload[1]
      invariant 2 <= pos <= |payload|
      invariant DecodeArgs(payload[2..], payload[1])
             == Onto(read, DecodeArgs(payload[pos..], payload[1] - i))
    {
      if |payload| - pos < 4 {
        return None;
      }
      assert payload[pos..][..4] == payload[pos..pos + 4];
      var n := ReadWord(payload[pos..pos + 4]);
      pos := pos + 4;
      if n > |payload| - pos {
        return None;
      }
      assert payload[pos - 4..][4..4 + n] == payload[pos..pos + n];
      assert payload[pos - 4..][4 + n..] == payload[pos + n..];
      OntoOnto(read, payload[pos..pos + n], DecodeArgs(payload[pos + n..], payload[1] - i - 1));
      read := read + [payload[pos..pos + n]];
      pos := pos + n;
    }
    assert read + [] == read;
    args := if pos == |payload| then Some(read) else None;
  }

  function Onto(read: seq<Bytes>, rest: Option<seq<Bytes>>): (r: Option<seq<Bytes>>)
  {
    match rest
    case None => None
    case Some(args) => Some(read + args)
  }

  lemma OntoNothing(rest: Option<seq<Bytes>>)
    ensures Onto([], rest) == rest
  {
    if rest.Some? {
      assert [] + rest.value == rest.value;
    }
  }

  lemma OntoOnto(read: seq<Bytes>, arg: Bytes, rest: Option<seq<Bytes>>)
    ensures Onto(read, Onto([arg], rest)) == Onto(read + [arg], rest)
  {
    if rest.Some? {
      assert read + ([arg] + rest.value) == read + [arg] + rest.value;
    }
  }

  /** Reads one record, as the body of the recovery loop does. */
  method ReadRecord(table: seq<Crc.Word>, file: Bytes, at: nat) returns (head: Head)
    requires Crc.IsTable(table) && at <= |file|
    ensures head == ReadHead(file[at..])
  {
    hide Get32, Crc.Checksum, Crc.WordOf, DecodeArgs;
    var s := file[at..];
    if |s| < 8 {
      return End(s != []);
    }
    var size := ReadWord(s[..4]);
    var checksum := ReadWord(s[4..8]);
    if size < 2 || size > MAX_RECORD {
      return Damaged;
    }
    if |s| - 8 < size {
      return End(true);
    }
    var payload := s[8..8 + size];
    var computed := Crc.ComputeCrc(table, payload);
    if Crc.WordOf(computed) != checksum {
      return Damaged;
    }
    var args := ReadArgs(payload);
    head := if args.None? then Damaged else Intact(Record(payload[0], args.value), 8 + size);
  }

  /** The recovery loop finds what `Recovered` describes and cuts a torn tail off the file. */
  method Recover(table: seq<Crc.Word>, file: Bytes) returns (result: Scanned, repaired: Bytes)
    requires Crc.IsTable(table)
    ensures result == Recovered(file)
    ensures repaired == if result.Scanned? && result.torn then file[..result.length] else file
  {
    hide ReadHead;
    repaired := file;
    if file == [] {
      return Scanned([], 0, false), repaired;
    }
    if |file| < 8 || file[..8] != MAGIC {
      return Rejected, repaired;
    }
    var valid, records := 8, [];
    while true
      invariant 8 <= valid <= |file|
      invariant Scan(file[8..]) == After(records, valid - 8, Scan(file[valid..]))
      decreases |file| - valid
    {
      var head := ReadRecord(table, file, valid);
      match head {
        case End(torn) =>
          if torn {
            repaired := file[..valid];
          }
          return Scanned(records, valid, torn), repaired;
        case Damaged =>
          return Rejected, repaired;
        case Intact(record, length) =>
          assert file[valid..][length..] == file[valid + length..];
          AfterAfter(records, valid - 8, record, length, Scan(file[valid + length..]));
          records := records + [record];
          valid := valid + length;
      }
    }
  }

  lemma AfterAfter(rs: seq<Record>, m: nat, r: Record, n: nat, s: Scanned)
    ensures After(rs, m, After([r], n, s)) == After(rs + [r], m + n, s)
  {
    if s.Scanned? {
      assert rs + ([r] + s.records) == rs + [r] + s.records;
    }
  }

  // ---------- the log while it is open ----------

  datatype SyncMode = EverySecond | Always | NoSync
  datatype Outcome = Logged | TooLarge | NoMemory | DiskFailed

  /** The file is the log of the records, perhaps with part of one more. */
  ghost predicate Contains(file: Bytes, records: seq<Record>, torn: seq<Record>)
  {
    && AllFit(records) && AllFit(records + torn) && |torn| <= 1
    && Log(records) <= file <= Log(records + torn)
  }

  lemma ContainsWhole(file: Bytes, records: seq<Record>)
    requires Contains(file, records, [])
    ensures AllFit(records) && file == Log(records)
  {
    hide Log;
    assert records + [] == records;
  }

  /** What the file contains once some of a frame, or all of it, is written after the records. */
  lemma ContainsMore(file: Bytes, records: seq<Record>, r: Record, n: nat)
    requires Contains(file, records, []) && Fits(r) && n <= |Frame(r)|
    ensures Contains(file + Frame(r)[..n], records, [r])
    ensures Contains(file + Frame(r), records + [r], [])
  {
    hide Log, Frame, Fits;
    ContainsWhole(file, records);
    LogAppend(records, r);
    assert AllFit(records + [r]);
    assert records + [r] + [] == records + [r];
  }

  /** What is behind an outcome: memory that was refused, or a disk that failed now or earlier. */
  predicate Cause(o: Outcome, failed: bool, l: Luck, m: Luck)
  {
    match o
    case NoMemory => Denied(l, m)
    case DiskFailed => if failed then Fine(l, m) else Faulted(l, m)
    case _ => Fine(l, m)
  }

  /**
    * The log while it is open. Of its records, the first `durable` lie within the synced bytes, and the
    * first `initial` were there when it was opened; `attempted` has in addition the record whose write broke off.
    */
  class WriteAheadLog {
    const sync: SyncMode
    const table: seq<Crc.Word>
    ghost const initial: nat
    var file: Bytes        // every byte handed to the file so far
    var synced: nat        // how many of them are known to be on the disk
    var capacity: nat      // of the record buffer
    var dirty: bool
    var failed: bool
    var deferSync: bool
    ghost var records: seq<Record>
    ghost var torn: seq<Record>
    ghost var attempted: seq<Record>
    ghost var durable: nat
    ghost var switched: bool   // whether the file is one that compaction wrote

    ghost predicate Valid()
      reads this
    {
      && Crc.IsTable(table) && Contains(file, records, torn) && attempted == records + torn
      && synced <= |file| && (!switched ==> initial <= |records|)
      && Durable(records, durable, synced)
      && (!failed ==> torn == []) && (dirty ==> durable < |records| && (!switched ==> initial < |records|))
      && (!failed && !dirty && sync != NoSync ==>
           (synced == |file| && durable == |records|) || (!switched && |records| == initial))
    }

    /** What a finished batch promises in mode always: whatever was written since the log was opened is on the disk. */
    ghost predicate AllSynced()
      reads this
    {
      sync == Always ==> durable == |records| || |records| == initial
    }

    /** A log that was just opened: nothing has been written yet, and whatever part of it is on the disk stays there. */
    constructor (sync: SyncMode, table: seq<Crc.Word>, file: Bytes, ghost records: seq<Record>, ghost durable: nat, synced: nat)
      requires Crc.IsTable(table) && AllFit(records) && file == Log(records) && synced <= |file|
                && Durable(records, durable, synced)
      ensures Valid() && this.sync == sync && this.file == file && this.records == records && attempted == records
                && initial == |records|
      ensures !failed && !dirty && !deferSync && !switched && this.durable == durable && this.synced == synced
    {
      this.sync, this.table, this.file, this.records, this.durable, this.synced := sync, table, file, records, durable, synced;
      torn, capacity, dirty, failed, deferSync, switched := [], 0, false, false, false, false;
      initial, attempted := |records|, records;
      assert records + [] == records;
    }

    method FlushLocked(world: World) returns (ok: bool)
      requires Valid()
      modifies this, world`calls
      ensures Valid()
      ensures file == old(file) && records == old(records) && torn == old(torn) && attempted == old(attempted)
      ensures capacity == old(capacity) && deferSync == old(deferSync) && switched == old(switched)
      ensures ok == !failed && (old(failed) ==> failed) && old(synced) <= synced && old(durable) <= durable
      ensures ok && sync != NoSync ==> durable == |records| || |records| == initial
      ensures ok && sync != NoSync && old(dirty) ==> synced == |file| && durable == |records|
      ensures !ok ==> durable == old(durable) && (old(failed) || old(dirty))
      ensures ok ==> !dirty
      ensures if ok || old(failed) then world.Dealt() == old(world.Dealt()) else Faulted(old(world.Dealt()), world.Dealt())
    {
      hide Contains, Crc.IsTable, Durable;
      if failed {
        return false;
      }
      if !dirty {
        return true;
      }
      var flushed := world.Call();
      if !flushed {
        failed := true;
        return false;
      }
      if sync != NoSync {
        var written := world.Call();
        if !written {
          failed := true;
          return false;
        }
        AllDurable(file, records, durable, synced);
        synced, durable := |file|, |records|;
      }
      dirty := false;
      ok := true;
    }

    method Append(r: Record, world: World) returns (outcome: Outcome)
      requires Valid()
      modifies this, world
      ensures Valid()
      ensures capacity >= old(capacity) && deferSync == old(deferSync) && switched == old(switched)
      ensures old(synced) <= synced && old(durable) <= durable
      ensures old(failed) ==> outcome == DiskFailed && attempted == old(attempted) && records == old(records)
      ensures !old(failed) ==> (outcome == TooLarge <==> !Fits(r))
      ensures !old(failed) && Fits(r) ==>
                (outcome == NoMemory <==> old(capacity) < 10 + ArgsSize(r.args) && !world.memory(old(world.asked)))
      ensures Cause(outcome, old(failed), old(world.Dealt()), world.Dealt())
      ensures old(capacity) >= 10 + ArgsSize(r.args) ==> world.asked == old(world.asked)
      ensures outcome == TooLarge || outcome == NoMemory ==>
                file == old(file) && records == old(records) && torn == old(torn) && failed == old(failed)
                && dirty == old(dirty) && synced == old(synced) && durable == old(durable) && attempted == old(attempted)
      ensures outcome == Logged ==> !failed && records == old(records) + [r] && attempted == old(attempted) + [r]
      ensures outcome == Logged ==> durable == if sync == Always && !deferSync then |records| else old(durable)
      ensures outcome == Logged && sync == Always && !deferSync ==> synced == |file|
      ensures outcome == DiskFailed ==> failed && durable == old(durable)
      ensures outcome == DiskFailed ==>
                records == old(records) || (Fits(r) && sync == Always && !deferSync && records == old(records) + [r])
      ensures outcome == DiskFailed && !old(failed) ==> Fits(r) && attempted == old(attempted) + [r]
    {
      hide Contains, Crc.IsTable, ArgsSize, Durable;
      if failed {
        return DiskFailed;
      }
      var size := CheckedSize(r.args);
      if size.None? || |r.args| > 255 {
        return TooLarge;
      }
      if capacity < size.value + 8 {
        var reserved := world.Grant();
        if !reserved {
          return NoMemory;
        }
        capacity := size.value + 8;
      }
      outcome := Write(r, world);
    }

    /** The rest of `append`: the frame is built and written, in full or in part, and synced if nothing defers that. */
    method Write(r: Record, world: World) returns (outcome: Outcome)
      requires Valid() && !failed && Fits(r)
      modifies this, world`calls
      ensures Valid() && capacity == old(capacity) && deferSync == old(deferSync) && switched == old(switched)
      ensures old(synced) <= synced && old(durable) <= durable
      ensures outcome == if failed then DiskFailed else Logged
      ensures attempted == old(attempted) + [r] && (records == old(records) + [r] || (failed && records == old(records)))
      ensures durable == if !failed && sync == Always && !deferSync then |records| else old(durable)
      ensures !failed && sync == Always && !deferSync ==> synced == |file|
      ensures failed && (sync != Always || deferSync) ==> records == old(records)
      ensures if failed then Faulted(old(world.Dealt()), world.Dealt()) else world.Dealt() == old(world.Dealt())
    {
      hide Contains, Frame, Crc.IsTable, Fits, Durable, World.Dealt, Faulted;
      var frame := BuildFrame(table, r);
      assert records + [] == records && (records + [r]) + [] == records + [r];
      attempted := records + [r];
      var written := world.Write(|frame|);
      if written < |frame| {
        ContainsMore(file, records, r, written);
        file := file + frame[..written];
        failed := true;
        torn := [r];
        return DiskFailed;
      }
      ContainsMore(file, records, r, 0);
      StaysDurable(records, durable, synced, r);
      file := file + frame;
      records := records + [r];
      dirty := true;
      if sync == Always && !deferSync {
        var ok := FlushLocked(world);
        if !ok {
          return DiskFailed;
        }
      }
      outcome := Logged;
    }

    method ReserveRecord(bytes: nat, world: World) returns (outcome: Outcome)
      requires Valid()
      modifies this`capacity, world`asked
      ensures Valid() && capacity >= old(capacity)
      ensures outcome == Logged ==> bytes <= MAX_RECORD + 8 && capacity >= bytes
      ensures outcome == Logged || outcome == TooLarge || outcome == NoMemory
      ensures outcome == TooLarge <==> bytes > MAX_RECORD + 8
      ensures outcome == NoMemory ==> old(capacity) < bytes && !world.memory(old(world.asked))
      ensures Cause(outcome, failed, old(world.Dealt()), world.Dealt())
    {
      hide Contains, Crc.IsTable, Durable;
      if bytes > MAX_RECORD + 8 {
        return TooLarge;
      }
      if capacity < bytes {
        var reserved := world.Grant();
        if !reserved {
          return NoMemory;
        }
        capacity := bytes;
      }
      outcome := Logged;
    }

    /**
      * The records of one multi-record write, after `reserve_record`: from the first of them on only
      * the disk can fail, never an allocation or a size check.
      */
    method AppendReserved(rs: seq<Record>, world: World) returns (outcome: Outcome)
      requires Valid()
      requires AllFit(rs) && forall i :: 0 <= i < |rs| ==> 10 + ArgsSize(rs[i].args) <= capacity
      modifies this, world
      ensures Valid() && deferSync == old(deferSync) && old(synced) <= synced && old(durable) <= durable
      ensures outcome == Logged || outcome == DiskFailed
      ensures outcome == Logged ==> attempted == old(attempted) + rs && failed == old(failed)
      ensures outcome == DiskFailed ==> failed && rs != [] && old(attempted) <= attempted <= old(attempted) + rs
      ensures outcome == DiskFailed && old(failed) ==> attempted == old(attempted)
      ensures Cause(outcome, old(failed), old(world.Dealt()), world.Dealt())
    {
      hide Contains, Crc.IsTable, Fits, ArgsSize, Durable, AllFit;
      for i := 0 to |rs|
        invariant Valid() && deferSync == old(deferSync) && old(synced) <= synced && old(durable) <= durable
                  && old(capacity) <= capacity
        invariant attempted == old(attempted) + rs[..i] && failed == old(failed) && Fine(old(world.Dealt()), world.Dealt())
        invariant i > 0 ==> !failed
      {
        TheyFit(rs, i);
        outcome := Append(rs[i], world);
        assert rs[..i + 1] == rs[..i] + [rs[i]];
        if outcome != Logged {
          return;
        }
      }
      assert rs[..|rs|] == rs;
      outcome := Logged;
    }

    /** The end of a compaction: the log goes on in the new file, all of which is on the disk. */
    method Switch(file: Bytes, ghost records: seq<Record>)
      requires Valid() && !failed && AllFit(records) && file == Log(records)
      modifies this
      ensures Valid() && !failed && !dirty && switched && deferSync == old(deferSync) && capacity == old(capacity)
      ensures this.file == file && this.records == records && attempted == records && synced == |file| && durable == |records|
    {
      hide Log, Crc.IsTable, Fits;
      this.file, this.records, synced := file, records, |file|;
      torn, attempted, durable, switched, dirty := [], records, |records|, true, false;
      assert records + [] == records && records[..|records|] == records;
    }

    /** A compaction that broke off: nothing more is ever written. */
    method Fail()
      requires Valid()
      modifies this`failed
      ensures Valid() && failed
    {
      hide Contains, Crc.IsTable, Durable;
      failed := true;
    }

    /** From here to the end of the batch nothing is synced in mode always; nothing else changes. */
    method BeginBatch()
      requires Valid()
      modifies this`deferSync
      ensures Valid() && (sync != Always ==> !deferSync) && (sync == Always ==> deferSync)
    {
      hide Contains, Crc.IsTable, Durable;
      deferSync := sync == Always;
    }

    /** In mode always success means that every record written since the log was opened is on the disk. */
    method EndBatch(world: World) returns (ok: bool)
      requires Valid()
      modifies this, world`calls
      ensures Valid() && !deferSync && switched == old(switched)
      ensures file == old(file) && records == old(records) && torn == old(torn) && attempted == old(attempted)
      ensures old(synced) <= synced && old(durable) <= durable
      ensures old(failed) ==> failed
      ensures if sync == Always then ok == !failed else ok && failed == old(failed)
      ensures ok ==> AllSynced()
      ensures !ok ==> durable == old(durable) && (old(failed) || old(dirty))
      ensures if ok || old(failed) then world.Dealt() == old(world.Dealt()) else Faulted(old(world.Dealt()), world.Dealt())
    {
      hide Contains, Crc.IsTable, Durable;
      deferSync := false;
      ok := true;
      if sync == Always {
        ok := FlushLocked(world);
      }
    }
  }

  /** The first `durable` records lie within the first `synced` bytes of the file. */
  ghost predicate Durable(records: seq<Record>, durable: nat, synced: nat)
  {
    durable <= |records| && AllFit(records) && (durable > 0 ==> |Log(records[..durable])| <= synced)
  }

  lemma StaysDurable(records: seq<Record>, durable: nat, synced: nat, r: Record)
    requires Durable(records, durable, synced) && Fits(r)
    ensures Durable(records + [r], durable, synced) && durable <= |records|
  {
    hide Log, Fits;
    assert (records + [r])[..durable] == records[..durable];
  }

  lemma AllDurable(file: Bytes, records: seq<Record>, durable: nat, synced: nat)
    requires Contains(file, records, []) && Durable(records, durable, synced)
    ensures Durable(records, |records|, |file|) && durable <= |records|
  {
    hide Log, Fits;
    ContainsWhole(file, records);
    assert records[..|records|] == records;
  }

  lemma TheyFit(rs: seq<Record>, i: nat)
    requires AllFit(rs) && i < |rs|
    ensures Fits(rs[i])
  {
  }

  /**
    * A crash keeps some prefix of the file, at least the synced part. If that reaches past the header,
    * reopening finds a prefix of the attempted records that has every durable one.
    */
  lemma CrashImageRecovers(wal: WriteAheadLog, n: nat)
    requires wal.Valid() && 8 <= n && wal.synced <= n <= |wal.file|
    ensures AllFit(wal.attempted) && n <= |Log(wal.attempted)| && wal.file[..n] == Log(wal.attempted)[..n]
    ensures wal.durable <= Whole(wal.attempted, n - 8) <= |wal.attempted|
    ensures Recovered(wal.file[..n]).Scanned? && Recovered(wal.file[..n]).records == wal.attempted[..Whole(wal.attempted, n - 8)]
  {
    hide Frames, Frame, Scan, Whole, Fits;
    var all, k := wal.attempted, wal.durable;
    assert wal.file[..n] == Log(all)[..n];
    CutRecovers(all, n);
    var whole := Whole(all, n - 8);
    assert all[..k] == wal.records[..k];
    if whole < k {
      assert all[..k][..whole + 1] == all[..whole + 1];
      FramesSplit(all[..k], whole + 1);
    }
  }
}
