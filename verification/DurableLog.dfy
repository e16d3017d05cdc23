/**
  * The log of `Durability` is an abstraction of the log's own class: in mode always each of its methods
  * takes the step that the protocol of the two threads assumes. Source: src/wal.cpp:215-295.
  */
module DurableLog {
  import opened Wal
  import opened Worlds
  import LogFile
  import P = Durability

  /** The records written since the log was opened, and how many of them are on the disk. */
  ghost function Abs(wal: LogFile.WriteAheadLog): (l: P.Log)
    requires wal.Valid() && !wal.switched
    reads wal
  {
    P.Log(|wal.records| - wal.initial, if wal.durable < wal.initial then 0 else wal.durable - wal.initial,
          wal.failed, wal.deferSync)
  }

  method Append(wal: LogFile.WriteAheadLog, r: Record, world: World) returns (outcome: LogFile.Outcome, ghost written: P.Written)
    requires wal.Valid() && wal.sync == LogFile.Always && !wal.switched
    modifies wal, world
    ensures wal.Valid() && !wal.switched
    ensures outcome == LogFile.TooLarge || outcome == LogFile.NoMemory || old(wal.failed) ==> Abs(wal) == old(Abs(wal))
    ensures outcome == LogFile.Logged ==> written == P.Fully
    ensures outcome == LogFile.Logged || (outcome == LogFile.DiskFailed && !old(wal.failed)) ==>
              P.AppendTo(old(Abs(wal)), written) == P.SomeLog(Abs(wal))
    ensures outcome == LogFile.DiskFailed ==> wal.failed && P.AppendTo(Abs(wal), written) == P.NoLog
  {
    hide LogFile.Contains, LogFile.Durable, Fits;
    ghost var before, wasFailed := wal.records, wal.failed;
    outcome := wal.Append(r, world);
    written := if outcome == LogFile.Logged then P.Fully else if |wal.records| == |before| then P.Cut else P.Unsynced;
    assert wasFailed ==> wal.records == before;
  }

  method BeginBatch(wal: LogFile.WriteAheadLog)
    requires wal.Valid() && wal.sync == LogFile.Always && !wal.switched
    modifies wal`deferSync
    ensures wal.Valid() && !wal.switched && Abs(wal) == old(Abs(wal)).(deferSync := true)
  {
    hide LogFile.Contains, LogFile.Durable;
    wal.BeginBatch();
  }

  method EndBatch(wal: LogFile.WriteAheadLog, world: World) returns (ok: bool)
    requires wal.Valid() && wal.sync == LogFile.Always && !wal.switched
    modifies wal, world
    ensures wal.Valid() && !wal.switched && Abs(wal) == P.End(old(Abs(wal)), ok) && ok == !Abs(wal).failed
  {
    hide LogFile.Contains, Wal.Log, Fits;
    ok := wal.EndBatch(world);
  }

  /** The log's own thread: a flush at any time, also in the middle of a batch. */
  method Flush(wal: LogFile.WriteAheadLog, world: World) returns (ok: bool)
    requires wal.Valid() && wal.sync == LogFile.Always && !wal.switched
    modifies wal, world
    ensures wal.Valid() && !wal.switched && Abs(wal) == P.Flushed(old(Abs(wal)), ok) && ok == !Abs(wal).failed
  {
    hide LogFile.Contains, Wal.Log, Fits;
    ok := wal.FlushLocked(world);
  }
}
