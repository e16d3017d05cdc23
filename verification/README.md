# Reddish, verified

Reddish is an in-memory key-value server that speaks the Redis protocol. This project models its core
in Dafny and proves what that core promises.

What the server holds is a plain map from keys to strings, integers, lists and hashes, with optional
deadlines. `Keyspace` writes that map and every operation on it down once, together with the log
records each operation produces. Everything else is proved against it, and `Laws` proves of it what a
client expects: how the reply to each command follows from the commands before it.

- The database (`BucketTable`, `LruList`, `ExpiryIndex`, `Nodes`, `Database`): bucket chains, a list in
  order of use, an expiry heap with its back index, flags and counters, all relinked in place. After
  every operation they describe one set of nodes, that set holds the map, the blocks of the nodes are
  exactly those the pool has lent, and the bytes of each payload stand within its block.
- Representations (`Pack`, `PackedList`, `PackedHash`, `SizeClasses`, `Layouts`, `NodeBytes`): lists and
  hashes as packed bytes, and every edit of a payload as an edit of bytes where they are.
- `Worlds`: what is asked of the machine. Memory and the disk answer from a script, and both kinds of
  failure are counted, so that a refusal always has a refused request behind it.
- The log (`Crc`, `CrcCheck`, `Wal`, `LogFile`, `LogFormat`, `Recovery`, `CrashRecovery`): framing, torn
  tails, replay, crashes. `CrcCheck` and `LogFormat` hold the format against outside answers.
- Opening (`Sweep`, `Opening`): replay through the operations themselves, into the linked structures.
- Compaction (`Compaction`, `CompactNodes`, `CompactWal`, `CompactSteps`): its meaning, the bytes it
  reads, the file it writes and the switch to it.
- Memory (`Slab`): the pool and the budget it draws on.
- The protocol (`Grammar`, `Resp`, `Stream`, `EventLoop`, `Client`): the grammar of requests on the bytes,
  both parsers, reads cut anywhere, and the client's reader of nested replies.
- Threads (`Handshake`, `Durability`, `DurableLog`): the steps of the event loop, of the maintenance
  thread and of the log's flusher, and the log's own methods as the steps that protocol assumes.
- `Cleanup` and `Session` put whole runs together. `Session.Serve` ties every request to its reply and
  to its events on the plain map, with any allocation and any disk write failing anywhere.
  `Session.Survives` and `Session.AcknowledgedSurvives` say what is left after a crash, and
  `Opening.Resume` that a server restarted on that is in the same position again. All three start from
  any log that restores some keyspace: an empty one, one that was reopened, or a compacted one.
- `Numbers` has the limits of the source as numbers and some short strings of bytes written out.

`dafny verify dfyconfig.toml` checks all of it.

## What turned out not to hold as one might expect

- `hash_set_texts` accepts values up to 64 MiB, but replay goes through `hash_assign`, whose check
  counts the element header as well. A log reopens if and only if no call stored such a value
  (`CrashRecovery.ReopensExactlyWhenClean`, with `CrashRecovery.OversizedExample`), a cut of it if and
  only if none is in the cut (`CrashRecovery.CrashRecovers`), and a compacted log if and only if none
  is stored (`Compaction.CompactionPreservesMeaning`). With the server's 1 MiB input limit the case
  does not arise.
- A write that fails for want of memory can still change the log: looking up its target deletes it,
  and logs the deletion, if it has expired. `Session.FailedIncrement` is such a call, on every database
  in which a key has expired, its block is of another size than a counter needs, no counter-sized block
  is free and the next request for memory is refused. The log changes if and only if the target has
  expired and the memory was not refused already for that deletion, and nothing that can be seen
  changes (`Session.FailedWriteInvisible`).
- A log file of one to seven bytes is refused, an empty one is not (`Wal.CutRejectedExactlyInHeader`).
- In `Wal::compact` a failure of the flush just before the switch marks the log failed too, although
  the flag that guards the catch block is not set yet (`CompactSteps.AbortOutcome`, with
  `CompactSteps.FlushFailureExample`).
- The event loop notifies the maintenance thread without holding the mutex. That notification can be
  missed (`Handshake.WorkerMayMissItsNotification`), if and only if it comes between the worker's
  decision to wait and the wait (`Handshake.MissedExactlyWhenSettling`); the 20 ms limit on the wait
  makes up for it. The wake-up in the other direction cannot be missed.

## How the source is read

- An address is a natural number and 0 is null. The fields of all nodes form maps from addresses, one
  map to a field, so that relinking is an assignment to a map.
- `hash_key` is any function and `unordered_map` is a map whose order of iteration is arbitrary.
- An operation reads the clock once, and the wall clock and the steady clock differ by a constant, also
  across a restart.
- Whether the next request for memory is granted, whether the next call into the file system succeeds,
  and how far a failing write gets, are three fixed scripts that can be anything. A budget for memory
  refuses on its own. Nothing else fails: an operation answers that it has no memory only if it was
  refused some, and a server that is refused nothing serves every request (`Session.AllServed`).
- A file is a byte sequence with a synced length.
- 32-bit words in the checksum are sequences of bits.

## Model

| member | source | states |
|---|---|---|
| Crc.BuildTable | src/wal.cpp:38-49 | The table built at start-up holds, for every byte, eight bit steps of CRC-32 on that byte; `CrcCheck.ResidueAlways` and `CrcCheck.CheckValue` say that they are those of CRC-32. |
| Crc.ComputeCrc | src/wal.cpp:50-56 | On every byte string the table-driven loop gives the bit-at-a-time CRC-32 of section 8 of RFC 1952. |
| Crc.OneByteDetected | src/wal.cpp:38-56 | Two messages of one length that differ in exactly one byte never have the same checksum. |
| CrcCheck.ResidueAlways | src/wal.cpp:38-56 | Whatever the message, the register after the message and its checksum as a frame stores it is 0xDEBB20E3, the residue of CRC-32. |
| CrcCheck.CheckValue | src/wal.cpp:38-56 | The checksum of the bytes of "123456789" is 0xCBF43926, the check value that catalogues give for CRC-32. |
| LogFile.WriteWord | src/wal.cpp:57-61 | The four pushed bytes are the little-endian form that `ReadWord` reads back. |
| LogFile.ReadWord | src/wal.cpp:62-68 | Assembling four bytes by shifts gives the number `WriteWord` wrote. |
| Bytes.DecimalRoundTrip | src/database.cpp:1227-1259 | Every 64-bit integer survives being printed into a record and parsed back, and its text has at most 20 characters. |
| Bytes.PrintedIsShortest | src/database.cpp:1449-1456 | No numeral that parses to a number is shorter than the printed one, so a replayed field never needs a longer record. |
| LogFile.CheckedSize | src/wal.cpp:219-227 | With the size held in 64 bits the guarded loop accepts exactly the argument lists whose true total is within the limit, and no addition wraps around. |
| LogFile.BuildFrame | src/wal.cpp:228-241 | The buffer is the frame of the record: length, checksum of the payload, operation, argument count, arguments. |
| LogFile.ReadRecord | src/wal.cpp:76-114 | One turn of the recovery loop classifies the bytes at its position as end, damaged or intact exactly as the format defines. |
| LogFile.Recover | src/wal.cpp:69-119 | The recovery loop returns the records, length and torn flag of the format, and cuts the file to that length exactly when the tail is torn. |
| Wal.CutRecovers | src/wal.cpp:69-119 | A log cut anywhere at or after its header is accepted; it yields exactly the records that are whole in the cut, the length is where they end, and the tail is reported torn exactly when bytes remain. |
| Wal.WholeLogRecovers | src/wal.cpp:69-119 | An uncut log yields all its records and no torn tail. |
| Wal.LogOfRecovered | src/wal.cpp:69-119 | Conversely, whatever bytes recovery accepts are, up to the torn part, the log of exactly the records it finds. |
| Wal.CutRejectedExactlyInHeader | src/wal.cpp:69-119 | A cut is refused if and only if it leaves between one and seven bytes. |
| Wal.DamagedPayloadRejected | src/wal.cpp:88-97 | Changing one payload byte of any complete record, whatever precedes and follows it, makes recovery refuse the log. |
| LogFile.WriteAheadLog.FlushLocked | src/wal.cpp:256-279 | A flush succeeds only on a log that has not failed, and then, except in mode none, every record written since the log was opened is on the disk; it fails only if a call into the file system did, and a failure is permanent and promises nothing new. |
| LogFile.WriteAheadLog.Append | src/wal.cpp:215-249 | The record is added in full, or refused as too large exactly when it does not fit, or refused for want of memory, with nothing changed, exactly when the buffer is too short for it and memory is refused, or the log has failed for good and at most that record is torn; in mode always, outside a batch, success means it is on the disk. |
| LogFile.WriteAheadLog.ReserveRecord | src/wal.cpp:250-255 | Success means the buffer holds that many bytes and the size is within the limit; it is refused as too large exactly above it, and otherwise only if the buffer is shorter and memory is refused. |
| LogFile.WriteAheadLog.AppendReserved | src/database.cpp:778-781 | After the reservation the records of a multi-record write are appended in order and only the disk can fail. |
| LogFile.WriteAheadLog.EndBatch | src/wal.cpp:290-295 | Deferral ends; in mode always success means every record written since the log was opened is on the disk, and a failed log reports failure. |
| LogFile.WriteAheadLog.Switch | src/wal.cpp:344-351 | After the switch of a compaction the log is the new file with exactly its records, all of them on the disk. |
| LogFile.CrashImageRecovers | src/wal.cpp:215-295 | Whatever prefix at least as long as the synced part a crash leaves, on a failed log too, reopening gives a prefix of the attempted records that contains every durable one. |
| LogFormat.FrameFields | src/wal.cpp:228-241 | On the bytes of a frame: the length is that of what follows the first eight bytes, the checksum is that of the same bytes, both the least significant byte first; then the operation and the number of arguments. |
| LogFormat.ArgumentFields | src/wal.cpp:228-241 | Each argument stands after its length, one behind the other. |
| LogFormat.RecoversExactly | src/wal.cpp:69-119 | A file is accepted with these records if and only if it is empty and they are none, or it is "RDWAL001", their frames, and then nothing or the beginning of one more frame of an allowed length. |
| LogFormat.WritesExactly | src/wal.hpp:24-37 | A single write logs one record exactly if its reply says that it did something, with the code, tags, stamp and arguments listed there, after the deletion of an expired target. |
| LogFormat.AcceptsExactly | src/database.cpp:1447-1522 | A record is replayed if and only if its code, its number of arguments, their sizes and form and the kind of what the key holds are as listed; otherwise the log is refused. |
| Pack.DecodeEncoded | src/pack.cpp:164-186 | Decoding an encoded element returns it, with its exact size, whatever bytes follow. |
| Pack.DecodeBacklen | src/pack.cpp:194-208 | The backward loop computes the back-length that ends the bytes. |
| Pack.BacklenRead | src/pack.cpp:87-123 | Walking back over the back-length written for a size gives that size, whatever bytes stand before it. |
| Keyspace.StepKeepsGood | src/database.cpp:417-1305 | Every operation keeps every stored value within the limits it was checked against and never leaves an empty list or hash. |
| Laws.AbsentReads | src/database.cpp:508-543 | A key that is not there reads as missing, or as length 0. |
| Laws.DelTakesAway | src/database.cpp:1298-1305 | DEL replies 1 exactly if the key was there, and it is not afterwards. |
| Laws.SetThenGet | src/database.cpp:417-443 | GET after SET replies the text, and TTL replies -1. |
| Laws.SetRefused | src/database.cpp:417-443 | SET is refused exactly above 2097151 bytes of key or 67108864 bytes of text, and then changes nothing. |
| Laws.IncrAddsOne | src/database.cpp:545-588 | If GET replies a 64-bit numeral below the maximum, INCR replies the number plus one, GET then replies its numeral, and TTL is unchanged. |
| Laws.IncrFails | src/database.cpp:545-588 | INCR of a key that is there fails exactly if GET does not reply such a numeral, and then changes nothing. |
| Laws.CountsUp | src/database.cpp:545-588 | Increments of a key that was not there reply 1, 2, 3 and so on, at whatever times. |
| Laws.PopTakesFirst | src/database.cpp:786-835 | Of the list `[x] + rest` a pop at the front replies `x` and leaves `rest`, or no key. |
| Laws.PopTakesLast | src/database.cpp:786-835 | Of the list `rest + [x]` a pop at the back replies `x` and leaves `rest`, or no key. |
| Laws.PushThenPop | src/database.cpp:660-835 | Popping the end that was just pushed replies the pushed item and brings the keyspace before the push back. |
| Laws.PushThenPopOther | src/database.cpp:660-835 | A push leaves the item at the other end the next one there. |
| Laws.PushThenLLen | src/database.cpp:847-853 | LLEN replies what the last push replied, one more than before it. |
| Laws.PopThenLLen | src/database.cpp:847-853 | Each pop that replies an item lowers LLEN by one; with the last item the key goes. |
| Laws.Drains | src/database.cpp:786-835 | Pops from one end reply all items in their order from there, and then that there is nothing. |
| Laws.HSetThenHGet | src/database.cpp:1132-1172 | HGET after HSET replies the item, and every other field replies what it did. |
| Laws.HSetThenHLen | src/database.cpp:1216-1225 | HSET replies whether the field is new, and HLEN grows by that. |
| Laws.HDelThenHGet | src/database.cpp:1174-1214 | HDEL replies whether the field was there; it is missing afterwards, and every other field replies what it did. |
| Laws.HDelThenHLen | src/database.cpp:1216-1225 | HLEN falls by what HDEL replied; with the last field the key goes. |
| Laws.LastPairWins | src/database.cpp:1046-1130 | Of several pairs for one field the last one decides. |
| Laws.ExpireThenTtl | src/database.cpp:1227-1268 | TTL, t milliseconds after EXPIRE s, replies (1000 s - t) / 1000, and -2 from the deadline on. |
| Laws.ExpireThenRead | src/database.cpp:1227-1259 | Until the deadline every other read replies what it did. |
| Laws.ExpireOutcomes | src/database.cpp:1227-1259 | EXPIRE is refused exactly if one of the two clocks would leave 64 bits, and a span that is not positive deletes. |
| Laws.DeadlineStays | src/database.cpp:417-1305 | No command but SET, EXPIRE and a deletion changes what TTL replies at any time. |
| Laws.WrongTypeExactly | src/database.cpp:417-1305 | A command complains of the kind exactly if the key is there with a value of another kind. |
| Laws.FailureChangesNothing | src/database.cpp:417-1305 | A command that fails changes no reply to any read. |
| Laws.PushRefused | src/database.cpp:660-714 | A push is refused as too large exactly if the run would exceed 64 MiB. |
| Laws.HSetRefused | src/database.cpp:907-1031 | HSET is refused as too large exactly if the field, the packed value or the record is too long. |
| Laws.PushTextsReplies | src/database.cpp:740-784 | A push of several texts replies the new length, or is refused exactly by their size together; of none it replies the length. |
| Laws.HSetTextsReplies | src/database.cpp:1046-1130 | A set of several fields refuses an odd number of parts, then a part or a pair that is too long, and nothing else. |
| CrashRecovery.StepRecordsFit | src/database.cpp:417-1305 | Every record an operation logs is one `append` accepts. |
| Recovery.ReplayApplied | src/database.cpp:1447-1522 | A single operation logs nothing and changes nothing, or logs one record that replays to exactly its result. |
| Recovery.ReplayExpiry | src/database.cpp:1227-1259 | A logged deadline comes back as the same instant, or as the present if it has passed. |
| CrashRecovery.PushTextsIsPushes | src/database.cpp:740-784 | `push_texts` succeeds if and only if pushing its items one at a time does, with the same list. |
| CrashRecovery.HSetTextsIsHSets | src/database.cpp:1046-1130 | A successful `hash_set_texts` equals its single sets in order, duplicates and returned count included, if and only if no value is one `hash_assign` would refuse. |
| CrashRecovery.UnbundleRun | src/database.cpp:740-784 | A multi-record write and its single-record writes change the same things and log the same records. |
| CrashRecovery.CrashRecovers | src/database.cpp:1428-1522 | For every log that restores some keyspace, every run that goes on from it and every cut of the resulting log after the first part, reopening succeeds if and only if none of the run's records that are whole in the cut is an oversized hash value, and then gives exactly the unexpired keyspace after the operations of those records. |
| CrashRecovery.UncutLogRestores | src/database.cpp:1428-1446 | The uncut log of a run that goes on from such a log gives exactly the unexpired keyspace: values, types, list order, hash maps and deadlines. |
| CrashRecovery.ScratchRestores | src/wal.cpp:122-155 | An empty log is one from which a run can go on. |
| CrashRecovery.CleanExactly | src/database.cpp:1082-1086 | One operation logs an oversized value if and only if it is an accepted multi-set with an oversized value among its arguments. |
| CrashRecovery.RunCleanExactly | src/database.cpp:1082-1086 | A run logs an oversized value if and only if one of its calls was such a multi-set. |
| CrashRecovery.ReopensExactlyWhenClean | src/database.cpp:907-914 | The log of a run that goes on from such a log can be reopened if and only if no `hash_set_texts` call in it was accepted with a value above the limit `hash_assign` checks. |
| CrashRecovery.SafeRunClean | src/database.cpp:1082-1086 | A caller whose multi-set values are at most 64 MiB less the element header always gets a log that reopens. |
| CrashRecovery.RunStampable | src/database.cpp:1505-1515 | Every deadline that a run logs can be turned back into the steady clock without overflow, so replay of its records needs no further condition. |
| CrashRecovery.OversizedExample | src/database.cpp:1082-1086 | One field set to a value of exactly 64 MiB is accepted, and its log cannot be reopened. |
| Compaction.CompactionPreservesMeaning | src/database.cpp:1351-1427 | The records of compaction always fit. The compacted log can be reopened if and only if no oversized hash value is stored, and then, at any later time, gives the same values, types, list order, hash maps and deadlines with the keys in exactly the same order of use, whatever order hash fields are visited in. |
| Compaction.CompactedRestores | src/database.cpp:1351-1427 | A compacted log is one from which a run can go on, if no oversized value is stored: all that is proved about runs and crashes holds of what is logged after a compaction. |
| Compaction.RunRestorable | src/database.cpp:1351-1427 | Everything a run reaches can be compacted without loss, as long as no call of it stored an oversized value. |
| CompactWal.WriteValue | src/database.cpp:1364-1413 | The records of a value, item by item or field by field, in order. |
| CompactNodes.WriteList | src/database.cpp:1371-1385 | One cursor moved by strides over the packed run writes exactly the items of the list, in order. |
| CompactNodes.WriteHash | src/database.cpp:1386-1415 | The cursor over the packed pairs, or the iteration of the promoted table, writes every field of the hash exactly once with its value. |
| CompactWal.WriteNode | src/database.cpp:1363-1423 | The records of a node are those of its stored entry; the overflow check on the stamp never fires. |
| CompactWal.Rewrite | src/database.cpp:1360-1425 | The walk along the list's pointers from its tail appends to the replacement log every stored key, from the least to the most recently used; it ends early only if memory was refused or the disk failed. |
| Sweep.RemoveAllExpired | src/database.cpp:1269-1296 | Without a limit the expiry pass leaves exactly the live keyspace and logs exactly those deletions; stopped, which happens only if memory was refused or the log had failed or fails, it still leaves the same live keyspace. |
| CompactWal.WriteReplacement | src/wal.cpp:312-320 | The replacement is written in one batch, synced and read back; if that succeeds it is exactly the log of what is stored, and it fails only if memory was refused or the disk failed. |
| CompactWal.WriteCompacted | src/database.cpp:1351-1427 | The replacement file can be reopened if and only if no oversized value is stored, and then, at any later time, gives what is live in the database with the keys in the order of its list. |
| CompactWal.Compact | src/database.cpp:1351-1427 | The whole of `compact_wal`, the switch included. If it succeeds the database stores what was live, its log is the compacted one and durable, and a run can go on from it if no oversized value is stored. If it fails, memory was refused or the disk failed or the log had failed already or is in a batch; what is live has not changed, and the log is the old one with at most deletions of expired keys added, or is marked failed. |
| CompactSteps.StepsKeepInvariant | src/wal.cpp:297-361 | Whatever each call of the switch answers, the old file stays intact until the complete new one is synced, verified and renamed over it. |
| CompactSteps.CrashSeesOldOrNew | src/wal.cpp:297-361 | Stopped after any step, the path names the complete new log, or the old one from which at most an unsynced tail is missing. |
| CompactSteps.AbortOutcome | src/wal.cpp:320-360 | A compaction that throws marks the log failed exactly when the flush of the old log or a step of the switch failed; otherwise the old log is open and untouched. One that finishes leaves the new log open, durable and complete. |
| CompactSteps.FlushFailureExample | src/wal.cpp:321-322 | For every old log and mode there are answers after which the flush before the switch has failed and the log is marked failed, with the old file open and untouched. |
| CompactSteps.SucceedingStepAdvances | src/wal.cpp:297-361 | While calls succeed no step throws, and each one moves on or writes more of the new log. |
| CompactSteps.SwitchPreservesMeaning | src/wal.cpp:297-361 | In every mode, stopped after any step, the file is the new log or a part of the old one. The new log reopens if and only if no oversized value is stored, to the keyspace of the run. The old part reopens if and only if no oversized value is among its records, to the keyspace of the run at that point, which is its end if the old log was flushed and synced. |
| Cleanup.ApplyTouchesOne | src/database.cpp:417-1305 | An operation changes no key but its own. |
| Cleanup.ApplySeesOne | src/database.cpp:417-1305 | What an operation replies and stores depends on its own key alone. |
| Cleanup.StepRespectsLive | src/database.cpp:92-127 | Two databases that differ only in expired keys give the same reply and differ again only in expired keys. |
| Cleanup.CleanupUnobservable | src/database.cpp:1269-1305 | With a monotone clock and no eviction, adding or dropping expiry-pass removals anywhere in a run changes no command's reply. |
| Resp.ArgumentList.PushBack | src/resp.hpp:16-75 | The list grows by the value at its end, across the boundary between inline and overflow storage. |
| Resp.ArgumentList.Clear | src/resp.hpp:16-75 | The list is empty and its storage is kept. |
| Resp.ArgumentList.At | src/resp.hpp:16-75 | Indexing reads the element of the sequence, wherever it is stored. |
| Resp.ReadLength | src/resp.cpp:724-759 | The digit loop, with its fast path and its overflow checks, finds exactly a line of digits that fits 64 bits. |
| Resp.ParseSlow | src/resp.cpp:667-722 | The reference parser fills a reused command with the result, name, arguments and consumed count of `Parse`, on every input; what that is on the bytes is in `Grammar`. |
| Resp.ParseInto | src/resp.cpp:762-788 | On every byte string the fast parser gives the same result, arguments and consumed count as the reference parser, whatever the reused command held. |
| Grammar.SucceedsExactly | src/resp.cpp:667-722 | Parsing succeeds if and only if the bytes start with `*`, a numeral, CRLF and that many, at least one, of `$`, a numeral, CRLF, as many bytes as it says, CRLF. |
| Grammar.FrameIsRead | src/resp.cpp:667-722 | Such a command is read whole, name, arguments and length, whatever follows; so the bytes start with at most one. |
| Grammar.FailsExactly | src/resp.cpp:667-722 | Each error code is reported if and only if that is what is wrong with the bytes, in words of the grammar. |
| Grammar.WaitsExactly | src/server.cpp:18-22 | The server waits for more if and only if the bytes start with `*`, are no command yet, and every line and terminator that is complete is good. |
| Grammar.SplitExactly | src/server.cpp:209-230 | A stream is the commands found, and a rest that starts with none; the rest is an error exactly if it is not empty and not the beginning of a command. |
| Grammar.SplitIsOnly | src/server.cpp:209-230 | There is no other way to take a stream apart into commands and such a rest. |
| Grammar.StarIsNeeded | src/resp.cpp:674 | A stream that starts with anything but `*` is refused at once. |
| Stream.ParseStable | src/resp.cpp:667-722 | A parse result other than incomplete does not change when bytes are appended. |
| Stream.ParseEncoded | client/C++/src/client.cpp:22-24 | The client's encoding of a command, followed by anything, parses to exactly that command and its length. |
| Stream.PrefixIncomplete | client/C++/src/client.cpp:22-24 | Every proper non-empty prefix of an encoded command is incomplete, never an error and never a command. |
| Stream.SplitAppend | src/server.cpp:209-230 | The commands of a longer stream are those of the shorter one followed by those of its rest and the new bytes; after a protocol error nothing more is found. |
| EventLoop.CompactBuffer | src/server.cpp:392-405 | Compaction keeps the unread bytes, and an exhausted buffer is emptied. |
| EventLoop.ParseBatch | src/server.cpp:209-230 | A batch is the next commands of the stream, at most 1024; it stops short only at an error or when no complete frame is left. |
| EventLoop.Receive | src/server.cpp:141-175 | A read appends its bytes; the client is dropped exactly when more than 1 MiB would be unread. |
| EventLoop.Process | src/server.cpp:194-293 | Exactly the next commands of the stream are executed, all of them up to 1024; the client closes exactly at a protocol error, with every command before it executed, and is queued when a complete frame is left. |
| EventLoop.Server.Accept | src/server.cpp:118-139 | A new connection starts with nothing received and changes no other client. |
| EventLoop.Server.ProcessClient | src/server.cpp:194-293 | Serving one client executes exactly its next batch and touches no other client; it keeps the queue and every client with work in line. |
| EventLoop.Server.ReadClient | src/server.cpp:141-192 | Any number of reads of any sizes leaves the client with those bytes received and its next batch executed and, if work is left, in line. |
| EventLoop.Server.ServePending | src/server.cpp:61-70 | Each of the first 64 queued clients that is open has at least the next batch of its stream executed, only such a client may be gone afterwards, nobody else changes, and every client with work stays in line. |
| EventLoop.FrameIsServed | src/server.cpp:61-70 | The next batch of a stream with a complete frame at its front executes a command, or meets the protocol error. |
| EventLoop.Server.MayBlock | src/server.cpp:71-72 | Whenever the loop may block, no open client has a complete frame waiting, and each client, also one closed by a protocol error, has had exactly the commands of its bytes executed, up to the error. |
| EventLoop.StreamDecides | src/server.cpp:141-293 | Once a stream of at most 1 MiB has gone through, the executed commands are exactly those of the stream up to its first protocol error, and the client is closed exactly if there is one. |
| EventLoop.ReadBoundariesDoNotMatter | src/server.cpp:141-293 | Two clients that sent the same stream of at most 1 MiB, with or without a protocol error in it, however cut into reads, have had the same commands executed in the same order, up to the error. |
| Client.TurnOnGood | client/C++/src/client.cpp:37-104 | With any part of a well-formed reply received, a turn of the reader asks for more only when bytes are missing, and otherwise moves to where the next nested reply begins. |
| Client.Execute | client/C++/src/client.cpp:33-121 | For every nested reply within the limits and every fragmentation, the reader returns exactly the bytes of the reply. |
| SizeClasses.ClassIndex | src/slab.hpp:26-39 | The division and the binary search find the smallest class that holds the size. |
| SizeClasses.LittleIsWasted | src/slab.hpp:15-39 | A block is less than eight bytes, or less than a quarter of the size asked for, too large, and its size is a multiple of eight. |
| SizeClasses.BlockHoldsBody | src/database.hpp:219-258 | The block chosen for a key and a body leaves at least the body, and what `node_body_capacity` reads back is what was asked for. |
| Slab.MemoryResource.Take | src/memory.hpp:31-41 | A region is handed out if and only if it is within the budget and memory is granted; it never overlaps one that is outstanding, and the used count grows by its size. |
| Slab.MemoryResource.Give | src/memory.hpp:42-46 | The region is no longer outstanding and the used count shrinks by its size. |
| Slab.SlabPool.Obtain | src/memory.hpp:31-41 | Short of budget it reclaims first; live blocks and the regions of others stay as they are. It fails only if memory was refused. |
| Slab.SlabPool.AddChunk | src/slab.cpp:8-39 | Even when one of its two allocations reclaims or fails, every block stays free once or live once; success leaves the class's list non-empty, and failure means that memory was refused. |
| Slab.SlabPool.Allocate | src/slab.cpp:41-51 | The block was not live and is of the smallest class that fits, or is a region of its own for a large size. There is none only if memory was refused, and there is none if the class has no free block and the next request is refused. |
| Slab.SlabPool.Deallocate | src/slab.cpp:53-67 | Exactly that block stops being live and goes back to its class's list. |
| Slab.SlabPool.Reclaim | src/slab.cpp:83-112 | Exactly the chunks without a live block go; no live block moves. |
| Slab.SlabPool.Release | src/slab.cpp:69-81 | Every chunk and header goes back; only the regions of others stay outstanding. |
| Slab.WhollyFree | src/slab.cpp:88-100 | The number of free blocks inside a chunk equals its block count if and only if none of its blocks is live. |
| Slab.LiveMemoryApart | src/slab.cpp:8-112 | In every state of the pool no two live blocks overlap, and none overlaps a region held by others. |
| PackedList.BoundariesAgree | src/pack.cpp:188-208 | At every boundary of a run the forward stride and the backward back-length agree, and the element between reads back. |
| PackedList.ListNode.Reserve | src/database.cpp:630-658 | By sliding the run or moving it to a larger block there is room at both ends and the items are unchanged; without memory nothing changes. |
| PackedList.ListNode.Push | src/database.cpp:660-714 | The list is the old one with the item at that end, or unchanged; it is refused exactly when the run would exceed 64 MiB, however long the text, and no 32-bit field overflows. |
| PackedList.ListNode.Pop | src/database.cpp:786-835 | Nothing exactly on an empty list, otherwise the item at that end; the rest is left, through shrinking too. |
| PackedList.ListNode.PushTexts | src/database.cpp:740-784 | All the texts are pushed in order or none is, and it is refused exactly when the run would exceed 64 MiB. |
| PackedList.CountBound | src/database.cpp:660-714 | A run has at least two bytes to an item, so the 32-bit count cannot overflow. |
| PackedHash.MetaRoundTrip | src/database.hpp:275-290 | Within the packed limits the 16-bit count and byte fields are stored and read back exactly. |
| PackedHash.Search | src/database.cpp:869-891 | The walk over the pairs finds the value of the field if and only if the map has it. |
| PackedHash.HashNode.Get | src/database.cpp:1132-1163 | Lookup in the map, packed or promoted. |
| PackedHash.HashNode.Length | src/database.cpp:1216-1225 | The number of fields of the map, packed or promoted. |
| PackedHash.HashNode.Assign | src/database.cpp:907-1031 | One field of the map is set, in place, in a larger block or on promotion, with the right count of new fields; refused exactly above the limits and otherwise unchanged. |
| PackedHash.HashNode.SetTexts | src/database.cpp:1046-1130 | All pairs are set in order, the last of a duplicate winning, and the result is packed again or promoted; the count of new fields is exact. |
| PackedHash.HashNode.Delete | src/database.cpp:1174-1214 | Exactly that field leaves the map, packed or promoted. |
| ExpiryIndex.Index.Fix | src/database.cpp:445-472 | From one position that may be out of order, heap order and the two-way index are restored and no deadline changes. |
| ExpiryIndex.Index.Schedule | src/database.cpp:491-506 | The deadline is set or changed and the heap and its index stay consistent; only a new entry can run out of memory, and then memory was refused. |
| ExpiryIndex.Index.Clear | src/database.cpp:473-490 | Exactly that entry goes, wherever in the heap it was, and the heap and its index stay consistent. |
| ExpiryIndex.Index.Rekey | src/database.cpp:305-311 | The deadline moves to the new node and the heap and its index stay consistent. |
| ExpiryIndex.Index.Front | src/database.cpp:1277-1279 | The front of the heap has the earliest deadline of all. |
| LruList.List.Unlink | src/database.cpp:371-379 | The pointers spell out the order without that node, in both directions. |
| LruList.List.Touch | src/database.cpp:380-389 | The node is first and the others keep their order, whether it was in the list or not. |
| LruList.List.Replace | src/database.cpp:286-291 | The new node stands exactly where the old one stood. |
| BucketTable.Buckets.Find | src/database.cpp:79-90 | Null exactly when no node has the key, otherwise the node that has it. |
| BucketTable.Buckets.Link | src/database.cpp:165-171 | The table has exactly the old nodes and the new one. |
| BucketTable.Buckets.Unlink | src/database.cpp:173-181 | The table has exactly the old nodes but that one. |
| BucketTable.Buckets.Replace | src/database.cpp:313-325 | The new node has the old one's key and the other nodes are unchanged. |
| BucketTable.Buckets.Rehash | src/database.cpp:353-369 | After relinking every node in place into the new array the table has exactly the same nodes and keys, each in the bucket its key hashes to. |
| BucketTable.Buckets.MaybeRehash | src/database.cpp:346-351 | The bucket count doubles or stays, and the table has the same nodes; it fails only if memory was refused, and not before the table is full. |
| Database.Database.constructor | src/database.cpp:38-44 | A new database is coherent and empty. |
| Database.Database.CreateNode | src/database.cpp:129-163 | The block comes from the pool, has the size the key and the body need, and was not in use; the byte count grows by it and nothing is linked yet. Without a block nothing changes, and memory was refused. |
| Database.BlockInRange | src/database.cpp:144-145 | No key and body that reach `create_node` need a block above 32 bits, so the check there never fires. |
| Database.Database.TakeBlock | src/slab.cpp:41-51 | A block for a node is lent by the pool, and the pool has then lent exactly the blocks of all nodes; it fails only if memory was refused. |
| Database.Database.GiveBlock | src/slab.cpp:53-67 | The block goes back to the pool, which has then lent exactly the blocks of the nodes that are left, and no other size class gains a free block. |
| Database.Database.EraseNode | src/database.cpp:193-203 | The node leaves the expiry index, the list, the chain and the pool, and every counter follows. |
| Database.Database.CommitNode | src/database.cpp:205-221 | The new node takes the place of the old one, with its deadline if that is kept, is the most recently used, and all structures again describe one node set. |
| Database.Database.GrowNode | src/database.cpp:263-332 | Chain, list, expiry heap and map, payload and byte count all move to the new block; what is stored and the order of use do not change. |
| Database.Database.FindNode | src/database.cpp:79-90 | Lookup by key equals lookup in the stored keyspace. |
| Database.Database.FindActive | src/database.cpp:92-108 | Found exactly when stored and not expired, or, while the log is replayed, when stored; only then is the key moved to the front of the order of use. |
| Database.Database.FindWritable | src/database.cpp:110-127 | An expired key is logged as deleted and then erased, except while the log is replayed; a failure before that changes nothing but a log that failed. |
| Database.Database.Set | src/database.cpp:417-443 | The database is coherent again and the operation has done one of three things. It answered as the plain keyspace does, with exactly its records logged, and was refused no memory. It was refused memory, and an expired target is gone and logged as gone, unless the memory refused was for that. Or the log had failed or failed now, and at most a prefix of the records is in it. The deadline is dropped. The block is kept, shrunk or replaced as the sizes decide. |
| Database.Database.Increment | src/database.cpp:545-588 | Coherent again, every payload within its block, with the answer, the log and the order of use of the plain operation, or one of the two failures described for `Set`. A string becomes an integer in a block that grows first if it is too small. If the target has expired and no memory is left for a counter, it does not answer. |
| Database.Database.ListPush | src/database.cpp:660-714 | Coherent again, every payload within its block, with the answer, the log and the order of use of the plain operation, or one of the two failures described for `Set`. The run stays, is centred anew or moves to a larger block as its free ends decide. |
| Database.Database.ReserveRun | src/database.cpp:630-658 | By centring the run or moving it to a larger block there is room at both ends; what is stored and the order of use do not change, and it fails only if memory was refused. |
| Database.Database.PushTexts | src/database.cpp:740-784 | Coherent again, every payload within its block, with the answer, the log and the order of use of the plain operation, or one of the two failures described for `Set`. From the first record on only the disk can fail. |
| Database.Database.ListPop | src/database.cpp:786-835 | Coherent again, every payload within its block, with the answer, the log and the order of use of the plain operation, or one of the two failures described for `Set`. The item is read at its end of the run, whose bytes then stay where they are; an emptied list is erased, and a block that is much too large is exchanged if there is memory. Being refused memory for that does not fail the operation. |
| Database.Database.ShrinkRun | src/database.cpp:819-833 | Exchanging the block of a list for a smaller one changes nothing that is stored, also if memory is refused. |
| Database.Database.HashAssign | src/database.cpp:907-1031 | Coherent again, every payload within its block, with the answer, the log and the order of use of the plain operation, or one of the two failures described for `Set`. The field is set in place, in a larger block or in a table as the packed sizes decide. A record too large to log stores nothing. |
| Database.Database.HashSetTexts | src/database.cpp:1046-1130 | Coherent again, every payload within its block, with the answer, the log and the order of use of the plain operation, or one of the two failures described for `Set`. The result is packed if and only if it has few and short enough fields. From the first record on only the disk can fail. |
| Database.Database.LayTable | src/database.cpp:1092-1124 | A table is packed if and only if it has at most 128 fields and 4096 packed bytes, and its bytes are then those of its pairs. |
| Database.Database.HashDelete | src/database.cpp:1174-1214 | Coherent again, every payload within its block, with the answer, the log and the order of use of the plain operation, or one of the two failures described for `Set`. An emptied hash is erased. |
| Database.Database.Expire | src/database.cpp:1227-1259 | Coherent again, every payload within its block, with the answer, the log and the order of use of the plain operation, or one of the two failures described for `Set`. If the log refuses, the previous deadline is put back. |
| Database.Database.Delete | src/database.cpp:1298-1305 | Coherent again, every payload within its block, with the answer, the log and the order of use of the plain operation, or one of the two failures described for `Set`. |
| Database.LiveEffect | src/database.cpp:1343-1346 | Outside replay an operation with its lookup is exactly the step of the plain keyspace. |
| Database.Database.Read | src/database.cpp:508-543 | Every read replies as the plain keyspace does, from the bytes of the node; it changes nothing stored, and moves only a key it finds to the front of the order of use. |
| Database.Database.EvictTo | src/database.cpp:391-415 | Exactly the least recently used keys go, least recent first, each logged before it is erased; as many as are over the target, but no more than the limit. It is stopped only if memory was refused or the log had failed or fails, and if it fails the log has the deletion of at most the next one. |
| Database.Database.RemoveExpired | src/database.cpp:1269-1296 | Only expired keys go, in order of deadline, none that is left has an earlier deadline, and all expired keys go unless the limit is reached. It is stopped only if memory was refused or the log had failed or fails, and if it fails the log has the deletion of at most the next one. |
| Database.Database.ClearKeyspace | src/database.cpp:223-244 | Walking every chain of every bucket gives all blocks back: the database is coherent and empty and no byte is tracked. |
| Database.PushesReserved | src/database.cpp:778-781 | What `push_texts` reserves covers each of its records, so no later size check or allocation can fail. |
| Database.PairsReserved | src/database.cpp:1125-1127 | What `hash_set_texts` reserves covers each of its records. |
| Database.LaidMoved | src/database.cpp:263-332 | A payload moved to a block it fits has its bytes in that block, and all others stay in theirs. |
| Layouts.SameDecisions | src/database.cpp:334-344 | The sizes and offsets the database chooses for a run are those the list computes in 32 bits. |
| Layouts.PackedChanged | src/database.cpp:943-952 | Changing one field changes the packed size of a hash by the difference of the two values and not its count. |
| Layouts.Measure | src/database.cpp:1092-1097 | Summing over the table gives the size of its packed pairs. |
| Layouts.TextOver | src/database.cpp:417-443 | A text written over what is in a body is the text there, if the body has room. |
| Layouts.PushedRuns | src/database.cpp:698-710 | Writing one packed item just before or behind the run, and nothing else, makes the bytes those of the list with that item at that end. |
| Layouts.PoppedRuns | src/database.cpp:796-816 | With nothing written, the narrower run is the list without the item at that end. |
| Layouts.Peek | src/database.cpp:798-811 | Decoding at the head, or walking back from the end, gives the item at that end and its size. |
| Layouts.SlidRuns | src/database.cpp:646-657 | Moving the run within the body keeps the list, also where the two places overlap. |
| Layouts.SetField | src/database.cpp:943-1031 | Searching the field, and then moving the tail and writing the value or appending the pair, makes the bytes those of the hash with that field set. |
| Layouts.CutField | src/database.cpp:1174-1214 | Searching the field and moving what follows over its pair makes the bytes those of the hash without it. |
| Layouts.FieldOf | src/database.cpp:1146-1162 | Searching the field and decoding behind it is lookup in the hash. |
| Layouts.PackTable | src/database.cpp:1114-1123 | A table written pair by pair, in whatever order, is packed pairs of that table. |
| NodeBytes.BytesDetermine | src/database.hpp:255-318 | The bytes of a body, with where the payload lies and the node's type and count, are those of one payload only. |
| Opening.ReplayInteger | src/database.cpp:1476-1483 | Whatever the key held goes, and a fresh node with the integer and no deadline takes its place, most recently used. |
| Opening.ReplayDeadline | src/database.cpp:1505-1515 | The deadline is the logged instant, or the present if that has passed; a missing key or a bad stamp is refused exactly as the plain replay refuses it, and the node is not touched. |
| Opening.RedoneIsReplayed | src/database.cpp:1471-1521 | The record of a write replays to exactly that write, done with nothing logged and nothing expiring. |
| Opening.ReplayRecord | src/database.cpp:1447-1522 | A record is taken if and only if the plain replay takes it, or memory was refused; taken, the linked structures hold its keyspace, in its order of use, and the log is untouched. |
| Opening.Restore | src/database.cpp:1428-1446 | All records are replayed in order into the linked structures, or the log is refused, exactly when the plain replay refuses it or memory was refused, and nothing is kept. |
| Opening.OpenLog | src/wal.cpp:122-155 | A log opens exactly when recovery accepts it, with its records, without its torn end, promising at least the records in the synced part; a new file gets its header. |
| Opening.OpenWal | src/database.cpp:1428-1446 | Afterwards the database holds what the log says without what has expired, in the order of use the log says; the deletions of the expired keys, by deadline, are the first new records. It fails only if memory was refused or the disk failed, and otherwise exactly when the log cannot be read. |
| Opening.ReopenedIsARun | src/database.cpp:1428-1446 | What any cut of the log of a run restores is itself a run from the same beginning, of the single writes in the cut and the removals, with exactly the reopened log as its records. |
| Opening.Resume | src/database.cpp:1428-1446 | Reopening what a crash left of a run and serving any requests after it: the opening is a run that starts with the single writes of the cut, each request after it has the reply and the events it has to have, and all together are again a run with a log of its own, so this holds through any number of crashes and compactions. |
| Database.KeysAreCounted | src/database.cpp:193-221 | In every coherent state the key counter is the number of stored keys and of keys in the order of use. |
| Nodes.Erased | src/database.cpp:193-203 | Removing one node from all structures removes exactly its key from what they represent. |
| Nodes.Succeeded | src/database.cpp:205-221 | A node replaced by another for the same key represents the keyspace with that one entry changed. |
| Nodes.Relocated | src/database.cpp:263-332 | Renaming a node in every structure represents the same keyspace in the same order of use. |
| Session.Execute | src/resp.cpp:577-653 | Every command, dispatched to its operation, answers as the plain keyspace does or fails as described for `Database.Database.Set`. |
| Session.FailedWriteInvisible | src/database.cpp:110-127 | A write that is refused memory changes no visible value or deadline. The log gains the deletion of the target if and only if that had expired and the memory refused was not for that deletion, and nothing else. |
| Session.FailedIncrement | src/database.cpp:545-588 | In every database where the key has expired and no memory is left for a counter, the increment itself answers that it has none and leaves exactly the deletion of the key in the log. |
| Session.CleanupsRun | src/database.cpp:1269-1296 | An expiry pass is the same as removing its keys one at a time. |
| Session.EvictionsRun | src/database.cpp:391-415 | An eviction pass is the same as deleting its keys one at a time. |
| Session.Handle | src/server.cpp:295-336 | Each request does what it has to. A command replies as the step of the plain keyspace and is the event that took place, unless memory was refused or the log failed, when at most its expired target went. A pass is the removals of exactly the keys its contract names. A batch that ends well in mode always promises everything written. |
| Session.Serve | src/server.cpp:295-336 | Any requests, one after another until the log fails, with any allocation failing anywhere: each has the reply and the events it has to have in the state the earlier ones left, and together they are one run of the plain keyspace, logged in full, or as far as the request in which the log failed let it. |
| Session.AllServed | src/server.cpp:295-336 | A server that is refused no memory and whose disk does not fail answers every request. |
| Session.TurnsFollow | src/server.cpp:295-336 | Requests handled one after another store what the events of all of them store, and log a prefix of what they log that ends no earlier than the last request that succeeded. |
| Session.Survives | src/database.cpp:1428-1446 | From any log that restores some keyspace on: whatever a crash leaves of the file of such a database, its log failed or not, holds every promised record; it reopens if and only if it has no oversized value, and then to the keyspace after that many single writes of the run. |
| Session.WholeFileRestores | src/database.cpp:1428-1446 | From any such log on: the whole file of a log that has not failed reopens to exactly what the database stores, if and only if no call stored an oversized value. |
| Session.AcknowledgedSurvives | src/server.cpp:295-326 | On a server that opened any such log, in mode always: once a batch has ended well and anything was written since the opening, every crash at any later time leaves a file that, if it reopens, gives the keyspace of the end of that batch with a prefix of the later single writes applied to it. |
| Session.AcknowledgedFromScratch | src/server.cpp:295-326 | The same of a server that began with an empty log. |
| Durability.StepKeepsSound | src/server.cpp:295-326 | Every step of the event loop, the maintenance thread or the log's own flusher keeps: outside a batch that defers, everything written is synced or the log has failed, and unsynced replies exist only in the buffer of the batch in progress. |
| Durability.AcknowledgedIsDurable | src/server.cpp:233-326 | In mode always, in every interleaving of client batches, maintenance batches and flushes: if a command wrote a record and then answered, and that answer has been sent, then the record is synced. |
| Durability.SentStandsFor | src/server.cpp:233-326 | Every reply that was sent is that of exactly one answer, as the steps of the run tell. |
| Durability.HandedInOrder | src/server.cpp:233-326 | A client is sent its answers in order, each at most once. |
| Durability.WriteIsAcknowledged | src/server.cpp:295-326 | Every run that reaches a point where the event loop may start goes on to one in which a command has written, answered and been sent its answer. |
| Durability.RemovalIsSynced | src/server.cpp:407-435 | A removal by the maintenance thread goes through between batches and is synced when it ends. |
| Durability.FailureIsFinal | src/wal.cpp:215-279 | In every run, after a log failure no record is ever appended or synced again, and each later attempt makes its command throw. |
| Durability.FailedBatchStops | src/server.cpp:318-326 | In every run, a write batch that ends with the log failed stops the server for good, and no reply is sent from then on. |
| DurableLog.Append | src/wal.cpp:215-249 | In mode always the log itself takes exactly the append step that the protocol of the two threads assumes, or none. |
| DurableLog.EndBatch | src/wal.cpp:290-295 | It takes exactly the step by which a batch ends, and succeeds exactly when the log has not failed. |
| DurableLog.Flush | src/wal.cpp:256-279 | The flush of the log's own thread is exactly the step that the protocol assumes, and succeeds exactly when the log has not failed. |
| Handshake.StepKeepsSound | src/server.cpp:328-335 | Every step of either thread keeps the mutex discipline and the condition under which the event loop may sleep. |
| Handshake.ReturnsWithinCapacity | src/server.cpp:328-335 | In every run `execute_batch` returns normally only with at most `max_keys` keys, at once if there are no more, and after a wait throws exactly if maintenance failed. |
| Handshake.NoLostWakeUp | src/server.cpp:328-335 | In every run, while the event loop sleeps although its condition holds, the maintenance thread has yet to notify it. |
| Handshake.RoomIsMade | src/server.cpp:328-335 | Whatever the limit, there is a run in which the event loop sleeps over capacity, the maintenance thread evicts exactly the excess and wakes it, and it returns. |
| Handshake.FailureIsTold | src/server.cpp:328-335 | There is a run in which maintenance fails while the event loop sleeps, wakes it, and it throws. |
| Handshake.WorkerMakesProgress | src/server.cpp:407-435 | While the event loop sleeps over capacity, no step raises the excess, each step of the maintenance thread lowers it or brings the next eviction nearer, an expiry takes as many keys as it removed, and an eviction lowers it by exactly the slice or all of it. |
| Handshake.WaitIsBounded | src/server.cpp:407-435 | In every run, while the event loop waits over capacity, the maintenance thread takes at most twelve steps for each slice of the excess at the start of the wait. |
| Handshake.SleepIsShort | src/server.cpp:407-435 | In every run the event loop sleeps through at most nine steps of the maintenance thread at a time while it is over capacity. |
| Handshake.WorkerCanMove | src/server.cpp:407-435 | While the event loop sleeps the maintenance thread always has a step to take. |
| Handshake.WorkerMayMissItsNotification | src/server.cpp:328-331 | There is a run in which the event loop's own notification comes before the maintenance thread waits, so that only the time limit or a spurious wake-up ends that wait. |
| Handshake.MissedExactlyWhenSettling | src/server.cpp:328-331 | In every run in which the event loop goes on waiting over capacity after its notification, the worker comes to wait on its timer if and only if it had decided to wait, but was not yet waiting, when the notification came, and takes a step. |
| Handshake.OnlyTimeEndsIt | src/server.cpp:407-435 | While the event loop waits over capacity, only the time limit or a spurious wake-up ends such a wait. |

## Left out

- Sockets, polling, accepting connections, file locks and the Windows branches: calls into the operating system.
- `INFO`, statistics, error texts, option parsing and the formatting of replies into the output buffer.
- `classify_command`: a table from names to identifiers, which would only add easy members.
- Views of command arguments that alias the memory of a node.
- A database without a log.
- `compact_wal` as a request of `Session.Serve`: `CompactWal.Compact` is a call of its own, and the runs before and after it are joined by the log it leaves.
- The pointers of the slab pool's free lists and chunk list: the pool keeps them as sequences.
- Database.Database.Set: the first eight bytes of a list's body, the count fields and the key in front of a body are fields of the model, not bytes.
- PackedList.ListNode.Reserve: whether memory is granted is left open there; inside the database it is the pool that decides.
- Session.Execute: starts from an operation; command names, argument counts and the loop of `DEL` over several keys are left out.
- CompactWal.WriteValue: works on the value of a node; `CompactNodes` has the walks over its bytes.
- Opening.ReplayDeadline: requires that the sum of the present and the time that is left does not leave 64 bits; in the source that sum would overflow, and nothing is defined then.
- Opening.ReplayRecord: requires the same of a record that sets a deadline.
- Opening.Restore: requires the same of all records.
- Opening.OpenWal: requires the same of the records in the file; those of every run meet it (`CrashRecovery.RunStampable`), so `Opening.Resume` does not ask for it.
- Client.Execute: says nothing about replies that are malformed or beyond the limits.
- Handshake.WaitIsBounded: counts steps of the maintenance thread, not time; the scheduler is assumed to let it take them.
- Stopping the server: the stop request reaches the maintenance thread only after the event loop has ended.
