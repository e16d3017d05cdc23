/**
  * The log on the bytes: the fields of a frame, which files are accepted and which end is torn, what each
  * command writes and which records are accepted on the way back. Everything is spelled out in numbers, so
  * that it can be held against files. Source: src/wal.hpp:24-37, src/wal.cpp:69-119 and 215-241,
  * src/database.cpp:1447-1522.
  */
module LogFormat {
  import opened Bytes
  import opened Pack
  import opened Wal
  import opened Keyspace
  import opened Recovery
  import Crc

  /** Four bytes, the least significant first. */
  function Little(s: Bytes, at: nat): (n: nat)
    requires at + 4 <= |s|
  {
    s[at] as nat + 256 * s[at + 1] as nat + 65536 * s[at + 2] as nat + 16777216 * s[at + 3] as nat
  }

  lemma LittleIsGet(s: Bytes, at: nat)
    requires at + 4 <= |s|
    ensures Get32(s[at..at + 4]) == Little(s, at)
  {
  }

  // ---------- frames ----------

  /** Length, checksum, operation, number of arguments. */
  lemma FrameFields(r: Record)
    requires Fits(r)
    ensures var f := Frame(r);
            && |f| >= 10 && Little(f, 0) == |f| - 8 && Little(f, 4) == Crc.WordOf(Crc.Checksum(f[8..]))
            && f[8] == r.op && f[9] as nat == |r.args|
  {
    hide Put32, Get32, Crc.Checksum, Crc.WordOf, ArgsBytes;
    var f, p := Frame(r), Payload(r);
    assert f[0..4] == Put32(|p|) && f[4..8] == Put32(Crc.WordOf(Crc.Checksum(p))) && f[8..] == p;
    LittleIsGet(f, 0);
    LittleIsGet(f, 4);
    assert f[8] == p[0] && f[9] == p[1];
  }

  /** Each argument stands after its length, one behind the other. */
  lemma {:induction false} ArgumentFields(args: seq<Bytes>, i: nat)
    requires ArgsSize(args) <= MAX_RECORD && i < |args|
    ensures var s, at := ArgsBytes(args), ArgsSize(args[..i]);
            && at + 4 + |args[i]| <= |s| && Little(s, at) == |args[i]| && s[at + 4..at + 4 + |args[i]|] == args[i]
            && ArgsSize(args[..i + 1]) == at + 4 + |args[i]|
    decreases |args|
  {
    hide Put32, Get32, ArgsBytes, ArgsSize, Little;
    var s, first := ArgsBytes(args), args[0];
    FirstArgument(args);
    SizeOfFirst(args[..i + 1]);
    if i == 0 {
      assert args[..0] == [] && args[..1][1..] == [];
      NoArguments();
    } else {
      ArgumentFields(args[1..], i - 1);
      SizeOfFirst(args[..i]);
      assert args[..i][1..] == args[1..][..i - 1] && args[..i + 1][1..] == args[1..][..i];
      Further(s, 4 + |first|, ArgsSize(args[1..][..i - 1]), |args[i]|);
    }
  }

  lemma FirstArgument(args: seq<Bytes>)
    requires ArgsSize(args) <= MAX_RECORD && args != []
    ensures var s, n := ArgsBytes(args), |args[0]|;
            && ArgsSize(args[1..]) <= MAX_RECORD && 4 + n <= |s| && Little(s, 0) == n && s[4..4 + n] == args[0]
            && s[4 + n..] == ArgsBytes(args[1..])
  {
    hide Put32, Get32, Little;
    var s := ArgsBytes(args);
    assert s[0..4] == Put32(|args[0]|);
    LittleIsGet(s, 0);
  }

  lemma SizeOfFirst(args: seq<Bytes>)
    requires args != []
    ensures ArgsSize(args) == 4 + |args[0]| + ArgsSize(args[1..])
  {
  }

  lemma NoArguments()
    ensures ArgsSize([]) == 0
  {
  }

  lemma Further(s: Bytes, from: nat, at: nat, n: nat)
    requires from + at + 4 + n <= |s|
    ensures Little(s[from..], at) == Little(s, from + at)
    ensures s[from..][at + 4..at + 4 + n] == s[from + at + 4..from + at + 4 + n]
  {
  }

  // ---------- files ----------

  /** What may follow the last whole record: the beginning of one. */
  predicate Torn(tail: Bytes)
  {
    |tail| < 8 || (2 <= Little(tail, 0) <= 134_217_728 && |tail| < 8 + Little(tail, 0))
  }

  lemma TornIsEnd(tail: Bytes)
    ensures ReadHead(tail).End? <==> Torn(tail)
    ensures ReadHead(tail).End? ==> Scan(tail) == Scanned([], 0, tail != [])
  {
    hide Get32, Crc.Checksum, Crc.WordOf, DecodePayload;
    if |tail| >= 8 {
      LittleIsGet(tail, 0);
      assert tail[0..4] == tail[..4];
    }
  }

  /** A file of this log: "RDWAL001", whole records, and nothing or the beginning of one more. */
  ghost predicate LogOf(file: Bytes, rs: seq<Record>)
  {
    if file == [] then rs == []
    else AllFit(rs) && exists tail :: Torn(tail) && file == [82, 68, 87, 65, 76, 48, 48, 49] + Frames(rs) + tail
  }

  lemma {:induction false} ScannedTail(s: Bytes)
    requires Scan(s).Scanned?
    ensures Scan(s).length <= |s| && Torn(s[Scan(s).length..])
    decreases |s|
  {
    hide ReadHead, Scan;
    ScanStep(s);
    match ReadHead(s) {
      case End(_) =>
        TornIsEnd(s);
        assert s[0..] == s;
      case Intact(record, length) =>
        IntactFits(s);
        ScannedTail(s[length..]);
        assert s[length..][Scan(s[length..]).length..] == s[length + Scan(s[length..]).length..];
    }
  }

  lemma IntactFits(s: Bytes)
    ensures ReadHead(s).Intact? ==> 10 <= ReadHead(s).length <= |s|
  {
  }

  /** A file is accepted, with these records, exactly if it is a file of that log. */
  lemma RecoversExactly(file: Bytes, rs: seq<Record>)
    ensures Recovered(file).Scanned? && Recovered(file).records == rs <==> LogOf(file, rs)
  {
    hide Scan, Frames, Fits, Torn;
    if Recovered(file).Scanned? && Recovered(file).records == rs && file != [] {
      LogOfRecovered(file);
      var s := Scan(file[8..]);
      ScannedTail(file[8..]);
      var tail := file[8..][s.length..];
      assert file == file[..8 + s.length] + file[8 + s.length..] && tail == file[8 + s.length..];
      assert Torn(tail);
    }
    if LogOf(file, rs) && file != [] {
      var tail :| Torn(tail) && file == [82, 68, 87, 65, 76, 48, 48, 49] + Frames(rs) + tail;
      var after := Frames(rs) + tail;
      assert file == MAGIC + after;
      assert file[..8] == MAGIC && file[8..] == after;
      ScanPrefix(rs, tail);
      TornIsEnd(tail);
      assert rs + [] == rs && [] + rs == rs;
    }
  }

  // ---------- what each command writes ----------

  function Tagged(item: Element): (args: seq<Bytes>)
  {
    if item.Number? then [[105], ToDecimal(item.number)] else [[115], item.text]
  }

  /** The record of a single write that has an effect. */
  function RecordOf(op: Op, c: Clock): (rs: seq<Record>)
  {
    match op
    case Set(key, text) => [Record(0, [key, text])]
    case Incr(key) => [Record(1, [key])]
    case Push(key, item, front) => [Record(if front then 2 else 3, [key] + Tagged(item))]
    case Pop(key, front) => [Record(if front then 4 else 5, [key])]
    case HSet(key, field, item) => [Record(6, [key, field] + Tagged(item))]
    case HDel(key, field) => [Record(7, [key, field])]
    case Expire(key, seconds) =>
      if seconds <= 0 then [Record(9, [key])] else [Record(8, [key, ToDecimal(c.now + c.offset + 1000 * seconds)])]
    case Del(key) => [Record(9, [key])]
    case Evict(key) => [Record(9, [key])]
    case _ => []
  }

  /** The reply tells that something was done. */
  predicate Did(op: Op, reply: Reply)
  {
    match op
    case Pop(_, _) => reply.Item?
    case HDel(_, _) => reply == Amount(1)
    case Expire(_, _) => reply == Amount(1)
    case Del(_) => reply == Amount(1)
    case Evict(_) => reply == Amount(1)
    case _ => reply == Done || reply.Amount?
  }

  /** A single write logs its record exactly if it replies that it did something, after the deletion of an expired target. */
  lemma WritesExactly(ks: Ks, op: Op, c: Clock)
    requires !IsRead(op) && !op.PushTexts? && !op.HSetTexts? && !op.Cleanup?
    ensures var r := Step(ks, op, c);
            r.records == (if Refused(op).None? && !op.Evict? && Expired(ks, op.key, c.now) then [Record(9, [op.key])] else [])
                         + if Did(op, r.reply) then RecordOf(op, c) else []
  {
    hide ToDecimal, UsedBytes, Fits, BodySize, ParseSigned, PushItems;
    TaggedItem(op);
  }

  lemma TaggedItem(op: Op)
    ensures op.Push? ==> [op.key] + Tagged(op.item) == [op.key, ItemTag(op.item), ItemText(op.item)]
    ensures op.HSet? ==> [op.key, op.field] + Tagged(op.item) == [op.key, op.field, ItemTag(op.item), ItemText(op.item)]
  {
    hide ToDecimal;
  }

  // ---------- what is accepted on the way back ----------

  predicate IsItem(tag: Bytes, text: Bytes) { tag == [115] || (tag == [105] && ParseSigned(text).Some?) }

  /** The bytes of an item in a list, and in a hash. */
  function ItemBytes(tag: Bytes, text: Bytes): (n: nat)
  {
    if tag == [105] then 9 else |text| + if |text| <= 127 then 1 else 5
  }

  predicate Countable(v: Value)
  {
    || (v.Int? && v.number < 0x7FFF_FFFF_FFFF_FFFF)
    || (v.Str? && ParseSigned(v.text).Some? && ParseSigned(v.text).value < 0x7FFF_FFFF_FFFF_FFFF)
  }

  predicate Acceptable(ks: Ks, r: Record)
  {
    var a := r.args;
    && 1 <= |a| && |a[0]| <= 2_097_151
    && var there := a[0] in ks;
    match r.op
    case 0 => |a| == 2 && |a[1]| <= 67_108_864
    case 1 => |a| == 1 && (there ==> Countable(ks[a[0]].value))
    case 4 => |a| == 1 && (there ==> ks[a[0]].value.List?)
    case 5 => |a| == 1 && (there ==> ks[a[0]].value.List?)
    case 7 => |a| == 2 && (there ==> ks[a[0]].value.Hash?)
    case 8 => |a| == 2 && there && ParseSigned(a[1]).Some? && ParseSigned(a[1]).value >= 0
    case 9 => |a| == 1
    case 10 => |a| == 2 && ParseSigned(a[1]).Some?
    case 6 =>
      && |a| == 4 && (there ==> ks[a[0]].value.Hash?) && IsItem(a[2], a[3])
      && |a[1]| <= 67_108_864 && ItemBytes(a[2], a[3]) <= 67_108_864
    case _ =>
      && (r.op == 2 || r.op == 3) && |a| == 3 && (there ==> ks[a[0]].value.List?) && IsItem(a[1], a[2])
      && var n := ItemBytes(a[1], a[2]);
         (if there then UsedBytes(ks[a[0]].value.items) else 0) + n + BacklenBytes(n) <= 67_108_864
  }

  /** A record is replayed exactly if it is acceptable; one that is not makes the whole log unreadable. */
  lemma AcceptsExactly(ks: Ks, r: Record, c: Clock)
    ensures Replay(ks, r, c).Some? <==> Acceptable(ks, r)
  {
    hide ParseSigned, UsedBytes, BacklenBytes, ToDecimal, HSetRecord, PushRecords, PushItems;
    if r.op in {2, 3} && |r.args| == 3 && IsItem(r.args[1], r.args[2]) {
      OneUsed(ParseItem(r.args[1], r.args[2]).value);
    }
  }

  lemma OneUsed(e: Element)
    ensures UsedBytes([e]) == EncodedSize(e) && UsedBytes([]) == 0
  {
    assert [e][1..] == [];
  }
}
