/** Record framing, recovery and the write-ahead log itself, src/wal.cpp. */
module Wal {
  import opened Bytes
  import Crc

  const MAX_RECORD: nat := 128 * 1024 * 1024

  /** "RDWAL001" */
  const MAGIC: Bytes := [82, 68, 87, 65, 76, 48, 48, 49]

  datatype Record = Record(op: Byte, args: seq<Bytes>)

  // ---------- what is written ----------

  function ArgsSize(args: seq<Bytes>): (n: nat)
  {
    if args == [] then 0 else 4 + |args[0]| + ArgsSize(args[1..])
  }

  /** Exactly the records `append` does not refuse as too large. */
  predicate Fits(r: Record)
  {
    |r.args| <= 255 && 2 + ArgsSize(r.args) <= MAX_RECORD
  }

  function ArgsBytes(args: seq<Bytes>): (s: Bytes)
    requires ArgsSize(args) <= MAX_RECORD
    ensures |s| == ArgsSize(args)
  {
    if args == [] then [] else Put32(|args[0]|) + args[0] + ArgsBytes(args[1..])
  }

  function Payload(r: Record): (s: Bytes)
    requires Fits(r)
    ensures 2 <= |s| == 2 + ArgsSize(r.args) <= MAX_RECORD
  {
    [r.op, |r.args|] + ArgsBytes(r.args)
  }

  function Frame(r: Record): (s: Bytes)
    requires Fits(r)
    ensures |s| == 10 + ArgsSize(r.args)
  {
    Put32(|Payload(r)|) + Put32(Crc.WordOf(Crc.Checksum(Payload(r)))) + Payload(r)
  }

  predicate AllFit(rs: seq<Record>) { forall i :: 0 <= i < |rs| ==> Fits(rs[i]) }

  function Frames(rs: seq<Record>): (s: Bytes)
    requires AllFit(rs)
  {
    if rs == [] then [] else Frame(rs[0]) + Frames(rs[1..])
  }

  /** The whole file of a log holding the records `rs`. */
  function Log(rs: seq<Record>): (s: Bytes)
    requires AllFit(rs)
  {
    MAGIC + Frames(rs)
  }

  lemma {:induction false} FramesConcat(a: seq<Record>, b: seq<Record>)
    requires AllFit(a) && AllFit(b)
    ensures AllFit(a + b) && Frames(a + b) == Frames(a) + Frames(b)
  {
    hide Frame;
    if a == [] {
      assert a + b == b;
    } else {
      FramesConcat(a[1..], b);
      assert (a + b)[1..] == a[1..] + b;
    }
  }

  lemma LogAppend(rs: seq<Record>, r: Record)
    requires AllFit(rs) && Fits(r)
    ensures Log(rs + [r]) == Log(rs) + Frame(r)
  {
    hide Frame;
    FramesConcat(rs, [r]);
    FramesOne(r);
  }

  // ---------- what recovery reads ----------

  function DecodeArgs(s: Bytes, argc: nat): (r: Option<seq<Bytes>>)
    ensures r.Some? ==> |r.value| == argc
    decreases argc
  {
    if argc == 0 then (if s == [] then Some([]) else None)
    else if |s| < 4 || Get32(s[..4]) > |s| - 4 then None
    else
      var n := Get32(s[..4]);
      match DecodeArgs(s[4 + n..], argc - 1)
      case None => None
      case Some(rest) => Some([s[4..4 + n]] + rest)
  }

  function DecodePayload(s: Bytes): (r: Option<Record>)
    requires |s| >= 2
  {
    match DecodeArgs(s[2..], s[1])
    case None => None
    case Some(args) => Some(Record(s[0], args))
  }

  /** `length` counts the bytes of the complete records, `torn` says that something follows them. */
  datatype Scanned = Rejected | Scanned(records: seq<Record>, length: nat, torn: bool)

  function After(rs: seq<Record>, length: nat, s: Scanned): (r: Scanned)
  {
    match s
    case Rejected => Rejected
    case Scanned(records, more, torn) => Scanned(rs + records, length + more, torn)
  }

  /** One complete, intact record at the start of `s`: the record and its frame length. */
  datatype Head = End(torn: bool) | Damaged | Intact(record: Record, length: nat)

  function ReadHead(s: Bytes): (h: Head)
    ensures h.Intact? ==> 10 <= h.length <= |s|
    ensures |s| < 8 ==> h == End(s != [])
  {
    if |s| < 8 then End(s != [])
    else
      var size := Get32(s[..4]);
      if size < 2 || size > MAX_RECORD then Damaged
      else if |s| - 8 < size then End(true)
      else
        var payload := s[8..8 + size];
        if Crc.WordOf(Crc.Checksum(payload)) != Get32(s[4..8]) then Damaged
        else
          match DecodePayload(payload)
          case None => Damaged
          case Some(r) => Intact(r, 8 + size)
  }

  function Scan(s: Bytes): (r: Scanned)
    ensures r.Scanned? ==> r.length <= |s| && (r.torn <==> r.length < |s|)
  {
    match ReadHead(s)
    case End(torn) => Scanned([], 0, torn)
    case Damaged => Rejected
    case Intact(record, length) => After([record], length, Scan(s[length..]))
  }

  /** What opening a file makes of its bytes. */
  function Recovered(file: Bytes): (r: Scanned)
  {
    if file == [] then Scanned([], 0, false)
    else if |file| < 8 || file[..8] != MAGIC then Rejected
    else After([], 8, Scan(file[8..]))
  }

  // ---------- recovery undoes framing ----------

  lemma {:induction false} DecodeArgsBytes(args: seq<Bytes>)
    requires ArgsSize(args) <= MAX_RECORD
    ensures DecodeArgs(ArgsBytes(args), |args|) == Some(args)
  {
    hide Put32, Get32;
    if args != [] {
      DecodeArgsBytes(args[1..]);
      var s := ArgsBytes(args);
      assert s[..4] == Put32(|args[0]|);
      assert s[4..4 + |args[0]|] == args[0];
      assert s[4 + |args[0]|..] == ArgsBytes(args[1..]);
      assert args == [args[0]] + args[1..];
    }
  }

  lemma ReadHeadFrame(r: Record, rest: Bytes)
    requires Fits(r)
    ensures ReadHead(Frame(r) + rest) == Intact(r, |Frame(r)|)
  {
    hide Put32, Get32, Crc.Checksum, Crc.WordOf;
    var s := Frame(r) + rest;
    var p := Payload(r);
    assert s[..4] == Put32(|p|);
    assert s[4..8] == Put32(Crc.WordOf(Crc.Checksum(p)));
    assert s[8..8 + |p|] == p;
    assert p[2..] == ArgsBytes(r.args);
    DecodeArgsBytes(r.args);
  }

  lemma ReadHeadCut(r: Record, n: nat)
    requires Fits(r) && n < |Frame(r)|
    ensures ReadHead(Frame(r)[..n]) == End(n > 0)
  {
    if n >= 8 {
      assert Frame(r)[..n][..4] == Put32(|Payload(r)|);
    }
  }

  /** How many whole frames lie in the first `n` bytes. */
  function Whole(rs: seq<Record>, n: nat): (k: nat)
    requires AllFit(rs)
    ensures k <= |rs|
  {
    if rs == [] || n < |Frame(rs[0])| then 0 else 1 + Whole(rs[1..], n - |Frame(rs[0])|)
  }

  lemma {:induction false} WholeBounds(rs: seq<Record>, n: nat)
    requires AllFit(rs)
    ensures var k := Whole(rs, n);
            |Frames(rs[..k])| <= n && (k < |rs| ==> n < |Frames(rs[..k])| + |Frame(rs[k])|)
  {
    hide Frame;
    if rs != [] && n >= |Frame(rs[0])| {
      var k := Whole(rs, n);
      WholeBounds(rs[1..], n - |Frame(rs[0])|);
      assert rs[..k][1..] == rs[1..][..k - 1];
    }
  }

  lemma FramesSplit(rs: seq<Record>, k: nat)
    requires AllFit(rs) && k <= |rs|
    ensures Frames(rs) == Frames(rs[..k]) + Frames(rs[k..])
  {
    hide Fits, Frame, Frames;
    assert rs == rs[..k] + rs[k..];
    FramesConcat(rs[..k], rs[k..]);
  }

  lemma FramesUpTo(rs: seq<Record>, k: nat)
    requires AllFit(rs) && k < |rs|
    ensures Frames(rs[..k + 1]) == Frames(rs[..k]) + Frame(rs[k])
  {
    hide Fits, Frame, Frames;
    assert rs[..k + 1] == rs[..k] + [rs[k]];
    FramesConcat(rs[..k], [rs[k]]);
    FramesOne(rs[k]);
  }

  lemma FramesOne(r: Record)
    requires Fits(r)
    ensures Frames([r]) == Frame(r)
  {
    hide Frame;
    assert Frames([r]) == Frame(r) + Frames([]);
  }

  lemma ScanCut(rs: seq<Record>, n: nat)
    requires AllFit(rs) && n <= |Frames(rs)|
    ensures var k := Whole(rs, n);
            Scan(Frames(rs)[..n]) == Scanned(rs[..k], |Frames(rs[..k])|, |Frames(rs[..k])| < n)
  {
    hide Frame, Frames, ReadHead, Whole;
    var k := Whole(rs, n);
    var done := Frames(rs[..k]);
    WholeBounds(rs, n);
    FramesSplit(rs, k);
    if k < |rs| {
      FramesHead(rs[k..]);
    }
    var rest := Frames(rs)[..n][|done|..];
    assert Frames(rs)[..n] == done + rest;
    ScanPrefix(rs[..k], rest);
    if k < |rs| {
      assert rest == Frame(rs[k])[..n - |done|];
      ReadHeadCut(rs[k], n - |done|);
    } else {
      assert rs[k..] == [];
      FramesEmpty();
      assert rest == [];
    }
    assert Scan(rest) == Scanned([], 0, |done| < n);
  }

  lemma FramesHead(rs: seq<Record>)
    requires AllFit(rs) && rs != []
    ensures Frame(rs[0]) <= Frames(rs)
  {
    hide Frame;
  }

  lemma FramesEmpty()
    ensures Frames([]) == []
  {
  }

  /**
    * Cut a log anywhere at or after its header: recovery accepts it, returns exactly the records
    * that are wholly there, and the repaired file is the log of those records.
    */
  lemma CutRecovers(rs: seq<Record>, n: nat)
    requires AllFit(rs) && 8 <= n <= |Log(rs)|
    ensures var k := Whole(rs, n - 8);
            && |Log(rs[..k])| <= n
            && (k < |rs| ==> n < |Log(rs[..k + 1])|)
            && Log(rs)[..|Log(rs[..k])|] == Log(rs[..k])
            && Recovered(Log(rs)[..n]) == Scanned(rs[..k], |Log(rs[..k])|, |Log(rs[..k])| < n)
  {
    hide Frames, Frame, Scan, Whole;
    var k := Whole(rs, n - 8);
    ScanCut(rs, n - 8);
    WholeBounds(rs, n - 8);
    FramesSplit(rs, k);
    if k < |rs| {
      FramesUpTo(rs, k);
    }
    assert Log(rs)[..n][8..] == Frames(rs)[..n - 8];
    assert Log(rs)[..|Log(rs[..k])|] == MAGIC + Frames(rs[..k]);
  }

  lemma WholeLogRecovers(rs: seq<Record>)
    requires AllFit(rs)
    ensures Recovered(Log(rs)) == Scanned(rs, |Log(rs)|, false)
  {
    hide Frames, Frame, Scan;
    CutRecovers(rs, |Log(rs)|);
    assert Log(rs)[..|Log(rs)|] == Log(rs);
    WholeOfAll(rs);
    assert rs[..|rs|] == rs;
  }

  lemma {:induction false} WholeOfAll(rs: seq<Record>)
    requires AllFit(rs)
    ensures Whole(rs, |Frames(rs)|) == |rs|
  {
    hide Frame;
    if rs != [] {
      WholeOfAll(rs[1..]);
    }
  }

  // ---------- and framing undoes recovery ----------

  lemma {:induction false} ArgsOfDecoded(s: Bytes, argc: nat)
    requires DecodeArgs(s, argc).Some? && |s| <= MAX_RECORD
    ensures ArgsSize(DecodeArgs(s, argc).value) == |s| && ArgsBytes(DecodeArgs(s, argc).value) == s
    decreases argc
  {
    hide Put32, Get32;
    if argc > 0 {
      var n := Get32(s[..4]);
      ArgsOfDecoded(s[4 + n..], argc - 1);
      PutOfGet(s[..4]);
      assert DecodeArgs(s, argc).value[1..] == DecodeArgs(s[4 + n..], argc - 1).value;
      assert s == s[..4] + s[4..4 + n] + s[4 + n..];
    }
  }

  lemma FrameOfIntact(s: Bytes)
    requires ReadHead(s).Intact?
    ensures Fits(ReadHead(s).record) && s[..ReadHead(s).length] == Frame(ReadHead(s).record)
  {
    hide Put32, Get32, Crc.Checksum, Crc.WordOf, ArgsBytes, DecodeArgs;
    var size := Get32(s[..4]);
    var payload := s[8..8 + size];
    ArgsOfDecoded(payload[2..], payload[1]);
    var r := ReadHead(s).record;
    assert Payload(r) == payload;
    PutOfGet(s[..4]);
    PutOfGet(s[4..8]);
    assert s[..8 + size] == s[..4] + s[4..8] + payload;
  }

  lemma {:induction false} FramesOfScanned(s: Bytes)
    requires Scan(s).Scanned?
    ensures AllFit(Scan(s).records) && s[..Scan(s).length] == Frames(Scan(s).records)
    decreases |s|
  {
    hide ReadHead, Frame, Fits, Scan, Frames;
    ScanStep(s);
    match ReadHead(s) {
      case End(_) => FramesNone();
      case Intact(record, length) =>
        FrameOfIntact(s);
        var rest := s[length..];
        FramesOfScanned(rest);
        FramesConcat([record], Scan(rest).records);
        FramesOne(record);
        TakeBoth(s, length, Scan(rest).length);
    }
  }

  lemma ScanStep(s: Bytes)
    requires Scan(s).Scanned?
    ensures var h := ReadHead(s);
            && !h.Damaged?
            && (h.End? ==> Scan(s) == Scanned([], 0, h.torn))
            && (h.Intact? ==> Scan(s) == After([h.record], h.length, Scan(s[h.length..])))
  {
  }

  lemma TakeBoth(s: Bytes, a: nat, b: nat)
    requires a + b <= |s|
    ensures s[..a + b] == s[..a] + s[a..][..b]
  {
  }

  lemma FramesNone()
    ensures Frames([]) == []
  {
  }

  /** Whatever recovery accepts is, up to the torn part, the log of exactly the records it finds. */
  lemma LogOfRecovered(file: Bytes)
    requires Recovered(file).Scanned? && file != []
    ensures AllFit(Recovered(file).records) && file[..Recovered(file).length] == Log(Recovered(file).records)
  {
    hide Scan, Frames, Fits;
    FramesOfScanned(file[8..]);
    var s := Scan(file[8..]);
    assert Recovered(file).records == s.records;
    assert file[..8 + s.length] == file[..8] + file[8..][..s.length];
  }

  /** A cut is refused exactly when it falls inside the eight header bytes. */
  lemma CutRejectedExactlyInHeader(rs: seq<Record>, n: nat)
    requires AllFit(rs) && n <= |Log(rs)|
    ensures Recovered(Log(rs)[..n]).Rejected? <==> 0 < n < 8
  {
    if n >= 8 {
      CutRecovers(rs, n);
    }
  }

  /** Changing one payload byte of any complete record makes recovery refuse the log. */
  lemma DamagedPayloadRejected(before: seq<Record>, r: Record, after: Bytes, i: nat, b: Byte)
    requires AllFit(before) && Fits(r) && i < |Payload(r)| && b != Payload(r)[i]
    ensures var clean := Log(before) + Frame(r) + after;
            Recovered(clean[|Log(before)| + 8 + i := b]).Rejected?
  {
    hide Frame, Frames, ReadHead, Payload;
    var damaged := Frame(r)[8 + i := b] + after;
    var clean := Log(before) + Frame(r) + after;
    assert clean[|Log(before)| + 8 + i := b] == MAGIC + (Frames(before) + damaged);
    DamagedHead(r, after, i, b);
    ScanPrefix(before, damaged);
    assert (MAGIC + (Frames(before) + damaged))[8..] == Frames(before) + damaged;
  }

  lemma DamagedHead(r: Record, after: Bytes, i: nat, b: Byte)
    requires Fits(r) && i < |Payload(r)| && b != Payload(r)[i]
    ensures ReadHead(Frame(r)[8 + i := b] + after).Damaged?
  {
    hide Payload, Put32, Get32, Crc.Checksum, Crc.WordOf;
    var damaged := Frame(r)[8 + i := b] + after;
    var p := Payload(r);
    assert damaged[..4] == Put32(|p|);
    assert damaged[4..8] == Put32(Crc.WordOf(Crc.Checksum(p)));
    assert damaged[8..8 + |p|] == p[i := b];
    Crc.OneByteDetected(p, p[i := b], i);
    if Crc.WordOf(Crc.Checksum(p)) == Crc.WordOf(Crc.Checksum(p[i := b])) {
      Crc.WordOfInjective(Crc.Checksum(p), Crc.Checksum(p[i := b]));
    }
  }

  lemma {:induction false} ScanPrefix(rs: seq<Record>, rest: Bytes)
    requires AllFit(rs)
    ensures Scan(Frames(rs) + rest) == After(rs, |Frames(rs)|, Scan(rest))
  {
    hide Frame, ReadHead;
    if rs == [] {
      assert Frames(rs) + rest == rest;
    } else {
      var tail := Frames(rs[1..]) + rest;
      ScanPrefix(rs[1..], rest);
      assert Frames(rs) + rest == Frame(rs[0]) + tail;
      ReadHeadFrame(rs[0], tail);
      assert (Frame(rs[0]) + tail)[|Frame(rs[0])|..] == tail;
      assert rs == [rs[0]] + rs[1..];
    }
  }
}
