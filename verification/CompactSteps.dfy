/** The file switch of `Wal::compact` as steps that may each fail or be cut off by a crash, src/wal.cpp:256-361. */
module CompactSteps {
  import opened Bytes
  import opened Wal
  import opened Keyspace
  import opened Recovery
  import opened CrashRecovery
  import opened Compaction
  import opened LogFile

  /** The steps, in order; `Aborted` remembers which of them threw. */
  datatype Pc =
    | Create | Write | SyncNew | Verify | FlushOld | CloseOld | Rename | SyncDirectory | OpenNew
    | Finished | Aborted(at: Pc)

  datatype Handle = OldOpen | Closed | NewOpen

  /** What is on the disk and in the log object. A file is its bytes and how many of them are synced. */
  datatype State = State(
    pc: Pc,
    prior: Bytes, oldSynced: nat,
    temp: Bytes, tempSynced: nat,
    renamed: bool,          // the path now names the new file
    renameDurable: bool,    // and the directory says so on the disk
    failed: bool,
    handle: Handle)

  /** What the operating system does next: the call succeeds, fails, or writes `n` more bytes of the new log. */
  datatype Answer = Succeeds | Fails | Writes(n: nat)

  predicate Switching(pc: Pc) { pc == CloseOld || pc == Rename || pc == SyncDirectory || pc == OpenNew }

  /** The catch block: only a failure while switching marks the log as failed. */
  function Abort(s: State): (r: State)
  {
    s.(pc := Aborted(s.pc), failed := s.failed || Switching(s.pc))
  }

  /** One step of compaction towards the log `target`. */
  function Step(s: State, a: Answer, target: Bytes, mode: SyncMode): (r: State)
  {
    match s.pc
    case Create =>
      if a.Succeeds? && |target| >= 8 then s.(pc := Write, temp := target[..8], tempSynced := 8) else Abort(s)
    case Write =>
      if a.Fails? then Abort(s)
      else if |s.temp| >= |target| then s.(pc := SyncNew)
      else
        var n := if a.Writes? && |s.temp| + a.n < |target| then |s.temp| + a.n else |target|;
        s.(temp := target[..n])
    case SyncNew => if a.Fails? then Abort(s) else s.(pc := Verify, tempSynced := |s.temp|)
    case Verify =>
      var scan := Recovered(s.temp);
      if a.Fails? || scan.Rejected? || scan.length != |s.temp| then Abort(s) else s.(pc := FlushOld)
    case FlushOld =>
      if a.Fails? then Abort(s.(failed := true))
      else s.(pc := CloseOld, oldSynced := if mode == NoSync then s.oldSynced else |s.prior|)
    case CloseOld => if a.Fails? then Abort(s.(handle := Closed)) else s.(pc := Rename, handle := Closed)
    case Rename => if a.Fails? then Abort(s) else s.(pc := SyncDirectory, renamed := true)
    case SyncDirectory => if a.Fails? then Abort(s) else s.(pc := OpenNew, renameDurable := true)
    case OpenNew => if a.Fails? then Abort(s) else s.(pc := Finished, handle := NewOpen)
    case Finished => s
    case Aborted(_) => s
  }

  function Steps(s: State, answers: seq<Answer>, target: Bytes, mode: SyncMode): (r: State)
  {
    if answers == [] then s
    else Step(Steps(s, answers[..|answers| - 1], target, mode), answers[|answers| - 1], target, mode)
  }

  function Begin(prior: Bytes, oldSynced: nat): (s: State)
  {
    State(Create, prior, oldSynced, [], 0, false, false, false, OldOpen)
  }

  /** The bytes that the log's path may name after a crash in this state. */
  ghost predicate Survives(s: State, image: Bytes)
  {
    || (!(s.renamed && s.renameDurable) && exists n :: s.oldSynced <= n <= |s.prior| && image == s.prior[..n])
    || (s.renamed && exists n :: s.tempSynced <= n <= |s.temp| && image == s.temp[..n])
  }

  function Rank(pc: Pc): (n: nat)
  {
    match pc
    case Create => 0 case Write => 1 case SyncNew => 2 case Verify => 3 case FlushOld => 4 case CloseOld => 5
    case Rename => 6 case SyncDirectory => 7 case OpenNew => 8 case Finished => 9 case Aborted(at) => Rank(at)
  }

  ghost predicate Invariant(s: State, prior: Bytes, oldSynced: nat, target: Bytes, mode: SyncMode)
  {
    && s.prior == prior && oldSynced <= s.oldSynced <= |prior|
    && s.tempSynced <= |s.temp|
    && (s.pc.Aborted? ==> !s.pc.at.Aborted? && !s.pc.at.Finished?)
    && (Rank(s.pc) >= 2 ==> s.temp == target)
    && (Rank(s.pc) >= 3 ==> s.tempSynced == |target|)
    && (Rank(s.pc) >= 5 && mode != NoSync ==> s.oldSynced == |prior|)
    && (s.renamed <==> Rank(s.pc) >= 7)
    && (s.renameDurable <==> Rank(s.pc) >= 8)
    && (s.failed <==> s.pc.Aborted? && Rank(s.pc) >= 4)
    && (s.handle == (if Rank(s.pc) <= 4 || s.pc == CloseOld then OldOpen else if s.pc == Finished then NewOpen else Closed))
    && (s.pc == Write ==> s.temp <= target)
  }

  lemma StepKeepsInvariant(s: State, a: Answer, prior: Bytes, oldSynced: nat, target: Bytes, mode: SyncMode)
    requires Invariant(s, prior, oldSynced, target, mode)
    ensures Invariant(Step(s, a, target, mode), prior, oldSynced, target, mode)
  {
    hide Recovered;
  }

  lemma {:induction false} StepsKeepInvariant(prior: Bytes, oldSynced: nat, answers: seq<Answer>, target: Bytes, mode: SyncMode)
    requires oldSynced <= |prior|
    ensures Invariant(Steps(Begin(prior, oldSynced), answers, target, mode), prior, oldSynced, target, mode)
    decreases |answers|
  {
    hide Step, Invariant;
    if answers == [] {
      BeginInvariant(prior, oldSynced, target, mode);
    } else {
      var m := |answers| - 1;
      StepsKeepInvariant(prior, oldSynced, answers[..m], target, mode);
      StepKeepsInvariant(Steps(Begin(prior, oldSynced), answers[..m], target, mode), answers[m], prior, oldSynced, target, mode);
    }
  }

  lemma BeginInvariant(prior: Bytes, oldSynced: nat, target: Bytes, mode: SyncMode)
    requires oldSynced <= |prior|
    ensures Invariant(Begin(prior, oldSynced), prior, oldSynced, target, mode)
  {
  }

  /**
    * Stop compaction anywhere, whatever succeeded or failed before: the path names the complete new
    * log, or the prior log with at least everything that had been synced.
    */
  lemma CrashSeesOldOrNew(prior: Bytes, oldSynced: nat, answers: seq<Answer>, target: Bytes, mode: SyncMode, image: Bytes)
    requires oldSynced <= |prior|
    requires Survives(Steps(Begin(prior, oldSynced), answers, target, mode), image)
    ensures image == target || exists n :: oldSynced <= n <= |prior| && image == prior[..n]
  {
    hide Steps, Step, Rank;
    var s := Steps(Begin(prior, oldSynced), answers, target, mode);
    StepsKeepInvariant(prior, oldSynced, answers, target, mode);
    RenamedIsSynced(s, prior, oldSynced, target, mode);
    if s.renamed && exists n :: s.tempSynced <= n <= |s.temp| && image == s.temp[..n] {
      assert s.temp[..|s.temp|] == s.temp;
    }
  }

  lemma RenamedIsSynced(s: State, prior: Bytes, oldSynced: nat, target: Bytes, mode: SyncMode)
    requires Invariant(s, prior, oldSynced, target, mode)
    ensures s.renamed ==> s.temp == target && s.tempSynced == |s.temp|
    ensures s.renamed && mode != NoSync ==> s.oldSynced == |prior|
  {
  }

  /** How a compaction that threw leaves the log object. */
  lemma AbortOutcome(prior: Bytes, oldSynced: nat, answers: seq<Answer>, target: Bytes, mode: SyncMode)
    requires oldSynced <= |prior|
    ensures var s := Steps(Begin(prior, oldSynced), answers, target, mode);
            s.pc.Aborted? ==>
              && (s.failed <==> s.pc.at == FlushOld || Switching(s.pc.at))
              && (!s.failed ==> s.handle == OldOpen && !s.renamed && s.prior == prior)
    ensures var s := Steps(Begin(prior, oldSynced), answers, target, mode);
            s.pc == Finished ==> !s.failed && s.handle == NewOpen && s.renamed && s.renameDurable && s.temp == target
  {
    StepsKeepInvariant(prior, oldSynced, answers, target, mode);
  }

  /** While every call succeeds no step throws, and each one either moves on or writes more of the new log. */
  lemma SucceedingStepAdvances(s: State, prior: Bytes, oldSynced: nat, rs: seq<Record>, mode: SyncMode)
    requires AllFit(rs) && Invariant(s, prior, oldSynced, Log(rs), mode) && !s.pc.Aborted? && s.pc != Finished
    ensures var next := Step(s, Succeeds, Log(rs), mode);
            !next.pc.Aborted? && (Rank(next.pc) > Rank(s.pc) || (next.pc == s.pc && |s.temp| < |next.temp| <= |Log(rs)|))
  {
    hide Frames, Recovered;
    WholeLogRecovers(rs);
  }

  /**
    * Compacting the log of any run. If a crash leaves the new log, it reopens exactly when no oversized
    * value is stored, and then to the same unexpired keyspace. If it leaves the old log or a cut of it,
    * that reopens exactly when no oversized value is among its records, and then to the keyspace after
    * that many single writes of the run; and in a mode that syncs, once the old log is flushed, those
    * are all of them.
    */
  lemma SwitchPreservesMeaning(b: Base, es: seq<Event>, lru: seq<Bytes>, orders: Orders, c: Clock, c': Clock,
                               oldSynced: nat, answers: seq<Answer>, mode: SyncMode, image: Bytes) returns (k: nat)
    requires ClockOk(c) && ClockOk(c') && c.offset == c'.offset && c.now <= c'.now
    requires Restores(b, c.offset) && b.since <= c.now && Clocks(es, c.offset)
    requires OrdersOk(Run(b.ks, es).ks, orders) && Visits(lru, Run(b.ks, es).ks.Keys)
    requires oldSynced <= |RunLog(b, es, c.offset)|
    requires var target := CompactLog(Run(b.ks, es).ks, lru, orders, c);
             Survives(Steps(Begin(RunLog(b, es, c.offset), oldSynced), answers, target, mode), image)
    ensures var ks := Run(b.ks, es).ks;
            image == CompactLog(ks, lru, orders, c) ==>
              && (Reopen(image, c').Some? <==> AllRestorable(ks))
              && (AllRestorable(ks) ==> Reopen(image, c') == Some(Live(ks, c'.now)))
    ensures var rs, ks := Run(b.ks, es).records, Run(b.ks, es).ks;
            image != CompactLog(ks, lru, orders, c) && |Log(b.records)| <= |image| ==>
              && k <= |rs| == |UnbundleAll(b.ks, es)|
              && (Reopen(image, c').Some? <==> Clean(rs[..k]))
              && (Clean(rs[..k]) ==> Reopen(image, c') == Some(Live(Run(b.ks, UnbundleAll(b.ks, es)[..k]).ks, c'.now)))
    ensures var target := CompactLog(Run(b.ks, es).ks, lru, orders, c);
            var s := Steps(Begin(RunLog(b, es, c.offset), oldSynced), answers, target, mode);
            image != target && mode != NoSync && Rank(s.pc) >= 5 ==> k == |Run(b.ks, es).records| && |Log(b.records)| <= |image|
  {
    hide Run, Log, CompactLog, Live, Reopen, Steps, Step, OrdersOk, Visits, ClockOk, Good, AllRestorable, Rank, UnbundleAll,
      Clean, Restores, Clocks;
    RestoresHas(b, c.offset);
    var ks := Run(b.ks, es).ks;
    var prior := RunLog(b, es, c.offset);
    var target := CompactLog(ks, lru, orders, c);
    RunKeepsGood(b.ks, es, c.offset);
    CompactionPreservesMeaning(ks, lru, orders, c, c');
    var s := Steps(Begin(prior, oldSynced), answers, target, mode);
    StepsKeepInvariant(prior, oldSynced, answers, target, mode);
    RenamedIsSynced(s, prior, oldSynced, target, mode);
    assert prior[..|prior|] == prior && target[..|target|] == target;
    CrashSeesOldOrNew(prior, oldSynced, answers, target, mode, image);
    k := 0;
    if image != target {
      k := CutOfRun(b, es, c', image);
    }
  }

  /** A cut of a run's log. */
  lemma CutOfRun(b: Base, es: seq<Event>, c: Clock, image: Bytes) returns (k: nat)
    requires ClockOk(c) && Clocks(es, c.offset) && Restores(b, c.offset) && b.since <= c.now
    requires exists n :: 0 <= n <= |RunLog(b, es, c.offset)| && image == RunLog(b, es, c.offset)[..n]
    ensures var rs := Run(b.ks, es).records;
            |Log(b.records)| <= |image| ==>
              && k <= |rs| == |UnbundleAll(b.ks, es)|
              && (Reopen(image, c).Some? <==> Clean(rs[..k]))
              && (Clean(rs[..k]) ==> Reopen(image, c) == Some(Live(Run(b.ks, UnbundleAll(b.ks, es)[..k]).ks, c.now)))
    ensures image == RunLog(b, es, c.offset) ==> k == |Run(b.ks, es).records| && |Log(b.records)| <= |image|
  {
    hide Run, Live, Reopen, ClockOk, UnbundleAll, Clean, Restores, Recovered, Whole, Frames, Fits;
    RestoresHas(b, c.offset);
    var rs := Run(b.ks, es).records;
    var file := RunLog(b, es, c.offset);
    FramesSplit(b.records + rs, |b.records|);
    assert (b.records + rs)[..|b.records|] == b.records;
    k := 0;
    if |Log(b.records)| <= |image| {
      k := CrashRecovers(b, es, |image|, c);
      WholeOfAll(b.records + rs);
    }
  }

  lemma OneMoreAnswer(s: State, answers: seq<Answer>, a: Answer, target: Bytes, mode: SyncMode)
    ensures Steps(s, answers + [a], target, mode) == Step(Steps(s, answers, target, mode), a, target, mode)
  {
    hide Step;
    assert (answers + [a])[..|answers|] == answers;
  }

  /**
    * The flush of the old log fails just before the switch, here for a compaction to an empty database:
    * the log is marked failed although it is open, complete and not renamed over.
    */
  lemma FlushFailureExample(prior: Bytes, mode: SyncMode) returns (answers: seq<Answer>)
    ensures var s := Steps(Begin(prior, 0), answers, Log([]), mode);
            s.pc == Aborted(FlushOld) && s.failed && s.handle == OldOpen && !s.renamed && s.prior == prior
  {
    hide Log, Steps, Recovered;
    var target, begin := Log([]), Begin(prior, 0);
    WholeLogRecovers([]);
    HeaderOnly();
    NoAnswers(begin, target, mode);
    answers := [];
    for i := 0 to 4
      invariant |answers| == i
      invariant var s := Steps(begin, answers, target, mode);
                && Rank(s.pc) == i && !s.pc.Aborted? && s.temp == (if i == 0 then [] else target)
                && !s.failed && s.handle == OldOpen && !s.renamed && s.prior == prior
    {
      OneMoreAnswer(begin, answers, Succeeds, target, mode);
      assert target[..8] == target;
      answers := answers + [Succeeds];
    }
    OneMoreAnswer(begin, answers, Fails, target, mode);
    answers := answers + [Fails];
  }

  lemma HeaderOnly()
    ensures AllFit([]) && |Log([])| == 8
  {
  }

  lemma NoAnswers(s: State, target: Bytes, mode: SyncMode)
    ensures Steps(s, [], target, mode) == s
  {
  }
}
