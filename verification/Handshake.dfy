/**
  * The eviction handshake between the event loop and the maintenance thread, as the steps of two
  * threads over a mutex and a condition variable. Source: src/server.cpp:328-335 and 407-435,
  * src/database.cpp:391-415, src/database.hpp:117-124.
  */
module Handshake {

  const EXPIRY_SLICE: nat := 128
  const EVICTION_SLICE: nat := 256

  /** Where the event loop is in `execute_batch`, after the batch itself. */
  datatype LoopAt =
    | Working      // commands run; only here are keys added
    | Checking     // about to look whether there are too many keys
    | Notifying    // there were: about to wake the maintenance thread
    | Locking      // about to take the mutex
    | Testing      // holds the mutex, about to evaluate the wait condition
    | Committed    // holds it still, and is going to wait
    | Asleep       // waits, having released the mutex
    | Woken        // notified or woken spuriously, about to take the mutex again
    | Leaving      // the condition held; about to look for a failure
    | Returned
    | Threw

  /** Where the maintenance thread is in its loop. */
  datatype WorkerAt =
    | Top          // about to look whether there is work
    | Expiring     // in `remove_expired`
    | Evicting     // about to look whether keys must be evicted
    | Announcing   // about to take the mutex to notify
    | Announced    // holds it, about to notify
    | Waiting      // about to take the mutex to wait
    | Deciding     // holds it, about to evaluate its own wait condition
    | Settling     // holds it still, and is going to wait
    | Dozing       // waits, for a limited time
    | Failing      // caught an exception, about to take the mutex
    | Failed       // holds it and has set the flag, about to notify
    | Gone

  datatype Holder = Free | HeldByLoop | HeldByWorker

  datatype State = State(keys: nat, max: nat, failed: bool, mutex: Holder, loop: LoopAt, worker: WorkerAt)

  predicate Over(s: State) { s.keys > s.max }

  /** What the event loop waits for. */
  predicate Ready(s: State) { !Over(s) || s.failed }

  datatype Action =
    | Add(n: nat) | Check | Notify | LoopLock | Test | Sleep | Spurious | LoopRelock | Leave | Again
    | Look(ttl: bool) | Expire(n: nat) | Evict | Throw | WorkerLock | Announce | Decide | Settle | Timeout | WorkerSpurious | Fail

  datatype Step = Blocked | Moves(to: State)

  function Min(a: nat, b: nat): (r: nat) { if a < b then a else b }

  /** `notify_all` wakes whoever is asleep. */
  function WakeWorker(w: WorkerAt): (r: WorkerAt) { if w == Dozing then Waiting else w }
  function WakeLoop(l: LoopAt): (r: LoopAt) { if l == Asleep then Woken else l }

  function Next(s: State, a: Action): (r: Step)
  {
    match a
    // the event loop
    case Add(n) => if s.loop == Working then Moves(s.(keys := s.keys + n, loop := Checking)) else Blocked
    case Check =>
      if s.loop == Checking then Moves(s.(loop := if Over(s) then Notifying else Returned)) else Blocked
    case Notify => if s.loop == Notifying then Moves(s.(loop := Locking, worker := WakeWorker(s.worker))) else Blocked
    case LoopLock => if s.loop == Locking && s.mutex == Free then Moves(s.(loop := Testing, mutex := HeldByLoop)) else Blocked
    case Test =>
      if s.loop != Testing then Blocked
      else if Ready(s) then Moves(s.(loop := Leaving, mutex := Free))
      else Moves(s.(loop := Committed))
    case Sleep => if s.loop == Committed then Moves(s.(loop := Asleep, mutex := Free)) else Blocked
    case Spurious => if s.loop == Asleep then Moves(s.(loop := Woken)) else Blocked
    case LoopRelock => if s.loop == Woken && s.mutex == Free then Moves(s.(loop := Testing, mutex := HeldByLoop)) else Blocked
    case Leave => if s.loop == Leaving then Moves(s.(loop := if s.failed then Threw else Returned)) else Blocked
    case Again => if s.loop == Returned then Moves(s.(loop := Working)) else Blocked
    // the maintenance thread
    case Look(ttl) => if s.worker == Top then Moves(s.(worker := if ttl || Over(s) then Expiring else Waiting)) else Blocked
    case Expire(n) =>
      if s.worker == Expiring && n <= EXPIRY_SLICE && n <= s.keys then Moves(s.(keys := s.keys - n, worker := Evicting))
        else Blocked
    case Evict =>
      if s.worker == Evicting
      then Moves(s.(keys := if Over(s) then s.keys - Min(EVICTION_SLICE, s.keys - s.max) else s.keys, worker := Announcing))
      else Blocked
    case Throw => if s.worker == Expiring || s.worker == Evicting then Moves(s.(worker := Failing)) else Blocked
    case WorkerLock =>
      if s.mutex != Free then Blocked
      else if s.worker == Announcing then Moves(s.(mutex := HeldByWorker, worker := Announced))
      else if s.worker == Waiting then Moves(s.(mutex := HeldByWorker, worker := Deciding))
      else if s.worker == Failing then Moves(s.(mutex := HeldByWorker, worker := Failed, failed := true))
      else Blocked
    case Announce =>
      if s.worker == Announced then Moves(s.(mutex := Free, worker := Waiting, loop := WakeLoop(s.loop))) else Blocked
    case Decide =>
      if s.worker != Deciding then Blocked
      else if Over(s) then Moves(s.(mutex := Free, worker := Top))
      else Moves(s.(worker := Settling))
    case Settle => if s.worker == Settling then Moves(s.(mutex := Free, worker := Dozing)) else Blocked
    case Timeout => if s.worker == Dozing && s.mutex == Free then Moves(s.(worker := Top)) else Blocked
    case WorkerSpurious => if s.worker == Dozing then Moves(s.(worker := Waiting)) else Blocked
    case Fail => if s.worker == Failed then Moves(s.(mutex := Free, worker := Gone, loop := WakeLoop(s.loop))) else Blocked
  }

  predicate Init(s: State)
  {
    !s.failed && s.mutex == Free && s.loop == Working && s.worker == Top
  }

  ghost predicate Run(states: seq<State>, actions: seq<Action>)
  {
    && |states| == |actions| + 1 && Init(states[0])
    && forall i :: 0 <= i < |actions| ==> Next(states[i], actions[i]) == Moves(states[i + 1])
  }

  // ---------- the invariant ----------

  predicate MutexOk(s: State)
  {
    && (s.mutex == HeldByLoop <==> s.loop == Testing || s.loop == Committed)
    && (s.mutex == HeldByWorker <==> s.worker == Announced || s.worker == Deciding || s.worker == Settling || s.worker == Failed)
    && (s.failed <==> s.worker == Failed || s.worker == Gone)
  }

  /** The worker has still to announce what it has done. */
  predicate AnnouncementDue(s: State)
  {
    s.worker == Evicting || s.worker == Announcing || s.worker == Announced || s.worker == Failing || s.worker == Failed
  }

  predicate Sound(s: State)
  {
    && MutexOk(s)
    && (s.loop == Returned ==> !Over(s))
    && (s.loop == Leaving ==> Ready(s))
    && (s.loop == Committed || s.loop == Asleep ==> Ready(s) ==> AnnouncementDue(s))
  }

  lemma StepKeepsSound(s: State, a: Action)
    requires Sound(s) && Next(s, a).Moves?
    ensures Sound(Next(s, a).to)
  {
  }

  lemma StepOf(states: seq<State>, actions: seq<Action>, i: nat)
    requires Run(states, actions) && i < |actions|
    ensures Next(states[i], actions[i]) == Moves(states[i + 1])
  {
    hide Next;
  }

  lemma {:induction false} RunSound(states: seq<State>, actions: seq<Action>, k: nat)
    requires Run(states, actions) && k < |states|
    ensures Sound(states[k])
    decreases k
  {
    hide Next;
    if k > 0 {
      StepOf(states, actions, k - 1);
      RunSound(states, actions, k - 1);
      StepKeepsSound(states[k - 1], actions[k - 1]);
    }
  }

  /**
    * `execute_batch` returns normally only with at most `max_keys` keys, and at once if there are no more;
    * after a wait it throws exactly if maintenance failed.
    */
  lemma ReturnsWithinCapacity(states: seq<State>, actions: seq<Action>, k: nat)
    requires Run(states, actions) && k < |states|
    ensures states[k].loop == Returned ==> states[k].keys <= states[k].max
    ensures k < |actions| && actions[k] == Check && states[k].keys <= states[k].max ==> states[k + 1].loop == Returned
    ensures k < |actions| && actions[k] == Leave ==> states[k + 1].loop == if states[k].failed then Threw else Returned
  {
    RunSound(states, actions, k);
    if k < |actions| {
      StepOf(states, actions, k);
    }
  }

  /** No wake-up is lost: while the loop sleeps although it could go on, the worker has yet to notify it. */
  lemma NoLostWakeUp(states: seq<State>, actions: seq<Action>, k: nat)
    requires Run(states, actions) && k < |states| && states[k].loop == Asleep && Ready(states[k])
    ensures AnnouncementDue(states[k])
  {
    RunSound(states, actions, k);
  }

  // ---------- progress ----------

  function Excess(s: State): (n: nat) { if Over(s) then s.keys - s.max else 0 }

  /** How many steps of its own the worker is away from the next eviction or announcement. */
  function Rank(w: WorkerAt): (n: nat)
  {
    match w
    case Announcing => 11
    case Announced => 10
    case Settling => 9
    case Dozing => 8
    case Waiting => 7
    case Deciding => 6
    case Top => 5
    case Expiring => 4
    case Evicting => 3
    case Failing => 2
    case Failed => 1
    case Gone => 0
  }

  predicate OfWorker(a: Action)
  {
    a.Look? || a.Expire? || a.Evict? || a.Throw? || a.WorkerLock? || a.Announce? || a.Decide? || a.Settle? || a.Timeout?
    || a.WorkerSpurious? || a.Fail?
  }

  /**
    * While the loop sleeps and there are too many keys, each step of the worker lowers the excess, or
    * leaves it and brings the next eviction nearer; no step of anyone raises it.
    */
  lemma WorkerMakesProgress(s: State, a: Action)
    requires Sound(s) && s.loop == Asleep && Over(s) && Next(s, a).Moves?
    ensures Excess(Next(s, a).to) <= Excess(s)
    ensures OfWorker(a) ==> Excess(Next(s, a).to) < Excess(s) || Rank(Next(s, a).to.worker) < Rank(s.worker)
    ensures a == Evict ==> Excess(Next(s, a).to) == Excess(s) - Min(EVICTION_SLICE, Excess(s))
    ensures a.Expire? ==> Next(s, a).to.keys == s.keys - a.n
  {
  }

  /** How many evictions it takes. */
  function Slices(n: nat): (k: nat) { (n + EVICTION_SLICE - 1) / EVICTION_SLICE }

  function WorkerSteps(actions: seq<Action>): (n: nat)
  {
    if actions == [] then 0 else WorkerSteps(actions[..|actions| - 1]) + if OfWorker(actions[|actions| - 1]) then 1 else 0
  }

  /** How many steps the worker can take before the excess is gone. */
  function Ahead(s: State): (n: nat) { 12 * Slices(Excess(s)) + Rank(s.worker) }

  lemma StepTakesOne(s: State, a: Action)
    requires LoopWaits(s) && Over(s) && Next(s, a).Moves?
    ensures Ahead(Next(s, a).to) + (if OfWorker(a) then 1 else 0) <= Ahead(s)
  {
    hide Slices;
    var t := Next(s, a).to;
    if a == Evict {
      OneSliceLess(Excess(s));
    }
    FewerSlices(Excess(t), Excess(s));
  }

  lemma OneSliceLess(n: nat)
    requires n > 0
    ensures Slices(n - Min(EVICTION_SLICE, n)) == Slices(n) - 1
  {
  }

  lemma FewerSlices(n: nat, m: nat)
    ensures n <= m ==> Slices(n) <= Slices(m)
  {
  }

  lemma WorkerStepsUpTo(actions: seq<Action>, k: nat, m: nat)
    requires k < m <= |actions|
    ensures WorkerSteps(actions[k..m]) == WorkerSteps(actions[k..m - 1]) + if OfWorker(actions[m - 1]) then 1 else 0
  {
    assert actions[k..m][..m - k - 1] == actions[k..m - 1];
  }

  /**
    * In every run: while the event loop waits for room and there are too many keys, the worker takes at
    * most twelve steps for each slice of the excess, and those it needs to get to the first eviction.
    */
  lemma {:induction false} WaitIsBounded(states: seq<State>, actions: seq<Action>, k: nat, m: nat)
    requires Run(states, actions) && k <= m < |states| && forall i :: k <= i < m ==> LoopWaits(states[i]) && Over(states[i])
    ensures WorkerSteps(actions[k..m]) + Ahead(states[m]) <= Ahead(states[k])
    decreases m
  {
    hide Next, Ahead;
    if k < m {
      WaitIsBounded(states, actions, k, m - 1);
      StepOf(states, actions, m - 1);
      StepTakesOne(states[m - 1], actions[m - 1]);
      WorkerStepsUpTo(actions, k, m);
    }
  }

  /** How many steps of its own the worker is away from waking the loop. */
  function ToWake(w: WorkerAt): (n: nat)
  {
    match w
    case Settling => 9
    case Dozing => 8
    case Waiting => 7
    case Deciding => 6
    case Top => 5
    case Expiring => 4
    case Evicting => 3
    case Announcing => 2
    case Announced => 1
    case Failing => 2
    case Failed => 1
    case Gone => 0
  }

  lemma StepNearsWake(s: State, a: Action)
    requires Sound(s) && s.loop == Asleep && Over(s) && Next(s, a).Moves? && Next(s, a).to.loop == Asleep
    ensures ToWake(Next(s, a).to.worker) + (if OfWorker(a) then 1 else 0) <= ToWake(s.worker)
    ensures ToWake(s.worker) > 0
  {
  }

  /** And in every run, as long as it sleeps over capacity the worker takes at most nine steps: the next one wakes it. */
  lemma {:induction false} SleepIsShort(states: seq<State>, actions: seq<Action>, k: nat, m: nat)
    requires Run(states, actions) && k <= m < |states|
    requires forall i :: k <= i <= m ==> states[i].loop == Asleep && Over(states[i])
    ensures WorkerSteps(actions[k..m]) + ToWake(states[m].worker) <= ToWake(states[k].worker) <= 9
    decreases m
  {
    hide Next;
    if k < m {
      SleepIsShort(states, actions, k, m - 1);
      StepOf(states, actions, m - 1);
      RunSound(states, actions, m - 1);
      StepNearsWake(states[m - 1], actions[m - 1]);
      WorkerStepsUpTo(actions, k, m);
    }
  }

  /** Room is made: whatever the limit, in some run the loop sleeps over capacity, the worker evicts, and the loop returns. */
  lemma RoomIsMade(max: nat, excess: nat) returns (states: seq<State>, actions: seq<Action>)
    requires 0 < excess <= EVICTION_SLICE
    ensures Run(states, actions) && Sleep in actions
    ensures states[|actions|] == State(max, max, false, Free, Returned, Waiting)
  {
    hide Run;
    states, actions := Start(max);
    states, actions := Then(states, actions, Add(max + excess));
    states, actions := Then(states, actions, Check);
    states, actions := Then(states, actions, Notify);
    states, actions := Then(states, actions, LoopLock);
    states, actions := Then(states, actions, Test);
    states, actions := Then(states, actions, Sleep);
    ghost var slept := actions;
    states, actions := Then(states, actions, Look(false));
    states, actions := Then(states, actions, Expire(0));
    states, actions := Then(states, actions, Evict);
    states, actions := Then(states, actions, WorkerLock);
    states, actions := Then(states, actions, Announce);
    states, actions := Then(states, actions, LoopRelock);
    states, actions := Then(states, actions, Test);
    states, actions := Then(states, actions, Leave);
    assert slept <= actions;
  }

  /** And one in which maintenance fails, and the loop throws. */
  lemma FailureIsTold(max: nat) returns (states: seq<State>, actions: seq<Action>)
    ensures Run(states, actions) && Throw in actions
    ensures states[|actions|] == State(max + 1, max, true, Free, Threw, Gone)
  {
    hide Run;
    states, actions := Start(max);
    states, actions := Then(states, actions, Add(max + 1));
    states, actions := Then(states, actions, Check);
    states, actions := Then(states, actions, Notify);
    states, actions := Then(states, actions, LoopLock);
    states, actions := Then(states, actions, Test);
    states, actions := Then(states, actions, Sleep);
    states, actions := Then(states, actions, Look(false));
    states, actions := Then(states, actions, Throw);
    ghost var thrown := actions;
    states, actions := Then(states, actions, WorkerLock);
    states, actions := Then(states, actions, Fail);
    states, actions := Then(states, actions, LoopRelock);
    states, actions := Then(states, actions, Test);
    states, actions := Then(states, actions, Leave);
    assert thrown <= actions;
  }

  /** And the worker is never stuck then, until it has failed and said so. */
  lemma WorkerCanMove(s: State)
    requires Sound(s) && s.loop == Asleep
    ensures s.worker != Gone
    ensures exists a :: OfWorker(a) && Next(s, a).Moves?
  {
    var a :=
      match s.worker
      case Top => Look(true)
      case Expiring => Expire(0)
      case Evicting => Evict
      case Announcing => WorkerLock
      case Announced => Announce
      case Waiting => WorkerLock
      case Deciding => Decide
      case Settling => Settle
      case Dozing => Timeout
      case Failing => WorkerLock
      case Failed => Fail
      case Gone => Fail;
    assert OfWorker(a) && Next(s, a).Moves?;
  }

  /**
    * The loop notifies without holding the mutex, so its own notification can come too early: the
    * worker has decided to wait but does not wait yet. Then only the time limit on its wait ends it.
    */
  lemma WorkerMayMissItsNotification(max: nat) returns (states: seq<State>, actions: seq<Action>)
    ensures Run(states, actions)
    ensures var s := states[|actions|];
            && s.max == max && s.loop == Asleep && Over(s) && s.worker == Dozing
            && forall a :: OfWorker(a) && Next(s, a).Moves? ==> a == Timeout || a == WorkerSpurious
  {
    hide Run;
    states, actions := Start(max);
    states, actions := Then(states, actions, Look(false));
    states, actions := Then(states, actions, WorkerLock);
    states, actions := Then(states, actions, Decide);
    states, actions := Then(states, actions, Add(max + 1));
    states, actions := Then(states, actions, Check);
    states, actions := Then(states, actions, Notify);
    states, actions := Then(states, actions, Settle);
    states, actions := Then(states, actions, LoopLock);
    states, actions := Then(states, actions, Test);
    states, actions := Then(states, actions, Sleep);
  }

  lemma Start(max: nat) returns (states: seq<State>, actions: seq<Action>)
    ensures Run(states, actions) && |states| == |actions| + 1 && states[|actions|] == State(0, max, false, Free, Working, Top)
  {
    states, actions := [State(0, max, false, Free, Working, Top)], [];
  }

  lemma Then(states: seq<State>, actions: seq<Action>, a: Action) returns (states': seq<State>, actions': seq<Action>)
    requires Run(states, actions) && |states| == |actions| + 1 && Next(states[|actions|], a).Moves?
    ensures Run(states', actions') && |states'| == |actions'| + 1 && states'[|actions'|] == Next(states[|actions|], a).to
    ensures actions' == actions + [a]
  {
    hide Next;
    states', actions' := states + [Next(states[|actions|], a).to], actions + [a];
    forall i | 0 <= i < |actions'|
      ensures Next(states'[i], actions'[i]) == Moves(states'[i + 1])
    {
      if i < |actions| {
        StepOf(states, actions, i);
      }
    }
  }

  // ---------- exactly when the worker's notification is missed ----------

  /** The loop has notified and not gone on yet. */
  predicate LoopWaits(s: State)
  {
    s.loop == Locking || s.loop == Testing || s.loop == Committed || s.loop == Asleep || s.loop == Woken
  }

  /** From after step `k` to state `m` the loop waits and there are too many keys. */
  ghost predicate Waits(states: seq<State>, k: nat, m: nat)
  {
    k < m < |states| && forall i :: k < i <= m ==> LoopWaits(states[i]) && Over(states[i])
  }

  predicate Up(w: WorkerAt) { w != Settling && w != Dozing }

  lemma NotifyFindsIt(s: State)
    requires s.loop == Notifying
    ensures if s.worker == Settling then Next(s, Notify).to.worker == Settling else Up(Next(s, Notify).to.worker)
  {
  }

  lemma StaysUp(s: State, a: Action)
    requires Over(s) && Up(s.worker) && Next(s, a).Moves?
    ensures Up(Next(s, a).to.worker)
  {
  }

  lemma SettlesNext(s: State, a: Action)
    requires LoopWaits(s) && s.worker == Settling && Next(s, a).Moves?
    ensures Next(s, a).to.worker == if OfWorker(a) then Dozing else Settling
  {
  }

  /** Once it dozes then, only time or chance ends it. */
  lemma OnlyTimeEndsIt(s: State, a: Action)
    requires LoopWaits(s) && s.worker == Dozing && Next(s, a).Moves? && Next(s, a).to.worker != Dozing
    ensures a == Timeout || a == WorkerSpurious
    ensures a == Timeout ==> Next(s, a).to.worker == Top
  {
  }

  lemma {:induction false} UpThroughout(states: seq<State>, actions: seq<Action>, k: nat, m: nat, j: nat)
    requires Run(states, actions) && Waits(states, k, m) && k < |actions| && actions[k] == Notify
    requires states[k].worker != Settling && k < j <= m
    ensures Up(states[j].worker)
    decreases j
  {
    hide Next;
    StepOf(states, actions, j - 1);
    if j == k + 1 {
      NotifyComesFrom(states[k]);
      NotifyFindsIt(states[k]);
    } else {
      UpThroughout(states, actions, k, m, j - 1);
      StaysUp(states[j - 1], actions[j - 1]);
    }
  }

  lemma NotifyComesFrom(s: State)
    requires Next(s, Notify).Moves?
    ensures s.loop == Notifying
  {
  }

  /** A settling worker settles with its first step, and dozes. */
  lemma {:induction false} SettlingUntil(states: seq<State>, actions: seq<Action>, k: nat, m: nat, j: nat)
    requires Run(states, actions) && Waits(states, k, m) && k < |actions| && actions[k] == Notify
    requires states[k].worker == Settling && k < j <= m
    ensures if exists i :: k < i < j && OfWorker(actions[i]) then exists i :: k < i <= j && states[i].worker == Dozing
            else states[j].worker == Settling
    decreases j
  {
    hide Next;
    StepOf(states, actions, j - 1);
    if j == k + 1 {
      NotifyComesFrom(states[k]);
      NotifyFindsIt(states[k]);
    } else {
      SettlingUntil(states, actions, k, m, j - 1);
      if exists i :: k < i < j - 1 && OfWorker(actions[i]) {
        var i :| k < i <= j - 1 && states[i].worker == Dozing;
        assert k < i <= j;
      } else {
        SettlesNext(states[j - 1], actions[j - 1]);
        if OfWorker(actions[j - 1]) {
          assert states[j].worker == Dozing;
        }
      }
    }
  }

  /**
    * In every run: while the loop waits over capacity after its notification, the worker dozes at some
    * point if and only if it was settling when the notification came and has taken a step since.
    */
  lemma MissedExactlyWhenSettling(states: seq<State>, actions: seq<Action>, k: nat, m: nat)
    requires Run(states, actions) && Waits(states, k, m) && k < |actions| && actions[k] == Notify
    ensures (exists j :: k < j <= m && states[j].worker == Dozing)
       <==> states[k].worker == Settling && exists i :: k < i < m && OfWorker(actions[i])
  {
    hide Next;
    if states[k].worker != Settling {
      forall j | k < j <= m
        ensures states[j].worker != Dozing
      {
        UpThroughout(states, actions, k, m, j);
      }
    } else {
      SettlingUntil(states, actions, k, m, m);
      if exists j :: k < j <= m && states[j].worker == Dozing {
        var j :| k < j <= m && states[j].worker == Dozing;
        SettlingUntil(states, actions, k, m, j);
        var i :| k < i < j && OfWorker(actions[i]);
        assert k < i < m;
      }
    }
  }
}
