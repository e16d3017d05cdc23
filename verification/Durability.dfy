/**
  * Acknowledged means durable: with `always` synchronisation no reply reaches a socket before the
  * records of its command are on the disk. The event loop and the maintenance thread take turns
  * under the database mutex; every other interleaving of their steps is allowed.
  * The log's own thread flushes it under a mutex of its own, at any time.
  * Source: src/server.cpp:233-326, 391-435, src/database.cpp:391-415, 1269-1290, src/wal.cpp:167-185, 215-295.
  */
module Durability {

  /** The log: how many records were written, how many of those are synced. */
  datatype Log = Log(appended: nat, synced: nat, failed: bool, deferSync: bool)

  /** Who holds the database mutex, and how far that batch has got. */
  datatype Turn =
    | Nobody
    | Loop(client: nat, write: bool, begun: bool, logged: nat, broken: bool)   // the command's records; whether it threw
    | Maintenance(begun: bool)

  /**
    * A reply stands for the number of the last record its command wrote, 0 if it wrote none. `outputs`
    * are the replies in each connection's output buffer, `sent` those handed to a socket.
    */
  datatype State = State(log: Log, turn: Turn, stopped: bool, outputs: map<nat, seq<nat>>, sent: seq<nat>)

  datatype Written = Fully | Cut | Unsynced

  datatype Action =
    | LockLoop(client: nat, write: bool)     // `execute_batch` takes the mutex
    | LockMaintenance                        // `evict_to` or `remove_expired` takes it
    | BeginBatch
    | Append(written: Written)               // one record of the holder's current command
    | Reply                                  // the command answers into the output buffer
    | EndBatch(synced: bool)
    | AbortBatch(synced: bool, drop: bool)   // an exception: the batch is ended, then the connection or the server is
    | Flush(synced: bool)                    // the log's own thread, whoever holds the database mutex
    | Send(client: nat, count: nat)
    | Disconnect(client: nat)

  predicate Init(s: State)
  {
    s.log == Log(0, 0, false, false) && s.turn == Nobody && !s.stopped && s.outputs == map[] && s.sent == []
  }

  function Output(s: State, client: nat): (r: seq<nat>) { if client in s.outputs then s.outputs[client] else [] }

  datatype Appended = NoLog | SomeLog(log: Log)

  /** One record: refused once the log has failed; synced at once unless a batch defers it. */
  function AppendTo(l: Log, w: Written): (r: Appended)
  {
    if l.failed then NoLog
    else if w == Cut then SomeLog(l.(failed := true))
    else
      var longer := l.(appended := l.appended + 1);
      if l.deferSync then SomeLog(longer)
      else if w == Fully then SomeLog(longer.(synced := longer.appended))
      else SomeLog(longer.(failed := true))
  }

  /** A flush: what is there is synced; a failed log stays failed. */
  function Flushed(l: Log, synced: bool): (r: Log)
  {
    if l.failed then l else if synced || l.synced == l.appended then l.(synced := l.appended) else l.(failed := true)
  }

  /** The end of a batch: stop deferring, and sync what is there; a failed log stays failed. */
  function End(l: Log, synced: bool): (r: Log)
  {
    Flushed(l.(deferSync := false), synced)
  }

  datatype Step = Blocked | Moves(to: State)

  function Next(s: State, a: Action): (r: Step)
  {
    match a
    case LockLoop(client, write) =>
      if s.turn == Nobody && !s.stopped then Moves(s.(turn := Loop(client, write, false, 0, false))) else Blocked
    case LockMaintenance =>
      if s.turn == Nobody then Moves(s.(turn := Maintenance(false))) else Blocked
    case BeginBatch =>
      (match s.turn
       case Loop(client, write, begun, logged, broken) =>
         if write && !begun
         then Moves(s.(turn := Loop(client, write, true, 0, false), log := s.log.(deferSync := true)))
         else Blocked
       case Maintenance(begun) =>
         if !begun then Moves(s.(turn := Maintenance(true), log := s.log.(deferSync := true))) else Blocked
       case Nobody => Blocked)
    case Append(w) =>
      var l := AppendTo(s.log, w);
      (match s.turn
       case Loop(client, write, begun, logged, broken) =>
         // `append` throws if the log has failed, and if it fails now
         if broken || (write && !begun) then Blocked
         else if l.NoLog? then Moves(s.(turn := Loop(client, write, begun, logged, true)))
         else Moves(s.(log := l.log, turn := Loop(client, write, begun, logged + 1, l.log.failed)))
       case Maintenance(begun) =>
         if l.SomeLog? && begun then Moves(s.(log := l.log)) else Blocked
       case Nobody => Blocked)
    case Reply =>
      (match s.turn
       case Loop(client, write, begun, logged, broken) =>
         // a command that threw does not answer; one whose records the flusher could not sync does
         if (write ==> begun) && !broken
         then Moves(s.(turn := Loop(client, write, begun, 0, false),
                  outputs := s.outputs[client := Output(s, client) + [if logged > 0 then s.log.appended else 0]]))
         else Blocked
       case _ => Blocked)
    case EndBatch(synced) =>
      (match s.turn
       case Loop(client, write, begun, logged, broken) =>
         if write && begun then
           var l := End(s.log, synced);
           Moves(s.(turn := Nobody, log := l, stopped := s.stopped || l.failed))
         else if !write then Moves(s.(turn := Nobody))
         else Blocked
       case Maintenance(begun) =>
         if begun then Moves(s.(turn := Nobody, log := End(s.log, synced))) else Blocked
       case Nobody => Blocked)
    case AbortBatch(synced, drop) =>
      (match s.turn
       case Loop(client, write, begun, logged, broken) =>
         var l := if write && begun then End(s.log, synced) else s.log;
         Moves(s.(turn := Nobody, log := l, stopped := s.stopped || l.failed || !drop, outputs := s.outputs - {client}))
       case _ => Blocked)
    case Send(client, count) =>
      if !s.turn.Loop? && !s.stopped && count <= |Output(s, client)|
      then Moves(s.(outputs := s.outputs[client := Output(s, client)[count..]], sent := s.sent + Output(s, client)[..count]))
      else Blocked
    case Flush(synced) => Moves(s.(log := Flushed(s.log, synced)))
    case Disconnect(client) =>
      if !s.turn.Loop? then Moves(s.(outputs := s.outputs - {client})) else Blocked
  }

  /** A run, as the states it goes through. */
  ghost predicate Run(states: seq<State>, actions: seq<Action>)
  {
    && |states| == |actions| + 1 && Init(states[0])
    && forall i :: 0 <= i < |actions| ==> Next(states[i], actions[i]) == Moves(states[i + 1])
  }

  // ---------- what every step keeps ----------

  /**
    * Outside a batch that defers, everything written is synced, or the log has failed; and what a command
    * that defers nothing has written is synced even so.
    */
  predicate LogSound(l: Log, turn: Turn)
  {
    && l.synced <= l.appended
    && (!l.failed && !l.deferSync ==> l.synced == l.appended)
    && (l.deferSync ==> (turn.Loop? && turn.write && turn.begun) || (turn.Maintenance? && turn.begun))
    && (turn.Loop? && !turn.write && turn.logged > 0 && !turn.broken ==> l.synced == l.appended)
  }

  /** A reply may wait for records that are not synced yet only in the buffer of the batch in progress. */
  predicate Covered(n: nat, client: nat, s: State)
  {
    n <= s.log.synced || (s.turn.Loop? && s.turn.client == client && s.turn.write && s.turn.begun && n <= s.log.appended)
  }

  predicate Sound(s: State)
  {
    && LogSound(s.log, s.turn)
    && (forall i :: 0 <= i < |s.sent| ==> s.sent[i] <= s.log.synced)
    && (!s.stopped ==>
          forall client, i :: client in s.outputs && 0 <= i < |s.outputs[client]| ==> Covered(s.outputs[client][i], client, s))
  }

  lemma StepKeepsSound(s: State, a: Action)
    requires Sound(s) && Next(s, a).Moves?
    ensures Sound(Next(s, a).to) && s.log.synced <= Next(s, a).to.log.synced
  {
    var s' := Next(s, a).to;
    if !s'.stopped {
      forall client, i | client in s'.outputs && 0 <= i < |s'.outputs[client]|
        ensures Covered(s'.outputs[client][i], client, s')
      {
        if a.Send? && client == a.client {
          assert client in s.outputs && s'.outputs[client][i] == s.outputs[client][a.count + i];
        } else if client in s.outputs && i < |s.outputs[client]| {
          assert s'.outputs[client][i] == s.outputs[client][i];
        }
      }
    }
    if a.Send? {
      forall i | 0 <= i < a.count
        ensures Output(s, a.client)[i] <= s.log.synced
      {
        assert Covered(s.outputs[a.client][i], a.client, s);
      }
    }
  }

  lemma StepOf(states: seq<State>, actions: seq<Action>, i: nat)
    requires Run(states, actions) && i < |actions|
    ensures Next(states[i], actions[i]) == Moves(states[i + 1])
  {
    hide Next;
  }

  lemma StartsSound(s: State)
    requires Init(s)
    ensures Sound(s)
  {
  }

  lemma {:induction false} RunSound(states: seq<State>, actions: seq<Action>, k: nat)
    requires Run(states, actions) && k < |states|
    ensures Sound(states[k])
    decreases k
  {
    hide Next, Sound;
    if k == 0 {
      StartsSound(states[0]);
    } else {
      StepOf(states, actions, k - 1);
      RunSound(states, actions, k - 1);
      StepKeepsSound(states[k - 1], actions[k - 1]);
    }
  }

  lemma SentIsSynced(states: seq<State>, actions: seq<Action>, k: nat, i: nat)
    requires Run(states, actions) && k < |states| && i < |states[k].sent|
    ensures states[k].sent[i] <= states[k].log.synced
  {
    RunSound(states, actions, k);
  }

  // ---------- which replies were sent ----------

  predicate Clears(s: State, a: Action, client: nat)
  {
    (a.AbortBatch? && s.turn.Loop? && s.turn.client == client) || (a.Disconnect? && a.client == client)
  }

  predicate Answers(s: State, a: Action, client: nat) { a.Reply? && s.turn.Loop? && s.turn.client == client }

  /** A client's queue after a step that may add `item` to it, take from its front, or empty it. */
  function Queued<T>(queue: seq<T>, s: State, a: Action, client: nat, item: T): (r: seq<T>)
  {
    if Answers(s, a, client) then queue + [item]
    else if a.Send? && a.client == client then (if a.count <= |queue| then queue[a.count..] else [])
    else if Clears(s, a, client) then []
    else queue
  }

  /** The steps whose replies wait in the client's output buffer, from what was done alone. */
  function Waiting(states: seq<State>, actions: seq<Action>, m: nat, client: nat): (steps: seq<nat>)
    requires m < |states| == |actions| + 1
  {
    if m == 0 then []
    else
      Queued<nat>(Waiting(states, actions, m - 1, client), states[m - 1], actions[m - 1], client, m - 1)
  }

  /** The steps whose replies were handed to a socket. */
  function Handed(states: seq<State>, actions: seq<Action>, m: nat): (steps: seq<nat>)
    requires m < |states| == |actions| + 1
  {
    if m == 0 then []
    else
      var a, before := actions[m - 1], Handed(states, actions, m - 1);
      if !a.Send? then before
      else
        var queue := Waiting(states, actions, m - 1, a.client);
        before + if a.count <= |queue| then queue[..a.count] else queue
  }

  /** The last record that the command in progress has written, 0 if it has written none. */
  function LastRecord(s: State): (n: nat) { if s.turn.Loop? && s.turn.logged > 0 then s.log.appended else 0 }

  /** The numbers stand for the replies of these steps. */
  ghost predicate StandFor(states: seq<State>, numbers: seq<nat>, steps: seq<nat>)
  {
    |numbers| == |steps| && forall i :: 0 <= i < |steps| ==> steps[i] < |states| && numbers[i] == LastRecord(states[steps[i]])
  }

  lemma StepOutput(s: State, a: Action, client: nat)
    requires Next(s, a).Moves?
    ensures Output(Next(s, a).to, client) == Queued<nat>(Output(s, client), s, a, client, LastRecord(s))
  {
  }

  lemma StepSent(s: State, a: Action)
    requires Next(s, a).Moves?
    ensures if a.Send? then a.count <= |Output(s, a.client)| && Next(s, a).to.sent == s.sent + Output(s, a.client)[..a.count]
            else Next(s, a).to.sent == s.sent
  {
  }

  lemma StandForMore(states: seq<State>, numbers: seq<nat>, steps: seq<nat>, k: nat)
    requires StandFor(states, numbers, steps) && k < |states|
    ensures StandFor(states, numbers + [LastRecord(states[k])], steps + [k])
  {
  }

  lemma StandForPart(states: seq<State>, numbers: seq<nat>, steps: seq<nat>, n: nat)
    requires StandFor(states, numbers, steps)
    ensures |numbers| == |steps|
    ensures n <= |steps| ==> StandFor(states, numbers[n..], steps[n..]) && StandFor(states, numbers[..n], steps[..n])
  {
  }

  lemma StandForBoth(states: seq<State>, numbers: seq<nat>, steps: seq<nat>, numbers': seq<nat>, steps': seq<nat>)
    requires StandFor(states, numbers, steps) && StandFor(states, numbers', steps')
    ensures StandFor(states, numbers + numbers', steps + steps')
  {
  }

  lemma {:induction false} OutputsStandFor(states: seq<State>, actions: seq<Action>, m: nat, client: nat)
    requires Run(states, actions) && m < |states|
    ensures StandFor(states, Output(states[m], client), Waiting(states, actions, m, client))
    decreases m
  {
    hide Next, LastRecord, Queued, StandFor, Output;
    if m == 0 {
      NothingStands(states, client);
    } else {
      OutputsStandFor(states, actions, m - 1, client);
      StepOf(states, actions, m - 1);
      StepOutput(states[m - 1], actions[m - 1], client);
      QueuedStandsFor(states, Output(states[m - 1], client), Waiting(states, actions, m - 1, client), actions[m - 1], client,
                      m - 1);
    }
  }

  lemma QueuedStandsFor(states: seq<State>, numbers: seq<nat>, steps: seq<nat>, a: Action, client: nat, k: nat)
    requires StandFor(states, numbers, steps) && k < |states|
    ensures StandFor(states, Queued<nat>(numbers, states[k], a, client, LastRecord(states[k])),
                     Queued<nat>(steps, states[k], a, client, k))
  {
    hide LastRecord, Answers, Clears, StandFor;
    StandForMore(states, numbers, steps, k);
    StandForPart(states, numbers, steps, if a.Send? then a.count else 0);
    NothingStands(states, client);
  }

  lemma NothingStands(states: seq<State>, client: nat)
    requires states != []
    ensures StandFor(states, [], []) && (Init(states[0]) ==> Output(states[0], client) == [])
  {
  }

  /** Every reply that was sent is that of one step. */
  lemma {:induction false} SentStandsFor(states: seq<State>, actions: seq<Action>, m: nat)
    requires Run(states, actions) && m < |states|
    ensures StandFor(states, states[m].sent, Handed(states, actions, m))
    decreases m
  {
    hide Next, LastRecord, Waiting, Output, StandFor;
    if m == 0 {
      NothingStands(states, 0);
    } else {
      SentStandsFor(states, actions, m - 1);
      StepOf(states, actions, m - 1);
      var s, a := states[m - 1], actions[m - 1];
      StepSent(s, a);
      if a.Send? {
        var queue := Waiting(states, actions, m - 1, a.client);
        OutputsStandFor(states, actions, m - 1, a.client);
        StandForPart(states, Output(s, a.client), queue, a.count);
        StandForBoth(states, s.sent, Handed(states, actions, m - 1), Output(s, a.client)[..a.count], queue[..a.count]);
      }
    }
  }

  // ---------- each once, and in order ----------

  /** A step at which the client was answered. */
  ghost predicate AnswerTo(states: seq<State>, actions: seq<Action>, k: nat, client: nat)
  {
    k < |actions| < |states| && Answers(states[k], actions[k], client)
  }

  /** Answers to the client, in order. */
  ghost predicate InOrder(states: seq<State>, actions: seq<Action>, steps: seq<nat>, bound: nat, client: nat)
  {
    && (forall i, j :: 0 <= i < j < |steps| ==> steps[i] < steps[j])
    && forall i :: 0 <= i < |steps| ==> steps[i] < bound && AnswerTo(states, actions, steps[i], client)
  }

  lemma QueuedInOrder(states: seq<State>, actions: seq<Action>, steps: seq<nat>, m: nat, client: nat)
    requires m < |actions| < |states| && InOrder(states, actions, steps, m, client)
    ensures InOrder(states, actions, Queued<nat>(steps, states[m], actions[m], client, m), m + 1, client)
  {
    hide Answers, Clears;
    assert Answers(states[m], actions[m], client) <==> AnswerTo(states, actions, m, client);
    hide AnswerTo;
  }

  lemma {:induction false} WaitingInOrder(states: seq<State>, actions: seq<Action>, m: nat, client: nat)
    requires Run(states, actions) && m < |states|
    ensures InOrder(states, actions, Waiting(states, actions, m, client), m, client)
    decreases m
  {
    hide Next, Queued;
    if m > 0 {
      WaitingInOrder(states, actions, m - 1, client);
      QueuedInOrder(states, actions, Waiting(states, actions, m - 1, client), m - 1, client);
    }
  }

  lemma OneClient(states: seq<State>, actions: seq<Action>, k: nat, client: nat, other: nat)
    requires AnswerTo(states, actions, k, client) && AnswerTo(states, actions, k, other)
    ensures client == other
  {
  }

  /** A step in the part of a queue that is handed on. */
  lemma JustHanded(states: seq<State>, actions: seq<Action>, m: nat, client: nat, i: nat)
    requires Run(states, actions) && 0 < m < |states| && |Handed(states, actions, m - 1)| <= i < |Handed(states, actions, m)|
    requires AnswerTo(states, actions, Handed(states, actions, m)[i], client)
    ensures var queue, at := Waiting(states, actions, m - 1, client), i - |Handed(states, actions, m - 1)|;
            && actions[m - 1].Send? && actions[m - 1].client == client && at < |queue| && at < actions[m - 1].count
            && Handed(states, actions, m)[i] == queue[at] && InOrder(states, actions, queue, m - 1, client)
  {
    hide Next, Waiting, AnswerTo;
    var a := actions[m - 1];
    WaitingInOrder(states, actions, m - 1, a.client);
    OneClient(states, actions, Handed(states, actions, m)[i], a.client, client);
  }

  lemma {:induction false} HandedFirst(states: seq<State>, actions: seq<Action>, m: nat, client: nat, i: nat, w: nat)
    requires Run(states, actions) && m < |states| && i < |Handed(states, actions, m)|
    requires AnswerTo(states, actions, Handed(states, actions, m)[i], client)
    requires w < |Waiting(states, actions, m, client)|
    ensures Handed(states, actions, m)[i] < Waiting(states, actions, m, client)[w]
    decreases m
  {
    hide Next, Clears, AnswerTo;
    var a, before, queue := actions[m - 1], Handed(states, actions, m - 1), Waiting(states, actions, m - 1, client);
    if i < |before| {
      if w < |queue| {
        HandedFirst(states, actions, m - 1, client, i, w);
      }
      if a.Send? && a.client == client {
        HandedFirst(states, actions, m - 1, client, i, w + a.count);
      }
      HandedBefore(states, actions, m - 1, client, i);
    } else {
      JustHanded(states, actions, m, client, i);
    }
  }

  lemma {:induction false} HandedBefore(states: seq<State>, actions: seq<Action>, m: nat, client: nat, i: nat)
    requires Run(states, actions) && m < |states| && i < |Handed(states, actions, m)|
    requires AnswerTo(states, actions, Handed(states, actions, m)[i], client)
    ensures Handed(states, actions, m)[i] < m
    decreases m
  {
    hide Next, Waiting, AnswerTo;
    if i < |Handed(states, actions, m - 1)| {
      HandedBefore(states, actions, m - 1, client, i);
    } else {
      JustHanded(states, actions, m, client, i);
    }
  }

  /** The replies sent to one client are those of its answers, each at most once and in order. */
  lemma {:induction false} HandedInOrder(states: seq<State>, actions: seq<Action>, m: nat, client: nat, i: nat, j: nat)
    requires Run(states, actions) && m < |states| && i < j < |Handed(states, actions, m)|
    requires AnswerTo(states, actions, Handed(states, actions, m)[i], client)
    requires AnswerTo(states, actions, Handed(states, actions, m)[j], client)
    ensures Handed(states, actions, m)[i] < Handed(states, actions, m)[j]
    decreases m
  {
    hide Next, Waiting, AnswerTo;
    var before := Handed(states, actions, m - 1);
    if j < |before| {
      HandedInOrder(states, actions, m - 1, client, i, j);
    } else {
      JustHanded(states, actions, m, client, j);
      if i < |before| {
        HandedFirst(states, actions, m - 1, client, i, j - |before|);
      } else {
        JustHanded(states, actions, m, client, i);
      }
    }
  }

  // ---------- what is sent is on the disk ----------

  predicate EndsCommand(a: Action) { a.Reply? || a.EndBatch? || a.AbortBatch? }

  /** A command that has written something, or that throws, or a removal by the maintenance thread. */
  predicate Writing(s: State)
  {
    || s.turn.Maintenance?
    || (s.turn.Loop? && (s.turn.logged > 0 || s.turn.broken) && (s.turn.write ==> s.turn.begun))
  }

  lemma StartsWriting(s: State, a: Action)
    requires Next(s, a).Moves? && a.Append?
    ensures Writing(Next(s, a).to)
  {
  }

  lemma GoesOnWriting(s: State, a: Action)
    requires Next(s, a).Moves? && !EndsCommand(a) && Writing(s)
    ensures Writing(Next(s, a).to) && s.log.appended <= Next(s, a).to.log.appended
  {
  }

  lemma {:induction false} StillWriting(states: seq<State>, actions: seq<Action>, j: nat, k: nat)
    requires Run(states, actions) && j < k < |states| && actions[j].Append?
    requires forall i :: j < i < k ==> !EndsCommand(actions[i])
    ensures Writing(states[k]) && states[j + 1].log.appended <= states[k].log.appended
    decreases k
  {
    hide Next, Writing, EndsCommand;
    StepOf(states, actions, k - 1);
    if k == j + 1 {
      StartsWriting(states[j], actions[j]);
    } else {
      StillWriting(states, actions, j, k - 1);
      GoesOnWriting(states[k - 1], actions[k - 1]);
    }
  }

  lemma AnswerCounts(s: State, a: Action)
    requires Next(s, a).Moves? && a.Reply? && Writing(s)
    ensures LastRecord(s) == s.log.appended
  {
  }

  /**
    * At every point of every run, if a command wrote a record (`j`), went on and answered (`k`), and that
    * answer has been sent, then the record is on the disk.
    */
  lemma AcknowledgedIsDurable(states: seq<State>, actions: seq<Action>, j: nat, k: nat, m: nat)
    requires Run(states, actions) && j < k < |actions| && m < |states|
    requires actions[j].Append? && actions[k].Reply? && forall i :: j < i < k ==> !EndsCommand(actions[i])
    requires k in Handed(states, actions, m)
    ensures states[j + 1].log.appended <= states[m].log.synced
  {
    hide Next, Handed, EndsCommand, LastRecord;
    var i :| 0 <= i < |Handed(states, actions, m)| && Handed(states, actions, m)[i] == k;
    SentStandsFor(states, actions, m);
    SentIsSynced(states, actions, m, i);
    StillWriting(states, actions, j, k);
    StepOf(states, actions, k);
    AnswerCounts(states[k], actions[k]);
  }

  lemma Extended(states: seq<State>, actions: seq<Action>, a: Action, t: State)
    requires Run(states, actions) && Next(states[|actions|], a) == Moves(t)
    ensures Run(states + [t], actions + [a])
  {
    hide Next;
  }

  /**
    * And answers do get sent: every run that comes to a state in which the event loop may start goes on to
    * one in which a command has written a record and has answered, and its answer has been sent.
    */
  lemma WriteIsAcknowledged(states: seq<State>, actions: seq<Action>, client: nat)
    returns (states': seq<State>, actions': seq<Action>, k: nat)
    requires Run(states, actions)
    requires var s := states[|actions|];
             s.turn == Nobody && !s.stopped && !s.log.failed
    ensures Run(states', actions') && states <= states' && actions <= actions' && |actions| < k < |actions'|
    ensures actions'[k - 1].Append? && actions'[k].Reply? && k in Handed(states', actions', |actions'|)
    ensures states'[|actions'|].log.appended == states[|actions|].log.appended + 1
  {
    hide Run, Handed, Waiting;
    RunShape(states, actions);
    var s, n := states[|actions|], |actions|;
    var before := Output(s, client);
    var s1 := s.(turn := Loop(client, true, false, 0, false));
    var s2 := s1.(turn := Loop(client, true, true, 0, false), log := s.log.(deferSync := true));
    var s3 := s2.(turn := Loop(client, true, true, 1, false), log := s2.log.(appended := s.log.appended + 1));
    var s4 := s3.(turn := Loop(client, true, true, 0, false), outputs := s.outputs[client := before + [s.log.appended + 1]]);
    var s5 := s4.(turn := Nobody, log := Log(s.log.appended + 1, s.log.appended + 1, false, false));
    var s6 := s5.(outputs := s5.outputs[client := []], sent := s.sent + (before + [s.log.appended + 1]));
    assert s6.outputs[client] == (before + [s.log.appended + 1])[|before| + 1..];
    assert (before + [s.log.appended + 1])[..|before| + 1] == before + [s.log.appended + 1];
    Extended(states, actions, LockLoop(client, true), s1);
    var t1, a1 := states + [s1], actions + [LockLoop(client, true)];
    Extended(t1, a1, BeginBatch, s2);
    var t2, a2 := t1 + [s2], a1 + [BeginBatch];
    Extended(t2, a2, Append(Fully), s3);
    var t3, a3 := t2 + [s3], a2 + [Append(Fully)];
    Extended(t3, a3, Reply, s4);
    var t4, a4 := t3 + [s4], a3 + [Reply];
    Extended(t4, a4, EndBatch(true), s5);
    var t5, a5 := t4 + [s5], a4 + [EndBatch(true)];
    Extended(t5, a5, Send(client, |before| + 1), s6);
    states', actions', k := t5 + [s6], a5 + [Send(client, |before| + 1)], n + 3;
    AnswerIsHanded(states', actions', k, client);
  }

  /** A removal by the maintenance thread goes through between batches, and is synced when it ends. */
  lemma RemovalIsSynced(states: seq<State>, actions: seq<Action>) returns (states': seq<State>, actions': seq<Action>)
    requires Run(states, actions)
    requires var s := states[|actions|];
             s.turn == Nobody && !s.log.failed
    ensures Run(states', actions') && states <= states' && actions <= actions'
    ensures var s, t := states[|actions|], states'[|actions'|];
            t == s.(log := Log(s.log.appended + 1, s.log.appended + 1, false, false))
  {
    hide Run;
    RunShape(states, actions);
    var s := states[|actions|];
    var s1 := s.(turn := Maintenance(false));
    var s2 := s.(turn := Maintenance(true), log := s.log.(deferSync := true));
    var s3 := s2.(log := s2.log.(appended := s.log.appended + 1));
    var s4 := s.(log := Log(s.log.appended + 1, s.log.appended + 1, false, false));
    Extended(states, actions, LockMaintenance, s1);
    var t1, a1 := states + [s1], actions + [LockMaintenance];
    Extended(t1, a1, BeginBatch, s2);
    var t2, a2 := t1 + [s2], a1 + [BeginBatch];
    Extended(t2, a2, Append(Fully), s3);
    var t3, a3 := t2 + [s3], a2 + [Append(Fully)];
    Extended(t3, a3, EndBatch(true), s4);
    states', actions' := t3 + [s4], a3 + [EndBatch(true)];
  }

  lemma RunShape(states: seq<State>, actions: seq<Action>)
    requires Run(states, actions)
    ensures |states| == |actions| + 1
  {
  }

  /** An answer, the end of its batch, and a send of all that is in the buffer. */
  lemma AnswerIsHanded(states: seq<State>, actions: seq<Action>, k: nat, client: nat)
    requires Run(states, actions) && k + 3 == |actions| && Answers(states[k], actions[k], client) && actions[k + 1].EndBatch?
    requires actions[k + 2].Send? && actions[k + 2].client == client && actions[k + 2].count == |Output(states[k + 2], client)|
    ensures k in Handed(states, actions, |actions|)
  {
    hide Next, Output;
    OutputsStandFor(states, actions, k + 2, client);
    var queue := Waiting(states, actions, k + 2, client);
    assert queue == Waiting(states, actions, k, client) + [k];
    assert queue[..|queue|] == queue && queue[|queue| - 1] == k;
    var before := Handed(states, actions, k + 2);
    assert Handed(states, actions, k + 3) == before + queue;
    assert (before + queue)[|before| + |queue| - 1] == k;
  }

  // ---------- a failed log ----------

  lemma FailedStep(s: State, a: Action)
    requires s.log.failed && Next(s, a).Moves?
    ensures var l := Next(s, a).to.log;
            l.failed && l.appended == s.log.appended && l.synced == s.log.synced
    ensures a.Append? && s.turn.Loop? ==> Next(s, a).to.turn.Loop? && Next(s, a).to.turn.broken
    ensures a.Append? ==> s.turn.Loop?
  {
  }

  /** After one failure no record is ever appended or synced again: a command that tries throws. */
  lemma {:induction false} FailureIsFinal(states: seq<State>, actions: seq<Action>, k: nat, m: nat)
    requires Run(states, actions) && k <= m < |states| && states[k].log.failed
    ensures states[m].log.failed && states[m].log.appended == states[k].log.appended
              && states[m].log.synced == states[k].log.synced
    ensures forall i :: k <= i < m && actions[i].Append? ==> states[i + 1].turn.Loop? && states[i + 1].turn.broken
    decreases m
  {
    hide Next;
    if k < m {
      StepOf(states, actions, m - 1);
      FailureIsFinal(states, actions, k, m - 1);
      FailedStep(states[m - 1], actions[m - 1]);
    }
  }

  lemma StoppedStep(s: State, a: Action)
    requires s.stopped && Next(s, a).Moves?
    ensures Next(s, a).to.stopped && Next(s, a).to.sent == s.sent
  {
  }

  /**
    * In every run, once a write batch has ended with the log failed, whatever broke it and whenever,
    * nothing is sent any more, to anybody; so none of its replies is.
    */
  lemma {:induction false} FailedBatchStops(states: seq<State>, actions: seq<Action>, k: nat, m: nat)
    requires Run(states, actions) && k < m < |states| && states[k].turn.Loop? && states[k].turn.write && states[k].turn.begun
    requires (actions[k].EndBatch? || actions[k].AbortBatch?) && states[k + 1].log.failed
    ensures states[m].stopped && states[m].sent == states[k].sent
    ensures forall i :: k <= i < m ==> !actions[i].Send?
    decreases m
  {
    hide Next;
    StepOf(states, actions, m - 1);
    if m == k + 1 {
      BatchEnds(states[k], actions[k]);
    } else {
      FailedBatchStops(states, actions, k, m - 1);
      StoppedStep(states[m - 1], actions[m - 1]);
      SendNeedsRunning(states[m - 1], actions[m - 1]);
    }
  }

  lemma BatchEnds(s: State, a: Action)
    requires s.turn.Loop? && s.turn.write && s.turn.begun && (a.EndBatch? || a.AbortBatch?) && Next(s, a).Moves?
    ensures Next(s, a).to.log.failed ==> Next(s, a).to.stopped
    ensures Next(s, a).to.sent == s.sent
  {
  }

  lemma SendNeedsRunning(s: State, a: Action)
    requires Next(s, a).Moves? && s.stopped
    ensures !a.Send?
  {
  }
}
