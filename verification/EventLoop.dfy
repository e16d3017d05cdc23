/** Client buffers, batches and the queue of clients with work left, src/server.cpp:58-73, 141-293 and 392-405. */
module EventLoop {
  import opened Bytes
  import opened Resp
  import opened Stream

  const BATCH_LIMIT: nat := 1024
  const SERVE_LIMIT: nat := 64
  const MAX_INPUT: nat := 1024 * 1024
  const COMPACT_THRESHOLD: nat := 64 * 1024

  /** Why a client is closed once its output is written, if it is. */
  datatype Closing = Open | ProtocolError | InputLimit

  /** `executed` are the commands run for this client so far and `received` all bytes read from it. */
  datatype Client = Client(buffer: Bytes, offset: nat, queued: bool, closing: Closing, executed: seq<Cmd>, received: Bytes)

  const NEW_CLIENT: Client := Client([], 0, false, Open, [], [])

  function Pending(c: Client): (s: Bytes) { if c.offset <= |c.buffer| then c.buffer[c.offset..] else [] }

  /**
    * While a client is open, the bytes received are the commands executed followed by the bytes still in
    * the buffer. One closed by a protocol error has had every command before the error executed; one
    * closed by the input limit sent more than the limit and has had only commands of its stream executed.
    */
  ghost predicate InStep(c: Client)
  {
    c.offset <= |c.buffer| &&
    match c.closing
    case Open => |Pending(c)| <= |c.received| && Split(c.received) == Onto(c.executed, Split(Pending(c)))
    case ProtocolError => c.executed == Split(c.received).commands && Split(c.received).error.Some?
    case InputLimit => |c.received| > MAX_INPUT && c.executed <= Split(c.received).commands
  }

  /** A client that has a complete frame waiting is in line to be served. */
  ghost predicate Served(c: Client) { c.closing.Open? && Ready(Pending(c)) ==> c.queued }

  /** The commands one batch takes from the front of a stream. */
  function Batch(s: Bytes): (commands: seq<Cmd>)
  {
    var all := Split(s).commands;
    if |all| <= BATCH_LIMIT then all else all[..BATCH_LIMIT]
  }

  // ---------- one client ----------

  method CompactBuffer(buffer: Bytes, offset: nat) returns (b: Bytes, o: nat)
    requires offset <= |buffer|
    ensures o <= |b| && b[o..] == buffer[offset..]
    ensures o == |b| ==> b == []
  {
    b, o := buffer, offset;
    if offset == |buffer| {
      b, o := [], 0;
    } else if offset >= COMPACT_THRESHOLD && offset * 2 >= |buffer| {
      b, o := buffer[offset..], 0;
    }
  }

  /** The parsing loop of one batch: it stops at the limit, at an error, or when more bytes are needed. */
  method ParseBatch(buffer: Bytes, offset: nat) returns (commands: seq<Cmd>, next: nat, error: Option<Code>)
    requires offset <= |buffer|
    ensures |commands| <= BATCH_LIMIT && offset <= next <= |buffer|
    ensures Split(buffer[offset..]) == Onto(commands, Split(buffer[next..]))
    ensures error.Some? ==>
              |commands| < BATCH_LIMIT && Split(buffer[next..]).commands == [] && Split(buffer[next..]).error == error
    ensures error.None? && |commands| < BATCH_LIMIT ==> !Ready(buffer[next..])
  {
    hide Parse;
    commands, next := [], offset;
    OntoOnto([], [], Split(buffer[offset..]));
    while |commands| < BATCH_LIMIT && next < |buffer|
      invariant |commands| <= BATCH_LIMIT && offset <= next <= |buffer|
      invariant Split(buffer[offset..]) == Onto(commands, Split(buffer[next..]))
    {
      var input := buffer[next..];
      var parsed := Parse(input);
      if parsed.code.Some? {
        error := if Incomplete(parsed.code.value) then None else parsed.code;
        return;
      }
      assert input[parsed.consumed..] == buffer[next + parsed.consumed..];
      OntoOnto(commands, [Cmd(parsed.name, parsed.args)], Split(buffer[next + parsed.consumed..]));
      commands := commands + [Cmd(parsed.name, parsed.args)];
      next := next + parsed.consumed;
    }
    error := None;
  }

  /** One read: the bytes are appended, and a client past the input limit is dropped. */
  method Receive(c: Client, chunk: Bytes) returns (r: Client)
    requires InStep(c) && c.closing.Open?
    ensures InStep(r) && r.received == c.received + chunk && r.executed == c.executed && r.queued == c.queued
    ensures r.closing == if |Pending(c)| + |chunk| > MAX_INPUT then InputLimit else Open
    ensures r.closing.Open? ==> Pending(r) == Pending(c) + chunk
  {
    hide Split;
    r := c.(buffer := c.buffer + chunk, received := c.received + chunk);
    assert r.buffer[r.offset..] == c.buffer[c.offset..] + chunk;
    ReceiveInStep(c, chunk);
    if |r.buffer| - r.offset > MAX_INPUT {
      r := r.(buffer := [], offset := 0, closing := InputLimit);
    }
  }

  lemma ReceiveInStep(c: Client, chunk: Bytes)
    requires InStep(c) && c.closing.Open?
    ensures Split(c.received + chunk) == Onto(c.executed, Split(Pending(c) + chunk))
  {
    hide Split, Parse;
    var p := Pending(c);
    SplitAppend(c.received, chunk);
    SplitAppend(p, chunk);
    if Split(p).error.None? {
      OntoOnto(c.executed, Split(p).commands, Split(Split(p).rest + chunk));
    } else {
      SplitError(c, chunk);
    }
  }

  lemma SplitError(c: Client, chunk: Bytes)
    requires InStep(c) && c.closing.Open? && Split(Pending(c)).error.Some?
    ensures Split(c.received + chunk) == Onto(c.executed, Split(Pending(c) + chunk))
  {
    hide Parse;
    SplitAppendError(c.received, chunk);
    SplitAppendError(Pending(c), chunk);
  }

  lemma {:induction false} SplitAppendError(s: Bytes, t: Bytes)
    requires Split(s).error.Some?
    ensures Split(s + t) == Split(s).(rest := Split(s).rest + t)
    decreases |s|
  {
    hide Parse;
    var p := Parse(s);
    ParseStable(s, t);
    if p.code.None? {
      assert (s + t)[p.consumed..] == s[p.consumed..] + t;
      SplitAppendError(s[p.consumed..], t);
    }
  }

  /** Run one batch for a client, after it was taken out of the queue or read from: exactly the next commands. */
  method Process(c: Client) returns (r: Client)
    requires InStep(c) && c.closing.Open?
    ensures InStep(r) && Served(r) && r.received == c.received && (c.queued ==> r.queued)
    ensures r.executed == c.executed + Batch(Pending(c))
    ensures r.closing == if Split(Pending(c)).error.Some? && |Split(Pending(c)).commands| < BATCH_LIMIT then ProtocolError
              else Open
  {
    hide Parse, Split, Ready;
    var commands, next, error := ParseBatch(c.buffer, c.offset);
    r := c.(offset := next, executed := c.executed + commands);
    OntoOnto(c.executed, commands, Split(c.buffer[next..]));
    NotReady(c.buffer[next..]);
    TheBatch(Pending(c), commands, Split(c.buffer[next..]));
    if error.Some? {
      r := r.(buffer := [], offset := 0, closing := ProtocolError);
      return;
    }
    var b, o := CompactBuffer(r.buffer, r.offset);
    r := r.(buffer := b, offset := o);
    if |commands| == BATCH_LIMIT && o < |b| && !r.queued {
      r := r.(queued := true);
    }
    NothingReady(b[o..]);
  }

  lemma TheBatch(s: Bytes, commands: seq<Cmd>, rest: Stream)
    requires Split(s) == Onto(commands, rest) && |commands| <= BATCH_LIMIT
    requires |commands| < BATCH_LIMIT ==> rest.commands == []
    ensures commands == Batch(s)
  {
    hide Split;
  }

  lemma NothingReady(s: Bytes)
    ensures s == [] ==> !Ready(s)
  {
  }

  // ---------- all clients ----------

  class Server {
    var clients: map<int, Client>
    var pending: seq<int>

    ghost predicate ValidBut(id: int)
      reads this
    {
      forall k :: k in clients && k != id ==>
        InStep(clients[k]) && Served(clients[k]) && (clients[k].queued ==> k in pending)
    }

    ghost predicate Valid()
      reads this
    {
      forall k :: k in clients ==> InStep(clients[k]) && Served(clients[k]) && (clients[k].queued ==> k in pending)
    }

    constructor ()
      ensures Valid() && clients == map[] && pending == []
    {
      clients, pending := map[], [];
    }

    method Accept(id: int)
      requires Valid() && id !in clients
      modifies this
      ensures Valid() && clients == old(clients)[id := NEW_CLIENT] && pending == old(pending)
    {
      hide Parse;
      OntoOnto([], [], Split([]));
      clients := clients[id := NEW_CLIENT];
    }

    method Remove(id: int)
      requires ValidBut(id)
      modifies this`clients
      ensures Valid() && clients == old(clients) - {id}
    {
      hide InStep, Served;
      clients := clients - {id};
    }

    /**
      * One batch for a client. It may be removed afterwards, as its output may be full or its socket may
      * have failed; `r` is what was done for it all the same.
      */
    method ProcessClient(id: int, c: Client) returns (r: Client)
      requires ValidBut(id) && id in clients && InStep(c) && c.closing.Open? && (c.queued ==> id in pending)
      modifies this
      ensures Valid() && old(pending) <= pending
      ensures clients == old(clients)[id := r] || clients == old(clients) - {id}
      ensures InStep(r) && r.received == c.received && r.executed == c.executed + Batch(Pending(c))
      ensures r.closing == if Split(Pending(c)).error.Some? && |Split(Pending(c)).commands| < BATCH_LIMIT then ProtocolError
                else Open
    {
      hide InStep, Served, Split, Ready, Batch;
      r := Process(c);
      if r.queued && !c.queued {
        pending := pending + [id];
      }
      clients := clients[id := r];
      var gone: bool := *;
      if gone {
        Remove(id);
      }
    }

    /**
      * A readable socket: any number of reads of any sizes, then one batch. Within the limit all the bytes
      * count and exactly the next batch of the stream is executed; past it, nothing is.
      */
    method ReadClient(id: int, chunks: seq<Bytes>) returns (r: Client)
      requires Valid() && id in clients && clients[id].closing.Open?
      modifies this
      ensures Valid() && (clients == old(clients)[id := r] || clients == old(clients) - {id}) && InStep(r)
      ensures !r.closing.InputLimit? ==>
                && r.received == old(clients[id]).received + Joined(chunks)
                && r.executed == old(clients[id]).executed + Batch(Pending(old(clients[id])) + Joined(chunks))
      ensures r.closing.InputLimit? ==>
                r.executed == old(clients[id]).executed && |Pending(old(clients[id])) + Joined(chunks)| > MAX_INPUT
    {
      hide InStep, Served, Split, Ready, Joined, Batch;
      var c := clients[id];
      ghost var before := c;
      JoinedUpTo(chunks, 0);
      assert before.received + [] == before.received && Pending(before) + [] == Pending(before);
      for i := 0 to |chunks|
        invariant Valid() && clients == old(clients) && pending == old(pending)
        invariant InStep(c) && c.closing.Open? && c.queued == before.queued && c.executed == before.executed
        invariant c.received == before.received + Joined(chunks[..i]) && Pending(c) == Pending(before) + Joined(chunks[..i])
      {
        JoinedUpTo(chunks, i);
        Assoc(before.received, Joined(chunks[..i]), chunks[i]);
        Assoc(Pending(before), Joined(chunks[..i]), chunks[i]);
        c := Receive(c, chunks[i]);
        if !c.closing.Open? {
          ClosingServed(c);
          JoinedGrows(chunks, i + 1);
          clients := clients[id := c];
          return c;
        }
      }
      assert chunks[..|chunks|] == chunks;
      r := ProcessClient(id, c);
    }

    /** Serve the client at the head of the queue, if it is still there. */
    method ServeNext() returns (ghost r: Client)
      requires Valid() && pending != []
      modifies this
      ensures Valid() && old(pending)[1..] <= pending
      ensures var id := old(pending)[0];
              if id in old(clients) then
                Turn(old(clients)[id], r) && (clients == old(clients)[id := r] || clients == old(clients) - {id})
              else clients == old(clients)
    {
      hide InStep, Served, Split, Ready, Batch;
      var id := pending[0];
      assert pending == [id] + pending[1..];
      pending := pending[1..];
      assert ValidBut(id);
      r := NEW_CLIENT;
      if id in clients {
        var c := clients[id].(queued := false);
        Unqueued(clients[id], c);
        if !c.closing.Open? {
          clients := clients[id := c];
          r := c;
        } else {
          r := ProcessClient(id, c);
        }
      }
    }

    /**
      * The head of the event loop: serve clients from the queue, at most 64 of them. `after` is what was
      * done for everybody: each of those clients has had at least the next batch of its stream executed,
      * and only such a client may be gone afterwards; nobody else changes.
      */
    method ServePending() returns (ghost after: map<int, Client>)
      requires Valid()
      modifies this
      ensures Valid() && Progress(old(clients), after, Front(old(pending))) && Kept(clients, after, Front(old(pending)))
    {
      hide Valid, Turn, Progress, Kept;
      var queued := if |pending| < SERVE_LIMIT then |pending| else SERVE_LIMIT;
      ghost var all := pending;
      after := clients;
      NoProgress(clients);
      assert all[..0] == [] && all[0..] == all;
      for i := 0 to queued
        invariant Valid() && all[i..] <= pending && Progress(old(clients), after, all[..i]) && Kept(clients, after, all[..i])
      {
        ghost var before := clients;
        assert all[i..][0] == all[i] == pending[0] && all[i..][1..] == all[i + 1..];
        ghost var r := ServeNext();
        MoreProgress(old(clients), after, before, clients, all[..i], all[i], r);
        if all[i] in before {
          after := after[all[i] := r];
        }
        assert all[..i + 1] == all[..i] + [all[i]];
      }
      assert all[..queued] == Front(all);
    }

    /**
      * The loop blocks only on an empty queue, and then every client that sent no more than the limit has
      * had exactly the commands of its stream executed, in order, up to the first protocol error, and no
      * complete frame is waiting.
      */
    method MayBlock() returns (block: bool)
      requires Valid()
      ensures block <==> pending == []
      ensures block ==> forall k :: k in clients && !clients[k].closing.InputLimit? ==>
                                      clients[k].executed == Split(clients[k].received).commands
      ensures block ==> forall k :: k in clients && clients[k].closing.Open? ==> !Ready(Pending(clients[k]))
    {
      hide Split, Ready, InStep;
      block := pending == [];
      if block {
        forall k | k in clients && !clients[k].closing.InputLimit?
          ensures clients[k].executed == Split(clients[k].received).commands
          ensures clients[k].closing.Open? ==> !Ready(Pending(clients[k]))
        {
          CaughtUp(clients[k]);
        }
      }
    }
  }

  /** The clients that are served next. */
  function Front(pending: seq<int>): (r: seq<int>) { if |pending| < SERVE_LIMIT then pending else pending[..SERVE_LIMIT] }

  /** One turn: an open client has exactly the next batch of its stream executed, a closed one nothing. */
  ghost predicate Turn(before: Client, after: Client)
  {
    && after.received == before.received
    && (if before.closing.Open? then after.executed == before.executed + Batch(Pending(before))
        else after.executed == before.executed && after.closing == before.closing)
  }

  /** One turn or more. */
  ghost predicate MovedOn(before: Client, after: Client)
  {
    && after.received == before.received
    && (if before.closing.Open? then before.executed + Batch(Pending(before)) <= after.executed
        else after.executed == before.executed && after.closing == before.closing)
  }

  /** The clients in `done` have moved on and the others are as they were. */
  ghost predicate Progress(first: map<int, Client>, after: map<int, Client>, done: seq<int>)
  {
    && after.Keys == first.Keys
    && forall k :: k in first ==> if k in done then MovedOn(first[k], after[k]) else after[k] == first[k]
  }

  /** The clients that are there are as `after` says, and only some of those in `done` are not. */
  ghost predicate Kept(clients: map<int, Client>, after: map<int, Client>, done: seq<int>)
  {
    && (forall k :: k in clients ==> k in after && clients[k] == after[k])
    && (forall k :: k in after && k !in done ==> k in clients)
  }

  /** A complete frame at the front means that a batch executes a command or meets the error. */
  lemma FrameIsServed(s: Bytes)
    requires Ready(s)
    ensures Batch(s) != [] || Split(s).error.Some?
  {
    hide Parse;
  }

  lemma NoProgress(clients: map<int, Client>)
    ensures Progress(clients, clients, []) && Kept(clients, clients, [])
  {
  }

  lemma MoreProgress(first: map<int, Client>, after: map<int, Client>, before: map<int, Client>, now: map<int, Client>,
                     done: seq<int>, id: int, r: Client)
    requires Progress(first, after, done) && Kept(before, after, done)
    requires if id in before then Turn(before[id], r) && (now == before[id := r] || now == before - {id}) else now == before
    ensures var next := if id in before then after[id := r] else after;
            Progress(first, next, done + [id]) && Kept(now, next, done + [id])
  {
    hide Batch, Pending;
    if id in before && id in done && first[id].closing.Open? {
      assert first[id].executed + Batch(Pending(first[id])) <= after[id].executed <= r.executed;
    }
  }

  lemma {:induction false} JoinedGrows(chunks: seq<Bytes>, i: nat)
    requires i <= |chunks|
    ensures |Joined(chunks[..i])| <= |Joined(chunks)|
    decreases |chunks|
  {
    if i < |chunks| {
      var n := |chunks| - 1;
      JoinedGrows(chunks[..n], i);
      assert chunks[..n][..i] == chunks[..i];
    } else {
      assert chunks[..i] == chunks;
    }
  }

  lemma ClosingServed(c: Client)
    requires !c.closing.Open?
    ensures Served(c)
  {
  }

  lemma Unqueued(before: Client, after: Client)
    requires after == before.(queued := false)
    ensures InStep(before) ==> InStep(after)
    ensures !after.closing.Open? ==> Served(after)
  {
    hide Split;
  }

  lemma CaughtUp(c: Client)
    requires InStep(c) && Served(c) && !c.queued && !c.closing.InputLimit?
    ensures c.executed == Split(c.received).commands
    ensures c.closing.Open? ==> !Ready(Pending(c)) && Split(c.received).error.None?
  {
    hide Parse;
    NotReady(Pending(c));
  }

  function Joined(chunks: seq<Bytes>): (s: Bytes)
  {
    if chunks == [] then [] else Joined(chunks[..|chunks| - 1]) + chunks[|chunks| - 1]
  }

  lemma JoinedUpTo(chunks: seq<Bytes>, i: nat)
    requires i <= |chunks|
    ensures Joined([]) == [] && chunks[..0] == []
    ensures i < |chunks| ==> Joined(chunks[..i + 1]) == Joined(chunks[..i]) + chunks[i]
  {
    if i < |chunks| {
      assert chunks[..i + 1][..i] == chunks[..i];
    }
  }

  /**
    * The client has been given all of the stream that is read from it: everything, unless a protocol
    * error closed it before, and nothing is left to do for it.
    */
  ghost predicate Through(c: Client, stream: Bytes)
  {
    && InStep(c) && Served(c) && !c.queued
    && c.received <= stream && (c.closing.Open? ==> c.received == stream)
  }

  /**
    * Every stream within the limit, however it is cut into reads and batches, with or without a protocol
    * error in it: exactly its commands up to the first error are executed, and the client is closed
    * exactly when there is one.
    */
  lemma StreamDecides(c: Client, stream: Bytes)
    requires Through(c, stream) && |stream| <= MAX_INPUT
    ensures c.executed == Split(stream).commands
    ensures c.closing == if Split(stream).error.Some? then ProtocolError else Open
  {
    hide Split, Ready, Served;
    CaughtUp(c);
    var rest := stream[|c.received|..];
    assert stream == c.received + rest;
    SplitAppend(c.received, rest);
  }

  /** Read boundaries do not matter: the same stream has the same commands executed in the same order. */
  lemma ReadBoundariesDoNotMatter(a: Client, b: Client, stream: Bytes)
    requires Through(a, stream) && Through(b, stream) && |stream| <= MAX_INPUT
    ensures a.executed == b.executed && a.closing == b.closing
  {
    hide Through;
    StreamDecides(a, stream);
    StreamDecides(b, stream);
  }
}
