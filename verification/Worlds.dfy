/**
  * What the program asks of the machine: memory, and calls into the file system. The answers are a
  * script that nothing can change, so that whatever fails, fails because the script says so.
  */
module Worlds {

  /** How often memory was asked for, how often it was refused, and how many calls into the file system failed. */
  datatype Luck = Luck(asked: nat, refusals: nat, faults: nat)

  function Failures(answers: nat -> bool, n: nat): (k: nat)
    ensures k <= n
  {
    if n == 0 then 0 else Failures(answers, n - 1) + if answers(n - 1) then 0 else 1
  }

  class World {
    const memory: nat -> bool   // whether the request with this number is granted
    const disk: nat -> bool     // whether the call with this number succeeds
    const cut: nat -> nat       // how far a write that fails gets
    const limit: nat            // the budget for memory, 0 if there is none
    var asked: nat
    var calls: nat
    ghost var shortages: nat    // how often the budget was too small

    constructor (memory: nat -> bool, disk: nat -> bool, cut: nat -> nat, limit: nat)
      ensures this.memory == memory && this.disk == disk && this.cut == cut && this.limit == limit
      ensures asked == 0 && calls == 0 && shortages == 0
    {
      this.memory, this.disk, this.cut, this.limit, asked, calls := memory, disk, cut, limit, 0, 0;
      shortages := 0;
    }

    ghost function Dealt(): (l: Luck)
      reads this
    {
      Luck(asked, Failures(memory, asked) + shortages, Failures(disk, calls))
    }

    /** Ask for memory. */
    method Grant() returns (ok: bool)
      modifies this`asked
      ensures ok == memory(old(asked)) && (if ok then Granted(old(Dealt()), Dealt()) else Denied(old(Dealt()), Dealt()))
    {
      ok := memory(asked);
      asked := asked + 1;
    }

    /** The budget does not allow what is asked for. */
    ghost method Exceed(used: nat, bytes: nat)
      requires 0 < limit < used + bytes
      modifies this`shortages
      ensures Denied(old(Dealt()), Dealt()) && Dealt().asked == old(Dealt()).asked
    {
      shortages := shortages + 1;
    }

    /** Call into the file system. */
    method Call() returns (ok: bool)
      modifies this`calls
      ensures ok == disk(old(calls)) && (if ok then Dealt() == old(Dealt()) else Faulted(old(Dealt()), Dealt()))
    {
      ok := disk(calls);
      calls := calls + 1;
    }

    /** Write bytes to a file; a write that fails may have got some of them out. */
    method Write(size: nat) returns (written: nat)
      requires size > 0
      modifies this`calls
      ensures written <= size && (if written == size then Dealt() == old(Dealt()) else Faulted(old(Dealt()), Dealt()))
    {
      written := if disk(calls) then size else cut(calls) % size;
      calls := calls + 1;
    }
  }

  /** Nothing went wrong. */
  predicate Fine(l: Luck, m: Luck) { l.asked <= m.asked && m.refusals == l.refusals && m.faults == l.faults }

  /** Nothing went wrong, and at least one request for memory was granted. */
  predicate Granted(l: Luck, m: Luck) { Fine(l, m) && l.asked < m.asked }

  /** A request for memory was refused, and nothing else went wrong. */
  predicate Denied(l: Luck, m: Luck) { l.asked <= m.asked && m.refusals == l.refusals + 1 && m.faults == l.faults }

  /** The disk failed once, and nothing else went wrong. */
  predicate Faulted(l: Luck, m: Luck) { l.asked <= m.asked && m.refusals == l.refusals && m.faults == l.faults + 1 }

  /** Memory was refused, or the disk failed. */
  predicate Worse(l: Luck, m: Luck) { l.refusals < m.refusals || l.faults < m.faults }

  lemma {:induction false} FailuresGrow(answers: nat -> bool, n: nat, m: nat)
    requires n <= m
    ensures Failures(answers, n) <= Failures(answers, m)
    ensures (forall i :: n <= i < m ==> answers(i)) <==> Failures(answers, m) == Failures(answers, n)
    decreases m
  {
    if n < m {
      FailuresGrow(answers, n, m - 1);
    }
  }
}
