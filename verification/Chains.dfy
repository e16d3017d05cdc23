/** Singly linked chains of nodes, spelled out as sequences. */
module Chains {
  import opened Addresses

  ghost predicate Distinct(s: seq<Addr>) { forall i, j :: 0 <= i < j < |s| ==> s[i] != s[j] }

  /** From `head` the next pointers spell out `s` and end. */
  ghost predicate Chained(next: map<Addr, Addr>, head: Addr, s: seq<Addr>)
    decreases |s|
  {
    if s == [] then head == 0
    else head == s[0] && head != 0 && head in next && Chained(next, next[head], s[1..])
  }

  lemma {:induction false} ChainFrame(next: map<Addr, Addr>, head: Addr, s: seq<Addr>, a: Addr, b: Addr)
    requires Chained(next, head, s) && a !in s
    ensures Chained(next[a := b], head, s)
    decreases |s|
  {
    if s != [] {
      ChainFrame(next, next[head], s[1..], a, b);
    }
  }

  /** The pointer that leads to element `k` of a chain, redirected: the chain with that element replaced by `t`. */
  lemma {:induction false} ChainRedirect(next: map<Addr, Addr>, head: Addr, s: seq<Addr>, k: nat, to: Addr, t: seq<Addr>)
    requires Chained(next, head, s) && k <= |s| && Distinct(s) && Chained(next, to, t)
    requires forall i :: 0 <= i < k ==> s[i] !in t
    ensures k == 0 ==> Chained(next, to, t)
    ensures k > 0 ==> Chained(next[s[k - 1] := to], head, s[..k] + t)
    decreases |s|
  {
    if k > 0 {
      var next' := next[s[k - 1] := to];
      var rest := s[1..];
      if k == 1 {
        ChainFrame(next, to, t, s[0], to);
        assert s[..1] + t == [s[0]] + t;
      } else {
        ChainRedirect(next, next[head], rest, k - 1, to, t);
        assert s[0] != s[k - 1];
        assert s[..k] + t == [s[0]] + (rest[..k - 1] + t);
        assert (s[..k] + t)[1..] == rest[..k - 1] + t;
      }
    }
  }

  lemma {:induction false} ChainAt(next: map<Addr, Addr>, head: Addr, s: seq<Addr>, k: nat)
    requires Chained(next, head, s) && k < |s|
    ensures s[k] != 0 && s[k] in next && Chained(next, next[s[k]], s[k + 1..]) && Chained(next, s[k], s[k..])
    decreases |s|
  {
    if k > 0 {
      ChainAt(next, next[head], s[1..], k - 1);
      assert s[1..][k..] == s[k + 1..] && s[1..][k - 1..] == s[k..];
    }
  }

  lemma ChainNext(next: map<Addr, Addr>, head: Addr, s: seq<Addr>, m: nat)
    requires Chained(next, head, s) && m < |s|
    ensures s[m] != 0 && s[m] in next && next[s[m]] == if m + 1 < |s| then s[m + 1] else 0
  {
    ChainAt(next, head, s, m);
  }
}
