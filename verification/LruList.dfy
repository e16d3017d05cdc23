/** The intrusive list of nodes in order of use, src/database.cpp:286-291 and 371-389. */
module LruList {
  import opened Addresses
  import opened Chains

  /** A pointer field that has not been set is null. */
  function At(m: map<Addr, Addr>, a: Addr): (b: Addr) { if a in m then m[a] else 0 }

  /** The sequence without one element. */
  function Without(s: seq<Addr>, a: Addr): (r: seq<Addr>)
  {
    if s == [] then [] else if s[0] == a then s[1..] else [s[0]] + Without(s[1..], a)
  }

  lemma {:induction false} WithoutIs(s: seq<Addr>, k: nat)
    requires k < |s| && Distinct(s)
    ensures Without(s, s[k]) == s[..k] + s[k + 1..]
  {
    if k > 0 {
      assert s[0] != s[k];
      WithoutIs(s[1..], k - 1);
      assert s[..k] + s[k + 1..] == [s[0]] + (s[1..][..k - 1] + s[1..][k..]);
    }
  }

  lemma {:induction false} WithoutMembers(s: seq<Addr>, a: Addr)
    requires Distinct(s)
    ensures Distinct(Without(s, a)) && a !in Without(s, a)
    ensures forall b :: b != a ==> (b in Without(s, a) <==> b in s)
    ensures a !in s ==> Without(s, a) == s
  {
    if s != [] {
      WithoutMembers(s[1..], a);
      assert s == [s[0]] + s[1..];
      assert s[0] !in s[1..];
      if s[0] != a {
        assert s[0] !in Without(s[1..], a);
      }
    }
  }

  function Rev(s: seq<Addr>): (r: seq<Addr>)
    ensures |r| == |s| && forall i :: 0 <= i < |s| ==> r[i] == s[|s| - 1 - i]
  {
    seq(|s|, i requires 0 <= i < |s| => s[|s| - 1 - i])
  }

  /** The pointers spell out the sequence, in both directions, and only nodes in it have any. */
  ghost predicate Linked(order: seq<Addr>, head: Addr, tail: Addr, prev: map<Addr, Addr>, next: map<Addr, Addr>)
  {
    && Distinct(order) && Chained(next, head, order) && Chained(prev, tail, Rev(order))
    && (forall a :: a !in order ==> At(next, a) == 0 && At(prev, a) == 0)
  }

  /** What the pointers of element `k` are. */
  lemma LinkedAt(order: seq<Addr>, head: Addr, tail: Addr, prev: map<Addr, Addr>, next: map<Addr, Addr>, k: nat)
    requires Linked(order, head, tail, prev, next) && k < |order|
    ensures order[k] != 0 && order[k] in next && order[k] in prev
    ensures next[order[k]] == if k + 1 < |order| then order[k + 1] else 0
    ensures prev[order[k]] == if k > 0 then order[k - 1] else 0
    ensures Chained(next, next[order[k]], order[k + 1..])
    ensures Chained(prev, prev[order[k]], Rev(order)[|order| - k..])
  {
    ChainNext(next, head, order, k);
    ChainAt(next, head, order, k);
    var m := |order| - 1 - k;
    assert Rev(order)[m] == order[k];
    ChainNext(prev, tail, Rev(order), m);
    ChainAt(prev, tail, Rev(order), m);
  }

  lemma RevDistinct(s: seq<Addr>)
    requires Distinct(s)
    ensures Distinct(Rev(s)) && forall a :: a in Rev(s) <==> a in s
  {
    forall a | a in s
      ensures a in Rev(s)
    {
      var k :| 0 <= k < |s| && s[k] == a;
      assert Rev(s)[|s| - 1 - k] == a;
    }
  }

  /** One direction of an unlink: the chain without element `k`, whose own pointer is cleared. */
  lemma ChainWithout(next: map<Addr, Addr>, head: Addr, s: seq<Addr>, k: nat)
    requires Chained(next, head, s) && Distinct(s) && k < |s|
    ensures s[k] in next
    ensures var n := next[s[k]];
            var next' := (if k > 0 then next[s[k - 1] := n] else next)[s[k] := 0];
            Chained(next', if k > 0 then head else n, s[..k] + s[k + 1..])
  {
    ChainAt(next, head, s, k);
    var n := next[s[k]];
    var rest := s[..k] + s[k + 1..];
    ChainRedirect(next, head, s, k, n, s[k + 1..]);
    if k == 0 {
      assert rest == s[1..];
      ChainFrame(next, n, rest, s[0], 0);
    } else {
      ChainFrame(next[s[k - 1] := n], head, rest, s[k], 0);
    }
  }

  lemma RevWithout(s: seq<Addr>, k: nat)
    requires k < |s|
    ensures var m := |s| - 1 - k;
            Rev(s[..k] + s[k + 1..]) == Rev(s)[..m] + Rev(s)[m + 1..]
  {
  }

  lemma WithoutOutside(s: seq<Addr>, k: nat, a: Addr)
    requires k < |s| && a in s && a != s[k]
    ensures a in s[..k] + s[k + 1..]
  {
    var j :| 0 <= j < |s| && s[j] == a;
    assert (s[..k] + s[k + 1..])[if j < k then j else j - 1] == a;
  }

  lemma Unlinked(order: seq<Addr>, k: nat, head: Addr, tail: Addr, prev: map<Addr, Addr>, next: map<Addr, Addr>)
    requires Linked(order, head, tail, prev, next) && k < |order|
    ensures var a := order[k];
            var p, n := At(prev, a), At(next, a);
            var next' := (if p != 0 then next[p := n] else next)[a := 0];
            var prev' := (if n != 0 then prev[n := p] else prev)[a := 0];
            Linked(order[..k] + order[k + 1..], if p != 0 then head else n, if n != 0 then tail else p, prev', next')
  {
    hide Chained, Rev;
    var a := order[k];
    var p, n := At(prev, a), At(next, a);
    var next' := (if p != 0 then next[p := n] else next)[a := 0];
    var prev' := (if n != 0 then prev[n := p] else prev)[a := 0];
    var rest := order[..k] + order[k + 1..];
    LinkedAt(order, head, tail, prev, next, k);
    if k > 0 {
      LinkedAt(order, head, tail, prev, next, k - 1);
      assert rest[k - 1] == p;
    }
    if k + 1 < |order| {
      LinkedAt(order, head, tail, prev, next, k + 1);
      assert rest[k] == n;
    }
    RevDistinct(order);
    ChainWithout(next, head, order, k);
    ChainWithout(prev, tail, Rev(order), |order| - 1 - k);
    RevWithout(order, k);
    assert Distinct(rest);
    assert Chained(next', if p != 0 then head else n, rest);
    assert k + 1 < |order| ==> Rev(order)[|order| - 2 - k] == n;
    assert Chained(prev', if n != 0 then tail else p, Rev(rest));
    forall b | b !in rest
      ensures At(next', b) == 0 && At(prev', b) == 0
    {
      if b in order && b != a {
        WithoutOutside(order, k, b);
      }
    }
  }

  lemma Pushed(order: seq<Addr>, a: Addr, head: Addr, tail: Addr, prev: map<Addr, Addr>, next: map<Addr, Addr>)
    requires Linked(order, head, tail, prev, next) && a !in order && a != 0
    ensures var prev' := if head != 0 then prev[a := 0][head := a] else prev[a := 0];
            Linked([a] + order, a, if head != 0 then tail else a, prev', next[a := head])
  {
    var longer := [a] + order;
    assert longer[1..] == order;
    ChainFrame(next, head, order, a, head);
    RevDistinct(order);
    assert Rev(longer) == Rev(order) + [a];
    ChainFrame(prev, tail, Rev(order), a, 0);
    ChainOne(prev[a := 0], a);
    var n := |order|;
    ChainRedirect(prev[a := 0], tail, Rev(order), n, a, [a]);
    if n > 0 {
      assert Rev(order)[n - 1] == order[0] == head;
      assert Rev(order)[..n] == Rev(order);
    } else {
      assert Rev(longer) == [a];
    }
  }

  lemma ChainOne(next: map<Addr, Addr>, a: Addr)
    requires a != 0 && a in next && next[a] == 0
    ensures Chained(next, a, [a])
  {
    assert [a][1..] == [];
  }

  /** One direction of a replacement: the chain with `b` in the place of element `k`. */
  lemma ChainWith(next: map<Addr, Addr>, head: Addr, s: seq<Addr>, k: nat, b: Addr)
    requires Chained(next, head, s) && Distinct(s) && k < |s| && b !in s && b != 0
    ensures s[k] in next
    ensures var next' := (if k > 0 then next[s[k - 1] := b] else next)[s[k] := 0][b := next[s[k]]];
            Chained(next', if k > 0 then head else b, s[k := b])
  {
    ChainAt(next, head, s, k);
    var n := next[s[k]];
    var mid := next[s[k] := 0][b := n];
    var tail := s[k + 1..];
    ChainFrame(next, n, tail, s[k], 0);
    ChainFrame(next[s[k] := 0], n, tail, b, n);
    var t := [b] + tail;
    assert t[1..] == tail;
    assert Chained(mid, b, t);
    if k == 0 {
      assert s[0 := b] == t;
    } else {
      ChainPrefix(next, head, s, k, b);
      assert s[k := b] == s[..k] + t;
      var next' := next[s[k - 1] := b][s[k] := 0][b := n];
      assert next' == mid[s[k - 1] := b];
      PrefixThen(next, mid, head, s, k, b, t);
    }
  }

  /** The first `k` pointers of a chain do not depend on what follows. */
  lemma {:induction false} PrefixThen(next: map<Addr, Addr>, mid: map<Addr, Addr>, head: Addr, s: seq<Addr>, k: nat,
                                      to: Addr, t: seq<Addr>)
    requires Chained(next, head, s) && 0 < k <= |s| && Distinct(s) && Chained(mid, to, t)
    requires forall i :: 0 <= i < k ==> s[i] !in t && s[i] in mid && s[i] in next && mid[s[i]] == next[s[i]]
    ensures Chained(mid[s[k - 1] := to], head, s[..k] + t)
    decreases k
  {
    ChainAt(next, head, s, 0);
    if k == 1 {
      ChainFrame(mid, to, t, s[0], to);
      assert s[..1] + t == [s[0]] + t;
      assert ([s[0]] + t)[1..] == t;
    } else {
      var rest := s[1..];
      PrefixThen(next, mid, next[head], rest, k - 1, to, t);
      assert s[0] != s[k - 1];
      assert s[..k] + t == [s[0]] + (rest[..k - 1] + t);
      assert (s[..k] + t)[1..] == rest[..k - 1] + t;
    }
  }

  lemma ChainPrefix(next: map<Addr, Addr>, head: Addr, s: seq<Addr>, k: nat, b: Addr)
    requires Chained(next, head, s) && Distinct(s) && 0 < k < |s| && b !in s
    ensures forall i :: 0 <= i < k ==> s[i] in next && s[i] != s[k] && s[i] != b && s[i] !in s[k + 1..]
  {
    forall i | 0 <= i < k
      ensures s[i] in next && s[i] !in s[k + 1..]
    {
      ChainAt(next, head, s, i);
    }
  }

  /** One direction's pointers once `b` stands where `a` stood, between `from` and `to`. */
  function PointersWith(m: map<Addr, Addr>, from: Addr, a: Addr, b: Addr, to: Addr): (r: map<Addr, Addr>)
  {
    (if from != 0 then m[from := b] else m)[a := 0][b := to]
  }

  lemma OutsideReplaced(order: seq<Addr>, k: nat, b: Addr, from: Addr, to: Addr, m: map<Addr, Addr>)
    requires k < |order| && Distinct(order) && (from != 0 ==> from in order && from != order[k])
    requires forall c :: c !in order ==> At(m, c) == 0
    ensures forall c :: c !in order[k := b] ==> At(PointersWith(m, from, order[k], b, to), c) == 0
  {
    var r := order[k := b];
    assert r[k] == b;
    forall c | c in order && c != order[k]
      ensures c in r
    {
      var j :| 0 <= j < |order| && order[j] == c;
      assert r[j] == c;
    }
  }

  lemma RevReplaced(order: seq<Addr>, k: nat, b: Addr)
    requires k < |order|
    ensures Rev(order[k := b]) == Rev(order)[|order| - 1 - k := b]
  {
  }

  lemma DistinctReplaced(order: seq<Addr>, k: nat, b: Addr)
    requires k < |order| && Distinct(order) && b !in order
    ensures Distinct(order[k := b])
  {
  }

  lemma Replaced(order: seq<Addr>, k: nat, b: Addr, head: Addr, tail: Addr, prev: map<Addr, Addr>, next: map<Addr, Addr>)
    requires Linked(order, head, tail, prev, next) && k < |order| && b !in order && b != 0
    ensures var a := order[k];
            var p, n := At(prev, a), At(next, a);
            Linked(order[k := b], if p != 0 then head else b, if n != 0 then tail else b,
                   PointersWith(prev, n, a, b, p), PointersWith(next, p, a, b, n))
  {
    hide Chained, Rev, Distinct;
    var m := |order| - 1 - k;
    LinkedAt(order, head, tail, prev, next, k);
    if k > 0 {
      LinkedAt(order, head, tail, prev, next, k - 1);
    }
    if k + 1 < |order| {
      LinkedAt(order, head, tail, prev, next, k + 1);
    }
    NeighboursDiffer(order, k);
    RevDistinct(order);
    ChainWith(next, head, order, k, b);
    ChainWith(prev, tail, Rev(order), m, b);
    RevReplaced(order, k, b);
    DistinctReplaced(order, k, b);
    OutsideReplaced(order, k, b, At(prev, order[k]), At(next, order[k]), next);
    OutsideReplaced(order, k, b, At(next, order[k]), At(prev, order[k]), prev);
  }

  lemma NeighboursDiffer(order: seq<Addr>, k: nat)
    requires k < |order| && Distinct(order)
    ensures k > 0 ==> order[k - 1] in order && order[k - 1] != order[k]
    ensures k + 1 < |order| ==> order[k + 1] in order && order[k + 1] != order[k]
  {
  }

  class List {
    var head: Addr
    var tail: Addr
    var prev: map<Addr, Addr>
    var next: map<Addr, Addr>
    ghost var order: seq<Addr>   // most recently used first

    ghost predicate Valid()
      reads this
    {
      Linked(order, head, tail, prev, next)
    }

    constructor ()
      ensures Valid() && order == []
    {
      head, tail, prev, next, order := 0, 0, map[], map[], [];
    }

    method Reset()
      modifies this
      ensures Valid() && order == []
    {
      head, tail, prev, next, order := 0, 0, map[], map[], [];
    }

    method Unlink(a: Addr)
      requires Valid() && a in order
      modifies this
      ensures Valid() && order == Without(old(order), a)
    {
      hide Linked;
      ghost var k :| 0 <= k < |order| && order[k] == a;
      Unlinked(order, k, head, tail, prev, next);
      ListIsDistinct(order, head, tail, prev, next);
      WithoutIs(order, k);
      var p, n := At(prev, a), At(next, a);
      if p != 0 {
        next := next[p := n];
      } else {
        head := n;
      }
      if n != 0 {
        prev := prev[n := p];
      } else {
        tail := p;
      }
      prev, next := prev[a := 0], next[a := 0];
      order := order[..k] + order[k + 1..];
    }

    /** `touch`: the node becomes the most recently used, whether it was in the list or not. */
    method Touch(a: Addr)
      requires Valid() && a != 0
      modifies this
      ensures Valid() && order == [a] + Without(old(order), a)
    {
      hide Linked;
      ListIsDistinct(order, head, tail, prev, next);
      HeadIsFirst(order, head, tail, prev, next);
      WithoutMembers(order, a);
      if head == a {
        assert order == [a] + order[1..];
        return;
      }
      IsListed(order, head, tail, prev, next, a);
      if At(prev, a) != 0 || At(next, a) != 0 || tail == a {
        Unlink(a);
      }
      Pushed(order, a, head, tail, prev, next);
      next := next[a := head];
      prev := prev[a := 0];
      if head != 0 {
        prev := prev[head := a];
      } else {
        tail := a;
      }
      head := a;
      order := [a] + order;
    }

    /** `grow_node` puts the new node exactly where the old one was. */
    method Replace(a: Addr, b: Addr)
      requires Valid() && a in order && b !in order && b != 0
      modifies this
      ensures Valid() && |order| == |old(order)|
      ensures forall i :: 0 <= i < |order| ==> order[i] == if old(order)[i] == a then b else old(order)[i]
    {
      hide Linked;
      ghost var k :| 0 <= k < |order| && order[k] == a;
      Replaced(order, k, b, head, tail, prev, next);
      ListIsDistinct(order, head, tail, prev, next);
      var p, n := At(prev, a), At(next, a);
      if p != 0 {
        next := next[p := b];
      } else {
        head := b;
      }
      if n != 0 {
        prev := prev[n := b];
      } else {
        tail := b;
      }
      prev, next := prev[a := 0][b := p], next[a := 0][b := n];
      order := order[k := b];
    }
  }

  lemma ListIsDistinct(order: seq<Addr>, head: Addr, tail: Addr, prev: map<Addr, Addr>, next: map<Addr, Addr>)
    requires Linked(order, head, tail, prev, next)
    ensures Distinct(order) && 0 !in order
  {
    forall k | 0 <= k < |order|
      ensures order[k] != 0
    {
      LinkedAt(order, head, tail, prev, next, k);
    }
  }

  lemma HeadIsFirst(order: seq<Addr>, head: Addr, tail: Addr, prev: map<Addr, Addr>, next: map<Addr, Addr>)
    requires Linked(order, head, tail, prev, next)
    ensures head == (if order == [] then 0 else order[0])
    ensures tail == (if order == [] then 0 else order[|order| - 1])
  {
  }

  /** A node other than the head is in the list exactly when one of its pointers says so. */
  lemma IsListed(order: seq<Addr>, head: Addr, tail: Addr, prev: map<Addr, Addr>, next: map<Addr, Addr>, a: Addr)
    requires Linked(order, head, tail, prev, next) && a != head && a != 0
    ensures a in order <==> At(prev, a) != 0 || At(next, a) != 0 || tail == a
  {
    HeadIsFirst(order, head, tail, prev, next);
    if a in order {
      var k :| 0 <= k < |order| && order[k] == a;
      LinkedAt(order, head, tail, prev, next, k);
      LinkedAt(order, head, tail, prev, next, k - 1);
    }
  }
}
