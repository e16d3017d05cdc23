/** The chained hash table, src/database.cpp:79-90, 165-181, 249-255, 313-325 and 346-369. */
module BucketTable {
  import opened Bytes
  import opened Addresses
  import opened Worlds
  import opened Chains

  type Key = Bytes

  // ---------- the table ----------

  datatype Table = Table(buckets: seq<Addr>, next: map<Addr, Addr>)

  function Slot(hash: Key -> nat, key: Key, n: nat): (i: nat)
    requires n > 0
    ensures i < n
  {
    hash(key) % n
  }

  /** Chain `i` holds only nodes whose key belongs in bucket `i`. */
  ghost predicate ChainOk(t: Table, chain: seq<Addr>, i: nat, keys: map<Addr, Key>, hash: Key -> nat)
    requires i < |t.buckets|
  {
    && Chained(t.next, t.buckets[i], chain) && Distinct(chain)
    && forall a :: a in chain ==> a in keys && Slot(hash, keys[a], |t.buckets|) == i
  }

  /** The chains hold exactly the nodes of `keys`, each in the bucket its key hashes to. */
  ghost predicate Holds(t: Table, chains: seq<seq<Addr>>, keys: map<Addr, Key>, hash: Key -> nat)
  {
    && |t.buckets| > 0 && |chains| == |t.buckets|
    && (forall i :: 0 <= i < |chains| ==> ChainOk(t, chains[i], i, keys, hash))
    && (forall a :: a in keys ==> a in chains[Slot(hash, keys[a], |t.buckets|)])
  }

  ghost predicate UniqueKeys(keys: map<Addr, Key>)
  {
    forall a, b :: a in keys && b in keys && keys[a] == keys[b] ==> a == b
  }

  lemma HoldsLink(t: Table, chains: seq<seq<Addr>>, keys: map<Addr, Key>, hash: Key -> nat, a: Addr, key: Key)
    requires Holds(t, chains, keys, hash) && a !in keys && a != 0
    ensures var i := Slot(hash, key, |t.buckets|);
            Holds(Table(t.buckets[i := a], t.next[a := t.buckets[i]]), chains[i := [a] + chains[i]], keys[a := key], hash)
  {
    hide Slot;
    var i := Slot(hash, key, |t.buckets|);
    var t' := Table(t.buckets[i := a], t.next[a := t.buckets[i]]);
    var keys' := keys[a := key];
    var chains' := chains[i := [a] + chains[i]];
    forall j | 0 <= j < |chains|
      ensures ChainOk(t', chains'[j], j, keys', hash)
    {
      assert ChainOk(t, chains[j], j, keys, hash);
      assert a !in chains[j];
      ChainFrame(t.next, t.buckets[j], chains[j], a, t.buckets[i]);
      if j == i {
        assert chains'[i][1..] == chains[i];
      }
    }
    assert a in chains'[i];
  }

  lemma OtherChains(t: Table, chains: seq<seq<Addr>>, keys: map<Addr, Key>, hash: Key -> nat, i: nat, j: nat, a: Addr)
    requires Holds(t, chains, keys, hash) && i < |chains| && j < |chains| && i != j && a in chains[i]
    ensures a !in chains[j]
  {
    assert ChainOk(t, chains[i], i, keys, hash) && ChainOk(t, chains[j], j, keys, hash);
  }

  /** The pointer that leads to element `k` of chain `i` made to lead to `to`. */
  function Redirected(t: Table, chain: seq<Addr>, i: nat, k: nat, to: Addr): (r: Table)
    requires i < |t.buckets| && k < |chain|
  {
    if k == 0 then t.(buckets := t.buckets[i := to]) else t.(next := t.next[chain[k - 1] := to])
  }

  /** Chain `i` cut before element `k` and continued with `tail`; the other chains do not notice. */
  lemma HoldsRedirected(t: Table, chains: seq<seq<Addr>>, keys: map<Addr, Key>, hash: Key -> nat, i: nat, k: nat,
                        to: Addr, tail: seq<Addr>, keys': map<Addr, Key>)
    requires Holds(t, chains, keys, hash) && i < |chains| && k < |chains[i]| && Chained(t.next, to, tail)
    requires var longer := chains[i][..k] + tail;
             && Distinct(longer) && (forall a :: a in longer ==> a in keys' && Slot(hash, keys'[a], |t.buckets|) == i)
             && (forall a :: a in keys' ==> a in longer || (a in keys && keys'[a] == keys[a] && a !in chains[i]))
    requires forall a :: a in keys && a !in chains[i] ==> a in keys' && keys'[a] == keys[a]
    ensures Holds(Redirected(t, chains[i], i, k, to), chains[i := chains[i][..k] + tail], keys', hash)
  {
    hide Slot, Redirected, ChainOk, Chained;
    var longer := chains[i][..k] + tail;
    var t' := Redirected(t, chains[i], i, k, to);
    var chains' := chains[i := longer];
    RedirectedShape(t, chains[i], i, k, to);
    ThisChain(t, chains, keys, hash, i, k, to, tail, keys');
    forall j | 0 <= j < |chains'|
      ensures ChainOk(t', chains'[j], j, keys', hash)
    {
      if j != i {
        OtherChainFrame(t, chains, keys, hash, i, k, to, j, keys');
      }
    }
    forall a | a in keys'
      ensures a in chains'[Slot(hash, keys'[a], |t.buckets|)]
    {
      if a !in longer {
        assert a in chains[Slot(hash, keys[a], |t.buckets|)];
      }
    }
  }

  lemma RedirectedShape(t: Table, chain: seq<Addr>, i: nat, k: nat, to: Addr)
    requires i < |t.buckets| && k < |chain|
    ensures |Redirected(t, chain, i, k, to).buckets| == |t.buckets|
  {
  }

  lemma ThisChain(t: Table, chains: seq<seq<Addr>>, keys: map<Addr, Key>, hash: Key -> nat, i: nat, k: nat,
                  to: Addr, tail: seq<Addr>, keys': map<Addr, Key>)
    requires Holds(t, chains, keys, hash) && i < |chains| && k < |chains[i]| && Chained(t.next, to, tail)
    requires var longer := chains[i][..k] + tail;
             && Distinct(longer) && (forall a :: a in longer ==> a in keys' && Slot(hash, keys'[a], |t.buckets|) == i)
    ensures ChainOk(Redirected(t, chains[i], i, k, to), chains[i][..k] + tail, i, keys', hash)
  {
    hide Slot, Chained;
    var chain := chains[i];
    var longer := chain[..k] + tail;
    assert ChainOk(t, chain, i, keys, hash);
    forall m | 0 <= m < k
      ensures chain[m] !in tail
    {
      assert longer[m] == chain[m];
      forall j | 0 <= j < |tail|
        ensures tail[j] != chain[m]
      {
        assert longer[k + j] == tail[j];
      }
    }
    ChainRedirect(t.next, t.buckets[i], chain, k, to, tail);
    if k == 0 {
      assert longer == tail;
    }
  }

  lemma OtherChainFrame(t: Table, chains: seq<seq<Addr>>, keys: map<Addr, Key>, hash: Key -> nat, i: nat, k: nat, to: Addr,
                        j: nat,
                        keys': map<Addr, Key>)
    requires Holds(t, chains, keys, hash) && i < |chains| && k < |chains[i]| && j < |chains| && j != i
    requires forall a :: a in keys && a !in chains[i] ==> a in keys' && keys'[a] == keys[a]
    ensures ChainOk(Redirected(t, chains[i], i, k, to), chains[j], j, keys', hash)
  {
    hide Slot, Chained;
    assert ChainOk(t, chains[j], j, keys, hash);
    if k > 0 {
      assert chains[i][k - 1] in chains[i];
      OtherChains(t, chains, keys, hash, i, j, chains[i][k - 1]);
      ChainFrame(t.next, t.buckets[j], chains[j], chains[i][k - 1], to);
    }
    forall a | a in chains[j]
      ensures a !in chains[i]
    {
      OtherChains(t, chains, keys, hash, j, i, a);
    }
  }

  lemma FindInChain(t: Table, chains: seq<seq<Addr>>, keys: map<Addr, Key>, hash: Key -> nat, a: Addr) returns (i: nat, k: nat)
    requires Holds(t, chains, keys, hash) && a in keys
    ensures i == Slot(hash, keys[a], |t.buckets|) < |chains| && k < |chains[i]| && chains[i][k] == a
    ensures Distinct(chains[i]) && a in t.next && Chained(t.next, t.next[a], chains[i][k + 1..])
    ensures forall b :: b in chains[i] ==> b in keys && Slot(hash, keys[b], |t.buckets|) == i
    ensures Chained(t.next, t.buckets[i], chains[i])
  {
    hide Slot;
    i := Slot(hash, keys[a], |t.buckets|);
    assert ChainOk(t, chains[i], i, keys, hash);
    k :| 0 <= k < |chains[i]| && chains[i][k] == a;
    ChainAt(t.next, t.buckets[i], chains[i], k);
  }

  lemma HoldsUnlinked(t: Table, chains: seq<seq<Addr>>, keys: map<Addr, Key>, hash: Key -> nat, a: Addr) returns (i: nat, k: nat)
    requires Holds(t, chains, keys, hash) && a in keys
    ensures i == Slot(hash, keys[a], |t.buckets|) < |chains| && k < |chains[i]| && chains[i][k] == a && a in t.next
    ensures Chained(t.next, t.buckets[i], chains[i]) && Distinct(chains[i])
    ensures Holds(Redirected(t, chains[i], i, k, t.next[a]), chains[i := chains[i][..k] + chains[i][k + 1..]], keys - {a}, hash)
  {
    hide Slot, Holds, Redirected;
    i, k := FindInChain(t, chains, keys, hash, a);
    CutOut(chains[i], k);
    HoldsRedirected(t, chains, keys, hash, i, k, t.next[a], chains[i][k + 1..], keys - {a});
  }

  lemma HoldsReplaced(t: Table, chains: seq<seq<Addr>>, keys: map<Addr, Key>, hash: Key -> nat, a: Addr, b: Addr)
    returns (i: nat, k: nat)
    requires Holds(t, chains, keys, hash) && a in keys && b !in keys && b != 0
    ensures i == Slot(hash, keys[a], |t.buckets|) < |chains| && k < |chains[i]| && chains[i][k] == a && a in t.next
    ensures var mid := t.(next := t.next[b := t.next[a]]);
            && Chained(mid.next, mid.buckets[i], chains[i]) && Distinct(chains[i])
            && Holds(Redirected(mid, chains[i], i, k, b), chains[i := Renamed(chains[i], k, b)], (keys - {a})[b := keys[a]], hash)
  {
    hide Slot, Holds, Redirected;
    i, k := FindInChain(t, chains, keys, hash, a);
    var chain := chains[i];
    var mid := t.(next := t.next[b := t.next[a]]);
    HoldsFrame(t, chains, keys, hash, b, t.next[a]);
    ChainFrame(t.next, t.buckets[i], chain, b, t.next[a]);
    ChainFrame(t.next, t.next[a], chain[k + 1..], b, t.next[a]);
    var tail := [b] + chain[k + 1..];
    assert tail[1..] == chain[k + 1..];
    Rename(chain, k, b);
    HoldsRedirected(mid, chains, keys, hash, i, k, b, tail, (keys - {a})[b := keys[a]]);
  }

  class Buckets {
    const hash: Key -> nat
    var buckets: seq<Addr>
    var next: map<Addr, Addr>
    var keys: map<Addr, Key>          // the key bytes of each linked node
    ghost var chains: seq<seq<Addr>>

    ghost predicate Valid()
      reads this
    {
      Holds(Table(buckets, next), chains, keys, hash) && UniqueKeys(keys)
    }

    constructor (hash: Key -> nat)
      ensures Valid() && keys == map[] && |buckets| == 16 && this.hash == hash
    {
      this.hash := hash;
      buckets, next, keys := seq(16, _ => 0), map[], map[];
      chains := seq(16, _ => []);
    }

    /** Every bucket is empty. */
    method Reset()
      requires |buckets| > 0 && forall i :: 0 <= i < |buckets| ==> buckets[i] == 0
      modifies this`next, this`keys, this`chains
      ensures Valid() && keys == map[]
    {
      next, keys := map[], map[];
      chains := seq(|buckets|, _ => []);
    }

    /** `find_node` is map lookup. */
    method Find(key: Key) returns (a: Addr)
      requires Valid()
      ensures a == 0 <==> forall b :: b in keys ==> keys[b] != key
      ensures a != 0 ==> a in keys && keys[a] == key
    {
      hide Slot;
      var i := Slot(hash, key, |buckets|);
      assert ChainOk(Table(buckets, next), chains[i], i, keys, hash);
      a := buckets[i];
      ghost var rest := chains[i];
      while a != 0
        invariant Chained(next, a, rest) && forall b :: b in rest ==> b in chains[i]
        invariant forall b :: b in chains[i] && b !in rest ==> keys[b] != key
        decreases |rest|
      {
        assert rest[0] in rest;
        if keys[a] == key {
          return;
        }
        assert rest == [rest[0]] + rest[1..];
        a, rest := next[a], rest[1..];
      }
      forall b | b in keys
        ensures keys[b] != key
      {
        assert b in chains[Slot(hash, keys[b], |buckets|)];
      }
    }

    method Link(a: Addr, key: Key)
      requires Valid() && a !in keys && a != 0 && forall b :: b in keys ==> keys[b] != key
      modifies this
      ensures Valid() && keys == old(keys)[a := key] && |buckets| == |old(buckets)|
    {
      hide Holds, Slot;
      NotEmpty(Table(buckets, next), chains, keys, hash);
      var i := Slot(hash, key, |buckets|);
      HoldsLink(Table(buckets, next), chains, keys, hash, a, key);
      chains := chains[i := [a] + chains[i]];
      next := next[a := buckets[i]];
      buckets := buckets[i := a];
      keys := keys[a := key];
    }

    /** Walk chain `i` to the pointer that leads to `a`, its element `k`, and make it lead to `to`. */
    method Redirect(a: Addr, to: Addr, i: nat, ghost chain: seq<Addr>, ghost k: nat)
      requires i < |buckets| && Chained(next, buckets[i], chain) && Distinct(chain) && k < |chain| && chain[k] == a
      modifies this`buckets, this`next
      ensures Table(buckets, next) == Redirected(Table(old(buckets), old(next)), chain, i, k, to)
    {
      ChainAt(next, buckets[i], chain, 0);
      if buckets[i] == a {
        assert k == 0;
        buckets := buckets[i := to];
        return;
      }
      var cursor := buckets[i];
      ghost var m := 0;
      while next[cursor] != a
        invariant buckets == old(buckets) && next == old(next)
        invariant 0 <= m < k && cursor == chain[m] && cursor in next
        decreases k - m
      {
        ChainNext(next, buckets[i], chain, m);
        m, cursor := m + 1, next[cursor];
        ChainAt(next, buckets[i], chain, m);
      }
      ChainNext(next, buckets[i], chain, m);
      next := next[cursor := to];
    }

    method Unlink(a: Addr)
      requires Valid() && a in keys
      modifies this
      ensures Valid() && keys == old(keys) - {a} && |buckets| == |old(buckets)|
    {
      hide Slot, Holds;
      ghost var i', k := HoldsUnlinked(Table(buckets, next), chains, keys, hash, a);
      NotEmpty(Table(buckets, next), chains, keys, hash);
      var i := Slot(hash, keys[a], |buckets|);
      Redirect(a, next[a], i, chains[i], k);
      chains := chains[i := chains[i][..k] + chains[i][k + 1..]];
      keys := keys - {a};
    }

    /** `grow_node`: the new node takes over the old one's key and its place in the chain. */
    method Replace(a: Addr, b: Addr)
      requires Valid() && a in keys && b !in keys && b != 0
      modifies this
      ensures Valid() && keys == (old(keys) - {a})[b := old(keys)[a]] && |buckets| == |old(buckets)|
    {
      hide Slot, Holds;
      ghost var i', k := HoldsReplaced(Table(buckets, next), chains, keys, hash, a, b);
      NotEmpty(Table(buckets, next), chains, keys, hash);
      var i := Slot(hash, keys[a], |buckets|);
      next := next[b := next[a]];
      Redirect(a, b, i, chains[i], k);
      chains := chains[i := Renamed(chains[i], k, b)];
      keys := (keys - {a})[b := keys[a]];
    }

    /** `maybe_rehash`: grow when the next key would exceed the bucket count; without memory nothing changes. */
    method MaybeRehash(total: nat, world: World) returns (ok: bool)
      requires Valid()
      modifies this, world`asked
      ensures Valid() && keys == old(keys)
      ensures |buckets| == |old(buckets)| || (ok && |buckets| == 2 * |old(buckets)|)
      ensures total + 1 <= |old(buckets)| ==> ok
      ensures if ok then Fine(old(world.Dealt()), world.Dealt()) else Denied(old(world.Dealt()), world.Dealt())
      ensures ok && !world.memory(old(world.asked)) ==> world.asked == old(world.asked)
    {
      if total + 1 <= |buckets| || |buckets| >= 0x8000_0000 {
        return true;
      }
      var granted := world.Grant();
      if !granted {
        return false;
      }
      Rehash(|buckets| * 2);
      ok := true;
    }

    /** `rehash`: every node is relinked into the new array; the same keys are found afterwards. */
    method Rehash(count: nat)
      requires Valid() && count > 0
      modifies this
      ensures Valid() && keys == old(keys) && |buckets| == count
    {
      hide Slot, Holds, ChainOk, Untouched, Moved, Moving, Agrees;
      var fresher := seq(count, _ => 0);
      ghost var made: seq<seq<Addr>> := seq(count, _ => []);
      ghost var done: map<Addr, Key> := map[];
      HoldsNothing(count, next, hash);
      NotEmpty(Table(buckets, next), chains, keys, hash);
      MoveBegins(Table(buckets, next), chains, keys, hash);
      for b := 0 to |buckets|
        invariant keys == old(keys) && buckets == old(buckets) && chains == old(chains)
        invariant |fresher| == count && Holds(Table(fresher, next), made, done, hash) && Agrees(done, keys)
        invariant Moved(chains, b, done) && Untouched(next, buckets, chains, b, done, keys)
      {
        var node := buckets[b];
        ghost var rest := chains[b];
        ChainBegins(next, buckets, chains, b, done, keys);
        while node != 0
          invariant keys == old(keys) && buckets == old(buckets) && chains == old(chains)
          invariant |fresher| == count && Holds(Table(fresher, next), made, done, hash) && Agrees(done, keys)
          invariant Moved(chains, b, done) && Untouched(next, buckets, chains, b + 1, done, keys)
          invariant Moving(next, node, rest, chains[b], done, keys)
          decreases |rest|
        {
          NodeMoves(next, node, rest, chains[b], done, keys);
          NotEmpty(Table(fresher, next), made, done, hash);
          var following := next[node];
          var index := Slot(hash, keys[node], count);
          HoldsLink(Table(fresher, next), made, done, hash, node, keys[node]);
          OthersStay(next, buckets, chains, b, done, keys, node, fresher[index]);
          ChainMoves(next, node, rest, chains[b], done, keys, fresher[index]);
          made := made[index := [node] + made[index]];
          done := done[node := keys[node]];
          next := next[node := fresher[index]];
          fresher := fresher[index := node];
          node, rest := following, rest[1..];
        }
        ChainEnds(next, rest, chains, b, done, keys);
      }
      EveryNode(next, buckets, chains, |buckets|, done, keys);
      MoveEnds(chains, done, keys);
      buckets, chains := fresher, made;
    }
  }

  // ---------- the progress of a rehash ----------

  ghost predicate Agrees(done: map<Addr, Key>, keys: map<Addr, Key>)
  {
    forall a :: a in done ==> a in keys && done[a] == keys[a]
  }

  /** The chains from `from` on are as they were, share no node, and none of their nodes has been moved. */
  ghost predicate Untouched(next: map<Addr, Addr>, buckets: seq<Addr>, chains: seq<seq<Addr>>, from: nat,
                            done: map<Addr, Key>, keys: map<Addr, Key>)
  {
    && |buckets| == |chains|
    && (forall j :: from <= j < |chains| ==> Chained(next, buckets[j], chains[j]) && Distinct(chains[j]))
    && (forall j, a :: from <= j < |chains| && a in chains[j] ==> a in keys && a !in done)
    && (forall i, j, a :: 0 <= i < j < |chains| && a in chains[i] ==> a !in chains[j])
    && (forall a :: a in keys ==> exists j :: 0 <= j < |chains| && a in chains[j])
  }

  ghost predicate Moved(chains: seq<seq<Addr>>, upto: nat, done: map<Addr, Key>)
  {
    forall j, a :: 0 <= j < upto && j < |chains| && a in chains[j] ==> a in done
  }

  /** `rest`, from `node` on, is the part of the chain still to be moved. */
  ghost predicate Moving(next: map<Addr, Addr>, node: Addr, rest: seq<Addr>, chain: seq<Addr>,
                         done: map<Addr, Key>, keys: map<Addr, Key>)
  {
    && Chained(next, node, rest) && Distinct(rest)
    && (forall a :: a in rest ==> a in chain && a !in done && a in keys)
    && (forall a :: a in chain && a !in rest ==> a in done)
  }

  lemma MoveBegins(t: Table, chains: seq<seq<Addr>>, keys: map<Addr, Key>, hash: Key -> nat)
    requires Holds(t, chains, keys, hash)
    ensures Untouched(t.next, t.buckets, chains, 0, map[], keys) && Moved(chains, 0, map[]) && Agrees(map[], keys)
  {
    hide Slot;
    forall j | 0 <= j < |chains|
      ensures Chained(t.next, t.buckets[j], chains[j]) && Distinct(chains[j]) && forall a :: a in chains[j] ==> a in keys
    {
      assert ChainOk(t, chains[j], j, keys, hash);
    }
    forall i, j, a | 0 <= i < j < |chains| && a in chains[i]
      ensures a !in chains[j]
    {
      OtherChains(t, chains, keys, hash, i, j, a);
    }
  }

  lemma ChainBegins(next: map<Addr, Addr>, buckets: seq<Addr>, chains: seq<seq<Addr>>, b: nat,
                    done: map<Addr, Key>, keys: map<Addr, Key>)
    requires Untouched(next, buckets, chains, b, done, keys) && b < |chains|
    ensures Moving(next, buckets[b], chains[b], chains[b], done, keys) && Untouched(next, buckets, chains, b + 1, done, keys)
  {
  }

  lemma NodeMoves(next: map<Addr, Addr>, node: Addr, rest: seq<Addr>, chain: seq<Addr>, done: map<Addr, Key>,
                  keys: map<Addr, Key>)
    requires Moving(next, node, rest, chain, done, keys) && node != 0
    ensures rest != [] && rest[0] == node && node in chain && node in next && node in keys && node !in done
  {
    assert rest[0] in rest;
  }

  lemma OthersStay(next: map<Addr, Addr>, buckets: seq<Addr>, chains: seq<seq<Addr>>, b: nat,
                   done: map<Addr, Key>, keys: map<Addr, Key>, node: Addr, to: Addr)
    requires Untouched(next, buckets, chains, b + 1, done, keys) && b < |chains| && node in chains[b] && node in keys
    requires Moved(chains, b, done) && Agrees(done, keys)
    ensures Untouched(next[node := to], buckets, chains, b + 1, done[node := keys[node]], keys)
    ensures Moved(chains, b, done[node := keys[node]]) && Agrees(done[node := keys[node]], keys)
  {
    forall j | b + 1 <= j < |chains|
      ensures Chained(next[node := to], buckets[j], chains[j])
    {
      assert node !in chains[j];
      ChainFrame(next, buckets[j], chains[j], node, to);
    }
  }

  lemma ChainMoves(next: map<Addr, Addr>, node: Addr, rest: seq<Addr>, chain: seq<Addr>,
                   done: map<Addr, Key>, keys: map<Addr, Key>, to: Addr)
    requires Moving(next, node, rest, chain, done, keys) && node != 0 && node in next && node in keys
    ensures rest != [] && Moving(next[node := to], next[node], rest[1..], chain, done[node := keys[node]], keys)
  {
    var tail := rest[1..];
    assert rest == [node] + tail;
    assert node !in tail;
    ChainFrame(next, next[node], tail, node, to);
  }

  lemma ChainEnds(next: map<Addr, Addr>, rest: seq<Addr>, chains: seq<seq<Addr>>, b: nat, done: map<Addr, Key>,
                  keys: map<Addr, Key>)
    requires b < |chains| && Moving(next, 0, rest, chains[b], done, keys) && Moved(chains, b, done)
    ensures Moved(chains, b + 1, done)
  {
  }

  lemma MoveEnds(chains: seq<seq<Addr>>, done: map<Addr, Key>, keys: map<Addr, Key>)
    requires Moved(chains, |chains|, done) && Agrees(done, keys)
    requires forall a :: a in keys ==> exists j :: 0 <= j < |chains| && a in chains[j]
    ensures done == keys
  {
  }

  lemma NotEmpty(t: Table, chains: seq<seq<Addr>>, keys: map<Addr, Key>, hash: Key -> nat)
    requires Holds(t, chains, keys, hash)
    ensures |t.buckets| > 0 && |chains| == |t.buckets|
  {
  }

  lemma HoldsNothing(count: nat, next: map<Addr, Addr>, hash: Key -> nat)
    requires count > 0
    ensures Holds(Table(seq(count, _ => 0), next), seq(count, _ => []), map[], hash)
  {
  }

  lemma HoldsFrame(t: Table, chains: seq<seq<Addr>>, keys: map<Addr, Key>, hash: Key -> nat, a: Addr, b: Addr)
    requires Holds(t, chains, keys, hash) && a !in keys
    ensures Holds(t.(next := t.next[a := b]), chains, keys, hash)
  {
    hide Slot;
    var t' := t.(next := t.next[a := b]);
    forall j | 0 <= j < |chains|
      ensures ChainOk(t', chains[j], j, keys, hash)
    {
      assert ChainOk(t, chains[j], j, keys, hash);
      ChainFrame(t.next, t.buckets[j], chains[j], a, b);
    }
  }

  lemma EveryNode(next: map<Addr, Addr>, buckets: seq<Addr>, chains: seq<seq<Addr>>, b: nat,
                  done: map<Addr, Key>, keys: map<Addr, Key>)
    requires Untouched(next, buckets, chains, b, done, keys)
    ensures |buckets| == |chains| && forall a :: a in keys ==> exists j :: 0 <= j < |chains| && a in chains[j]
  {
  }

  lemma CutOut(chain: seq<Addr>, k: nat)
    requires k < |chain| && Distinct(chain)
    ensures var r := chain[..k] + chain[k + 1..];
            Distinct(r) && chain[k] !in r && forall a :: a in r <==> a in chain && a != chain[k]
  {
    var r := chain[..k] + chain[k + 1..];
    forall a | a in chain && a != chain[k]
      ensures a in r
    {
      var j :| 0 <= j < |chain| && chain[j] == a;
      assert r[if j < k then j else j - 1] == a;
    }
  }

  function Renamed(chain: seq<Addr>, k: nat, b: Addr): (r: seq<Addr>)
    requires k < |chain|
  {
    chain[..k] + ([b] + chain[k + 1..])
  }

  lemma Rename(chain: seq<Addr>, k: nat, b: Addr)
    requires k < |chain| && Distinct(chain) && b !in chain
    ensures var r := Renamed(chain, k, b);
            Distinct(r) && chain[k] !in r && forall a :: a in r <==> a == b || (a in chain && a != chain[k])
  {
    var r := Renamed(chain, k, b);
    assert |r| == |chain| && r[k] == b;
    forall i | 0 <= i < |r| && i != k
      ensures r[i] == chain[i]
    {
    }
    forall a | a in chain && a != chain[k]
      ensures a in r
    {
      var j :| 0 <= j < |chain| && chain[j] == a;
      assert r[j] == a;
    }
  }
}
