/**
  * What it means for the hash table, the list in order of use, the expiry index and the node
  * payloads to describe one keyspace, and how each change to the nodes shows in that keyspace.
  */
module Nodes {
  import opened Bytes
  import opened Addresses
  import opened ExpiryIndex
  import opened Chains
  import opened BucketTable
  import opened LruList
  import opened Keyspace

  datatype Nodes = Nodes(keys: map<Addr, Key>, order: seq<Addr>, deadlines: map<Addr, int>, values: map<Addr, Value>)

  function EntryOf(deadlines: map<Addr, int>, values: map<Addr, Value>, a: Addr): (e: Entry)
    requires a in values
  {
    Entry(values[a], if a in deadlines then Some(deadlines[a]) else None)
  }

  /** The table, the list and the index have the same nodes. */
  ghost predicate OneNodeSet(n: Nodes)
  {
    && UniqueKeys(n.keys) && Distinct(n.order)
    && (forall a :: a in n.order <==> a in n.keys)
    && n.keys.Keys <= n.values.Keys && n.deadlines.Keys <= n.keys.Keys
  }

  ghost predicate Represents(keys: map<Addr, Key>, deadlines: map<Addr, int>, values: map<Addr, Value>, ks: Ks)
  {
    && (forall a :: a in keys ==> a in values && keys[a] in ks && ks[keys[a]] == EntryOf(deadlines, values, a))
    && (forall key :: key in ks ==> exists a :: a in keys && keys[a] == key)
  }

  ghost predicate InOrder(keys: map<Addr, Key>, order: seq<Addr>, recent: seq<Key>)
  {
    |recent| == |order| && forall i :: 0 <= i < |order| ==> order[i] in keys && keys[order[i]] == recent[i]
  }

  /** The nodes hold exactly the keyspace, and the list has its keys most recently used first. */
  ghost predicate Coherent(n: Nodes, ks: Ks, recent: seq<Key>)
  {
    OneNodeSet(n) && Represents(n.keys, n.deadlines, n.values, ks) && InOrder(n.keys, n.order, recent)
  }

  lemma Present(n: Nodes, ks: Ks, recent: seq<Key>, a: Addr)
    requires Coherent(n, ks, recent) && a in n.keys
    ensures a in n.order && a in n.values && n.keys[a] in ks && ks[n.keys[a]] == EntryOf(n.deadlines, n.values, a)
  {
  }

  lemma Absent(n: Nodes, ks: Ks, recent: seq<Key>, key: Key)
    requires Coherent(n, ks, recent) && forall a :: a in n.keys ==> n.keys[a] != key
    ensures key !in ks && Drop(recent, key) == recent
  {
    assert key !in recent;
    DropAbsent(recent, key);
  }

  /** Payloads of blocks that are not nodes do not matter. */
  lemma OtherValues(n: Nodes, ks: Ks, recent: seq<Key>, values: map<Addr, Value>)
    requires Coherent(n, ks, recent) && forall a :: a in n.keys && a in n.values ==> a in values && values[a] == n.values[a]
    ensures Coherent(n.(values := values), ks, recent)
  {
    hide Distinct, InOrder;
  }

  // ---------- the order of use ----------

  /** Dropping a key and unlinking its node are the same. */
  lemma {:induction false} DropIsWithout(keys: map<Addr, Key>, order: seq<Addr>, recent: seq<Key>, a: Addr)
    requires UniqueKeys(keys) && InOrder(keys, order, recent) && a in keys
    ensures InOrder(keys, Without(order, a), Drop(recent, keys[a]))
    decreases |order|
  {
    if order != [] {
      var o, r := order[1..], recent[1..];
      assert InOrder(keys, o, r);
      DropIsWithout(keys, o, r, a);
      assert order[0] == a <==> recent[0] == keys[a];
      if order[0] != a {
        InOrderAfter(keys, order[0], Without(o, a), Drop(r, keys[a]));
      }
    }
  }

  lemma InOrderAfter(keys: map<Addr, Key>, a: Addr, order: seq<Addr>, recent: seq<Key>)
    requires InOrder(keys, order, recent) && a in keys
    ensures InOrder(keys, [a] + order, [keys[a]] + recent)
  {
  }

  lemma InOrderFrame(keys: map<Addr, Key>, keys': map<Addr, Key>, order: seq<Addr>, recent: seq<Key>)
    requires InOrder(keys, order, recent) && forall a :: a in order && a in keys ==> a in keys' && keys'[a] == keys[a]
    ensures InOrder(keys', order, recent)
  {
  }

  // ---------- one step on the nodes ----------

  lemma Erased(n: Nodes, ks: Ks, recent: seq<Key>, a: Addr)
    requires Coherent(n, ks, recent) && a in n.keys
    ensures Coherent(Nodes(n.keys - {a}, Without(n.order, a), n.deadlines - {a}, n.values - {a}),
                     ks - {n.keys[a]}, Drop(recent, n.keys[a]))
  {
    hide Represents, Distinct, Without, Drop, InOrder, UniqueKeys;
    ErasedRepresents(n.keys, n.deadlines, n.values, ks, a);
    UniqueFrame(n.keys, n.keys - {a});
    WithoutMembers(n.order, a);
    DropIsWithout(n.keys, n.order, recent, a);
    InOrderFrame(n.keys, n.keys - {a}, Without(n.order, a), Drop(recent, n.keys[a]));
  }

  lemma UniqueFrame(keys: map<Addr, Key>, keys': map<Addr, Key>)
    requires UniqueKeys(keys) && forall a :: a in keys' ==> a in keys && keys'[a] == keys[a]
    ensures UniqueKeys(keys')
  {
  }

  lemma ErasedRepresents(keys: map<Addr, Key>, deadlines: map<Addr, int>, values: map<Addr, Value>, ks: Ks, a: Addr)
    requires UniqueKeys(keys) && Represents(keys, deadlines, values, ks) && a in keys
    ensures Represents(keys - {a}, deadlines - {a}, values - {a}, ks - {keys[a]})
  {
    forall b | b in keys && b != a
      ensures keys[b] != keys[a] && EntryOf(deadlines - {a}, values - {a}, b) == EntryOf(deadlines, values, b)
    {
    }
    forall key | key in ks - {keys[a]}
      ensures exists b :: b in keys - {a} && (keys - {a})[b] == key
    {
      var b :| b in keys && keys[b] == key;
      assert b in keys - {a};
    }
  }

  lemma Added(n: Nodes, ks: Ks, recent: seq<Key>, a: Addr, key: Key, v: Value)
    requires Coherent(n, ks, recent) && a !in n.keys && key !in ks
    ensures Coherent(Nodes(n.keys[a := key], [a] + n.order, n.deadlines, n.values[a := v]),
                     ks[key := Entry(v, None)], [key] + recent)
  {
    hide Represents, InOrder, UniqueKeys;
    AddedRepresents(n.keys, n.deadlines, n.values, ks, a, key, v);
    assert a !in n.order && a !in n.deadlines;
    InOrderFrame(n.keys, n.keys[a := key], n.order, recent);
    InOrderAfter(n.keys[a := key], a, n.order, recent);
    assert forall b :: b in [a] + n.order <==> b == a || b in n.order;
  }

  lemma AddedRepresents(keys: map<Addr, Key>, deadlines: map<Addr, int>, values: map<Addr, Value>, ks: Ks, a: Addr,
                        key: Key, v: Value)
    requires UniqueKeys(keys) && Represents(keys, deadlines, values, ks) && a !in keys && key !in ks && a !in deadlines
    ensures Represents(keys[a := key], deadlines, values[a := v], ks[key := Entry(v, None)]) && UniqueKeys(keys[a := key])
  {
    var keys', ks' := keys[a := key], ks[key := Entry(v, None)];
    forall b | b in keys
      ensures keys[b] != key && EntryOf(deadlines, values[a := v], b) == EntryOf(deadlines, values, b)
    {
    }
    forall k | k in ks'
      ensures exists b :: b in keys' && keys'[b] == k
    {
      if k == key {
        assert a in keys';
      } else {
        var b :| b in keys && keys[b] == k;
        assert b in keys';
      }
    }
  }

  /** The deadlines once `b` has taken the place of `a`. */
  function Inherited(deadlines: map<Addr, int>, a: Addr, b: Addr, keep: bool): (r: map<Addr, int>)
  {
    if keep && a in deadlines then (deadlines - {a})[b := deadlines[a]] else deadlines - {a}
  }

  /** A node whose place is taken by a new one for the same key, with or without its deadline. */
  lemma Succeeded(n: Nodes, ks: Ks, recent: seq<Key>, a: Addr, b: Addr, v: Value, keep: bool)
    requires Coherent(n, ks, recent) && a in n.keys && b !in n.keys
    ensures n.keys[a] in ks
    ensures var key := n.keys[a];
            Coherent(Nodes((n.keys - {a})[b := key], [b] + Without(n.order, a), Inherited(n.deadlines, a, b, keep),
                           (n.values - {a})[b := v]),
                     ks[key := Entry(v, if keep then ks[key].deadline else None)], Recent(recent, key, true))
  {
    hide Coherent, Without, Drop;
    var key := n.keys[a];
    Present(n, ks, recent, a);
    Erased(n, ks, recent, a);
    var n1 := Nodes(n.keys - {a}, Without(n.order, a), n.deadlines - {a}, n.values - {a});
    Added(n1, ks - {key}, Drop(recent, key), b, key, v);
    var n2 := Nodes(n1.keys[b := key], [b] + n1.order, n1.deadlines, n1.values[b := v]);
    var ks2 := (ks - {key})[key := Entry(v, None)];
    assert ks2 == ks[key := Entry(v, None)];
    if keep && a in n.deadlines {
      Scheduled(n2, ks2, [key] + Drop(recent, key), b, n.deadlines[a]);
      assert ks2[key := Entry(v, Some(n.deadlines[a]))] == ks[key := Entry(v, ks[key].deadline)];
    }
  }

  /** `grow_node`: a new node with everything the old one had, in the same place. */
  lemma Relocated(n: Nodes, ks: Ks, recent: seq<Key>, a: Addr, b: Addr, order: seq<Addr>)
    requires Coherent(n, ks, recent) && a in n.keys && b !in n.keys && |order| == |n.order|
    requires forall i :: 0 <= i < |order| ==> order[i] == if n.order[i] == a then b else n.order[i]
    ensures a in n.values
    ensures Coherent(Nodes((n.keys - {a})[b := n.keys[a]], order, Inherited(n.deadlines, a, b, true),
                           (n.values - {a})[b := n.values[a]]), ks, recent)
  {
    hide Represents;
    Present(n, ks, recent, a);
    var n' := Nodes((n.keys - {a})[b := n.keys[a]], order, Inherited(n.deadlines, a, b, true),
                    (n.values - {a})[b := n.values[a]]);
    MovedRepresents(n.keys, n.deadlines, n.values, ks, a, b);
    MovedOrder(n.keys, n.order, a, b, order);
    assert OneNodeSet(n');
    assert InOrder(n'.keys, order, recent);
  }

  lemma MovedOrder(keys: map<Addr, Key>, before: seq<Addr>, a: Addr, b: Addr, order: seq<Addr>)
    requires Distinct(before) && a in before && b !in before && |order| == |before|
    requires forall i :: 0 <= i < |order| ==> order[i] == if before[i] == a then b else before[i]
    ensures Distinct(order) && forall c :: c in order <==> c == b || (c in before && c != a)
  {
    forall c | c == b || (c in before && c != a)
      ensures c in order
    {
      var i :| 0 <= i < |before| && before[i] == if c == b then a else c;
      assert order[i] == c;
    }
  }

  lemma MovedRepresents(keys: map<Addr, Key>, deadlines: map<Addr, int>, values: map<Addr, Value>, ks: Ks, a: Addr, b: Addr)
    requires UniqueKeys(keys) && Represents(keys, deadlines, values, ks) && a in keys && b !in keys && b !in deadlines
    ensures a in values
    ensures Represents((keys - {a})[b := keys[a]], Inherited(deadlines, a, b, true), (values - {a})[b := values[a]], ks)
  {
    var keys' := (keys - {a})[b := keys[a]];
    forall c | c in keys && c != a
      ensures EntryOf(Inherited(deadlines, a, b, true), (values - {a})[b := values[a]], c) == EntryOf(deadlines, values, c)
    {
    }
    forall key | key in ks
      ensures exists c :: c in keys' && keys'[c] == key
    {
      var c :| c in keys && keys[c] == key;
      assert (if c == a then b else c) in keys';
    }
  }

  lemma Retouched(n: Nodes, ks: Ks, recent: seq<Key>, a: Addr)
    requires Coherent(n, ks, recent) && a in n.keys
    ensures Coherent(n.(order := [a] + Without(n.order, a)), ks, Recent(recent, n.keys[a], true))
  {
    hide Without, Drop, InOrder, UniqueKeys, Represents;
    var rest := Without(n.order, a);
    WithoutMembers(n.order, a);
    DropIsWithout(n.keys, n.order, recent, a);
    InOrderAfter(n.keys, a, rest, Drop(recent, n.keys[a]));
    assert forall b :: b in [a] + rest <==> b == a || b in rest;
  }

  /** A node with another value or another deadline; the other nodes are for other keys. */
  lemma Updated(keys: map<Addr, Key>, deadlines: map<Addr, int>, values: map<Addr, Value>, ks: Ks, a: Addr,
                deadlines': map<Addr, int>, v: Value)
    requires UniqueKeys(keys) && Represents(keys, deadlines, values, ks) && a in keys
    requires forall b :: b != a ==> (b in deadlines' <==> b in deadlines) && (b in deadlines ==> deadlines'[b] == deadlines[b])
    ensures Represents(keys, deadlines', values[a := v], ks[keys[a] := EntryOf(deadlines', values[a := v], a)])
  {
    forall b | b in keys && b != a
      ensures keys[b] != keys[a] && EntryOf(deadlines', values[a := v], b) == EntryOf(deadlines, values, b)
    {
    }
  }

  lemma Assigned(n: Nodes, ks: Ks, recent: seq<Key>, a: Addr, v: Value)
    requires Coherent(n, ks, recent) && a in n.keys
    ensures n.keys[a] in ks
    ensures Coherent(n.(values := n.values[a := v]), ks[n.keys[a] := ks[n.keys[a]].(value := v)], recent)
  {
    hide Distinct, InOrder, UniqueKeys, Represents;
    Present(n, ks, recent, a);
    Updated(n.keys, n.deadlines, n.values, ks, a, n.deadlines, v);
  }

  lemma Scheduled(n: Nodes, ks: Ks, recent: seq<Key>, a: Addr, deadline: int)
    requires Coherent(n, ks, recent) && a in n.keys
    ensures n.keys[a] in ks
    ensures Coherent(n.(deadlines := n.deadlines[a := deadline]),
                     ks[n.keys[a] := ks[n.keys[a]].(deadline := Some(deadline))], recent)
  {
    hide Distinct, InOrder, UniqueKeys, Represents;
    Present(n, ks, recent, a);
    Updated(n.keys, n.deadlines, n.values, ks, a, n.deadlines[a := deadline], n.values[a]);
    assert n.values[a := n.values[a]] == n.values;
  }

  lemma Unscheduled(n: Nodes, ks: Ks, recent: seq<Key>, a: Addr)
    requires Coherent(n, ks, recent) && a in n.keys
    ensures n.keys[a] in ks
    ensures Coherent(n.(deadlines := n.deadlines - {a}), ks[n.keys[a] := ks[n.keys[a]].(deadline := None)], recent)
  {
    hide Distinct, InOrder, UniqueKeys, Represents;
    Present(n, ks, recent, a);
    Updated(n.keys, n.deadlines, n.values, ks, a, n.deadlines - {a}, n.values[a]);
    assert n.values[a := n.values[a]] == n.values;
  }

  // ---------- adding up block sizes ----------

  ghost function Total(blocks: map<Addr, nat>): (n: nat)
    decreases |blocks|
  {
    if blocks == map[] then 0
    else
      var a :| a in blocks;
      assert |blocks - {a}| < |blocks| by { Smaller(blocks, a); }
      blocks[a] + Total(blocks - {a})
  }

  lemma Smaller<T>(m: map<Addr, T>, a: Addr)
    requires a in m
    ensures |m - {a}| == |m| - 1
  {
    assert m == (m - {a})[a := m[a]];
    assert (m - {a}).Keys == m.Keys - {a};
    assert |m.Keys| == |m| && |(m - {a}).Keys| == |m - {a}|;
  }

  lemma Larger<T>(m: map<Addr, T>, a: Addr, x: T)
    requires a !in m
    ensures |m[a := x]| == |m| + 1
  {
    Smaller(m[a := x], a);
    assert m[a := x] - {a} == m;
  }

  lemma {:induction false} TotalWithout(blocks: map<Addr, nat>, a: Addr)
    requires a in blocks
    ensures Total(blocks) == blocks[a] + Total(blocks - {a})
    decreases |blocks|
  {
    var b :| b in blocks && Total(blocks) == blocks[b] + Total(blocks - {b});
    if b != a {
      Smaller(blocks, b);
      TotalWithout(blocks - {b}, a);
      Smaller(blocks, a);
      TotalWithout(blocks - {a}, b);
      assert blocks - {a} - {b} == blocks - {b} - {a};
    }
  }

  lemma TotalWith(blocks: map<Addr, nat>, a: Addr, n: nat)
    requires a !in blocks
    ensures Total(blocks[a := n]) == Total(blocks) + n
  {
    TotalWithout(blocks[a := n], a);
    assert blocks[a := n] - {a} == blocks;
  }
}
