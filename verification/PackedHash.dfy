/** A hash as a packed run of pairs or as a table, src/database.cpp:869-1031, 1046-1130 and 1174-1225. */
module PackedHash {
  import opened Bytes
  import opened Pack
  import opened Keyspace
  import opened SizeClasses
  import opened PackedList

  const PACKED_LIMIT: nat := 128
  const PACKED_BYTES: nat := 4096

  datatype Pair = Pair(field: Bytes, value: Element)

  // ---------- the 16/16-bit count field of a packed hash ----------

  function HashCount(meta: nat): (n: nat) { meta % 65536 }
  function HashUsed(meta: nat): (n: nat) { meta / 65536 }
  function SetHashCount(meta: nat, count: nat): (r: nat) { meta / 65536 * 65536 + count % 65536 }
  function SetHashUsed(meta: nat, used: nat): (r: nat) { meta % 65536 + used * 65536 % 0x1_0000_0000 }

  /** Within the packed limits both halves are stored and read back exactly. */
  lemma MetaRoundTrip(meta: nat, count: nat, used: nat)
    requires count <= PACKED_LIMIT && used <= PACKED_BYTES
    ensures var m := SetHashUsed(SetHashCount(meta, count), used);
            HashCount(m) == count && HashUsed(m) == used && m <= MAX_U32
  {
    assert SetHashCount(meta, count) % 65536 == count;
    assert used * 65536 % 0x1_0000_0000 == used * 65536;
  }

  // ---------- the bytes of a packed hash ----------

  function EncodePair(p: Pair): (s: Bytes)
    ensures |s| == BodySize(Text(p.field)) + BodySize(p.value)
  {
    EncodeBody(Text(p.field)) + EncodeBody(p.value)
  }

  function EncodePairs(ps: seq<Pair>): (s: Bytes)
  {
    if ps == [] then [] else EncodePair(ps[0]) + EncodePairs(ps[1..])
  }

  lemma {:induction false} EncodePairsConcat(a: seq<Pair>, b: seq<Pair>)
    ensures EncodePairs(a + b) == EncodePairs(a) + EncodePairs(b)
    decreases |a|
  {
    hide EncodePair;
    if a == [] {
      assert a + b == b;
    } else {
      EncodePairsConcat(a[1..], b);
      assert (a + b)[1..] == a[1..] + b;
      Assoc(EncodePair(a[0]), EncodePairs(a[1..]), EncodePairs(b));
    }
  }

  lemma EncodeOnePair(p: Pair)
    ensures EncodePairs([p]) == EncodePair(p)
  {
    hide EncodePair;
    assert EncodePairs([p]) == EncodePair(p) + EncodePairs([]);
  }

  ghost predicate Distinct(ps: seq<Pair>) { forall i, j :: 0 <= i < j < |ps| ==> ps[i].field != ps[j].field }

  ghost predicate AllSmall(ps: seq<Pair>)
  {
    forall i :: 0 <= i < |ps| ==> |ps[i].field| <= MAX_U32 && Packable(ps[i].value)
  }

  ghost function PairsMap(ps: seq<Pair>): (m: map<Bytes, Element>)
  {
    if ps == [] then map[]
    else
      var last := ps[|ps| - 1];
      PairsMap(ps[..|ps| - 1])[last.field := last.value]
  }

  ghost predicate HasField(ps: seq<Pair>, f: Bytes) { exists i :: 0 <= i < |ps| && ps[i].field == f }

  lemma {:induction false} MapKeys(ps: seq<Pair>, f: Bytes)
    ensures f in PairsMap(ps) <==> HasField(ps, f)
    decreases |ps|
  {
    if ps != [] {
      var m := |ps| - 1;
      MapKeys(ps[..m], f);
      if HasField(ps, f) && ps[m].field != f {
        var i :| 0 <= i < |ps| && ps[i].field == f;
        assert ps[..m][i].field == f;
      }
    }
  }

  lemma {:induction false} MapAt(ps: seq<Pair>, k: nat)
    requires Distinct(ps) && k < |ps|
    ensures ps[k].field in PairsMap(ps) && PairsMap(ps)[ps[k].field] == ps[k].value
    decreases |ps|
  {
    var m := |ps| - 1;
    if k < m {
      MapAt(ps[..m], k);
      assert ps[k].field != ps[m].field;
    }
  }

  lemma MapAppend(ps: seq<Pair>, p: Pair)
    requires Distinct(ps) && p.field !in PairsMap(ps)
    ensures Distinct(ps + [p]) && PairsMap(ps + [p]) == PairsMap(ps)[p.field := p.value]
  {
    assert (ps + [p])[..|ps|] == ps;
    forall i | 0 <= i < |ps|
      ensures ps[i].field != p.field
    {
      MapAt(ps, i);
    }
  }

  lemma {:induction false} MapReplace(ps: seq<Pair>, k: nat, v: Element)
    requires Distinct(ps) && k < |ps|
    ensures PairsMap(ps[k := ps[k].(value := v)]) == PairsMap(ps)[ps[k].field := v]
    decreases |ps|
  {
    var m := |ps| - 1;
    var qs := ps[k := ps[k].(value := v)];
    if k == m {
      assert qs[..m] == ps[..m];
    } else {
      MapReplace(ps[..m], k, v);
      assert qs[..m] == ps[..m][k := ps[k].(value := v)];
      assert ps[k].field != ps[m].field;
    }
  }

  lemma {:induction false} MapRemove(ps: seq<Pair>, k: nat)
    requires Distinct(ps) && k < |ps|
    ensures PairsMap(ps[..k] + ps[k + 1..]) == PairsMap(ps) - {ps[k].field}
    decreases |ps|
  {
    var m := |ps| - 1;
    var front := ps[..m];
    if k == m {
      assert ps[..k] + ps[k + 1..] == front;
      MapKeys(front, ps[m].field);
    } else {
      MapRemove(front, k);
      RemovedFront(ps, k);
      assert ps[k].field != ps[m].field;
    }
  }

  lemma RemovedFront(ps: seq<Pair>, k: nat)
    requires k < |ps| - 1
    ensures var m := |ps| - 1;
            var qs := ps[..k] + ps[k + 1..];
            |qs| == m && qs[..m - 1] == ps[..m][..k] + ps[..m][k + 1..] && qs[m - 1] == ps[m]
  {
  }

  lemma DistinctEdits(ps: seq<Pair>, k: nat, v: Element)
    requires Distinct(ps) && k < |ps|
    ensures Distinct(ps[k := ps[k].(value := v)]) && Distinct(ps[..k] + ps[k + 1..])
  {
    var qs := ps[..k] + ps[k + 1..];
    forall i, j | 0 <= i < j < |qs|
      ensures qs[i].field != qs[j].field
    {
      var a, b := if i < k then i else i + 1, if j < k then j else j + 1;
      assert qs[i] == ps[a] && qs[j] == ps[b];
    }
  }

  lemma {:induction false} MapSize(ps: seq<Pair>)
    requires Distinct(ps)
    ensures |PairsMap(ps)| == |ps|
    decreases |ps|
  {
    if ps != [] {
      var m := |ps| - 1;
      MapSize(ps[..m]);
      MapKeys(ps[..m], ps[m].field);
      assert PairsMap(ps).Keys == PairsMap(ps[..m]).Keys + {ps[m].field};
    }
  }

  // ---------- the run of pairs inside its body ----------

  /** `s` is the packed form of a map. */
  ghost predicate Packs(s: Bytes, ps: seq<Pair>, m: map<Bytes, Element>)
  {
    Distinct(ps) && AllSmall(ps) && s == EncodePairs(ps) && PairsMap(ps) == m
  }

  /** The first `used` bytes of the body are. */
  ghost predicate Holding(body: Bytes, used: nat, ps: seq<Pair>, m: map<Bytes, Element>)
  {
    used <= |body| && Packs(body[..used], ps, m)
  }

  /** The pieces of a body around pair `k`. */
  lemma PairSlices(body: Bytes, used: nat, ps: seq<Pair>, k: nat)
    requires used <= |body| && body[..used] == EncodePairs(ps) && k < |ps|
    ensures var before, f, v, after :=
              EncodePairs(ps[..k]), EncodeBody(Text(ps[k].field)), EncodeBody(ps[k].value), EncodePairs(ps[k + 1..]);
            var at := |before|;
            var value := at + |f|;
            var end := value + |v|;
            && end + |after| == used
            && body[at..] == f + (v + (after + body[used..])) && body[value..] == v + (after + body[used..])
            && body[..at] == before && body[..value] == before + f && body[end..used] == after
            && |EncodePairs(ps[..k + 1])| == end
  {
    hide EncodePairs, EncodeBody;
    var before, f, v, after :=
      EncodePairs(ps[..k]), EncodeBody(Text(ps[k].field)), EncodeBody(ps[k].value), EncodePairs(ps[k + 1..]);
    PairsAround(ps, k);
    var rest := body[used..];
    assert body[0..] == body[..used] + rest;
    Assoc(before, f + (v + after), rest);
    Assoc(f, v + after, rest);
    Assoc(v, after, rest);
    Cut(body, 0, before, f + (v + (after + rest)));
    Cut(body, |before|, f, v + (after + rest));
    Cut(body, |before| + |f|, v, after + rest);
    Cut(body, |before| + |f| + |v|, after, rest);
    assert body[..|before|] == body[0..|before|];
    SlicesMeet(body, 0, |before|, |before| + |f|);
    assert body[..|before| + |f|] == body[0..|before| + |f|];
  }

  lemma PairsAround(ps: seq<Pair>, k: nat)
    requires k < |ps|
    ensures var p := ps[k];
            && EncodePairs(ps) == EncodePairs(ps[..k])
                                  + (EncodeBody(Text(p.field)) + (EncodeBody(p.value) + EncodePairs(ps[k + 1..])))
            && EncodePairs(ps[..k + 1]) == EncodePairs(ps[..k]) + EncodePair(p)
  {
    hide EncodePairs, EncodeBody;
    var p := ps[k];
    assert ps == ps[..k] + ([p] + ps[k + 1..]);
    EncodePairsConcat(ps[..k], [p] + ps[k + 1..]);
    EncodePairsConcat([p], ps[k + 1..]);
    EncodeOnePair(p);
    Assoc(EncodeBody(Text(p.field)), EncodeBody(p.value), EncodePairs(ps[k + 1..]));
    assert ps[..k + 1] == ps[..k] + [p];
    EncodePairsConcat(ps[..k], [p]);
  }

  /** A cursor at `at` reads the element `e`. */
  ghost predicate Reads(body: Bytes, at: nat, e: Element)
  {
    at <= |body| && Readable(body[at..]) && Decode(body[at..]) == e && ElementSize(body[at..]) == BodySize(e)
  }

  lemma ReadsEncoded(body: Bytes, at: nat, e: Element, rest: Bytes)
    requires at <= |body| && Packable(e) && body[at..] == EncodeBody(e) + rest
    ensures Reads(body, at, e)
  {
    hide EncodeBody, BodySize, Decode, Readable, ElementSize;
    DecodeEncoded(e, rest);
  }

  /** What a cursor at pair `k` and at its value reads. */
  lemma PairAt(body: Bytes, used: nat, ps: seq<Pair>, m: map<Bytes, Element>, k: nat)
    requires Holding(body, used, ps, m) && k < |ps|
    ensures var at := |EncodePairs(ps[..k])|;
            var value := at + BodySize(Text(ps[k].field));
            && value + BodySize(ps[k].value) <= used <= |body|
            && Reads(body, at, Text(ps[k].field)) && Reads(body, value, ps[k].value)
            && |EncodePairs(ps[..k + 1])| == value + BodySize(ps[k].value)
            && ps[k].field in m && m[ps[k].field] == ps[k].value
  {
    hide EncodePairs, EncodeBody, BodySize, Reads;
    PairSlices(body, used, ps, k);
    var v, after := EncodeBody(ps[k].value), EncodePairs(ps[k + 1..]);
    var at := |EncodePairs(ps[..k])|;
    ReadsEncoded(body, at, Text(ps[k].field), v + (after + body[used..]));
    ReadsEncoded(body, at + BodySize(Text(ps[k].field)), ps[k].value, after + body[used..]);
    MapAt(ps, k);
  }

  /** Where the search for a field ended. */
  datatype Found = Absent | Present(at: nat, fieldBytes: nat)

  /** The search stopped at the value of pair `k`. */
  ghost predicate StopsAt(ps: seq<Pair>, field: Bytes, found: Found, k: nat)
  {
    && found.Present? && k < |ps| && ps[k].field == field
    && found.fieldBytes == BodySize(Text(field)) && found.at == |EncodePairs(ps[..k])| + found.fieldBytes
  }

  /** `hash_find`: walk the pairs, comparing decoded fields. */
  method Search(body: Bytes, count: nat, field: Bytes, ghost used: nat, ghost ps: seq<Pair>, ghost m: map<Bytes, Element>)
    returns (found: Found, ghost k: nat)
    requires Holding(body, used, ps, m) && count == |ps|
    ensures found.Absent? <==> field !in m
    ensures found.Present? ==> StopsAt(ps, field, found, k)
  {
    hide Holding, EncodePairs, BodySize, Decode, Readable, ElementSize;
    k := 0;
    var cursor := 0;
    assert ps[..0] == [];
    NoPairs();
    for index := 0 to count
      invariant cursor == |EncodePairs(ps[..index])|
      invariant forall i :: 0 <= i < index ==> ps[i].field != field
    {
      PairAt(body, used, ps, m, index);
      var decoded := Decode(body[cursor..]);
      var fieldBytes := ElementSize(body[cursor..]);
      cursor := cursor + fieldBytes;
      if decoded.Text? && decoded.text == field {
        k := index;
        return Present(cursor, fieldBytes), index;
      }
      cursor := cursor + ElementSize(body[cursor..]);
    }
    NotPacked(body, used, ps, m, field);
    found := Absent;
  }

  lemma NotPacked(body: Bytes, used: nat, ps: seq<Pair>, m: map<Bytes, Element>, field: Bytes)
    requires Holding(body, used, ps, m) && forall i :: 0 <= i < |ps| ==> ps[i].field != field
    ensures field !in m
  {
    MapKeys(ps, field);
  }

  lemma NoPairs()
    ensures EncodePairs([]) == [] && Packs([], [], map[])
  {
  }

  // ---------- edits of a packed run ----------

  lemma PacksAppend(s: Bytes, ps: seq<Pair>, m: map<Bytes, Element>, p: Pair)
    requires Packs(s, ps, m) && p.field !in m && |p.field| <= MAX_U32 && Packable(p.value)
    ensures Packs(s + EncodePair(p), ps + [p], m[p.field := p.value])
  {
    hide EncodePairs, EncodePair, Packable, PairsMap, Distinct;
    EncodePairsConcat(ps, [p]);
    EncodeOnePair(p);
    MapAppend(ps, p);
  }

  /** The run with the value of pair `k` replaced. */
  lemma PacksReplace(body: Bytes, used: nat, ps: seq<Pair>, m: map<Bytes, Element>, k: nat, v: Element)
    requires Holding(body, used, ps, m) && k < |ps| && Packable(v)
    ensures var at := |EncodePairs(ps[..k])| + BodySize(Text(ps[k].field));
            && at + BodySize(ps[k].value) <= used <= |body|
            && Packs(body[..at] + EncodeBody(v) + body[at + BodySize(ps[k].value)..used],
                     ps[k := ps[k].(value := v)], m[ps[k].field := v])
  {
    hide EncodePairs, EncodeBody, BodySize, Packable, PairsMap, Distinct;
    PairSlices(body, used, ps, k);
    DistinctEdits(ps, k, v);
    MapReplace(ps, k, v);
    var qs := ps[k := ps[k].(value := v)];
    assert qs[..k] == ps[..k] && qs[k + 1..] == ps[k + 1..];
    PairsAround(qs, k);
    var before, f, after := EncodePairs(ps[..k]), EncodeBody(Text(ps[k].field)), EncodePairs(ps[k + 1..]);
    Assoc(before, f, EncodeBody(v) + after);
    Assoc(before + f, EncodeBody(v), after);
  }

  /** The run with pair `k` cut out. */
  lemma PacksRemove(body: Bytes, used: nat, ps: seq<Pair>, m: map<Bytes, Element>, k: nat)
    requires Holding(body, used, ps, m) && k < |ps|
    ensures var from := |EncodePairs(ps[..k])|;
            var to := from + BodySize(Text(ps[k].field)) + BodySize(ps[k].value);
            && to <= used <= |body|
            && Packs(body[..from] + body[to..used], ps[..k] + ps[k + 1..], m - {ps[k].field})
  {
    hide EncodePairs, EncodeBody, BodySize, Packable, PairsMap, Distinct;
    PairSlices(body, used, ps, k);
    DistinctEdits(ps, k, ps[k].value);
    MapRemove(ps, k);
    EncodePairsConcat(ps[..k], ps[k + 1..]);
  }

  /** A run written at the start of a block. */
  lemma HoldsSplice(block: Bytes, content: Bytes, ps: seq<Pair>, m: map<Bytes, Element>)
    requires |content| <= |block| && Packs(content, ps, m)
    ensures Holding(Splice(block, 0, content), |content|, ps, m)
  {
    hide Splice, Packs;
    SpliceAt(block, 0, content, 0, 0);
    assert Splice(block, 0, content)[0..|content|] == Splice(block, 0, content)[..|content|];
  }

  lemma HoldsPrefix(body: Bytes, used: nat, ps: seq<Pair>, m: map<Bytes, Element>)
    requires used <= |body| && Packs(body[..used], ps, m)
    ensures Holding(body, used, ps, m)
  {
  }

  // ---------- the hash node ----------

  datatype HashOutcome = Assigned(added: nat) | Refused | OutOfMemory

  class HashNode {
    const keyLength: nat
    var promoted: bool
    var table: map<Bytes, Element>   // when promoted
    var body: Bytes                  // otherwise: the whole body, `used` bytes of it packed pairs
    var meta: nat                    // the node's 32-bit count field
    ghost var pairs: seq<Pair>
    ghost var fields: map<Bytes, Element>   // what the hash holds

    ghost predicate Valid()
      reads this
    {
      if promoted then table == fields && meta == |table| % 0x1_0000_0000
      else
        && Holding(body, HashUsed(meta), pairs, fields)
        && HashCount(meta) == |pairs| <= PACKED_LIMIT && HashUsed(meta) <= PACKED_BYTES
    }

    constructor (keyLength: nat)
      ensures Valid() && fields == map[] && this.keyLength == keyLength
    {
      this.keyLength := keyLength;
      promoted, table, body, meta, pairs, fields := false, map[], [], 0, [], map[];
      NoPairs();
      ghost var nothing: Bytes := [];
      assert nothing[..0] == [];
    }

    method Get(field: Bytes) returns (value: Option<Element>)
      requires Valid()
      ensures value == if field in fields then Some(fields[field]) else None
    {
      hide Holding, EncodePairs, BodySize, Decode, Readable, ElementSize, HashCount, HashUsed;
      if promoted {
        return if field in table then Some(table[field]) else None;
      }
      var found, k := Search(body, HashCount(meta), field, HashUsed(meta), pairs, fields);
      if found.Absent? {
        return None;
      }
      PairAt(body, HashUsed(meta), pairs, fields, k);
      value := Some(Decode(body[found.at..]));
    }

    method Length() returns (n: nat)
      requires Valid()
      ensures n == |fields|
    {
      hide EncodePairs, HashCount, HashUsed;
      if promoted {
        return |table|;
      }
      MapSize(pairs);
      n := HashCount(meta);
    }

    /** The packed pairs as a table, field by field. */
    method Unpack() returns (t: map<Bytes, Element>)
      requires Valid() && !promoted
      ensures t == fields
    {
      hide Holding, EncodePairs, BodySize, Decode, Readable, ElementSize, HashCount, HashUsed;
      t := map[];
      var cursor := 0;
      HeldMap(body, HashUsed(meta), pairs, fields);
      assert pairs[..0] == [];
      NoPairs();
      for i := 0 to HashCount(meta)
        invariant cursor == |EncodePairs(pairs[..i])| && t == PairsMap(pairs[..i])
      {
        PairAt(body, HashUsed(meta), pairs, fields, i);
        var name := Decode(body[cursor..]);
        cursor := cursor + ElementSize(body[cursor..]);
        var item := Decode(body[cursor..]);
        cursor := cursor + ElementSize(body[cursor..]);
        assert pairs[..i + 1][..i] == pairs[..i];
        t := t[name.text := item];
      }
      assert pairs[..|pairs|] == pairs;
    }

    /** Put the hash in a table with one field set. */
    method Promote(field: Bytes, value: Element)
      requires Valid() && !promoted
      modifies this
      ensures Valid() && fields == old(fields)[field := value]
    {
      var t := Unpack();
      promoted, table := true, t[field := value];
      meta := |table| % 0x1_0000_0000;
      fields := table;
    }

    /** `hash_assign` on an existing hash: refused over the limit, otherwise one field is set. */
    method Assign(field: Bytes, value: Element) returns (outcome: HashOutcome)
      requires Valid()
      modifies this
      ensures Valid()
      ensures outcome == Refused <==> |field| > LIMIT || BodySize(value) > LIMIT
      ensures outcome.Assigned? ==> outcome.added == if field in old(fields) then 0 else 1
      ensures fields == if outcome.Assigned? then old(fields)[field := value] else old(fields)
    {
      hide Holding, EncodePairs, BodySize, StopsAt, HashCount, HashUsed;
      if |field| > LIMIT || BodySize(value) > LIMIT {
        return Refused;
      }
      var granted: bool := *;
      if !granted {
        return OutOfMemory;
      }
      if promoted {
        var existing := field in table;
        table := table[field := value];
        meta := |table| % 0x1_0000_0000;
        fields := table;
        return Assigned(if existing then 0 else 1);
      }
      SmallValue(value);
      var found, k := Search(body, HashCount(meta), field, HashUsed(meta), pairs, fields);
      if found.Present? {
        AssignExisting(field, value, found, k);
        outcome := Assigned(0);
      } else {
        AssignNew(field, value);
        outcome := Assigned(1);
      }
    }

    /** A new field: appended in place, appended to a copy in a larger block, or put in a table. */
    method AssignNew(field: Bytes, value: Element)
      requires Valid() && !promoted && |field| <= LIMIT && Packable(value) && field !in fields
      modifies this
      ensures Valid() && fields == old(fields)[field := value]
    {
      hide Packs, EncodePairs, BodySize, HashCount, HashUsed, SetHashCount, SetHashUsed, Splice, EncodePair, Packable,
      BodyCapacity;
      var used, n := HashUsed(meta), HashCount(meta);
      var p := Pair(field, value);
      var needed := used + BodySize(Text(field)) + BodySize(value);
      if n + 1 > PACKED_LIMIT || needed > PACKED_BYTES {
        Promote(field, value);
        return;
      }
      PacksAppend(body[..used], pairs, fields, p);
      var block := body;
      if needed > |body| {
        block := Blank(BodyCapacity(keyLength, GrownBody(needed, |body|)));
        CopiedPrefix(body, used, block);
        block := Splice(block, 0, body[..used]);
      }
      Appended(block, used, EncodePair(p));
      body := Splice(block, used, EncodePair(p));
      MetaRoundTrip(meta, n + 1, needed);
      meta := SetHashUsed(SetHashCount(meta, n + 1), needed);
      pairs, fields := pairs + [p], fields[field := value];
    }

    /** An existing field: its value is replaced, moving what follows it, in place, in a larger block or in a table. */
    method AssignExisting(field: Bytes, value: Element, found: Found, ghost k: nat)
      requires Valid() && !promoted && Packable(value) && StopsAt(pairs, field, found, k)
      modifies this
      ensures Valid() && fields == old(fields)[field := value]
    {
      hide Packs, EncodePairs, EncodeBody, BodySize, HashCount, HashUsed, SetHashCount, SetHashUsed, Splice, ElementSize,
      Readable, Decode, Packable, BodyCapacity;
      var used, n := HashUsed(meta), HashCount(meta);
      PairAt(body, used, pairs, fields, k);
      PacksReplace(body, used, pairs, fields, k, value);
      var at := found.at;
      var oldBytes := ElementSize(body[at..]);
      var needed := used - oldBytes + BodySize(value);
      if n > PACKED_LIMIT || needed > PACKED_BYTES {
        Promote(field, value);
        return;
      }
      var written, tail := EncodeBody(value), body[at + oldBytes..used];
      if needed > |body| {
        var block := Blank(BodyCapacity(keyLength, GrownBody(needed, |body|)));
        var content := body[..at] + written + tail;
        SpliceWhole(block, content);
        body := Splice(block, 0, content);
      } else {
        InPlace(body, at, written, tail);
        body := Splice(Splice(body, at + |written|, tail), at, written);
      }
      MetaRoundTrip(meta, n, needed);
      meta := SetHashUsed(SetHashCount(meta, n), needed);
      pairs, fields := pairs[k := pairs[k].(value := value)], fields[field := value];
    }

    /** `hash_del`: the pair is cut out of the run, or the entry out of the table. */
    method Delete(field: Bytes) returns (removed: bool)
      requires Valid()
      modifies this
      ensures Valid() && removed == (field in old(fields)) && fields == old(fields) - {field}
    {
      hide Packs, Holding, EncodePairs, BodySize, SetHashCount, SetHashUsed, Splice, ElementSize, Readable, Decode,
      HashCount, HashUsed;
      if promoted {
        removed := field in table;
        table := table - {field};
        meta := |table| % 0x1_0000_0000;
        fields := table;
        return;
      }
      var used, n := HashUsed(meta), HashCount(meta);
      var found, k := Search(body, n, field, used, pairs, fields);
      if found.Absent? {
        return false;
      }
      PairAt(body, used, pairs, fields, k);
      PacksRemove(body, used, pairs, fields, k);
      var from := found.at - found.fieldBytes;
      var to := found.at + ElementSize(body[found.at..]);
      var left := used - (to - from);
      Appended(body, from, body[to..used]);
      body := Splice(body, from, body[to..used]);
      HoldsPrefix(body, left, pairs[..k] + pairs[k + 1..], fields - {field});
      MetaOtherOrder(meta, n - 1, left);
      meta := SetHashCount(SetHashUsed(meta, left), n - 1);
      pairs, fields := pairs[..k] + pairs[k + 1..], fields - {field};
      removed := true;
    }

    /** `hash_set_texts`: all pairs in order into a copy, which is then packed again or kept as a table. */
    method SetTexts(parts: seq<Bytes>) returns (outcome: HashOutcome)
      requires Valid() && |parts| % 2 == 0 && parts != []
      requires AllSmallFields(fields)
      modifies this
      ensures Valid()
      ensures outcome == Refused <==> exists i :: 0 <= i < |parts| && |parts[i]| > LIMIT
      ensures outcome.Assigned? ==> outcome.added == AddedPairs(old(fields), parts)
      ensures fields == if outcome.Assigned? then SetPairs(old(fields), parts) else old(fields)
    {
      hide Packs, EncodePairs, BodySize, HashCount, HashUsed, SetHashCount, SetHashUsed, Splice, SetPairs, AddedPairs,
      AllSmallFields, BodyCapacity;
      var t := table;
      if !promoted {
        t := Unpack();
      }
      var fits, full, added := Insert(t, parts);
      if !fits {
        return Refused;
      }
      var granted: bool := *;
      if !granted {
        return OutOfMemory;
      }
      var order := Visit(full);
      var bytes, content, ps := Repack(full, order);
      fields := full;
      if |full| > PACKED_LIMIT || bytes > PACKED_BYTES {
        promoted, table, meta := true, full, |full| % 0x1_0000_0000;
      } else {
        var block := Blank(BodyCapacity(keyLength, bytes));
        HoldsSplice(block, content, ps, full);
        body := Splice(block, 0, content);
        MetaRoundTrip(0, |full|, bytes);
        promoted, meta, pairs := false, SetHashUsed(SetHashCount(0, |full|), bytes), ps;
      }
      outcome := Assigned(added);
    }
  }

  // ---------- the loops of hash_set_texts ----------

  predicate AllSmallFields(m: map<Bytes, Element>) { forall f :: f in m ==> |f| <= MAX_U32 && Packable(m[f]) }

  method Insert(start: map<Bytes, Element>, parts: seq<Bytes>) returns (fits: bool, t: map<Bytes, Element>, added: nat)
    requires |parts| % 2 == 0 && AllSmallFields(start)
    ensures fits <==> forall i :: 0 <= i < |parts| ==> |parts[i]| <= LIMIT
    ensures fits ==> t == SetPairs(start, parts) && added == AddedPairs(start, parts)
    ensures AllSmallFields(t)
  {
    t, added := start, 0;
    var i := 0;
    assert parts[0..] == parts;
    while i < |parts|
      invariant 0 <= i <= |parts| && i % 2 == 0
      invariant forall k :: 0 <= k < i ==> |parts[k]| <= LIMIT
      invariant SetPairs(start, parts) == SetPairs(t, parts[i..])
      invariant AddedPairs(start, parts) == added + AddedPairs(t, parts[i..])
      invariant AllSmallFields(t)
    {
      if |parts[i]| > LIMIT || |parts[i + 1]| > LIMIT {
        return false, t, added;
      }
      assert parts[i..][2..] == parts[i + 2..];
      added := added + (if parts[i] in t then 0 else 1);
      t := t[parts[i] := Text(parts[i + 1])];
      i := i + 2;
    }
    fits := true;
  }

  ghost predicate NoRepeats(s: seq<Bytes>) { forall i, j :: 0 <= i < j < |s| ==> s[i] != s[j] }

  /** The order in which a table's entries are visited, whatever it is. */
  method Visit(t: map<Bytes, Element>) returns (order: seq<Bytes>)
    ensures NoRepeats(order) && forall f :: f in order <==> f in t
  {
    order := [];
    var rest := t.Keys;
    while rest != {}
      invariant NoRepeats(order) && rest <= t.Keys
      invariant forall f :: f in order <==> f in t && f !in rest
      decreases rest
    {
      var f :| f in rest;
      order := order + [f];
      rest := rest - {f};
    }
  }

  method Repack(t: map<Bytes, Element>, order: seq<Bytes>) returns (bytes: nat, content: Bytes, ghost ps: seq<Pair>)
    requires NoRepeats(order) && (forall f :: f in order <==> f in t) && AllSmallFields(t)
    ensures Packs(content, ps, t) && bytes == |content| && |ps| == |t|
  {
    hide EncodePairs, Packable, BodySize, Packs, Keep, EncodePair;
    bytes, ps, content := 0, [], [];
    NoPairs();
    KeepNothing(t, order);
    for i := 0 to |order|
      invariant |ps| == i && Packs(content, ps, Keep(t, order[..i])) && bytes == |content|
    {
      var f := order[i];
      assert f in order;
      var p := Pair(f, t[f]);
      KeepStep(t, order, i);
      PacksAppend(content, ps, Keep(t, order[..i]), p);
      bytes := bytes + BodySize(Text(p.field)) + BodySize(p.value);
      content := content + EncodePair(p);
      ps := ps + [p];
    }
    assert order[..|order|] == order;
    KeepAll(t, order);
    PackedSize(content, ps, t);
  }

  ghost function Keep(t: map<Bytes, Element>, order: seq<Bytes>): (m: map<Bytes, Element>)
  {
    map f | f in t && f in order :: t[f]
  }

  lemma KeepNothing(t: map<Bytes, Element>, order: seq<Bytes>)
    ensures Keep(t, order[..0]) == map[]
  {
  }

  lemma KeepAll(t: map<Bytes, Element>, order: seq<Bytes>)
    requires forall f :: f in order <==> f in t
    ensures Keep(t, order) == t
  {
  }

  lemma KeepStep(t: map<Bytes, Element>, order: seq<Bytes>, i: nat)
    requires i < |order| && NoRepeats(order) && order[i] in t
    ensures order[i] !in Keep(t, order[..i])
    ensures Keep(t, order[..i + 1]) == Keep(t, order[..i])[order[i] := t[order[i]]]
  {
    assert order[..i + 1] == order[..i] + [order[i]];
  }

  lemma PackedSize(s: Bytes, ps: seq<Pair>, m: map<Bytes, Element>)
    requires Packs(s, ps, m)
    ensures |ps| == |m|
  {
    MapSize(ps);
  }

  // ---------- small facts ----------

  lemma HeldMap(body: Bytes, used: nat, ps: seq<Pair>, m: map<Bytes, Element>)
    requires Holding(body, used, ps, m)
    ensures PairsMap(ps) == m
  {
  }

  lemma SmallValue(v: Element)
    requires BodySize(v) <= LIMIT
    ensures Packable(v)
  {
  }

  function GrownBody(required: nat, current: nat): (capacity: nat)
    ensures capacity >= required
  {
    var least := if required > 32 then required else 32;
    if current != 0 && current * 2 > least then current * 2 else least
  }

  lemma CopiedPrefix(body: Bytes, used: nat, block: Bytes)
    requires used <= |body| && used <= |block|
    ensures Splice(block, 0, body[..used])[..used] == body[..used]
  {
  }

  lemma SpliceWhole(block: Bytes, content: Bytes)
    requires |content| <= |block|
    ensures Splice(block, 0, content)[..|content|] == content
  {
  }

  lemma Appended(block: Bytes, used: nat, s: Bytes)
    requires used + |s| <= |block|
    ensures Splice(block, used, s)[..used + |s|] == block[..used] + s
  {
  }

  /** Moving the tail first and then writing the value leaves the value between the head and the tail. */
  lemma InPlace(body: Bytes, at: nat, value: Bytes, tail: Bytes)
    requires at + |value| + |tail| <= |body|
    ensures Splice(Splice(body, at + |value|, tail), at, value)[..at + |value| + |tail|] == body[..at] + value + tail
  {
  }

  lemma MetaOtherOrder(meta: nat, count: nat, used: nat)
    requires count <= PACKED_LIMIT && used <= PACKED_BYTES
    ensures var m := SetHashCount(SetHashUsed(meta, used), count);
            HashCount(m) == count && HashUsed(m) == used
  {
    var m := SetHashUsed(meta, used);
    assert used * 65536 % 0x1_0000_0000 == used * 65536;
    assert m / 65536 == used;
  }
}
