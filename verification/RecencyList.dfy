/** The recency list that specifies the LRU cache of system/common/lru.h: a
    sequence of entries with distinct keys, most recently touched first. */
module RecencyList {
  import opened Options

  datatype Entry<K, V> = Entry(key: K, value: V)

  // ----- lookups -----

  /** The position of `k`, or `|s|` when no entry has that key. */
  ghost function Position<K, V>(s: seq<Entry<K, V>>, k: K): (i: nat)
    ensures i <= |s|
    ensures i < |s| ==> s[i].key == k
    ensures i == |s| ==> forall j :: 0 <= j < |s| ==> s[j].key != k
  {
    if exists j :: 0 <= j < |s| && s[j].key == k then
      var j :| 0 <= j < |s| && s[j].key == k; j
    else |s|
  }

  ghost predicate Has<K, V>(s: seq<Entry<K, V>>, k: K) {
    Position(s, k) < |s|
  }

  ghost function Lookup<K, V>(s: seq<Entry<K, V>>, k: K): Option<V> {
    if Has(s, k) then Some(s[Position(s, k)].value) else None
  }

  ghost predicate DistinctKeys<K, V>(s: seq<Entry<K, V>>) {
    forall i, j :: 0 <= i < j < |s| ==> s[i].key != s[j].key
  }

  /** The contents with the recency order forgotten. */
  ghost function AsMap<K, V>(s: seq<Entry<K, V>>): map<K, V> {
    if s == [] then map[] else AsMap(s[1..])[s[0].key := s[0].value]
  }

  // ----- the operations of the cache -----

  ghost function Without<K, V>(s: seq<Entry<K, V>>, k: K): seq<Entry<K, V>> {
    var i := Position(s, k);
    if i == |s| then s else s[..i] + s[i + 1..]
  }

  /** Find, Get and HasKey move the entry they hit to the head. */
  ghost function Touch<K, V>(s: seq<Entry<K, V>>, k: K): seq<Entry<K, V>> {
    var i := Position(s, k);
    if i == |s| then s else [s[i]] + s[..i] + s[i + 1..]
  }

  ghost function Put<K, V>(s: seq<Entry<K, V>>, capacity: nat, k: K, v: V): seq<Entry<K, V>>
    requires capacity > 0
  {
    if Has(s, k) then [Entry(k, v)] + Without(s, k)
    else if |s| == capacity then [Entry(k, v)] + s[..|s| - 1]
    else [Entry(k, v)] + s
  }

  ghost function Evicted<K, V>(s: seq<Entry<K, V>>, capacity: nat, k: K): Option<Entry<K, V>>
    requires capacity > 0
  {
    if !Has(s, k) && |s| == capacity then Some(s[|s| - 1]) else None
  }

  ghost function KeyOf<K, V>(e: Option<Entry<K, V>>): set<K> {
    match e
    case None => {}
    case Some(e) => {e.key}
  }

  // ----- the operations seen as map updates -----

  lemma PositionAt<K, V>(s: seq<Entry<K, V>>, i: nat)
    requires DistinctKeys(s) && i < |s|
    ensures Position(s, s[i].key) == i
  {
  }

  lemma {:induction false} AsMapLookup<K, V>(s: seq<Entry<K, V>>, k: K)
    requires DistinctKeys(s)
    ensures k in AsMap(s) <==> Has(s, k)
    ensures k in AsMap(s) ==> Lookup(s, k) == Some(AsMap(s)[k])
  {
    if s != [] {
      AsMapLookup(s[1..], k);
    }
  }

  lemma {:induction false} MapSize<K, V>(s: seq<Entry<K, V>>)
    requires DistinctKeys(s)
    ensures |AsMap(s)| == |s|
  {
    if s != [] {
      MapSize(s[1..]);
      AsMapLookup(s[1..], s[0].key);
    }
  }

  lemma SamePosition<K, V, W>(s: seq<Entry<K, V>>, t: seq<Entry<K, W>>, k: K)
    requires |s| == |t| && DistinctKeys(s)
    requires forall i :: 0 <= i < |s| ==> s[i].key == t[i].key
    ensures Position(s, k) == Position(t, k)
  {
    if Position(s, k) < |s| {
      assert t[Position(s, k)].key == k;
    }
  }

  lemma WithoutIsDistinct<K, V>(s: seq<Entry<K, V>>, k: K)
    requires DistinctKeys(s)
    ensures DistinctKeys(Without(s, k)) && !Has(Without(s, k), k)
    ensures |Without(s, k)| == if Has(s, k) then |s| - 1 else |s|
  {
    var i, w := Position(s, k), Without(s, k);
    if i < |s| {
      assert forall j :: 0 <= j < |w| ==> w[j] == if j < i then s[j] else s[j + 1];
    }
  }

  lemma WithoutCons<K, V>(s: seq<Entry<K, V>>, k: K)
    requires DistinctKeys(s) && s != []
    ensures Without(s, k) == if s[0].key == k then s[1..] else [s[0]] + Without(s[1..], k)
  {
    var i, tail := Position(s, k), s[1..];
    if s[0].key == k {
      PositionAt(s, 0);
      assert Without(s, k) == s[..0] + tail;
    } else if i < |s| {
      assert tail[i - 1].key == k;
      PositionAt(tail, i - 1);
      assert s[..i] == [s[0]] + tail[..i - 1] && s[i + 1..] == tail[i..];
    } else {
      assert Position(tail, k) == |tail|;
    }
  }

  lemma UpdateThenRemove<K, V>(m: map<K, V>, a: K, v: V, k: K)
    ensures a != k ==> (m - {k})[a := v] == m[a := v] - {k}
    ensures a == k && k !in m ==> m[a := v] - {k} == m
    ensures a == k ==> (m - {k})[a := v] == m[a := v]
    ensures a in m && m[a] == v ==> m[a := v] == m
  {
  }

  /** Remove deletes exactly the one pair. */
  lemma {:induction false} WithoutAsMap<K, V>(s: seq<Entry<K, V>>, k: K)
    requires DistinctKeys(s)
    ensures AsMap(Without(s, k)) == AsMap(s) - {k}
  {
    if s == [] {
      assert Without(s, k) == [];
    } else {
      var tail := s[1..];
      WithoutCons(s, k);
      UpdateThenRemove(AsMap(tail), s[0].key, s[0].value, k);
      if s[0].key == k {
        AsMapLookup(tail, k);
      } else {
        WithoutAsMap(tail, k);
        ConsAsMap(s[0], Without(tail, k));
      }
    }
  }

  lemma ErasedAsMap<K, V>(s: seq<Entry<K, V>>, i: nat)
    requires DistinctKeys(s) && i < |s|
    ensures DistinctKeys(s[..i] + s[i + 1..]) && AsMap(s[..i] + s[i + 1..]) == AsMap(s) - {s[i].key}
  {
    PositionAt(s, i);
    WithoutIsDistinct(s, s[i].key);
    WithoutAsMap(s, s[i].key);
  }

  lemma ConsAsMap<K, V>(e: Entry<K, V>, s: seq<Entry<K, V>>)
    ensures AsMap([e] + s) == AsMap(s)[e.key := e.value]
    ensures DistinctKeys(s) && !Has(s, e.key) ==> DistinctKeys([e] + s)
  {
    assert ([e] + s)[1..] == s;
  }

  lemma TouchIsCons<K, V>(s: seq<Entry<K, V>>, k: K)
    requires Has(s, k)
    ensures Touch(s, k) == [s[Position(s, k)]] + Without(s, k)
  {
  }

  lemma TouchTail<K, V>(s: seq<Entry<K, V>>, k: K)
    ensures Has(s, k) ==> Touch(s, k) != [] && Touch(s, k)[1..] == Without(s, k)
  {
  }

  lemma {:induction false} TouchKeepsMap<K, V>(s: seq<Entry<K, V>>, k: K)
    requires DistinctKeys(s)
    ensures DistinctKeys(Touch(s, k)) && |Touch(s, k)| == |s|
    ensures AsMap(Touch(s, k)) == AsMap(s)
  {
    WithoutIsDistinct(s, k);
    if Has(s, k) {
      var e, w := s[Position(s, k)], Without(s, k);
      TouchIsCons(s, k);
      ConsAsMap(e, w);
      WithoutAsMap(s, k);
      AsMapLookup(s, k);
      UpdateThenRemove(AsMap(s), k, e.value, k);
    }
  }

  lemma WithoutTouched<K, V>(s: seq<Entry<K, V>>, k: K)
    requires DistinctKeys(s)
    ensures Without(Touch(s, k), k) == Without(s, k) && (Has(Touch(s, k), k) <==> Has(s, k))
  {
    TouchKeepsMap(s, k);
    if Has(s, k) {
      TouchIsCons(s, k);
      PositionAt(Touch(s, k), 0);
    }
  }

  /** The key of the entry that a Put takes out: its own, or that of the evicted entry. */
  ghost function Displaced<K, V>(s: seq<Entry<K, V>>, capacity: nat, k: K): K
    requires capacity > 0
  {
    var e := Evicted(s, capacity, k);
    if e.Some? then e.value.key else k
  }

  lemma PutIsCons<K, V>(s: seq<Entry<K, V>>, capacity: nat, k: K, v: V)
    requires capacity > 0 && |s| <= capacity && DistinctKeys(s)
    ensures Put(s, capacity, k, v) == [Entry(k, v)] + Without(s, Displaced(s, capacity, k))
    ensures |Without(s, Displaced(s, capacity, k))| < capacity
    ensures !Has(Without(s, Displaced(s, capacity, k)), k)
  {
    WithoutIsDistinct(s, Displaced(s, capacity, k));
    if !Has(s, k) && |s| == capacity {
      PositionAt(s, |s| - 1);
    }
  }

  /** Put evicts the least recently touched entry, only if the cache is full and the key new. */
  lemma EvictedEntry<K, V>(s: seq<Entry<K, V>>, capacity: nat, k: K)
    requires capacity > 0 && |s| <= capacity && DistinctKeys(s)
    ensures match Evicted(s, capacity, k)
            case None => k in AsMap(s) || |s| < capacity
            case Some(e) => |s| == capacity && k !in AsMap(s) && e == s[|s| - 1]
                            && e.key in AsMap(s) && AsMap(s)[e.key] == e.value
  {
    AsMapLookup(s, k);
    if Evicted(s, capacity, k).Some? {
      PositionAt(s, |s| - 1);
      AsMapLookup(s, s[|s| - 1].key);
    }
  }

  /** Put stores exactly the new pair, drops exactly the evicted entry, and evicts
      the least recently touched entry only when the cache is full and the key new. */
  lemma {:induction false} PutAsMap<K, V>(s: seq<Entry<K, V>>, capacity: nat, k: K, v: V)
    requires capacity > 0 && |s| <= capacity && DistinctKeys(s)
    ensures DistinctKeys(Put(s, capacity, k, v)) && |Put(s, capacity, k, v)| <= capacity
    ensures Put(s, capacity, k, v)[0] == Entry(k, v)
    ensures AsMap(Put(s, capacity, k, v)) == (AsMap(s) - KeyOf(Evicted(s, capacity, k)))[k := v]
    ensures match Evicted(s, capacity, k)
            case None => k in AsMap(s) || |s| < capacity
            case Some(e) => |s| == capacity && k !in AsMap(s) && e == s[|s| - 1]
                            && e.key in AsMap(s) && AsMap(s)[e.key] == e.value
  {
    var dropped := Displaced(s, capacity, k);
    PutIsCons(s, capacity, k, v);
    EvictedEntry(s, capacity, k);
    WithoutIsDistinct(s, dropped);
    WithoutAsMap(s, dropped);
    ConsAsMap(Entry(k, v), Without(s, dropped));
    UpdateOver(AsMap(s), k, v);
  }

  lemma UpdateOver<K, V>(m: map<K, V>, k: K, v: V)
    ensures (m - {k})[k := v] == m[k := v] && m - {} == m
  {
  }

  // ----- inclusion: a smaller cache holds a prefix of a larger one -----

  datatype Op<K, V> = DoPut(key: K, value: V) | DoRemove(key: K) | DoTouch(key: K)

  ghost function Apply<K, V>(s: seq<Entry<K, V>>, capacity: nat, op: Op<K, V>): seq<Entry<K, V>>
    requires capacity > 0
  {
    match op
    case DoPut(k, v) => Put(s, capacity, k, v)
    case DoRemove(k) => Without(s, k)
    case DoTouch(k) => Touch(s, k)
  }

  ghost function Run<K, V>(capacity: nat, ops: seq<Op<K, V>>): seq<Entry<K, V>>
    requires capacity > 0
  {
    if ops == [] then [] else Apply(Run(capacity, ops[..|ops| - 1]), capacity, ops[|ops| - 1])
  }

  lemma ApplyKeepsShape<K, V>(s: seq<Entry<K, V>>, capacity: nat, op: Op<K, V>)
    requires capacity > 0 && |s| <= capacity && DistinctKeys(s)
    ensures DistinctKeys(Apply(s, capacity, op)) && |Apply(s, capacity, op)| <= capacity
  {
    match op
    case DoPut(k, v) => PutAsMap(s, capacity, k, v);
    case DoRemove(k) => WithoutIsDistinct(s, k);
    case DoTouch(k) => TouchKeepsMap(s, k);
  }

  lemma {:induction false} RunShape<K, V>(capacity: nat, ops: seq<Op<K, V>>)
    requires capacity > 0
    ensures DistinctKeys(Run(capacity, ops)) && |Run(capacity, ops)| <= capacity
  {
    if ops != [] {
      RunShape(capacity, ops[..|ops| - 1]);
      ApplyKeepsShape(Run(capacity, ops[..|ops| - 1]), capacity, ops[|ops| - 1]);
    }
  }

  lemma PositionInPrefix<K, V>(s: seq<Entry<K, V>>, t: seq<Entry<K, V>>, k: K)
    requires s <= t && DistinctKeys(t)
    ensures Has(s, k) ==> Position(t, k) == Position(s, k)
    ensures !Has(s, k) ==> Position(t, k) >= |s|
  {
    if Has(s, k) {
      assert t[Position(s, k)].key == k;
      PositionAt(t, Position(s, k));
    }
  }

  lemma PrefixWithout<K, V>(s: seq<Entry<K, V>>, t: seq<Entry<K, V>>, k: K)
    requires s <= t && DistinctKeys(t)
    ensures Without(s, k) <= Without(t, k)
    ensures Has(s, k) || !Has(t, k) ==> Touch(s, k) <= Touch(t, k)
  {
    PositionInPrefix(s, t, k);
    var i := Position(t, k);
    if i < |s| {
      assert s[..i] == t[..i] && s[i + 1..] <= t[i + 1..];
    }
  }

  lemma PrefixPut<K, V>(s: seq<Entry<K, V>>, t: seq<Entry<K, V>>, c: nat, d: nat, k: K, v: V)
    requires 0 < c <= d && |s| <= c && |t| <= d
    requires s <= t && DistinctKeys(t)
    ensures Put(s, c, k, v) <= Put(t, d, k, v)
  {
    PositionInPrefix(s, t, k);
    PrefixWithout(s, t, k);
    assert s == t[..|s|];
  }

  /** Put and Remove keep a smaller cache a prefix of a larger one; a lookup keeps
      it exactly when it does not hit in the larger cache alone. */
  lemma {:induction false} ApplyKeepsPrefix<K, V>(
    s: seq<Entry<K, V>>, t: seq<Entry<K, V>>, c: nat, d: nat, op: Op<K, V>)
    requires 0 < c <= d && |s| <= c && |t| <= d
    requires s <= t && DistinctKeys(t)
    ensures !op.DoTouch? ==> Apply(s, c, op) <= Apply(t, d, op)
    ensures op.DoTouch? ==>
      (Apply(s, c, op) <= Apply(t, d, op) <==> (s == [] || Has(s, op.key) || !Has(t, op.key)))
  {
    match op
    case DoPut(k, v) => PrefixPut(s, t, c, d, k, v);
    case DoRemove(k) => PrefixWithout(s, t, k);
    case DoTouch(k) =>
      PrefixWithout(s, t, k);
      if s != [] && !Has(s, k) && Has(t, k) {
        assert Touch(t, k)[0].key == k && Touch(s, k)[0].key != k;
      }
  }

  ghost predicate NoTouch<K, V>(ops: seq<Op<K, V>>) {
    forall op :: op in ops ==> !op.DoTouch?
  }

  ghost predicate OnlyPuts<K, V>(ops: seq<Op<K, V>>) {
    forall op :: op in ops ==> op.DoPut?
  }

  /** LRU inclusion over every run of Put and Remove. */
  lemma {:induction false} Inclusion<K, V>(c: nat, d: nat, ops: seq<Op<K, V>>)
    requires 0 < c <= d && NoTouch(ops)
    ensures Run(c, ops) <= Run(d, ops)
  {
    if ops != [] {
      var before := ops[..|ops| - 1];
      Inclusion(c, d, before);
      RunShape(c, before);
      RunShape(d, before);
      ApplyKeepsPrefix(Run(c, before), Run(d, before), c, d, ops[|ops| - 1]);
    }
  }

  lemma {:induction false} PutsFill<K, V>(c: nat, d: nat, ops: seq<Op<K, V>>)
    requires 0 < c <= d && OnlyPuts(ops)
    ensures |Run(c, ops)| == if |Run(d, ops)| < c then |Run(d, ops)| else c
  {
    if ops != [] {
      var before, k := ops[..|ops| - 1], ops[|ops| - 1].key;
      PutsFill(c, d, before);
      Inclusion(c, d, before);
      RunShape(c, before);
      RunShape(d, before);
      PositionInPrefix(Run(c, before), Run(d, before), k);
      WithoutIsDistinct(Run(c, before), k);
      WithoutIsDistinct(Run(d, before), k);
    }
  }

  /** After any sequence of Puts the cache of capacity `c` holds, values included,
      the first `c` entries of a cache of any larger capacity `d`. */
  lemma PutInclusion<K, V>(c: nat, d: nat, ops: seq<Op<K, V>>)
    requires 0 < c <= d && OnlyPuts(ops)
    ensures Run(c, ops) == if |Run(d, ops)| < c then Run(d, ops) else Run(d, ops)[..c]
  {
    Inclusion(c, d, ops);
    PutsFill(c, d, ops);
  }

  /** With a lookup in the run inclusion can fail: the hit in the larger cache alone
      reorders it. */
  lemma LookupBreaksInclusion()
    ensures var ops := [DoPut(1, 10), DoPut(2, 20), DoTouch(1)];
            !(Run(1, ops) <= Run(2, ops))
  {
    var ops := [DoPut(1, 10), DoPut(2, 20), DoTouch(1)];
    var two, one := ops[..2], ops[..1];
    assert two[..1] == one && one[..0] == [];
    assert Run(1, one) == [Entry(1, 10)] && Run(2, one) == [Entry(1, 10)];
    assert Run(1, two) == [Entry(2, 20)] && Run(2, two) == [Entry(2, 20), Entry(1, 10)];
    assert Run(2, two)[1].key == 1;
    assert Run(1, ops) == Apply(Run(1, two), 1, ops[2]) && Run(2, ops) == Apply(Run(2, two), 2, ops[2]);
    ApplyKeepsPrefix(Run(1, two), Run(2, two), 1, 2, ops[2]);
  }
}
