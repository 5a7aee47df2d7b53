/** What the metric id allocator of system/common/metric_id_allocator.cc does to its
    state, operation by operation, and what every run of it keeps. */
module MetricIds {
  import opened Options
  import opened RecencyList

  /** A device address; the allocator only compares addresses. */
  datatype RawAddress = RawAddress(octets: seq<bv8>)

  type Devices = seq<Entry<RawAddress, int>>

  const MIN_ID := 1
  const MAX_ID := 65534
  const MAX_PAIRED := 65000
  const MAX_UNPAIRED := 200

  predicate IsValidId(id: int) {
    MIN_ID <= id <= MAX_ID
  }

  datatype State = State(
    paired: Devices,       // paired_device_cache_, most recent first
    temporary: Devices,    // temporary_device_cache_, most recent first
    ids: set<int>,         // id_set_
    next: int,             // next_id_
    callbacks: bool,       // save_id_callback_ and forget_device_callback_ have been set
    initialized: bool)

  // ----- the invariant -----

  ghost predicate UniqueIds(m: map<RawAddress, int>) {
    forall a, b :: a in m && b in m && a != b ==> m[a] != m[b]
  }

  ghost predicate ValidIds(m: map<RawAddress, int>) {
    forall a :: a in m ==> IsValidId(m[a])
  }

  /** No device is in both caches, no two devices share an id, every id is in range,
      and the id set is exactly the ids held. */
  ghost predicate Coherent(paired: map<RawAddress, int>, temporary: map<RawAddress, int>, ids: set<int>) {
    && paired.Keys !! temporary.Keys
    && UniqueIds(paired + temporary)
    && ValidIds(paired + temporary)
    && ids == (paired + temporary).Values
  }

  ghost predicate Books(s: State) {
    && DistinctKeys(s.paired) && |s.paired| <= MAX_PAIRED
    && DistinctKeys(s.temporary) && |s.temporary| <= MAX_UNPAIRED
    && Coherent(AsMap(s.paired), AsMap(s.temporary), s.ids)
  }

  ghost predicate Inv(s: State) {
    Books(s) && IsValidId(s.next)
  }

  /** A new device with a new id, in either cache. */
  lemma CoherentAdd(p: map<RawAddress, int>, t: map<RawAddress, int>, ids: set<int>, a: RawAddress, id: int)
    requires Coherent(p, t, ids) && a !in p && a !in t && id !in ids && IsValidId(id)
    ensures Coherent(p, t[a := id], ids + {id}) && Coherent(p[a := id], t, ids + {id})
  {
    var m, m' := p + t, p + t[a := id];
    assert m' == m[a := id] == p[a := id] + t;
    forall b | b in m ensures m[b] in ids && m'[b] != id {
      assert m[b] in m.Values;
    }
    forall i ensures i in ids + {id} <==> i in m'.Values {
      if i in ids {
        var b :| b in m && m[b] == i;
        assert m'[b] == i;
      } else if i == id {
        assert m'[a] == i;
      }
    }
  }

  lemma CoherentRemove(p: map<RawAddress, int>, t: map<RawAddress, int>, ids: set<int>, a: RawAddress)
    requires Coherent(p, t, ids) && a in p + t
    ensures Coherent(p - {a}, t - {a}, ids - {(p + t)[a]})
    ensures (p + t)[a] in ids
  {
    var m, m' := p + t, (p - {a}) + (t - {a});
    assert m' == m - {a};
    assert m[a] in m.Values;
    forall i ensures i in ids - {m[a]} <==> i in m'.Values {
      if i in ids && i != m[a] {
        var b :| b in m && m[b] == i;
        assert m'[b] == i;
      }
    }
  }

  lemma CoherentMove(p: map<RawAddress, int>, t: map<RawAddress, int>, ids: set<int>, a: RawAddress)
    requires Coherent(p, t, ids) && a in t
    ensures Coherent(p[a := t[a]], t - {a}, ids)
  {
    assert p[a := t[a]] + (t - {a}) == p + t;
  }

  /** Letting an evicted entry go, from either cache. */
  lemma CoherentEvict(p: map<RawAddress, int>, t: map<RawAddress, int>, ids: set<int>,
                      e: Option<Entry<RawAddress, int>>)
    requires Coherent(p, t, ids)
    requires e.Some? ==> e.value.key in p + t && (p + t)[e.value.key] == e.value.value
    ensures Coherent(p - KeyOf(e), t - KeyOf(e), ids - Released(e))
    ensures Released(e) <= ids
  {
    match e
    case None =>
      assert p - KeyOf(e) == p && t - KeyOf(e) == t;
    case Some(d) =>
      CoherentRemove(p, t, ids, d.key);
  }

  /** Letting a temporary device go and taking in another one. */
  lemma CoherentReplace(p: map<RawAddress, int>, t: map<RawAddress, int>, ids: set<int>,
                        e: Option<Entry<RawAddress, int>>, a: RawAddress, id: int)
    requires Coherent(p, t, ids) && a !in p + t && IsValidId(id) && id !in ids
    requires e.Some? ==> e.value.key in t && t[e.value.key] == e.value.value
    ensures Coherent(p, (t - KeyOf(e))[a := id], ids + {id} - Released(e))
  {
    match e
    case None =>
      assert t - {} == t;
      CoherentAdd(p, t, ids, a, id);
      assert ids + {id} - {} == ids + {id};
    case Some(d) =>
      CoherentRemove(p, t, ids, d.key);
      assert p - {d.key} == p;
      CoherentAdd(p, t - {d.key}, ids - {d.value}, a, id);
      assert ids - {d.value} + {id} == ids + {id} - {d.value};
  }

  ghost function Released(e: Option<Entry<RawAddress, int>>): set<int> {
    match e
    case None => {}
    case Some(e) => {e.value}
  }

  // ----- the free id search -----

  /** How many times the cursor `c` steps before it reaches `x`. */
  function Ahead(c: int, x: int): int {
    if x >= c then x - c else x - c + MAX_ID
  }

  function Successor(c: int): int {
    if c + 1 > MAX_ID then MIN_ID else c + 1
  }

  /** `id` is the first free id in cyclic order from the cursor. */
  ghost predicate IsFirstFree(ids: set<int>, cursor: int, id: int) {
    && IsValidId(id) && id !in ids
    && forall x :: IsValidId(x) && Ahead(cursor, x) < Ahead(cursor, id) ==> x in ids
  }

  lemma FirstFreeIsUnique(ids: set<int>, cursor: int, id: int, id': int)
    requires IsValidId(cursor) && IsFirstFree(ids, cursor, id) && IsFirstFree(ids, cursor, id')
    ensures id == id'
  {
  }

  lemma {:induction false} FirstFreeExists(ids: set<int>, cursor: int, free: int) returns (id: int)
    requires IsValidId(cursor) && IsValidId(free) && free !in ids
    ensures IsFirstFree(ids, cursor, id)
    decreases Ahead(cursor, free)
  {
    if cursor !in ids {
      id := cursor;
    } else {
      id := FirstFreeExists(ids, Successor(cursor), free);
      forall x | IsValidId(x) && Ahead(cursor, x) < Ahead(cursor, id) ensures x in ids {
        assert x != cursor ==> Ahead(Successor(cursor), x) == Ahead(cursor, x) - 1;
        assert Ahead(Successor(cursor), id) == Ahead(cursor, id) - 1;
      }
    }
  }

  ghost function IdsUpTo(n: nat): (r: set<int>)
    ensures forall i :: i in r <==> MIN_ID <= i <= n
  {
    if n == 0 then {} else IdsUpTo(n - 1) + {n}
  }

  lemma {:induction false} IdsUpToSize(n: nat)
    ensures |IdsUpTo(n)| == n
  {
    if n > 0 {
      IdsUpToSize(n - 1);
    }
  }

  lemma SubsetSize<T>(a: set<T>, b: set<T>)
    requires a <= b
    ensures |a| <= |b|
  {
    assert b == a + (b - a);
  }

  lemma {:induction false} ValuesSize(m: map<RawAddress, int>)
    ensures |m.Values| <= |m|
    decreases |m|
  {
    if m == map[] {
      assert m.Values == {};
    } else {
      var a :| a in m;
      var rest := m - {a};
      ValuesSize(rest);
      assert m.Values <= rest.Values + {m[a]} by {
        forall v | v in m.Values ensures v in rest.Values + {m[a]} {
          var b :| b in m && m[b] == v;
          if b != a {
            assert rest[b] == v;
          }
        }
      }
      SubsetSize(m.Values, rest.Values + {m[a]});
      assert m.Keys == rest.Keys + {a};
    }
  }

  /** The pigeonhole behind the search loop: the two caches cannot fill the id space. */
  lemma SomeIdIsFree(s: State) returns (free: int)
    requires Inv(s)
    ensures IsValidId(free) && free !in s.ids
  {
    var p, t := AsMap(s.paired), AsMap(s.temporary);
    MapSize(s.paired);
    MapSize(s.temporary);
    ValuesSize(p + t);
    assert (p + t).Keys == p.Keys + t.Keys;
    IdsUpToSize(MAX_ID);
    if forall i :: IsValidId(i) ==> i in s.ids {
      SubsetSize(IdsUpTo(MAX_ID), s.ids);
      assert false;
    }
    free :| IsValidId(free) && free !in s.ids;
  }

  /** The id the search loop ends on; where no id is free the loop would not end, and
      FirstFreeFound shows that this never happens. */
  ghost function FirstFree(s: State): int {
    if exists id :: IsFirstFree(s.ids, s.next, id)
    then var id :| IsFirstFree(s.ids, s.next, id); id
    else 0
  }

  /** In every state the invariant allows, the search finds the first free id in cyclic
      order from the cursor, and that is the only such id. */
  lemma FirstFreeFound(s: State)
    requires Inv(s)
    ensures IsFirstFree(s.ids, s.next, FirstFree(s))
    ensures forall id :: IsFirstFree(s.ids, s.next, id) ==> id == FirstFree(s)
  {
    var free := SomeIdIsFree(s);
    var first := FirstFreeExists(s.ids, s.next, free);
    forall id | IsFirstFree(s.ids, s.next, id) ensures id == FirstFree(s) {
      FirstFreeIsUnique(s.ids, s.next, id, FirstFree(s));
    }
  }

  // ----- AllocateId -----

  /** Every device with an id, and its id. */
  ghost function Held(s: State): map<RawAddress, int> {
    AsMap(s.paired) + AsMap(s.temporary)
  }

  ghost function AllocatedId(s: State, a: RawAddress): int {
    if a in Held(s) then Held(s)[a] else FirstFree(s)
  }

  ghost function Allocate(s: State, a: RawAddress): State {
    if Has(s.paired, a) then s.(paired := Touch(s.paired, a))
    else if Has(s.temporary, a) then s.(temporary := Touch(s.temporary, a))
    else
      var id := FirstFree(s);
      s.(temporary := Put(s.temporary, MAX_UNPAIRED, a, id),
         ids := s.ids + {id} - Released(Evicted(s.temporary, MAX_UNPAIRED, a)),
         next := Successor(id))
  }

  /** A device known before and after keeps its id. */
  ghost predicate KeepsIds(s: State, s': State) {
    forall a :: a in Held(s) && a in Held(s') ==> Held(s')[a] == Held(s)[a]
  }

  lemma TouchKeepsInv(s: State, a: RawAddress)
    requires Inv(s)
    ensures Inv(s.(paired := Touch(s.paired, a))) && Held(s.(paired := Touch(s.paired, a))) == Held(s)
    ensures Inv(s.(temporary := Touch(s.temporary, a))) && Held(s.(temporary := Touch(s.temporary, a))) == Held(s)
    ensures AsMap(Touch(s.paired, a)) == AsMap(s.paired)
  {
    TouchKeepsMap(s.paired, a);
    TouchKeepsMap(s.temporary, a);
  }

  lemma AllocateFresh(s: State, a: RawAddress)
    requires Inv(s) && a !in Held(s)
    ensures !Has(s.paired, a) && !Has(s.temporary, a)
    ensures Inv(Allocate(s, a))
    ensures AsMap(Allocate(s, a).temporary)
      == (AsMap(s.temporary) - KeyOf(Evicted(s.temporary, MAX_UNPAIRED, a)))[a := FirstFree(s)]
  {
    var p, t, id, e := AsMap(s.paired), AsMap(s.temporary), FirstFree(s), Evicted(s.temporary, MAX_UNPAIRED, a);
    assert IsValidId(id) && id !in s.ids by {
      FirstFreeFound(s);
    }
    AsMapLookup(s.paired, a);
    AsMapLookup(s.temporary, a);
    PutAsMap(s.temporary, MAX_UNPAIRED, a, id);
    CoherentReplace(p, t, s.ids, e, a, id);
  }

  /** AllocateId keeps the invariant, answers with an id that is the device's own from
      then on and was free unless it already was, and touches no paired device.  The
      cursor ends up past the id it handed out, and stays where it was for a known device. */
  lemma AllocateKeepsInv(s: State, a: RawAddress)
    requires Inv(s)
    ensures Inv(Allocate(s, a)) && KeepsIds(s, Allocate(s, a))
    ensures a in Held(Allocate(s, a)) && Held(Allocate(s, a))[a] == AllocatedId(s, a)
    ensures a !in Held(s) ==> IsFirstFree(s.ids, s.next, AllocatedId(s, a))
    ensures AsMap(Allocate(s, a).paired) == AsMap(s.paired)
    ensures Allocate(s, a).next ==
            if a in Held(s) then s.next
            else if AllocatedId(s, a) == MAX_ID then MIN_ID
            else AllocatedId(s, a) + 1
  {
    FirstFreeFound(s);
    AsMapLookup(s.paired, a);
    AsMapLookup(s.temporary, a);
    if a in Held(s) {
      TouchKeepsInv(s, a);
    } else {
      AllocateFresh(s, a);
    }
  }

  /** A lookup or an allocation makes the device the most recent of its cache and leaves
      the others in their order; only a full temporary cache loses its last device. */
  lemma AllocateMakesRecent(s: State, a: RawAddress)
    requires Inv(s)
    ensures var s' := Allocate(s, a);
      if a in AsMap(s.paired) then
        && s'.paired == [Entry(a, AllocatedId(s, a))] + Without(s.paired, a) && s'.temporary == s.temporary
      else
        && s'.paired == s.paired && s'.temporary != [] && s'.temporary[0] == Entry(a, AllocatedId(s, a))
        && s'.temporary[1..] == if a !in Held(s) && |s.temporary| == MAX_UNPAIRED
                                then s.temporary[..MAX_UNPAIRED - 1] else Without(s.temporary, a)
  {
    AsMapLookup(s.paired, a);
    AsMapLookup(s.temporary, a);
    if Has(s.paired, a) {
      TouchIsCons(s.paired, a);
    } else if Has(s.temporary, a) {
      TouchIsCons(s.temporary, a);
    }
  }

  // ----- SaveDevice -----

  /** A call to one of the two storage callbacks, with what it returned. */
  datatype Callback =
    | SaveId(address: RawAddress, id: int, ok: bool)
    | ForgetId(address: RawAddress, id: int, ok: bool)

  ghost function Save(s: State, a: RawAddress): State {
    if Has(s.paired, a) then s.(paired := Touch(s.paired, a))
    else if !Has(s.temporary, a) then s
    else
      s.(temporary := Without(s.temporary, a),
         paired := Put(s.paired, MAX_PAIRED, a, Lookup(s.temporary, a).value),
         ids := s.ids - Released(Evicted(s.paired, MAX_PAIRED, a)))
  }

  ghost predicate SaveReturns(s: State, a: RawAddress, saved: bool) {
    Has(s.paired, a) || (Has(s.temporary, a) && saved)
  }

  /** The callbacks SaveDevice makes, in order: the evicted device, then the new one. */
  ghost function SaveCalls(s: State, a: RawAddress, saved: bool, forgot: bool): seq<Callback> {
    if Has(s.paired, a) || !Has(s.temporary, a) then []
    else
      ForgetCall(Evicted(s.paired, MAX_PAIRED, a), forgot) + [SaveId(a, Lookup(s.temporary, a).value, saved)]
  }

  ghost function ForgetCall(e: Option<Entry<RawAddress, int>>, forgot: bool): seq<Callback> {
    match e
    case None => []
    case Some(e) => [ForgetId(e.key, e.value, forgot)]
  }

  /** SaveDevice succeeds exactly for a device that is paired already, and for a temporary
      one whose save callback succeeds; that callback is called exactly for a temporary
      device, last, with the id the device has. */
  lemma SaveReturnsExactly(s: State, a: RawAddress, saved: bool, forgot: bool)
    requires Inv(s)
    ensures SaveReturns(s, a, saved) <==> a in AsMap(s.paired) || (a in Held(s) && saved)
    ensures var calls := SaveCalls(s, a, saved, forgot);
      if a in AsMap(s.temporary)
      then calls != [] && calls[|calls| - 1] == SaveId(a, Held(s)[a], saved) && |calls| <= 2
      else calls == []
  {
    AsMapLookup(s.paired, a);
    AsMapLookup(s.temporary, a);
  }

  /** A device that has an id is the most recent of the paired cache after a Save. */
  lemma SaveMakesRecent(s: State, a: RawAddress)
    requires Inv(s)
    ensures a in Held(s) ==> Save(s, a).paired != [] && Save(s, a).paired[0] == Entry(a, Held(s)[a])
    ensures a in AsMap(s.paired) ==> Save(s, a) == s.(paired := Save(s, a).paired)
                                     && Save(s, a).paired[1..] == Without(s.paired, a)
    ensures a !in Held(s) ==> Save(s, a) == s
  {
    AsMapLookup(s.paired, a);
    AsMapLookup(s.temporary, a);
    TouchTail(s.paired, a);
    if a in AsMap(s.temporary) {
      PutAsMap(s.paired, MAX_PAIRED, a, AsMap(s.temporary)[a]);
    }
  }

  /** SaveDevice moves the id to the paired cache unchanged; if the cache is full the
      least recently used paired device loses its id. */
  lemma SaveKeepsInv(s: State, a: RawAddress)
    requires Inv(s)
    ensures Inv(Save(s, a)) && KeepsIds(s, Save(s, a))
    ensures a in AsMap(Save(s, a).paired) <==> a in Held(s)
  {
    AsMapLookup(s.paired, a);
    AsMapLookup(s.temporary, a);
    if Has(s.paired, a) {
      TouchKeepsInv(s, a);
    } else if Has(s.temporary, a) {
      SaveMoves(s, a);
      assert KeepsIds(s, Save(s, a));
    } else {
      assert Save(s, a) == s;
    }
  }

  lemma SaveMoves(s: State, a: RawAddress)
    requires Inv(s) && a in AsMap(s.temporary)
    ensures Has(s.temporary, a) && !Has(s.paired, a)
    ensures Inv(Save(s, a))
    ensures AsMap(Save(s, a).temporary) == AsMap(s.temporary) - {a}
    ensures AsMap(Save(s, a).paired)
      == (AsMap(s.paired) - KeyOf(Evicted(s.paired, MAX_PAIRED, a)))[a := AsMap(s.temporary)[a]]
  {
    var p, t, e := AsMap(s.paired), AsMap(s.temporary), Evicted(s.paired, MAX_PAIRED, a);
    AsMapLookup(s.paired, a);
    AsMapLookup(s.temporary, a);
    WithoutIsDistinct(s.temporary, a);
    WithoutAsMap(s.temporary, a);
    PutAsMap(s.paired, MAX_PAIRED, a, t[a]);
    CoherentEvict(p, t, s.ids, e);
    assert t - KeyOf(e) == t;
    CoherentMove(p - KeyOf(e), t, s.ids - Released(e), a);
  }

  // ----- ForgetDevice -----

  ghost function Forget(s: State, a: RawAddress): State {
    if !Has(s.paired, a) then s
    else s.(paired := Without(s.paired, a), ids := s.ids - {Lookup(s.paired, a).value})
  }

  ghost function ForgetCalls(s: State, a: RawAddress, forgot: bool): seq<Callback> {
    if !Has(s.paired, a) then [] else [ForgetId(a, Lookup(s.paired, a).value, forgot)]
  }

  /** ForgetDevice frees exactly the device's id. */
  lemma ForgetKeepsInv(s: State, a: RawAddress)
    requires Inv(s)
    ensures Inv(Forget(s, a)) && KeepsIds(s, Forget(s, a))
    ensures AsMap(Forget(s, a).paired) == AsMap(s.paired) - {a}
    ensures Held(Forget(s, a)) == if Has(s.paired, a) then Held(s) - {a} else Held(s)
  {
    AsMapLookup(s.paired, a);
    if Has(s.paired, a) {
      ForgetPaired(s, a);
      HeldWithout(AsMap(s.paired), AsMap(s.temporary), a);
    }
  }

  lemma ForgetPaired(s: State, a: RawAddress)
    requires Inv(s) && a in AsMap(s.paired)
    ensures Has(s.paired, a) && Inv(Forget(s, a)) && AsMap(Forget(s, a).paired) == AsMap(s.paired) - {a}
  {
    var p, t := AsMap(s.paired), AsMap(s.temporary);
    AsMapLookup(s.paired, a);
    WithoutIsDistinct(s.paired, a);
    WithoutAsMap(s.paired, a);
    CoherentRemove(p, t, s.ids, a);
    assert t - {a} == t;
  }

  lemma HeldWithout(p: map<RawAddress, int>, t: map<RawAddress, int>, a: RawAddress)
    requires a !in t
    ensures (p - {a}) + t == (p + t) - {a}
  {
  }

  // ----- Init and Close -----

  /** One device of the map; where the cache is full another one goes. */
  ghost function LoadOne(s: State, d: Entry<RawAddress, int>): State {
    s.(paired := Put(s.paired, MAX_PAIRED, d.key, d.value),
       ids := s.ids - Released(Evicted(s.paired, MAX_PAIRED, d.key)) + {d.value},
       next := if d.value + 1 > s.next then d.value + 1 else s.next)
  }

  ghost function Load(s: State, devices: Devices): State
    decreases |devices|
  {
    if devices == [] then s else Load(LoadOne(s, devices[0]), devices[1..])
  }

  /** The callbacks made while loading; `forgot` is what the forget callback returns. */
  ghost function LoadCalls(s: State, devices: Devices, forgot: RawAddress -> bool): seq<Callback>
    decreases |devices|
  {
    if devices == [] then []
    else LoadCall(s, devices[0], forgot) + LoadCalls(LoadOne(s, devices[0]), devices[1..], forgot)
  }

  ghost function LoadCall(s: State, d: Entry<RawAddress, int>, forgot: RawAddress -> bool): seq<Callback> {
    var e := Evicted(s.paired, MAX_PAIRED, d.key);
    ForgetCall(e, e.Some? && forgot(e.value.key))
  }

  /** Init past its two checks, on the map entries in the order it visits them. */
  ghost function Init(s: State, devices: Devices): State {
    var l := Load(s.(next := MIN_ID), devices);
    l.(next := if l.next > MAX_ID then MIN_ID else l.next, callbacks := true, initialized := true)
  }

  ghost function InitCalls(s: State, devices: Devices, forgot: RawAddress -> bool): seq<Callback> {
    LoadCalls(s.(next := MIN_ID), devices, forgot)
  }

  ghost function Close(s: State): State {
    if s.initialized then s.(paired := [], temporary := [], ids := {}, initialized := false) else s
  }

  /** A map Init accepts: it aborts on a larger map or on an id out of range. */
  ghost predicate Loadable(devices: Devices) {
    && DistinctKeys(devices) && |devices| <= MAX_PAIRED
    && forall d :: d in devices ==> IsValidId(d.value)
  }

  lemma {:induction false} LoadCursor(s: State, devices: Devices)
    requires forall d :: d in devices ==> IsValidId(d.value)
    requires MIN_ID <= s.next <= MAX_ID + 1
    ensures s.next <= Load(s, devices).next <= MAX_ID + 1
    ensures forall d :: d in devices ==> d.value < Load(s, devices).next
    ensures Load(s, devices).next != s.next ==> exists d :: d in devices && Load(s, devices).next == d.value + 1
    ensures Load(s, devices).temporary == s.temporary
    decreases |devices|
  {
    if devices != [] {
      var d := devices[0];
      assert devices == [d] + devices[1..];
      LoadCursor(LoadOne(s, d), devices[1..]);
    }
  }

  /** The cursor after Init is one past the largest id of the map, wrapped. */
  lemma InitCursor(s: State, devices: Devices)
    requires Loadable(devices)
    ensures devices == [] ==> Init(s, devices).next == MIN_ID
    ensures forall d :: d in devices && (forall e :: e in devices ==> e.value <= d.value) ==>
      Init(s, devices).next == if d.value == MAX_ID then MIN_ID else d.value + 1
  {
    LoadCursor(s.(next := MIN_ID), devices);
  }

  /** The map and the devices still paired from before fit in the cache together.  Nothing
      is paired before the first Init, so the first one always fits. */
  ghost predicate Fits(s: State, devices: Devices) {
    |AsMap(s.paired).Keys + AsMap(devices).Keys| <= MAX_PAIRED
  }

  lemma FitsAtFirst(s: State, devices: Devices)
    requires s.paired == [] && Loadable(devices)
    ensures Fits(s, devices)
  {
    MapSize(devices);
    assert AsMap(s.paired).Keys + AsMap(devices).Keys == AsMap(devices).Keys;
  }

  lemma FitsNext(s: State, devices: Devices)
    requires DistinctKeys(s.paired) && |s.paired| <= MAX_PAIRED
    requires devices != [] && DistinctKeys(devices) && Fits(s, devices)
    ensures Evicted(s.paired, MAX_PAIRED, devices[0].key) == None
    ensures devices[0].key !in AsMap(devices[1..])
  {
    var p, k := AsMap(s.paired), devices[0].key;
    MapSize(s.paired);
    AsMapLookup(s.paired, k);
    AsMapLookup(devices[1..], k);
    SubsetSize(p.Keys + {k}, p.Keys + AsMap(devices).Keys);
  }

  lemma LoadOneFits(s: State, d: Entry<RawAddress, int>)
    requires DistinctKeys(s.paired) && |s.paired| <= MAX_PAIRED && Evicted(s.paired, MAX_PAIRED, d.key) == None
    ensures var s1 := LoadOne(s, d);
      && DistinctKeys(s1.paired) && |s1.paired| <= MAX_PAIRED
      && AsMap(s1.paired) == AsMap(s.paired)[d.key := d.value]
  {
    PutAsMap(s.paired, MAX_PAIRED, d.key, d.value);
    assert AsMap(s.paired) - {} == AsMap(s.paired);
  }

  lemma StillFits(p: map<RawAddress, int>, rest: map<RawAddress, int>, a: RawAddress, id: int)
    ensures p[a := id].Keys + rest.Keys == p.Keys + rest[a := id].Keys
  {
  }

  /** Where everything fits the loop of Init adds exactly the given map to the paired cache. */
  lemma {:induction false} LoadMap(s: State, devices: Devices)
    requires DistinctKeys(s.paired) && |s.paired| <= MAX_PAIRED && DistinctKeys(devices) && Fits(s, devices)
    ensures DistinctKeys(Load(s, devices).paired) && |Load(s, devices).paired| <= MAX_PAIRED
    ensures AsMap(Load(s, devices).paired) == AsMap(s.paired) + AsMap(devices)
    decreases |devices|
  {
    if devices == [] {
      assert AsMap(s.paired) + map[] == AsMap(s.paired);
    } else {
      var d, rest := devices[0], devices[1..];
      FitsNext(s, devices);
      LoadOneFits(s, d);
      StillFits(AsMap(s.paired), AsMap(rest), d.key, d.value);
      LoadMap(LoadOne(s, d), rest);
      UpdateAcross(AsMap(s.paired), AsMap(rest), d.key, d.value);
    }
  }

  /** Where everything fits the loop of Init evicts nothing, so no callback is called. */
  lemma {:induction false} LoadSilent(s: State, devices: Devices, forgot: RawAddress -> bool)
    requires DistinctKeys(s.paired) && |s.paired| <= MAX_PAIRED && DistinctKeys(devices) && Fits(s, devices)
    ensures LoadCalls(s, devices, forgot) == []
    decreases |devices|
  {
    if devices != [] {
      var d, rest := devices[0], devices[1..];
      FitsNext(s, devices);
      LoadOneFits(s, d);
      StillFits(AsMap(s.paired), AsMap(rest), d.key, d.value);
      LoadSilent(LoadOne(s, d), rest, forgot);
    }
  }

  lemma {:induction false} LoadIds(s: State, devices: Devices)
    requires DistinctKeys(s.paired) && |s.paired| <= MAX_PAIRED && DistinctKeys(devices) && Fits(s, devices)
    ensures Load(s, devices).ids == s.ids + AsMap(devices).Values
    decreases |devices|
  {
    if devices != [] {
      var d, rest := devices[0], devices[1..];
      FitsNext(s, devices);
      LoadOneFits(s, d);
      StillFits(AsMap(s.paired), AsMap(rest), d.key, d.value);
      LoadIds(LoadOne(s, d), rest);
      ValuesAcross(s.ids, AsMap(rest), d.key, d.value);
    }
  }

  lemma ValuesAcross(ids: set<int>, rest: map<RawAddress, int>, a: RawAddress, id: int)
    requires a !in rest
    ensures ids - {} + {id} + rest.Values == ids + rest[a := id].Values
  {
    UpdateAcross(rest, rest, a, id);
  }

  lemma UpdateAcross(m: map<RawAddress, int>, n: map<RawAddress, int>, a: RawAddress, id: int)
    requires a !in n
    ensures m[a := id] + n == m + n[a := id]
    ensures n[a := id].Values == n.Values + {id}
  {
    forall v | v in n.Values + {id} ensures v in n[a := id].Values {
      if v in n.Values {
        var b :| b in n && n[b] == v;
        assert n[a := id][b] == v;
      } else {
        assert n[a := id][a] == v;
      }
    }
  }

  /** The map has no id twice and no device of the temporary cache, no device outside it
      holds one of its ids, and an id it takes from a paired device is one it gives out. */
  ghost predicate Acceptable(s: State, devices: Devices) {
    AcceptableMap(AsMap(s.paired), AsMap(s.temporary), AsMap(devices))
  }

  ghost predicate AcceptableMap(p: map<RawAddress, int>, t: map<RawAddress, int>, d: map<RawAddress, int>) {
    && UniqueIds(d)
    && d.Keys !! t.Keys
    && d.Values !! ((p + t) - d.Keys).Values
    && forall a :: a in p && a in d ==> p[a] in d.Values
  }

  lemma InitAdds(s: State, devices: Devices, forgot: RawAddress -> bool)
    requires Books(s) && Loadable(devices) && Fits(s, devices)
    ensures InitCalls(s, devices, forgot) == [] && Init(s, devices).initialized && Init(s, devices).callbacks
    ensures var s' := Init(s, devices);
      && DistinctKeys(s'.paired) && |s'.paired| <= MAX_PAIRED && s'.temporary == s.temporary && IsValidId(s'.next)
      && AsMap(s'.paired) == AsMap(s.paired) + AsMap(devices) && s'.ids == s.ids + AsMap(devices).Values
  {
    LoadCursor(s.(next := MIN_ID), devices);
    LoadMap(s.(next := MIN_ID), devices);
    LoadIds(s.(next := MIN_ID), devices);
    LoadSilent(s.(next := MIN_ID), devices, forgot);
  }

  /** Where everything fits, Init keeps the invariant exactly when the map is acceptable. */
  lemma InitKeepsInvExactly(s: State, devices: Devices)
    requires Inv(s) && Loadable(devices) && Fits(s, devices)
    ensures Inv(Init(s, devices)) <==> Acceptable(s, devices)
  {
    InitAdds(s, devices, _ => true);
    DevicesValid(devices);
    OverwriteCoherent(AsMap(s.paired), AsMap(s.temporary), s.ids, AsMap(devices));
    InvIsCoherence(Init(s, devices));
  }

  lemma InvIsCoherence(s: State)
    requires DistinctKeys(s.paired) && |s.paired| <= MAX_PAIRED && IsValidId(s.next)
    requires DistinctKeys(s.temporary) && |s.temporary| <= MAX_UNPAIRED
    ensures Inv(s) <==> Coherent(AsMap(s.paired), AsMap(s.temporary), s.ids)
  {
  }

  lemma OverwriteCoherent(p: map<RawAddress, int>, t: map<RawAddress, int>, ids: set<int>, d: map<RawAddress, int>)
    requires Coherent(p, t, ids) && ValidIds(d)
    ensures Coherent(p + d, t, ids + d.Values) <==> AcceptableMap(p, t, d)
  {
    if a :| a in d && a in t {
      assert a in (p + d).Keys && a in t.Keys && a in d.Keys;
    } else {
      OverwriteDisjoint(p, t, ids, d);
    }
  }

  lemma OverwriteDisjoint(p: map<RawAddress, int>, t: map<RawAddress, int>, ids: set<int>, d: map<RawAddress, int>)
    requires Coherent(p, t, ids) && ValidIds(d) && d.Keys !! t.Keys
    ensures Coherent(p + d, t, ids + d.Values) <==> AcceptableMap(p, t, d)
  {
    var m := p + t;
    var m' := d + (m - d.Keys);
    OverwriteIds(m, d);
    OverwriteSplits(p, t, d);
    assert ValidIds(m');
    assert Coherent(p + d, t, ids + d.Values) <==> UniqueIds(m') && ids + d.Values == m'.Values;
    OnlyPaired(p, t, d);
  }

  lemma OverwriteSplits(p: map<RawAddress, int>, t: map<RawAddress, int>, d: map<RawAddress, int>)
    requires d.Keys !! t.Keys
    ensures (p + d) + t == d + ((p + t) - d.Keys)
  {
  }

  lemma OnlyPaired(p: map<RawAddress, int>, t: map<RawAddress, int>, d: map<RawAddress, int>)
    requires p.Keys !! t.Keys && d.Keys !! t.Keys
    ensures (forall a :: a in p + t && a in d ==> (p + t)[a] in d.Values) <==>
            (forall a :: a in p && a in d ==> p[a] in d.Values)
  {
    assert forall a :: a in d ==> (a in p <==> a in p + t);
    assert forall a :: a in p && a in d ==> (p + t)[a] == p[a];
  }

  lemma OverwriteIds(m: map<RawAddress, int>, d: map<RawAddress, int>)
    requires UniqueIds(m)
    ensures UniqueIds(d + (m - d.Keys)) && m.Values + d.Values == (d + (m - d.Keys)).Values <==>
      && UniqueIds(d) && d.Values !! (m - d.Keys).Values
      && forall a :: a in m && a in d ==> m[a] in d.Values
  {
    DisjointIds(d, m - d.Keys);
    IdsCovered(m, d);
  }

  /** Overwriting a map loses no id exactly when the ids overwritten are given out again. */
  lemma IdsCovered(m: map<RawAddress, int>, d: map<RawAddress, int>)
    requires UniqueIds(m)
    ensures m.Values + d.Values == d.Values + (m - d.Keys).Values <==>
      forall a :: a in m && a in d ==> m[a] in d.Values
  {
    var rest := m - d.Keys;
    forall a | a in m ensures m[a] in rest.Values <==> a !in d {
      if a !in d {
        assert rest[a] == m[a];
      }
      forall b | b in rest ensures rest[b] == m[a] ==> b == a {}
    }
    forall a | a in m ensures m[a] in m.Values {}
  }

  lemma {:induction false} DevicesValid(devices: Devices)
    requires forall e :: e in devices ==> IsValidId(e.value)
    ensures ValidIds(AsMap(devices))
  {
    if devices != [] {
      assert devices == [devices[0]] + devices[1..];
      DevicesValid(devices[1..]);
    }
  }

  /** Two maps together hold no id twice exactly when neither does and they share none. */
  lemma DisjointIds(d: map<RawAddress, int>, t: map<RawAddress, int>)
    requires UniqueIds(t) && d.Keys !! t.Keys
    ensures UniqueIds(d + t) <==> UniqueIds(d) && d.Values !! t.Values
    ensures (d + t).Values == d.Values + t.Values
  {
    var m := d + t;
    forall a | a in d ensures m[a] == d[a] && m[a] in d.Values {}
    forall a | a in t ensures m[a] == t[a] && m[a] in t.Values {}
    if v :| v in d.Values && v in t.Values {
      var a :| a in d && d[a] == v;
      var b :| b in t && t[b] == v;
      assert a != b && m[a] == m[b];
    }
    if UniqueIds(m) {
      forall a, b | a in d && b in d && a != b ensures d[a] != d[b] {
        assert m[a] != m[b];
      }
    }
    forall v | v in d.Values + t.Values ensures v in m.Values {
      if v in d.Values {
        var a :| a in d && d[a] == v;
        assert m[a] == v;
      } else {
        var b :| b in t && t[b] == v;
        assert m[b] == v;
      }
    }
  }

  // ----- Init on a cache that cannot hold everything -----

  /** The map gives a device that is paired already the id it has. */
  ghost predicate Agrees(s: State, devices: Devices) {
    var p, d := AsMap(s.paired), AsMap(devices);
    forall a :: a in p && a in d ==> p[a] == d[a]
  }

  /** A device that may be loaded next: known with this id, or new with a free one. */
  ghost predicate Welcome(s: State, d: Entry<RawAddress, int>) {
    && d.key !in AsMap(s.temporary)
    && if d.key in AsMap(s.paired) then AsMap(s.paired)[d.key] == d.value else d.value !in s.ids
  }

  ghost predicate AllWelcome(s: State, devices: Devices) {
    && (forall i :: 0 <= i < |devices| ==> Welcome(s, devices[i]))
    && (forall i, j :: 0 <= i < j < |devices| ==> devices[i].value != devices[j].value)
  }

  lemma AgreeingMapIsWelcome(s: State, devices: Devices)
    requires Books(s) && DistinctKeys(devices) && Acceptable(s, devices) && Agrees(s, devices)
    ensures AllWelcome(s, devices)
  {
    var d := AsMap(devices);
    forall i | 0 <= i < |devices| ensures devices[i].key in d && d[devices[i].key] == devices[i].value {
      PositionAt(devices, i);
      AsMapLookup(devices, devices[i].key);
    }
    forall i | 0 <= i < |devices| ensures Welcome(s, devices[i]) {
      WelcomeInMap(s, devices, devices[i]);
    }
  }

  lemma WelcomeInMap(s: State, devices: Devices, x: Entry<RawAddress, int>)
    requires Books(s) && Acceptable(s, devices) && Agrees(s, devices)
    requires x.key in AsMap(devices) && AsMap(devices)[x.key] == x.value
    ensures Welcome(s, x)
  {
    var p, d, held := AsMap(s.paired), AsMap(devices), Held(s);
    assert x.value in d.Values;
    if x.key !in p {
      forall b | b in held ensures held[b] != x.value {
        if b in d {
          assert b in p && held[b] == p[b] == d[b];
        } else {
          assert (held - d.Keys)[b] == held[b];
          assert held[b] in (held - d.Keys).Values;
        }
      }
    }
  }

  lemma CoherentLoad(p: map<RawAddress, int>, t: map<RawAddress, int>, ids: set<int>,
                     e: Option<Entry<RawAddress, int>>, a: RawAddress, id: int)
    requires Coherent(p, t, ids) && IsValidId(id) && a !in t
    requires if a in p then p[a] == id && e == None else id !in ids
    requires e.Some? ==> e.value.key in p && p[e.value.key] == e.value.value
    ensures Coherent((p - KeyOf(e))[a := id], t, ids - Released(e) + {id})
  {
    if a in p {
      assert (p - KeyOf(e))[a := id] == p;
      assert (p + t)[a] == id;
      assert ids - Released(e) + {id} == ids;
    } else {
      CoherentEvict(p, t, ids, e);
      assert t - KeyOf(e) == t;
      CoherentAdd(p - KeyOf(e), t, ids - Released(e), a, id);
    }
  }

  lemma LoadOneKeepsBooks(s: State, d: Entry<RawAddress, int>)
    requires Books(s) && IsValidId(d.value) && Welcome(s, d)
    ensures Books(LoadOne(s, d))
    ensures AsMap(LoadOne(s, d).paired)
      == (AsMap(s.paired) - KeyOf(Evicted(s.paired, MAX_PAIRED, d.key)))[d.key := d.value]
  {
    PutAsMap(s.paired, MAX_PAIRED, d.key, d.value);
    CoherentLoad(AsMap(s.paired), AsMap(s.temporary), s.ids, Evicted(s.paired, MAX_PAIRED, d.key), d.key, d.value);
  }

  lemma StaysWelcome(s: State, d: Entry<RawAddress, int>, x: Entry<RawAddress, int>)
    requires Books(s) && IsValidId(d.value) && Welcome(s, d) && Welcome(s, x)
    requires d.key != x.key && d.value != x.value
    ensures Welcome(LoadOne(s, d), x)
  {
    LoadOneKeepsBooks(s, d);
    PutAsMap(s.paired, MAX_PAIRED, d.key, d.value);
  }

  /** Loading devices that are welcome keeps the books, whatever has to be evicted. */
  lemma {:induction false} LoadKeepsBooks(s: State, devices: Devices)
    requires Books(s) && DistinctKeys(devices) && AllWelcome(s, devices)
    requires forall d :: d in devices ==> IsValidId(d.value)
    ensures Books(Load(s, devices))
    decreases |devices|
  {
    if devices != [] {
      var d, rest, s1 := devices[0], devices[1..], LoadOne(s, devices[0]);
      LoadOneKeepsBooks(s, d);
      RestIsWelcome(s, devices);
      LoadKeepsBooks(s1, rest);
    }
  }

  lemma RestIsWelcome(s: State, devices: Devices)
    requires Books(s) && devices != [] && DistinctKeys(devices) && AllWelcome(s, devices)
    requires forall d :: d in devices ==> IsValidId(d.value)
    ensures AllWelcome(LoadOne(s, devices[0]), devices[1..])
    ensures forall d :: d in devices[1..] ==> IsValidId(d.value)
  {
    var d, rest := devices[0], devices[1..];
    forall i | 0 <= i < |rest| ensures Welcome(LoadOne(s, d), rest[i]) {
      assert Welcome(s, devices[i + 1]);
      StaysWelcome(s, d, rest[i]);
    }
    assert forall x :: x in rest ==> x in devices;
  }

  lemma WelcomeAgrees(s: State, devices: Devices)
    requires DistinctKeys(devices) && AllWelcome(s, devices)
    ensures Agrees(s, devices)
  {
    var p, d := AsMap(s.paired), AsMap(devices);
    forall a | a in p && a in d ensures p[a] == d[a] {
      AsMapLookup(devices, a);
      assert Welcome(s, devices[Position(devices, a)]);
    }
  }

  /** Every device paired afterwards comes from the map, or was paired with that id. */
  lemma {:induction false} LoadedFrom(s: State, devices: Devices)
    requires DistinctKeys(s.paired) && |s.paired| <= MAX_PAIRED && DistinctKeys(devices)
    ensures Includes(AsMap(s.paired) + AsMap(devices), AsMap(Load(s, devices).paired))
    decreases |devices|
  {
    if devices != [] {
      var d, rest, p := devices[0], devices[1..], AsMap(s.paired);
      PutAsMap(s.paired, MAX_PAIRED, d.key, d.value);
      AsMapLookup(rest, d.key);
      LoadedFrom(LoadOne(s, d), rest);
      IncludesAcross(p, KeyOf(Evicted(s.paired, MAX_PAIRED, d.key)), AsMap(rest), d.key, d.value);
    }
  }

  lemma IncludesAcross(p: map<RawAddress, int>, gone: set<RawAddress>, rest: map<RawAddress, int>,
                       a: RawAddress, id: int)
    requires a !in rest
    ensures Includes(p + rest[a := id], (p - gone)[a := id] + rest)
  {
  }

  /** While loading, a device that was paired stays paired with its id or is forgotten
      with that id, and nothing is forgotten that was neither paired nor in the map. */
  lemma {:induction false} LoadForgets(s: State, devices: Devices, forgot: RawAddress -> bool)
    requires Books(s) && DistinctKeys(devices) && AllWelcome(s, devices)
    requires forall d :: d in devices ==> IsValidId(d.value)
    ensures forall a :: a in AsMap(s.paired) ==>
      Accounted(Load(s, devices), LoadCalls(s, devices, forgot), a, AsMap(s.paired)[a], forgot)
    ensures forall call :: call in LoadCalls(s, devices, forgot) ==>
      ForgetsFrom(AsMap(s.paired) + AsMap(devices), call, forgot)
    decreases |devices|
  {
    if devices != [] {
      var d, rest, s1 := devices[0], devices[1..], LoadOne(s, devices[0]);
      var first, later := LoadCall(s, d, forgot), LoadCalls(s1, rest, forgot);
      LoadOneKeepsBooks(s, d);
      RestIsWelcome(s, devices);
      LoadForgets(s1, rest, forgot);
      forall a | a in AsMap(s.paired)
        ensures Accounted(Load(s, devices), first + later, a, AsMap(s.paired)[a], forgot)
      {
        LoadOneForgets(s, d, forgot, a);
        if a in AsMap(s1.paired) {
          assert Accounted(Load(s1, rest), later, a, AsMap(s1.paired)[a], forgot);
        }
      }
      forall call | call in first + later ensures ForgetsFrom(AsMap(s.paired) + AsMap(devices), call, forgot) {
        LoadCallsFrom(s, devices, forgot, call);
      }
    }
  }

  /** The device is paired with this id, or the calls forget it with this id. */
  ghost predicate Accounted(s: State, calls: seq<Callback>, a: RawAddress, id: int, forgot: RawAddress -> bool) {
    (a in AsMap(s.paired) && AsMap(s.paired)[a] == id) || ForgetId(a, id, forgot(a)) in calls
  }

  ghost predicate ForgetsFrom(m: map<RawAddress, int>, call: Callback, forgot: RawAddress -> bool) {
    call.ForgetId? && call.address in m && m[call.address] == call.id && call.ok == forgot(call.address)
  }

  lemma LoadOneForgets(s: State, d: Entry<RawAddress, int>, forgot: RawAddress -> bool, a: RawAddress)
    requires Books(s) && IsValidId(d.value) && Welcome(s, d) && a in AsMap(s.paired)
    ensures Accounted(LoadOne(s, d), LoadCall(s, d, forgot), a, AsMap(s.paired)[a], forgot)
  {
    LoadOneKeepsBooks(s, d);
    EvictedEntry(s.paired, MAX_PAIRED, d.key);
  }

  lemma LoadCallsFrom(s: State, devices: Devices, forgot: RawAddress -> bool, call: Callback)
    requires Books(s) && devices != [] && DistinctKeys(devices) && AllWelcome(s, devices)
    requires IsValidId(devices[0].value)
    requires call in LoadCall(s, devices[0], forgot)
          || ForgetsFrom(AsMap(LoadOne(s, devices[0]).paired) + AsMap(devices[1..]), call, forgot)
    ensures ForgetsFrom(AsMap(s.paired) + AsMap(devices), call, forgot)
  {
    var d, e := devices[0], Evicted(s.paired, MAX_PAIRED, devices[0].key);
    AsMapLookup(devices[1..], d.key);
    LoadOneKeepsBooks(s, d);
    EvictedEntry(s.paired, MAX_PAIRED, d.key);
    WelcomeAgrees(s, devices);
    IncludesAcross(AsMap(s.paired), KeyOf(e), AsMap(devices[1..]), d.key, d.value);
  }

  /** Every pair of `n` is one of `m`. */
  ghost predicate Includes(m: map<RawAddress, int>, n: map<RawAddress, int>) {
    forall a :: a in n ==> a in m && m[a] == n[a]
  }

  /** A map that agrees with the devices still paired keeps the invariant and every id,
      whether or not everything fits. */
  lemma AgreeingInitKeepsInv(s: State, devices: Devices)
    requires Inv(s) && Loadable(devices) && Acceptable(s, devices) && Agrees(s, devices)
    ensures Inv(Init(s, devices)) && KeepsIds(s, Init(s, devices))
  {
    var start := s.(next := MIN_ID);
    AgreeingMapIsWelcome(start, devices);
    LoadCursor(start, devices);
    LoadKeepsBooks(start, devices);
    LoadedFrom(start, devices);
  }

  const FRESH := State([], [], {}, MIN_ID, false, false)

  /** An id handed out before Init can clash with one the map brings in. */
  lemma IdBeforeInitCanClash(a: RawAddress, b: RawAddress)
    requires a != b
    ensures Inv(FRESH) && AllocatedId(FRESH, a) == 1
    ensures Loadable([Entry(b, 1)]) && !Inv(Init(Allocate(FRESH, a), [Entry(b, 1)]))
  {
    assert AsMap<RawAddress, int>([]) == map[];
    FirstFreeFound(FRESH);
    assert IsFirstFree({}, 1, 1);
    AllocateFresh(FRESH, a);
    assert AsMap(Allocate(FRESH, a).temporary)[a] == 1;
    HeldIdClashes(Allocate(FRESH, a), a, b, 1);
  }

  /** A map with one device breaks the invariant if another device holds its id. */
  lemma HeldIdClashes(s: State, a: RawAddress, b: RawAddress, id: int)
    requires Inv(s) && s.paired == [] && a != b && a in AsMap(s.temporary) && AsMap(s.temporary)[a] == id
    requires IsValidId(id)
    ensures Loadable([Entry(b, id)]) && !Inv(Init(s, [Entry(b, id)]))
  {
    var devices := [Entry(b, id)];
    assert devices[1..] == [];
    assert AsMap(devices) == map[b := id];
    SharedIdIsNotAcceptable(s, devices, a, b);
    FitsAtFirst(s, devices);
    InitKeepsInvExactly(s, devices);
  }

  lemma SharedIdIsNotAcceptable(s: State, devices: Devices, a: RawAddress, b: RawAddress)
    requires a in Held(s) && a !in AsMap(devices) && b in AsMap(devices) && AsMap(devices)[b] == Held(s)[a]
    ensures !Acceptable(s, devices)
  {
    var d := AsMap(devices);
    assert (Held(s) - d.Keys)[a] in (Held(s) - d.Keys).Values;
    assert d[b] in d.Values;
  }

  // ----- whole runs, with the storage the callbacks keep -----

  /** The allocator and what its callbacks have stored. */
  datatype World = World(s: State, storage: map<RawAddress, int>)

  datatype Op =
    | DoInit(devices: Devices, forgets: RawAddress -> bool)
    | DoClose
    | DoAllocate(address: RawAddress)
    | DoSave(address: RawAddress, saved: bool, forgot: bool)
    | DoForget(address: RawAddress, forgot: bool)

  ghost function Replay(storage: map<RawAddress, int>, calls: seq<Callback>): map<RawAddress, int>
    decreases |calls|
  {
    if calls == [] then storage else Replay(Recorded(storage, calls[0]), calls[1..])
  }

  /** What a callback leaves in the storage; one that fails leaves it alone. */
  ghost function Recorded(storage: map<RawAddress, int>, call: Callback): map<RawAddress, int> {
    if !call.ok then storage
    else match call
         case SaveId(a, id, _) => storage[a := id]
         case ForgetId(a, _, _) => storage - {a}
  }

  /** Every operation may come at any time, with two exceptions: pairing a device before
      the first Init would call a callback that is not set, and the map given to Init must
      be acceptable and, if not everything fits, agree with what is still paired. */
  ghost predicate Allowed(s: State, op: Op) {
    match op
    case DoInit(devices, _) =>
      && DistinctKeys(devices)  // it is a map
      && (s.initialized
          || (Loadable(devices) && Acceptable(s, devices) && (Fits(s, devices) || Agrees(s, devices))))
    case DoSave(a, _, _) => s.callbacks || !Has(s.temporary, a)
    case _ => true
  }

  /** Devices are paired only once there are callbacks. */
  ghost predicate Settled(s: State) {
    && Inv(s) && (s.callbacks || s.paired == []) && (s.initialized ==> s.callbacks)
  }

  ghost function Next(s: State, op: Op): State {
    match op
    case DoInit(devices, _) => if s.initialized then s else Init(s, devices)
    case DoClose => Close(s)
    case DoAllocate(a) => Allocate(s, a)
    case DoSave(a, _, _) => Save(s, a)
    case DoForget(a, _) => Forget(s, a)
  }

  ghost function Calls(s: State, op: Op): seq<Callback> {
    match op
    case DoInit(devices, forgets) => if s.initialized then [] else InitCalls(s, devices, forgets)
    case DoSave(a, saved, forgot) => SaveCalls(s, a, saved, forgot)
    case DoForget(a, forgot) => ForgetCalls(s, a, forgot)
    case _ => []
  }

  ghost function Step(w: World, op: Op): World {
    World(Next(w.s, op), Replay(w.storage, Calls(w.s, op)))
  }

  /** A closed allocator forgets; an Init that disagrees with a device still paired gives
      it another id.  Nothing else changes an id. */
  ghost predicate Retains(s: State, op: Op) {
    !op.DoClose? && (op.DoInit? && !s.initialized ==> Agrees(s, op.devices))
  }

  /** Closing an initialized allocator takes every id back and keeps the cursor and the
      callbacks; closing it again changes nothing. */
  lemma CloseForgets(s: State)
    ensures s.initialized ==>
      && Held(Close(s)) == map[] && Close(s).ids == {} && !Close(s).initialized
      && Close(s).next == s.next && Close(s).callbacks == s.callbacks
    ensures !s.initialized ==> Close(s) == s
  {
    assert AsMap<RawAddress, int>([]) == map[];
  }

  lemma NextKeepsInv(s: State, op: Op)
    requires Settled(s) && Allowed(s, op)
    ensures Settled(Next(s, op))
    ensures Retains(s, op) ==> KeepsIds(s, Next(s, op))
  {
    match op
    case DoInit(devices, _) =>
      if !s.initialized {
        InitKeepsInv(s, devices);
      }
    case DoClose =>
      assert AsMap<RawAddress, int>([]) == map[];
    case DoAllocate(a) => AllocateKeepsInv(s, a);
    case DoSave(a, _, _) => SaveKeepsInv(s, a);
    case DoForget(a, _) => ForgetKeepsInv(s, a);
  }

  lemma InitKeepsInv(s: State, devices: Devices)
    requires Inv(s) && Loadable(devices) && Acceptable(s, devices) && (Fits(s, devices) || Agrees(s, devices))
    ensures Inv(Init(s, devices)) && (Agrees(s, devices) ==> KeepsIds(s, Init(s, devices)))
  {
    if Agrees(s, devices) {
      AgreeingInitKeepsInv(s, devices);
    } else {
      InitKeepsInvExactly(s, devices);
    }
  }

  ghost predicate Takes(w: World, op: Op, w': World) {
    Allowed(w.s, op) && w' == Step(w, op)
  }

  /** A run starts from a fresh allocator and only does what is allowed. */
  ghost predicate IsRun(run: seq<World>, ops: seq<Op>) {
    && |run| == |ops| + 1 && run[0].s == FRESH
    && forall i :: 0 <= i < |ops| ==> Takes(run[i], ops[i], run[i + 1])
  }

  /** In every state of every run the id set is exactly the ids held, no device is in
      both caches, no two devices share an id, and ids and cursor are in range. */
  lemma {:induction false} RunKeepsInv(run: seq<World>, ops: seq<Op>, i: nat)
    requires IsRun(run, ops) && i < |run|
    ensures Settled(run[i].s)
  {
    if i == 0 {
      assert AsMap<RawAddress, int>([]) == map[];
    } else {
      RunKeepsInv(run, ops, i - 1);
      assert Takes(run[i - 1], ops[i - 1], run[i]);
      NextKeepsInv(run[i - 1].s, ops[i - 1]);
    }
  }

  /** The device has this id. */
  ghost predicate HasId(w: World, a: RawAddress, id: int) {
    a in Held(w.s) && Held(w.s)[a] == id
  }

  lemma StepKeepsId(run: seq<World>, ops: seq<Op>, i: nat, a: RawAddress, id: int)
    requires IsRun(run, ops) && i < |ops| && Retains(run[i].s, ops[i])
    requires HasId(run[i], a, id) && a in Held(run[i + 1].s)
    ensures HasId(run[i + 1], a, id)
  {
    RunKeepsInv(run, ops, i);
    assert Takes(run[i], ops[i], run[i + 1]);
    NextKeepsInv(run[i].s, ops[i]);
  }

  /** A device keeps its id for as long as it stays known and no Close comes between. */
  lemma {:induction false} RunKeepsIds(run: seq<World>, ops: seq<Op>, i: nat, j: nat, a: RawAddress, id: int)
    requires IsRun(run, ops) && i <= j < |run| && HasId(run[i], a, id)
    requires forall k :: i <= k <= j ==> a in Held(run[k].s)
    requires forall k :: i <= k < j ==> Retains(run[k].s, ops[k])
    ensures HasId(run[j], a, id)
    decreases j
  {
    if i < j {
      RunKeepsIds(run, ops, i, j - 1, a, id);
      StepKeepsId(run, ops, j - 1, a, id);
    }
  }

  /** After a Close of an initialized allocator no device has an id, whatever came before,
      and what is stored stays stored. */
  lemma RunCloseForgets(run: seq<World>, ops: seq<Op>, i: nat, a: RawAddress)
    requires IsRun(run, ops) && i < |ops| && ops[i].DoClose? && run[i].s.initialized
    ensures a !in Held(run[i + 1].s) && run[i + 1].s.ids == {} && !run[i + 1].s.initialized
    ensures run[i + 1].s.next == run[i].s.next && run[i + 1].storage == run[i].storage
  {
    assert Takes(run[i], ops[i], run[i + 1]);
    CloseForgets(run[i].s);
  }

  // ----- the cursor over a run -----

  /** The step hands out a new id. */
  ghost predicate Assigns(w: World, op: Op) {
    op.DoAllocate? && op.address !in Held(w.s)
  }

  /** The step sets the cursor from a map. */
  ghost predicate Loads(w: World, op: Op) {
    op.DoInit? && !w.s.initialized
  }

  /** How far the cursor goes in a step: over the ids in use and past the one it hands out. */
  ghost function Stride(w: World, op: Op): int {
    if Assigns(w, op) then Ahead(w.s.next, AllocatedId(w.s, op.address)) + 1 else 0
  }

  ghost function Strides(run: seq<World>, ops: seq<Op>): seq<int>
    requires |ops| <= |run|
  {
    seq(|ops|, k requires 0 <= k < |ops| => Stride(run[k], ops[k]))
  }

  ghost function Cursors(run: seq<World>): seq<int> {
    seq(|run|, k requires 0 <= k < |run| => run[k].s.next)
  }

  ghost function Sum(s: seq<int>): int {
    if s == [] then 0 else Sum(s[..|s| - 1]) + s[|s| - 1]
  }

  /** Each cursor is the one before it moved on by a stride, round the id space. */
  ghost predicate Follow(cursors: seq<int>, strides: seq<int>) {
    && |cursors| == |strides| + 1
    && forall k :: 0 <= k < |strides| ==>
         strides[k] >= 0 && (cursors[k + 1] - cursors[k] - strides[k]) % MAX_ID == 0
  }

  lemma Multiples(x: int, y: int)
    requires x % MAX_ID == 0 && y % MAX_ID == 0
    ensures (x + y) % MAX_ID == 0
  {
  }

  /** The cursor has moved on by the stride, to just past the id if one was handed out. */
  ghost predicate Moved(w: World, op: Op, next: int) {
    && Stride(w, op) >= 0 && (next - w.s.next - Stride(w, op)) % MAX_ID == 0
    && (Assigns(w, op) ==>
          var id := AllocatedId(w.s, op.address);
          IsValidId(id) && Stride(w, op) >= 1 && (next - id - 1) % MAX_ID == 0)
  }

  lemma NextMovesCursor(w: World, op: Op)
    requires Inv(w.s) && !Loads(w, op)
    ensures Moved(w, op, Next(w.s, op).next)
  {
    match op
    case DoAllocate(a) =>
      AllocateKeepsInv(w.s, a);
      StrideResidue(w.s.next, AllocatedId(w.s, a));
    case _ =>
  }

  lemma StrideResidue(next: int, id: int)
    requires IsValidId(next)
    ensures IsValidId(id) ==>
      var next' := if id == MAX_ID then MIN_ID else id + 1;
      && Ahead(next, id) >= 0 && (next' - next - (Ahead(next, id) + 1)) % MAX_ID == 0
      && (next' - id - 1) % MAX_ID == 0
  {
  }

  lemma StepMovesCursor(run: seq<World>, ops: seq<Op>, i: nat)
    requires IsRun(run, ops) && i < |ops| && !Loads(run[i], ops[i])
    ensures Moved(run[i], ops[i], run[i + 1].s.next)
  {
    RunKeepsInv(run, ops, i);
    assert Takes(run[i], ops[i], run[i + 1]);
    NextMovesCursor(run[i], ops[i]);
  }

  lemma {:induction false} CursorTravels(cursors: seq<int>, strides: seq<int>)
    requires Follow(cursors, strides)
    ensures (cursors[|strides|] - cursors[0] - Sum(strides)) % MAX_ID == 0 && Sum(strides) >= 0
    ensures strides != [] ==> Sum(strides) >= strides[|strides| - 1]
    decreases |strides|
  {
    if strides != [] {
      var n := |strides| - 1;
      CursorTravels(cursors[..n + 1], strides[..n]);
      Multiples(cursors[n] - cursors[0] - Sum(strides[..n]), cursors[n + 1] - cursors[n] - strides[n]);
    }
  }

  /** Steps `from` up to `to` of the run load no map. */
  ghost predicate NoneLoads(run: seq<World>, ops: seq<Op>, from: nat, to: nat)
    requires to <= |ops| <= |run|
  {
    forall k :: from <= k < to ==> !Loads(run[k], ops[k])
  }

  lemma CursorFollows(run: seq<World>, ops: seq<Op>, i: nat)
    requires IsRun(run, ops) && i < |ops| && !Loads(run[i], ops[i])
    ensures var cursors, strides := Cursors(run), Strides(run, ops);
      strides[i] >= 0 && (cursors[i + 1] - cursors[i] - strides[i]) % MAX_ID == 0
  {
    StepMovesCursor(run, ops, i);
  }

  lemma CursorsFollow(run: seq<World>, ops: seq<Op>, i: nat, j: nat)
    requires IsRun(run, ops) && i <= j <= |ops| && NoneLoads(run, ops, i, j)
    ensures Follow(Cursors(run)[i..j + 1], Strides(run, ops)[i..j])
  {
    var cursors, strides := Cursors(run), Strides(run, ops);
    forall k | i <= k < j ensures strides[k] >= 0 && (cursors[k + 1] - cursors[k] - strides[k]) % MAX_ID == 0 {
      CursorFollows(run, ops, k);
    }
    FollowSlice(cursors, strides, i, j);
  }

  lemma FollowSlice(cursors: seq<int>, strides: seq<int>, i: nat, j: nat)
    requires i <= j <= |strides| < |cursors|
    requires forall k :: i <= k < j ==>
      strides[k] >= 0 && (cursors[k + 1] - cursors[k] - strides[k]) % MAX_ID == 0
    ensures Follow(cursors[i..j + 1], strides[i..j])
  {
    forall k | 0 <= k < j - i
      ensures (cursors[i..j + 1][k + 1] - cursors[i..j + 1][k] - strides[i..j][k]) % MAX_ID == 0
    {
      assert strides[i + k] >= 0;
    }
  }

  /** What the cursor travels from after step `i` until after step `j`. */
  ghost function Travelled(run: seq<World>, ops: seq<Op>, i: nat, j: nat): int
    requires i <= j < |ops| <= |run|
  {
    Sum(Strides(run, ops)[i + 1..j + 1])
  }

  lemma TravelledFrom(run: seq<World>, ops: seq<Op>, i: nat, j: nat)
    requires i < j < |ops| < |run| && Follow(Cursors(run)[i + 1..j + 2], Strides(run, ops)[i + 1..j + 1])
    ensures (run[j + 1].s.next - run[i + 1].s.next - Travelled(run, ops, i, j)) % MAX_ID == 0
    ensures Travelled(run, ops, i, j) >= Stride(run[j], ops[j])
  {
    TravelSlice(Cursors(run), Strides(run, ops), i + 1, j + 1);
  }

  lemma RunTravels(run: seq<World>, ops: seq<Op>, i: nat, j: nat)
    requires IsRun(run, ops) && i < j < |ops| && NoneLoads(run, ops, i + 1, j + 1)
    ensures (run[j + 1].s.next - run[i + 1].s.next - Travelled(run, ops, i, j)) % MAX_ID == 0
    ensures Travelled(run, ops, i, j) >= Stride(run[j], ops[j])
  {
    CursorsFollow(run, ops, i + 1, j + 1);
    TravelledFrom(run, ops, i, j);
  }

  lemma TravelSlice(cursors: seq<int>, strides: seq<int>, i: nat, j: nat)
    requires i < j <= |strides| < |cursors| && Follow(cursors[i..j + 1], strides[i..j])
    ensures (cursors[j] - cursors[i] - Sum(strides[i..j])) % MAX_ID == 0 && Sum(strides[i..j]) >= strides[j - 1]
  {
    CursorTravels(cursors[i..j + 1], strides[i..j]);
  }

  /** Two allocations that hand out new ids, with no map loaded between them, give the
      same id exactly when the cursor has gone round a whole number of times in between;
      in particular never before it has gone round once. */
  lemma SameIdExactly(run: seq<World>, ops: seq<Op>, i: nat, j: nat)
    requires IsRun(run, ops) && i < j < |ops| && NoneLoads(run, ops, i + 1, j + 1)
    requires Assigns(run[i], ops[i]) && Assigns(run[j], ops[j])
    ensures var same := AllocatedId(run[i].s, ops[i].address) == AllocatedId(run[j].s, ops[j].address);
      && (same <==> Travelled(run, ops, i, j) % MAX_ID == 0)
      && (same ==> Travelled(run, ops, i, j) >= MAX_ID)
  {
    StepMovesCursor(run, ops, i);
    StepMovesCursor(run, ops, j);
    RunTravels(run, ops, i, j);
    SameResidue(AllocatedId(run[i].s, ops[i].address), AllocatedId(run[j].s, ops[j].address),
                run[i + 1].s.next, run[j + 1].s.next, Travelled(run, ops, i, j));
  }

  lemma SameResidue(x: int, y: int, from: int, to: int, travelled: int)
    requires IsValidId(x) && IsValidId(y) && travelled > 0
    requires (from - x - 1) % MAX_ID == 0 && (to - y - 1) % MAX_ID == 0
    requires (to - from - travelled) % MAX_ID == 0
    ensures x == y <==> travelled % MAX_ID == 0
    ensures x == y ==> travelled >= MAX_ID
  {
  }

  // ----- the storage behind the callbacks -----

  /** While initialized the storage is the paired cache; while closed it may hold more. */
  ghost predicate Mirrors(w: World) {
    if w.s.initialized then w.storage == AsMap(w.s.paired) else Includes(w.storage, AsMap(w.s.paired))
  }

  ghost predicate AllSucceed(calls: seq<Callback>) {
    forall c :: c in calls ==> c.ok
  }

  /** SaveDevice and ForgetDevice keep the storage equal to the paired cache exactly
      when every callback they make succeeds. */
  lemma MirrorsExactly(w: World, op: Op)
    requires Inv(w.s) && w.s.initialized && Mirrors(w) && (op.DoSave? || op.DoForget?)
    ensures Mirrors(Step(w, op)) <==> AllSucceed(Calls(w.s, op))
  {
    var s, a, p := w.s, op.address, AsMap(w.s.paired);
    AsMapLookup(s.paired, a);
    AsMapLookup(s.temporary, a);
    if op.DoForget? {
      ForgetKeepsInv(s, a);
      ReplayOne(p, Calls(s, op));
    } else if Has(s.paired, a) {
      TouchKeepsInv(s, a);
    } else if Has(s.temporary, a) {
      PairingMirrorsExactly(s, a, op.saved, op.forgot);
    }
  }

  /** What the callbacks of a SaveDevice that pairs a device do to the storage. */
  ghost function Stored(storage: map<RawAddress, int>, e: Option<Entry<RawAddress, int>>, a: RawAddress, id: int,
                        saved: bool, forgot: bool): map<RawAddress, int>
  {
    var q := if forgot then storage - KeyOf(e) else storage;
    if saved then q[a := id] else q
  }

  lemma PairingReplay(s: State, a: RawAddress, saved: bool, forgot: bool, storage: map<RawAddress, int>)
    requires Inv(s) && a in AsMap(s.temporary)
    ensures var e := Evicted(s.paired, MAX_PAIRED, a);
      && SaveCalls(s, a, saved, forgot) == ForgetCall(e, forgot) + [SaveId(a, AsMap(s.temporary)[a], saved)]
      && Replay(storage, SaveCalls(s, a, saved, forgot))
         == Stored(storage, e, a, AsMap(s.temporary)[a], saved, forgot)
  {
    AsMapLookup(s.paired, a);
    AsMapLookup(s.temporary, a);
    var save := SaveId(a, AsMap(s.temporary)[a], saved);
    match Evicted(s.paired, MAX_PAIRED, a)
    case None =>
      assert storage - {} == storage;
      assert [] + [save] == [save];
      ReplayOne(storage, [save]);
    case Some(d) =>
      assert [ForgetId(d.key, d.value, forgot)] + [save] == [ForgetId(d.key, d.value, forgot), save];
      ReplayTwo(storage, ForgetId(d.key, d.value, forgot), save);
  }

  lemma PairingMirrorsExactly(s: State, a: RawAddress, saved: bool, forgot: bool)
    requires Inv(s) && a in AsMap(s.temporary)
    ensures var calls := SaveCalls(s, a, saved, forgot);
      Replay(AsMap(s.paired), calls) == AsMap(Save(s, a).paired) <==> AllSucceed(calls)
  {
    var p, t, e := AsMap(s.paired), AsMap(s.temporary), Evicted(s.paired, MAX_PAIRED, a);
    SaveMoves(s, a);
    PairingReplay(s, a, saved, forgot, p);
    PutAsMap(s.paired, MAX_PAIRED, a, t[a]);
    StoredExactly(p, e, a, t[a], saved, forgot);
    PairingSucceeds(e, a, t[a], saved, forgot);
  }

  lemma PairingSucceeds(e: Option<Entry<RawAddress, int>>, a: RawAddress, id: int, saved: bool, forgot: bool)
    ensures AllSucceed(ForgetCall(e, forgot) + [SaveId(a, id, saved)]) <==> saved && (e.Some? ==> forgot)
  {
    var calls := ForgetCall(e, forgot) + [SaveId(a, id, saved)];
    assert calls[|calls| - 1] == SaveId(a, id, saved);
    assert e.Some? ==> calls[0] == ForgetId(e.value.key, e.value.value, forgot);
  }

  lemma StoredExactly(p: map<RawAddress, int>, e: Option<Entry<RawAddress, int>>, a: RawAddress, id: int,
                      saved: bool, forgot: bool)
    requires a !in p && (e.Some? ==> e.value.key in p)
    ensures Stored(p, e, a, id, saved, forgot) == (p - KeyOf(e))[a := id] <==> saved && (e.Some? ==> forgot)
  {
    var r, goal := Stored(p, e, a, id, saved, forgot), (p - KeyOf(e))[a := id];
    assert p - {} == p;
    assert a in r <==> saved;
    assert a in goal;
    if e.Some? {
      assert e.value.key != a;
      assert e.value.key in r <==> !forgot;
      assert e.value.key !in goal;
    }
  }

  lemma ReplayOne(storage: map<RawAddress, int>, calls: seq<Callback>)
    requires |calls| <= 1
    ensures Replay(storage, calls)
      == if calls == [] || !calls[0].ok then storage
         else if calls[0].SaveId? then storage[calls[0].address := calls[0].id]
         else storage - {calls[0].address}
  {
  }

  lemma ReplayTwo(storage: map<RawAddress, int>, forget: Callback, save: Callback)
    requires forget.ForgetId? && save.SaveId?
    ensures Replay(storage, [forget, save])
      == var q := if forget.ok then storage - {forget.address} else storage;
         if save.ok then q[save.address := save.id] else q
  {
    var q := if forget.ok then storage - {forget.address} else storage;
    assert [forget, save][1..] == [save];
    ReplayOne(q, [save]);
  }

  lemma {:induction false} ReplayAppend(storage: map<RawAddress, int>, first: seq<Callback>, later: seq<Callback>)
    ensures Replay(storage, first + later) == Replay(Replay(storage, first), later)
    decreases |first|
  {
    if first == [] {
      assert first + later == later;
    } else {
      assert (first + later)[1..] == first[1..] + later;
      ReplayAppend(Recorded(storage, first[0]), first[1..], later);
    }
  }

  /** On a closed allocator, successful callbacks keep every paired device stored. */
  lemma ClosedMirrors(w: World, op: Op)
    requires Settled(w.s) && !w.s.initialized && Mirrors(w) && (op.DoSave? || op.DoForget?)
    requires Allowed(w.s, op) && AllSucceed(Calls(w.s, op))
    ensures Mirrors(Step(w, op))
  {
    var s, a := w.s, op.address;
    AsMapLookup(s.paired, a);
    AsMapLookup(s.temporary, a);
    if op.DoForget? {
      ForgetKeepsInv(s, a);
      ReplayOne(w.storage, Calls(s, op));
    } else if Has(s.paired, a) {
      TouchKeepsInv(s, a);
    } else if Has(s.temporary, a) {
      var e, id := Evicted(s.paired, MAX_PAIRED, a), AsMap(s.temporary)[a];
      SaveMoves(s, a);
      PairingReplay(s, a, op.saved, op.forgot, w.storage);
      PairingSucceeds(e, a, id, op.saved, op.forgot);
    }
  }

  lemma StoredFits(p: map<RawAddress, int>, d: map<RawAddress, int>)
    requires Includes(d, p)
    ensures p.Keys + d.Keys == d.Keys && p + d == d
  {
  }

  /** Init is given what is stored: then everything fits and the storage stays as it is. */
  lemma InitMirrors(s: State, devices: Devices, forgets: RawAddress -> bool)
    requires Books(s) && Loadable(devices) && Includes(AsMap(devices), AsMap(s.paired))
    ensures InitCalls(s, devices, forgets) == [] && AsMap(Init(s, devices).paired) == AsMap(devices)
  {
    StoredFits(AsMap(s.paired), AsMap(devices));
    MapSize(devices);
    InitAdds(s, devices, forgets);
  }

  /** Each Init that loads is given the map that is stored. */
  ghost predicate LoadsWhatIsStored(run: seq<World>, ops: seq<Op>)
    requires |run| == |ops| + 1
  {
    forall j :: 0 <= j < |ops| && ops[j].DoInit? && !run[j].s.initialized ==> AsMap(ops[j].devices) == run[j].storage
  }

  /** Replaying the callbacks of any run onto the stored map gives exactly the paired
      cache, evictions included, as long as callbacks succeed. */
  lemma {:induction false} RunMirrors(run: seq<World>, ops: seq<Op>, i: nat)
    requires IsRun(run, ops) && LoadsWhatIsStored(run, ops) && i < |run|
    requires forall j :: 0 <= j < i ==> AllSucceed(Calls(run[j].s, ops[j]))
    ensures Mirrors(run[i])
  {
    if i == 0 {
      assert AsMap<RawAddress, int>([]) == map[];
    } else {
      RunMirrors(run, ops, i - 1);
      RunKeepsInv(run, ops, i - 1);
      assert Takes(run[i - 1], ops[i - 1], run[i]);
      StepMirrors(run[i - 1], ops[i - 1]);
    }
  }

  lemma StepMirrors(w: World, op: Op)
    requires Settled(w.s) && Mirrors(w) && Allowed(w.s, op) && AllSucceed(Calls(w.s, op))
    requires op.DoInit? && !w.s.initialized ==> AsMap(op.devices) == w.storage
    ensures Mirrors(Step(w, op))
  {
    match op
    case DoInit(_, _) =>
      if !w.s.initialized {
        InitMirrors(w.s, op.devices, op.forgets);
      }
    case DoClose =>
      assert AsMap<RawAddress, int>([]) == map[];
    case DoAllocate(a) => AllocateKeepsInv(w.s, a);
    case _ =>
      if w.s.initialized {
        MirrorsExactly(w, op);
      } else {
        ClosedMirrors(w, op);
      }
  }
}
