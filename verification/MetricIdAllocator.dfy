/** The allocator object of system/common/metric_id_allocator.cc over its two caches.
    Each method is proved to take the step that module MetricIds describes. */
module MetricIdAllocator {
  import opened Options
  import opened RecencyList
  import opened MetricIds
  import LruCache

  datatype InitOutcome = AlreadyInitialized | Aborted | Loaded

  class MetricIdAllocator {
    const paired: LruCache.Cache<RawAddress, int>
    const temporary: LruCache.Cache<RawAddress, int>
    var ids: set<int>
    var next: int
    var callbacks: bool
    var initialized: bool
    ghost var calls: seq<Callback>  // every call made to the storage callbacks

    /** Two caches of the two capacities that share nothing. */
    ghost predicate Wired()
      reads paired, temporary, paired.Repr, temporary.Repr
    {
      && paired.Valid() && temporary.Valid()
      && paired.Repr !! temporary.Repr && this !in paired.Repr && this !in temporary.Repr
      && paired.capacity == MAX_PAIRED && temporary.capacity == MAX_UNPAIRED
    }

    ghost predicate Valid()
      reads this, paired, temporary, paired.Repr, temporary.Repr
    {
      Wired() && (callbacks || paired.contents == [])
    }

    ghost function State(): State
      reads this, paired, temporary
    {
      MetricIds.State(paired.contents, temporary.contents, ids, next, callbacks, initialized)
    }

    constructor ()
      ensures Valid() && State() == FRESH && calls == []
      ensures fresh(paired.Repr) && fresh(temporary.Repr)
    {
      paired := new LruCache.Cache(MAX_PAIRED);
      temporary := new LruCache.Cache(MAX_UNPAIRED);
      ids, next, callbacks, initialized, calls := {}, MIN_ID, false, false, [];
    }

    // ----- Init and Close -----

    /** `devices` lists the entries of the given map in the order the loop visits them, and
        `forgets` is what the forget callback returns for a device evicted on the way. */
    method Init(devices: Devices, forgets: RawAddress -> bool) returns (outcome: InitOutcome)
      requires Valid() && DistinctKeys(devices)
      modifies this, paired.Repr
      ensures Wired() && fresh(paired.Repr - old(paired.Repr)) && (Valid() || outcome.Aborted?)
      ensures outcome == if old(initialized) then AlreadyInitialized
                         else if Loadable(devices) then Loaded else Aborted
      ensures outcome.AlreadyInitialized? ==> State() == old(State()) && calls == old(calls)
      ensures outcome.Loaded? ==>
        && State() == MetricIds.Init(old(State()), devices)
        && calls == old(calls) + InitCalls(old(State()), devices, forgets)
    {
      if initialized {
        return AlreadyInitialized;
      }
      if |devices| > MAX_PAIRED {
        return Aborted;
      }
      next := MIN_ID;
      var ok := LoadDevices(devices, forgets);
      if !ok {
        return Aborted;
      }
      FinishInit();
      return Loaded;
    }

    method FinishInit()
      requires Wired()
      modifies `next, `callbacks, `initialized
      ensures Valid() && callbacks && initialized && next == if old(next) > MAX_ID then MIN_ID else old(next)
    {
      if next > MAX_ID {
        next := MIN_ID;
      }
      callbacks, initialized := true, true;
    }

    /** The loop of Init.  Without callbacks it starts with an empty cache, so it never
        evicts and never calls the forget callback. */
    method LoadDevices(devices: Devices, forgets: RawAddress -> bool) returns (ok: bool)
      requires Valid() && |devices| <= MAX_PAIRED
      modifies `ids, `next, `calls, paired.Repr
      ensures Wired() && fresh(paired.Repr - old(paired.Repr))
      ensures ok <==> forall d :: d in devices ==> IsValidId(d.value)
      ensures ok ==> State() == Load(old(State()), devices)
      ensures ok ==> calls == old(calls) + LoadCalls(old(State()), devices, forgets)
    {
      ghost var start, s, made := State(), State(), [];
      for i := 0 to |devices|
        invariant Wired() && fresh(paired.Repr - old(paired.Repr))
        invariant State() == s && calls == old(calls) + made
        invariant callbacks || |paired.contents| <= i
        invariant Progress(start, devices, forgets, i, s, made)
      {
        if !IsValidId(devices[i].value) {
          return false;
        }
        ProgressStep(start, devices, forgets, i, s, made);
        Regroup(old(calls), made, LoadCall(s, devices[i], forgets));
        s, made := LoadOne(s, devices[i]), made + LoadCall(s, devices[i], forgets);
        LoadDevice(devices[i], forgets);
      }
      ProgressEnd(start, devices, forgets, s, made);
      return true;
    }

    /** After `i` devices with ids in range the loop is in state `s` and has made these calls. */
    static ghost predicate Progress(start: State, devices: Devices, forgets: RawAddress -> bool, i: nat,
                                    s: State, made: seq<Callback>)
    {
      && i <= |devices| && (forall j :: 0 <= j < i ==> IsValidId(devices[j].value))
      && Load(s, devices[i..]) == Load(start, devices)
      && made + LoadCalls(s, devices[i..], forgets) == LoadCalls(start, devices, forgets)
    }

    static lemma ProgressStep(start: State, devices: Devices, forgets: RawAddress -> bool, i: nat,
                              s: State, made: seq<Callback>)
      requires Progress(start, devices, forgets, i, s, made) && i < |devices| && IsValidId(devices[i].value)
      ensures Progress(start, devices, forgets, i + 1, LoadOne(s, devices[i]), made + LoadCall(s, devices[i], forgets))
    {
      var d, rest := devices[i], devices[i + 1..];
      assert devices[i..] == [d] + rest;
      Regroup(made, LoadCall(s, d, forgets), LoadCalls(LoadOne(s, d), rest, forgets));
    }

    static lemma Regroup(a: seq<Callback>, b: seq<Callback>, c: seq<Callback>)
      ensures (a + b) + c == a + (b + c)
    {
    }

    static lemma ProgressEnd(start: State, devices: Devices, forgets: RawAddress -> bool,
                             s: State, made: seq<Callback>)
      requires Progress(start, devices, forgets, |devices|, s, made)
      ensures s == Load(start, devices) && made == LoadCalls(start, devices, forgets)
      ensures forall d :: d in devices ==> IsValidId(d.value)
    {
    }

    method LoadDevice(d: Entry<RawAddress, int>, forgets: RawAddress -> bool)
      requires Wired() && (callbacks || |paired.contents| < MAX_PAIRED)
      modifies `ids, `next, `calls, paired.Repr
      ensures Wired() && fresh(paired.Repr - old(paired.Repr)) && |paired.contents| <= |old(paired.contents)| + 1
      ensures State() == LoadOne(old(State()), d)
      ensures calls == old(calls) + LoadCall(old(State()), d, forgets)
    {
      ghost var e := Evicted(paired.contents, MAX_PAIRED, d.key);
      PutPaired(d.key, d.value, forgets);
      TakeId(d.value);
      assert ids == old(ids) - Released(e) + {d.value};
    }

    method TakeId(id: int)
      requires Wired()
      modifies `ids, `next
      ensures Wired() && ids == old(ids) + {id} && next == if id + 1 > old(next) then id + 1 else old(next)
    {
      ids := ids + {id};
      next := if id + 1 > next then id + 1 else next;
    }

    /** Puts a device in the paired cache and forgets the one that is evicted, if any. */
    method PutPaired(a: RawAddress, id: int, forgets: RawAddress -> bool)
      requires Wired() && (callbacks || |paired.contents| < MAX_PAIRED)
      modifies `ids, `calls, paired.Repr
      ensures Wired() && fresh(paired.Repr - old(paired.Repr))
      ensures paired.contents == Put(old(paired.contents), MAX_PAIRED, a, id)
      ensures |paired.contents| <= |old(paired.contents)| + 1
      ensures var e := Evicted(old(paired.contents), MAX_PAIRED, a);
        && ids == old(ids) - Released(e)
        && calls == old(calls) + ForgetCall(e, e.Some? && forgets(e.value.key))
    {
      var evicted := paired.Put(a, id);
      if evicted.Some? {
        ForgetDevicePostprocess(evicted.value.key, evicted.value.value, forgets(evicted.value.key));
      }
    }

    method Close() returns (closed: bool)
      requires Valid()
      modifies this, paired.Repr, temporary.Repr
      ensures Valid() && paired.Repr == old(paired.Repr) && temporary.Repr == old(temporary.Repr)
      ensures State() == MetricIds.Close(old(State())) && closed == old(initialized)
      ensures closed ==> paired.contents == [] && temporary.contents == [] && ids == {} && !initialized
      ensures calls == old(calls) && next == old(next)
    {
      if !initialized {
        return false;
      }
      paired.Clear();
      temporary.Clear();
      ids, initialized := {}, false;
      return true;
    }

    method IsEmpty() returns (empty: bool)
      requires Valid()
      ensures empty <==> Held(State()) == map[]
    {
      var p := paired.Size();
      var t := temporary.Size();
      empty := p == 0 && t == 0;
      if |paired.contents| > 0 {
        AsMapHead(paired.contents);
      }
      if |temporary.contents| > 0 {
        AsMapHead(temporary.contents);
      }
    }

    lemma AsMapHead(s: Devices)
      requires s != []
      ensures s[0].key in AsMap(s)
    {
    }

    // ----- AllocateId -----

    /** The cursor loop: terminates, and stops at the first free id in cyclic order. */
    method FindFreeId() returns (id: int)
      requires Inv(State())
      modifies `next
      ensures id == next == FirstFree(old(State()))
    {
      ghost var free := SomeIdIsFree(State());
      ghost var start := next;
      while next in ids
        invariant IsValidId(next)
        invariant Ahead(start, next) <= Ahead(start, free)
        invariant forall x :: IsValidId(x) && Ahead(start, x) < Ahead(start, next) ==> x in ids
        decreases Ahead(next, free)
      {
        next := next + 1;
        if next > MAX_ID {
          next := MIN_ID;
        }
      }
      id := next;
      FirstFreeFound(old(State()));
      assert IsFirstFree(ids, start, id);
    }

    method AllocateId(a: RawAddress) returns (id: int)
      requires Valid() && Inv(State())
      modifies this, paired.Repr, temporary.Repr
      ensures Valid() && calls == old(calls)
      ensures paired.Repr == old(paired.Repr) && fresh(temporary.Repr - old(temporary.Repr))
      ensures State() == Allocate(old(State()), a) && id == AllocatedId(old(State()), a)
    {
      ghost var s := State();
      AsMapLookup(s.paired, a);
      AsMapLookup(s.temporary, a);
      var known := paired.Get(a);
      if known.Some? {
        return known.value;
      }
      assert State() == s;
      id := AllocateUnpaired(a);
    }

    /** The rest of AllocateId, for a device that is not paired. */
    method AllocateUnpaired(a: RawAddress) returns (id: int)
      requires Valid() && Inv(State()) && !Has(paired.contents, a)
      modifies this, temporary.Repr
      ensures Valid() && calls == old(calls)
      ensures fresh(temporary.Repr - old(temporary.Repr))
      ensures State() == Allocate(old(State()), a)
      ensures Some(id) == if Has(old(temporary.contents), a) then Lookup(old(temporary.contents), a)
                          else Some(FirstFree(old(State())))
    {
      ghost var s := State();
      var known := temporary.Get(a);
      if known.Some? {
        return known.value;
      }
      assert State() == s;
      id := AssignId(a);
    }

    /** The rest of AllocateId, for a device found in neither cache. */
    method AssignId(a: RawAddress) returns (id: int)
      requires Valid() && Inv(State()) && !Has(paired.contents, a) && !Has(temporary.contents, a)
      modifies `ids, `next, temporary.Repr
      ensures Valid()
      ensures fresh(temporary.Repr - old(temporary.Repr))
      ensures State() == Allocate(old(State()), a) && id == FirstFree(old(State()))
    {
      id := TakeFreeId();
      StoreTemporary(a, id);
    }

    method TakeFreeId() returns (id: int)
      requires Wired() && Inv(State())
      modifies `next
      ensures Wired() && id == FirstFree(old(State())) && next == Successor(id)
    {
      id := FindFreeId();
      next := next + 1;
      if next > MAX_ID {
        next := MIN_ID;
      }
    }

    method StoreTemporary(a: RawAddress, id: int)
      requires Wired()
      modifies `ids, temporary.Repr
      ensures Wired() && fresh(temporary.Repr - old(temporary.Repr))
      ensures temporary.contents == Put(old(temporary.contents), MAX_UNPAIRED, a, id)
      ensures ids == old(ids) + {id} - Released(Evicted(old(temporary.contents), MAX_UNPAIRED, a))
    {
      ids := ids + {id};
      var evicted := temporary.Put(a, id);
      if evicted.Some? {
        ids := ids - {evicted.value.value};
      }
    }

    // ----- SaveDevice and ForgetDevice -----

    /** The callback must have been set. */
    method ForgetDevicePostprocess(a: RawAddress, id: int, forgot: bool)
      requires callbacks
      modifies `ids, `calls
      ensures ids == old(ids) - {id} && calls == old(calls) + [ForgetId(a, id, forgot)]
    {
      ids := ids - {id};
      calls := calls + [ForgetId(a, id, forgot)];
    }

    /** `saved` and `forgot` are what the two callbacks return if they are called; a device
        cannot be paired before the callbacks have been set. */
    method SaveDevice(a: RawAddress, saved: bool, forgot: bool) returns (ok: bool)
      requires Valid() && (callbacks || !Has(temporary.contents, a))
      modifies this, paired.Repr, temporary.Repr
      ensures Valid() && fresh(paired.Repr - old(paired.Repr)) && temporary.Repr == old(temporary.Repr)
      ensures State() == Save(old(State()), a) && ok == SaveReturns(old(State()), a, saved)
      ensures ok <==> Has(old(paired.contents), a) || (Has(old(temporary.contents), a) && saved)
      ensures calls == old(calls) + SaveCalls(old(State()), a, saved, forgot)
    {
      ghost var s := State();
      var known := paired.Get(a);
      if known.Some? {
        return true;
      }
      assert State() == s;
      ok := SaveUnpaired(a, saved, forgot);
    }

    /** The rest of SaveDevice, for a device that is not paired. */
    method SaveUnpaired(a: RawAddress, saved: bool, forgot: bool) returns (ok: bool)
      requires Valid() && !Has(paired.contents, a) && (callbacks || !Has(temporary.contents, a))
      modifies `ids, `calls, paired.Repr, temporary.Repr
      ensures Valid() && fresh(paired.Repr - old(paired.Repr)) && temporary.Repr == old(temporary.Repr)
      ensures State() == Save(old(State()), a) && ok == SaveReturns(old(State()), a, saved)
      ensures calls == old(calls) + SaveCalls(old(State()), a, saved, forgot)
    {
      var known := RemoveFrom(temporary, a);
      if known.None? {
        return false;
      }
      StorePaired(a, known.value, saved, forgot);
      return saved;
    }

    /** A lookup and the removal that follows a hit, as SaveDevice and ForgetDevice do it. */
    static method RemoveFrom(cache: LruCache.Cache<RawAddress, int>, a: RawAddress) returns (known: Option<int>)
      requires cache.Valid()
      modifies cache.Repr
      ensures cache.Valid() && cache.Repr == old(cache.Repr) && known == Lookup(old(cache.contents), a)
      ensures cache.contents == Without(old(cache.contents), a)
    {
      cache.KeysAreDistinct();
      WithoutTouched(cache.contents, a);
      known := cache.Get(a);
      if known.Some? {
        var removed := cache.Remove(a);
        assert removed;
      }
    }

    method StorePaired(a: RawAddress, id: int, saved: bool, forgot: bool)
      requires Wired() && callbacks
      modifies `ids, `calls, paired.Repr
      ensures Wired() && fresh(paired.Repr - old(paired.Repr))
      ensures paired.contents == Put(old(paired.contents), MAX_PAIRED, a, id)
      ensures ids == old(ids) - Released(Evicted(old(paired.contents), MAX_PAIRED, a))
      ensures calls == old(calls)
        + (ForgetCall(Evicted(old(paired.contents), MAX_PAIRED, a), forgot) + [SaveId(a, id, saved)])
    {
      PutPaired(a, id, _ => forgot);
      calls := calls + [SaveId(a, id, saved)];
    }

    method ForgetDevice(a: RawAddress, forgot: bool)
      requires Valid()
      modifies this, paired.Repr
      ensures Valid() && paired.Repr == old(paired.Repr)
      ensures State() == Forget(old(State()), a)
      ensures calls == old(calls) + ForgetCalls(old(State()), a, forgot)
    {
      var known := RemoveFrom(paired, a);
      if known.Some? {
        ForgetDevicePostprocess(a, known.value, forgot);
      }
    }

    // ----- runs of the object -----

    /** Any operation that is allowed takes its step and makes its calls. */
    method Perform(op: MetricIds.Op)
      requires Valid() && Settled(State()) && Allowed(State(), op)
      modifies this, paired.Repr, temporary.Repr
      ensures Valid()
      ensures fresh(paired.Repr - old(paired.Repr)) && fresh(temporary.Repr - old(temporary.Repr))
      ensures State() == Next(old(State()), op)
      ensures calls == old(calls) + Calls(old(State()), op)
    {
      match op
      case DoInit(devices, forgets) => var _ := Init(devices, forgets);
      case DoClose => var _ := Close();
      case DoAllocate(a) => var _ := AllocateId(a);
      case DoSave(a, saved, forgot) => var _ := SaveDevice(a, saved, forgot);
      case DoForget(a, forgot) => ForgetDevice(a, forgot);
    }
  }

  /** The object goes through every run of the model: it ends in the state of the run, and
      its calls turn the storage of the beginning into that of the end. */
  method PerformAll(ops: seq<MetricIds.Op>, ghost run: seq<World>) returns (allocator: MetricIdAllocator)
    requires IsRun(run, ops)
    ensures fresh(allocator) && allocator.Valid()
    ensures allocator.State() == run[|ops|].s
    ensures Replay(run[0].storage, allocator.calls) == run[|ops|].storage
  {
    allocator := new MetricIdAllocator();
    for i := 0 to |ops|
      invariant fresh(allocator) && fresh(allocator.paired.Repr) && fresh(allocator.temporary.Repr)
      invariant allocator.Valid() && allocator.State() == run[i].s
      invariant Replay(run[0].storage, allocator.calls) == run[i].storage
    {
      RunKeepsInv(run, ops, i);
      assert Takes(run[i], ops[i], run[i + 1]);
      ReplayAppend(run[0].storage, allocator.calls, Calls(run[i].s, ops[i]));
      allocator.Perform(ops[i]);
    }
  }
}
