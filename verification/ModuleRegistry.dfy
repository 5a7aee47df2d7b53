/** The registry object of system/gd/module.cc: recursive start-up in dependency order
    and shutdown in exact reverse order. */
module ModuleRegistry {
  import opened Options
  import opened ModuleGraph

  datatype Lookup = Found(instance: int) | NotListed | NotStarted

  class ModuleRegistry {
    const graph: Graph
    var started: map<Factory, int>   // started_modules_
    var order: seq<Factory>          // start_order_
    var nextInstance: int            // where the next constructed module lives
    ghost var trace: seq<Event>      // everything that happened to module instances
    ghost var m: Monitor             // what an observer of the trace knows

    /** The registry agrees with the observer, and the trace broke no rule so far. */
    ghost predicate Tracked()
      reads this
    {
      && Acyclic(graph)
      && Observe(graph, trace) == Some(m) && m.registered == started
      && (forall i :: i in m.constructed ==> i < nextInstance) && m.pending <= m.constructed
    }

    ghost predicate Valid()
      reads this
    {
      && Tracked() && m.stopped == {}
      && NoDuplicates(order) && DependencyOrdered(graph, order) && Lists(order, m)
    }

    constructor (graph: Graph)
      requires Acyclic(graph)
      ensures Valid() && order == [] && trace == [] && this.graph == graph && m.pending == {}
    {
      this.graph := graph;
      started, order, nextInstance, trace, m := map[], [], 0, [], IDLE;
    }

    ghost method Emit(e: Event)
      requires Observe(graph, trace) == Some(m) && Legal(graph, m, e)
      modifies `trace, `m
      ensures trace == old(trace) + [e] && m == After(old(m), e)
      ensures Observe(graph, trace) == Some(m)
      ensures Started(trace) == Started(old(trace)) + if e.StartUp? then [e.factory] else []
    {
      ObserveExtend(graph, trace, m, e);
      StartedExtend(trace, e);
      trace := trace + [e];
      m := After(m, e);
    }

    predicate IsStarted(f: Factory)
      reads this
    {
      f in started
    }

    function Get(f: Factory): Lookup
      reads this
    {
      if f in started then Found(started[f]) else NotStarted
    }

    /** What module `f` gets when it asks for `d`; both failures are asserts. */
    function GetDependency(f: Factory, d: Factory): Lookup
      reads this
    {
      if d in graph.deps(f) then Get(d) else NotListed
    }

    /** The registry answers with the instance whose Start ran last for that module and
        which has not been freed since; it fails exactly if there is none. */
    lemma GetFindsLive(f: Factory)
      requires Tracked()
      ensures Get(f).Found? ==> IsLive(trace, f, Get(f).instance)
      ensures Get(f).Found? <==> exists i :: IsLive(trace, f, i)
      ensures Get(f) == NotStarted <==> !IsStarted(f)
    {
      forall i ensures IsLive(trace, f, i) <==> f in m.registered && m.registered[f] == i {
        LiveMeansRegistered(graph, trace, f, i);
      }
    }

    /** A started module that asks for something it listed gets the live instance of that
        module; it is refused exactly what it did not list. */
    lemma DependencyFound(f: Factory, d: Factory)
      requires Valid() && IsStarted(f)
      ensures if d in graph.deps(f)
              then GetDependency(f, d).Found? && IsLive(trace, d, GetDependency(f, d).instance)
              else GetDependency(f, d) == NotListed
    {
      var i :| 0 <= i < |order| && order[i] == f;
      assert d in graph.deps(f) ==> d in order[..i];
      GetFindsLive(d);
    }

    // ----- start-up -----

    method StartModule(f: Factory) returns (instance: int)
      requires Valid()
      modifies this
      ensures Valid() && m.pending == old(m.pending)
      ensures order == Visit(graph, old(order), f)
      ensures f in started && instance == started[f]
      ensures forall h :: h in old(started) ==> h in started && started[h] == old(started[h])
      ensures |old(order)| <= |order| && Started(trace) == Started(old(trace)) + order[|old(order)|..]
      decreases graph.rank(f), 1
    {
      if f in started {
        return started[f];
      }
      instance := Make(f);
      HeightBound(graph, graph.deps(f), graph.rank(f));
      VisitAllSound(graph, order, graph.deps(f));
      StartList(graph.deps(f));
      Appended(Started(old(trace)), old(order), order, order + [f]);
      Register(f, instance);
    }

    method Make(f: Factory) returns (instance: int)
      requires Valid()
      modifies `nextInstance, `trace, `m
      ensures Valid() && instance !in old(m.constructed)
      ensures m.pending == old(m.pending) + {instance}
      ensures Started(trace) == Started(old(trace))
    {
      instance := nextInstance;
      nextInstance := nextInstance + 1;
      Emit(Construct(f, instance));
    }

    method Register(f: Factory, instance: int)
      requires Valid() && f !in started && instance in m.pending
      requires forall d :: d in graph.deps(f) ==> d in order
      modifies `started, `order, `trace, `m
      ensures Valid() && m.pending == old(m.pending) - {instance}
      ensures order == old(order) + [f] && started == old(started)[f := instance]
      ensures Started(trace) == Started(old(trace)) + [f]
    {
      StartIsLegal(graph, m, order, f, instance);
      Emit(StartUp(f, instance));
      order := order + [f];
      started := started[f := instance];
    }

    method StartList(list: seq<Factory>)
      requires Valid()
      modifies this
      ensures Valid() && m.pending == old(m.pending)
      ensures order == VisitAll(graph, old(order), list)
      ensures forall h :: h in old(started) ==> h in started && started[h] == old(started[h])
      ensures |old(order)| <= |order| && Started(trace) == Started(old(trace)) + order[|old(order)|..]
      decreases Height(graph, list), 0
    {
      var i := 0;
      while i < |list|
        invariant 0 <= i <= |list|
        invariant Valid() && m.pending == old(m.pending)
        invariant VisitAll(graph, order, list[i..]) == VisitAll(graph, old(order), list)
        invariant forall h :: h in old(started) ==> h in started && started[h] == old(started[h])
        invariant old(order) <= order && Started(trace) == Started(old(trace)) + order[|old(order)|..]
      {
        assert list[i] in list && list[i..][1..] == list[i + 1..];
        ghost var before := order;
        VisitSound(graph, order, list[i]);
        var instance := StartModule(list[i]);
        Appended(Started(old(trace)), old(order), before, order);
        i := i + 1;
      }
    }

    // ----- shutdown -----

    /** Stops every module in reverse start order, then frees every module in reverse
        start order; no rule of the protocol is broken on the way and nothing is left. */
    method StopAll()
      requires Valid() && m.pending == {}
      modifies this
      ensures Valid() && order == [] && started == map[] && m.pending == {}
      ensures m.freed == m.constructed == old(m.constructed)
      ensures trace == old(trace) + Stops(old(order), old(started), |old(order)|)
                                  + Frees(old(order), old(started), |old(order)|)
    {
      StopModules();
      FreeModules();
      order := [];
      TraceAccounted(graph, trace);
      assert forall i :: i in m.constructed <==> i in m.freed;
    }

    method StopModules()
      requires Valid()
      modifies `trace, `m
      ensures Tracked() && m == old(m).(stopped := m.registered.Keys)
      ensures trace == old(trace) + Stops(order, started, |order|)
    {
      var n := |order|;
      while n > 0
        invariant 0 <= n <= |order| && Tracked() && Lists(order, m)
        invariant m == old(m).(stopped := m.stopped)
        invariant forall f :: f in m.stopped <==> f in order[n..]
        invariant trace + Stops(order, started, n) == old(trace) + Stops(order, started, |order|)
      {
        StopOne(n);
        n := n - 1;
      }
      assert order[0..] == order;
    }

    method StopOne(n: nat)
      requires Tracked() && NoDuplicates(order) && DependencyOrdered(graph, order) && Lists(order, m)
      requires 0 < n <= |order| && forall f :: f in m.stopped <==> f in order[n..]
      modifies `trace, `m
      ensures Tracked() && m == old(m).(stopped := m.stopped)
      ensures forall f :: f in m.stopped <==> f in order[n - 1..]
      ensures trace + Stops(order, started, n - 1) == old(trace) + Stops(order, started, n)
    {
      var f := order[n - 1];
      StopIsLegal(graph, m, order, n);
      assert order[n - 1..] == [f] + order[n..];
      Assoc(trace, [Stop(f, started[f])], Stops(order, started, n - 1));
      Emit(Stop(f, started[f]));
    }

    method FreeModules()
      requires Tracked() && m.stopped == m.registered.Keys
      requires NoDuplicates(order) && DependencyOrdered(graph, order) && Lists(order, m)
      modifies `started, `trace, `m
      ensures Tracked() && started == map[] && m.stopped == {}
      ensures m.constructed == old(m.constructed) && m.pending == old(m.pending)
      ensures trace == old(trace) + Frees(order, old(started), |order|)
    {
      ghost var all := started;
      var n := |order|;
      assert order[..n] == order;
      while n > 0
        invariant 0 <= n <= |order| && Tracked() && m.stopped == m.registered.Keys
        invariant m.constructed == old(m.constructed) && m.pending == old(m.pending)
        invariant Lists(order[..n], m)
        invariant forall f :: f in started ==> f in all && started[f] == all[f]
        invariant trace + Frees(order, all, n) == old(trace) + Frees(order, all, |order|)
      {
        FreeOne(n, all);
        n := n - 1;
      }
      assert order[..0] == [] && started == map[];
    }

    method FreeOne(n: nat, ghost all: map<Factory, int>)
      requires Tracked() && NoDuplicates(order) && DependencyOrdered(graph, order)
      requires 0 < n <= |order| && Lists(order[..n], m) && m.stopped == m.registered.Keys
      requires forall f :: f in order ==> f in all
      requires forall f :: f in started ==> f in all && started[f] == all[f]
      modifies `started, `trace, `m
      ensures Tracked() && m.stopped == m.registered.Keys
      ensures m.constructed == old(m.constructed) && m.pending == old(m.pending)
      ensures Lists(order[..n - 1], m) && started == old(started) - {order[n - 1]}
      ensures trace + Frees(order, all, n - 1) == old(trace) + Frees(order, all, n)
    {
      var f := order[n - 1];
      TraceAccounted(graph, trace);
      FreeIsLegal(graph, m, order, n);
      Assoc(trace, [Free(f, started[f])], Frees(order, all, n - 1));
      Emit(Free(f, started[f]));
      started := started - {f};
    }
  }

  lemma Assoc<T>(a: seq<T>, b: seq<T>, c: seq<T>)
    ensures (a + b) + c == a + (b + c)
  {
  }

  lemma Appended(base: seq<Factory>, start: seq<Factory>, mid: seq<Factory>, end: seq<Factory>)
    requires start <= mid <= end
    ensures base + mid[|start|..] + end[|mid|..] == base + end[|start|..]
  {
    assert mid[|start|..] + end[|mid|..] == end[|start|..];
  }

  /** Stop events for `order[..n]`, last first. */
  ghost function Stops(order: seq<Factory>, started: map<Factory, int>, n: nat): seq<Event>
    requires n <= |order| && forall f :: f in order ==> f in started
  {
    if n == 0 then [] else [Stop(order[n - 1], started[order[n - 1]])] + Stops(order, started, n - 1)
  }

  /** One event per module, in exact reverse order. */
  lemma {:induction false} StopsInReverse(order: seq<Factory>, started: map<Factory, int>, n: nat, k: nat)
    requires k < n <= |order| && forall f :: f in order ==> f in started
    ensures |Stops(order, started, n)| == |Frees(order, started, n)| == n
    ensures var f := order[n - 1 - k];
      Stops(order, started, n)[k] == Stop(f, started[f]) && Frees(order, started, n)[k] == Free(f, started[f])
  {
    if n > 1 {
      StopsInReverse(order, started, n - 1, if k > 0 then k - 1 else 0);
    }
  }

  ghost function Frees(order: seq<Factory>, started: map<Factory, int>, n: nat): seq<Event>
    requires n <= |order| && forall f :: f in order ==> f in started
  {
    if n == 0 then [] else [Free(order[n - 1], started[order[n - 1]])] + Frees(order, started, n - 1)
  }
}
