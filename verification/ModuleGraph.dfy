/** The order in which system/gd/module.cc starts modules, over an arbitrary acyclic
    dependency graph, and the protocol its start-up and shutdown must follow. */
module ModuleGraph {
  import opened Options

  /** A module factory: the registry uses its address as the module's identity. */
  datatype Factory = Factory(address: int)

  /** What each module lists as its dependencies; `rank` witnesses that they have no cycle. */
  datatype Graph = Graph(deps: Factory -> seq<Factory>, rank: Factory -> nat)

  ghost predicate Acyclic(g: Graph) {
    forall f, d :: d in g.deps(f) ==> g.rank(d) < g.rank(f)
  }

  /** One more than the largest rank in the list. */
  ghost function Height(g: Graph, list: seq<Factory>): (h: nat)
    ensures forall f :: f in list ==> g.rank(f) < h
  {
    if list == [] then 0
    else
      var rest := Height(g, list[1..]);
      if g.rank(list[0]) < rest then rest else g.rank(list[0]) + 1
  }

  lemma {:induction false} HeightBound(g: Graph, list: seq<Factory>, bound: nat)
    requires forall f :: f in list ==> g.rank(f) < bound
    ensures Height(g, list) <= bound
  {
    if list != [] {
      assert list[0] in list;
      HeightBound(g, list[1..], bound);
    }
  }

  // ----- Start as a function of the start order -----

  ghost function Visit(g: Graph, order: seq<Factory>, f: Factory): seq<Factory>
    requires Acyclic(g)
    decreases g.rank(f), 1
  {
    if f in order then order
    else
      HeightBound(g, g.deps(f), g.rank(f));
      VisitAll(g, order, g.deps(f)) + [f]
  }

  ghost function VisitAll(g: Graph, order: seq<Factory>, list: seq<Factory>): seq<Factory>
    requires Acyclic(g)
    decreases Height(g, list), 0, |list|
  {
    if list == [] then order else VisitAll(g, Visit(g, order, list[0]), list[1..])
  }

  ghost predicate NoDuplicates(s: seq<Factory>) {
    forall i, j :: 0 <= i < j < |s| ==> s[i] != s[j]
  }

  /** Every module comes after all its dependencies. */
  ghost predicate DependencyOrdered(g: Graph, s: seq<Factory>) {
    forall i, d :: 0 <= i < |s| && d in g.deps(s[i]) ==> d in s[..i]
  }

  ghost predicate IsPath(g: Graph, p: seq<Factory>) {
    p != [] && forall i :: 0 <= i < |p| - 1 ==> p[i + 1] in g.deps(p[i])
  }

  ghost predicate Reaches(g: Graph, from: seq<Factory>, x: Factory) {
    exists p :: IsPath(g, p) && p[0] in from && p[|p| - 1] == x
  }

  /** The result of starting something: the old order is a prefix, the rest is new. */
  ghost predicate Extends(g: Graph, order: seq<Factory>, order': seq<Factory>) {
    && order <= order'
    && (NoDuplicates(order) ==> NoDuplicates(order'))
    && (DependencyOrdered(g, order) ==> DependencyOrdered(g, order'))
  }

  lemma PathStep(g: Graph, f: Factory, x: Factory)
    requires Reaches(g, g.deps(f), x)
    ensures Reaches(g, [f], x)
  {
    var p :| IsPath(g, p) && p[0] in g.deps(f) && p[|p| - 1] == x;
    var q := [f] + p;
    assert forall i :: 0 <= i < |q| - 1 ==> q[i + 1] in g.deps(q[i]);
    assert IsPath(g, q) && q[0] in [f] && q[|q| - 1] == x;
  }

  lemma PathSelf(g: Graph, f: Factory)
    ensures Reaches(g, [f], f)
  {
    assert IsPath(g, [f]) && [f][0] in [f];
  }

  lemma PathFromMember(g: Graph, f: Factory, list: seq<Factory>, x: Factory)
    requires f in list && Reaches(g, [f], x)
    ensures Reaches(g, list, x)
  {
  }

  /** Starting one module: what comes to be started is new, reachable, and of no
      higher rank, so starting its dependencies can never have started it already. */
  lemma {:induction false} VisitSound(g: Graph, order: seq<Factory>, f: Factory)
    requires Acyclic(g)
    ensures Extends(g, order, Visit(g, order, f)) && f in Visit(g, order, f)
    ensures forall x :: x in Visit(g, order, f) && x !in order ==> g.rank(x) <= g.rank(f) && Reaches(g, [f], x)
    decreases g.rank(f), 1
  {
    if f !in order {
      var deps := g.deps(f);
      HeightBound(g, deps, g.rank(f));
      VisitAllSound(g, order, deps);
      var before, after := VisitAll(g, order, deps), Visit(g, order, f);
      assert f !in before;
      forall x | x in after && x !in order ensures g.rank(x) <= g.rank(f) && Reaches(g, [f], x) {
        if x == f {
          PathSelf(g, f);
        } else {
          PathStep(g, f, x);
        }
      }
      if DependencyOrdered(g, order) {
        forall i, d | 0 <= i < |after| && d in g.deps(after[i]) ensures d in after[..i] {
          assert i < |before| ==> after[i] == before[i] && after[..i] == before[..i];
          assert i == |before| ==> after[..i] == before;
        }
      }
    }
  }

  lemma {:induction false} VisitAllSound(g: Graph, order: seq<Factory>, list: seq<Factory>)
    requires Acyclic(g)
    ensures Extends(g, order, VisitAll(g, order, list))
    ensures forall f :: f in list ==> f in VisitAll(g, order, list)
    ensures forall x :: x in VisitAll(g, order, list) && x !in order ==>
      g.rank(x) < Height(g, list) && Reaches(g, list, x)
    decreases Height(g, list), 0, |list|
  {
    if list != [] {
      var mid, after := Visit(g, order, list[0]), VisitAll(g, order, list);
      VisitSound(g, order, list[0]);
      VisitAllSound(g, mid, list[1..]);
      assert list == [list[0]] + list[1..];
      assert forall x :: x in mid ==> x in after;
      forall x | x in after && x !in order ensures g.rank(x) < Height(g, list) && Reaches(g, list, x) {
        if x in mid {
          PathFromMember(g, list[0], list, x);
        } else {
          var p :| IsPath(g, p) && p[0] in list[1..] && p[|p| - 1] == x;
          assert p[0] in list;
        }
      }
    }
  }

  /** The list is worked off from the front: what its first part needs is started before
      anything the rest adds. */
  lemma {:induction false} VisitsInListOrder(g: Graph, order: seq<Factory>, first: seq<Factory>, rest: seq<Factory>)
    requires Acyclic(g)
    ensures VisitAll(g, order, first + rest) == VisitAll(g, VisitAll(g, order, first), rest)
    ensures VisitAll(g, order, first) <= VisitAll(g, order, first + rest)
    decreases |first|
  {
    if first == [] {
      assert first + rest == rest;
    } else {
      assert (first + rest)[1..] == first[1..] + rest;
      VisitsInListOrder(g, Visit(g, order, first[0]), first[1..], rest);
    }
    VisitAllSound(g, VisitAll(g, order, first), rest);
  }

  /** A module that was not started comes last, directly after what its dependencies add;
      one that was changes nothing. */
  lemma VisitEndsWith(g: Graph, order: seq<Factory>, f: Factory)
    requires Acyclic(g)
    ensures f in order ==> Visit(g, order, f) == order
    ensures f !in order ==>
      var after, n := Visit(g, order, f), |Visit(g, order, f)| - 1;
      n >= |order| && after[n] == f && after[..n] == VisitAll(g, order, g.deps(f))
  {
    HeightBound(g, g.deps(f), g.rank(f));
    VisitAllSound(g, order, g.deps(f));
  }

  /** A dependency-ordered list holds everything reachable from what it holds. */
  lemma {:induction false} ClosedUnderPaths(g: Graph, s: seq<Factory>, p: seq<Factory>)
    requires DependencyOrdered(g, s) && IsPath(g, p) && p[0] in s
    ensures p[|p| - 1] in s
  {
    if |p| > 1 {
      var i :| 0 <= i < |s| && s[i] == p[0];
      assert p[1] in s[..i];
      ClosedUnderPaths(g, s, p[1..]);
    }
  }

  /** Starting a list from a dependency-ordered registry leaves started exactly what was
      started before and what is reachable from the list, each once, every module after
      its dependencies. */
  lemma StartsExactlyReachable(g: Graph, order: seq<Factory>, list: seq<Factory>)
    requires Acyclic(g) && NoDuplicates(order) && DependencyOrdered(g, order)
    ensures var after := VisitAll(g, order, list);
      && order <= after && NoDuplicates(after) && DependencyOrdered(g, after)
      && (forall x :: x in after <==> x in order || Reaches(g, list, x))
  {
    var after := VisitAll(g, order, list);
    VisitAllSound(g, order, list);
    forall x | Reaches(g, list, x) ensures x in after {
      var p :| IsPath(g, p) && p[0] in list && p[|p| - 1] == x;
      ClosedUnderPaths(g, after, p);
    }
  }

  // ----- the protocol -----

  /** What happens to a module instance. */
  datatype Event =
    | Construct(factory: Factory, instance: int)
    | StartUp(factory: Factory, instance: int)
    | Stop(factory: Factory, instance: int)
    | Free(factory: Factory, instance: int)

  /** What an observer of the events knows. */
  datatype Monitor = Monitor(
    constructed: set<int>,           // every instance ever made
    pending: set<int>,               // made but not started yet
    registered: map<Factory, int>,
    stopped: set<Factory>,
    freed: set<int>)

  const IDLE := Monitor({}, {}, map[], {}, {})

  ghost predicate DependenciesRegistered(g: Graph, m: Monitor, f: Factory) {
    forall d :: d in g.deps(f) ==> d in m.registered
  }

  ghost predicate DependenciesRunning(g: Graph, m: Monitor, f: Factory) {
    forall d :: d in g.deps(f) ==> d in m.registered && d !in m.stopped
  }

  /** When an event may happen: a module's Start and Stop run while everything it
      depends on is registered and running, it is stopped after everything that depends
      on it, it is freed while its dependencies are still registered and nothing else
      depends on it, and an instance is constructed, started and freed only once. */
  ghost predicate Legal(g: Graph, m: Monitor, e: Event) {
    match e
    case Construct(f, i) => i !in m.constructed
    case StartUp(f, i) =>
      i in m.pending && f !in m.registered && DependenciesRunning(g, m, f)
    case Stop(f, i) =>
      && f in m.registered && m.registered[f] == i && f !in m.stopped
      && DependenciesRunning(g, m, f)
      && (forall h :: h in m.registered && h !in m.stopped ==> f !in g.deps(h))
    case Free(f, i) =>
      && f in m.registered && m.registered[f] == i && f in m.stopped && i !in m.freed
      && DependenciesRegistered(g, m, f)
      && (forall h :: h in m.registered ==> f !in g.deps(h))
  }

  ghost function After(m: Monitor, e: Event): Monitor {
    match e
    case Construct(f, i) => m.(constructed := m.constructed + {i}, pending := m.pending + {i})
    case StartUp(f, i) => m.(pending := m.pending - {i}, registered := m.registered[f := i])
    case Stop(f, i) => m.(stopped := m.stopped + {f})
    case Free(f, i) => m.(registered := m.registered - {f}, stopped := m.stopped - {f}, freed := m.freed + {i})
  }

  /** What the observer knows after a trace, or None once an event broke the rules. */
  ghost function Observe(g: Graph, trace: seq<Event>): Option<Monitor> {
    if trace == [] then Some(IDLE)
    else
      var e, before := trace[|trace| - 1], Observe(g, trace[..|trace| - 1]);
      if before.Some? && Legal(g, before.value, e) then Some(After(before.value, e)) else None
  }

  lemma ObserveExtend(g: Graph, trace: seq<Event>, m: Monitor, e: Event)
    requires Observe(g, trace) == Some(m) && Legal(g, m, e)
    ensures Observe(g, trace + [e]) == Some(After(m, e))
  {
    assert (trace + [e])[..|trace|] == trace;
  }

  /** An observer who accepts the whole trace has seen a legal event at every point. */
  lemma {:induction false} AcceptedAtEveryPoint(g: Graph, trace: seq<Event>, i: nat)
    requires Observe(g, trace).Some? && i < |trace|
    ensures Observe(g, trace[..i]).Some? && Legal(g, Observe(g, trace[..i]).value, trace[i])
  {
    var before := trace[..|trace| - 1];
    if i < |trace| - 1 {
      AcceptedAtEveryPoint(g, before, i);
      assert before[..i] == trace[..i];
    }
  }

  /** Every instance ever made is pending, registered under one factory, or freed, and
      only one of these. */
  ghost predicate Accounted(m: Monitor) {
    && (forall i :: i in m.constructed <==> i in m.pending || i in m.registered.Values || i in m.freed)
    && m.pending !! m.freed
    && (forall f :: f in m.registered ==> m.registered[f] !in m.pending && m.registered[f] !in m.freed)
    && (forall f, h :: f in m.registered && h in m.registered && f != h ==> m.registered[f] != m.registered[h])
  }

  lemma StepAccounted(g: Graph, m: Monitor, e: Event)
    requires Accounted(m) && Legal(g, m, e)
    ensures Accounted(After(m, e))
  {
    var m' := After(m, e);
    forall i ensures i in m'.constructed <==> i in m'.pending || i in m'.registered.Values || i in m'.freed {
      if i in m.registered.Values {
        var f :| f in m.registered && m.registered[f] == i;
        assert f in m'.registered ==> m'.registered[f] == i;
      }
      if e.StartUp? {
        assert m'.registered[e.factory] == e.instance;
      }
    }
    if e.Construct? {
      forall f | f in m.registered ensures m.registered[f] in m.constructed {
        assert m.registered[f] in m.registered.Values;
      }
    }
  }

  /** In every trace that keeps to the protocol no instance is lost or handled twice. */
  lemma {:induction false} TraceAccounted(g: Graph, trace: seq<Event>)
    requires Observe(g, trace).Some?
    ensures Accounted(Observe(g, trace).value)
  {
    if trace != [] {
      var before := trace[..|trace| - 1];
      TraceAccounted(g, before);
      StepAccounted(g, Observe(g, before).value, trace[|trace| - 1]);
    }
  }

  // ----- why reverse start order is safe -----

  /** The modules of `order` are exactly the ones registered. */
  ghost predicate Lists(order: seq<Factory>, m: Monitor) {
    forall f :: f in m.registered <==> f in order
  }

  lemma StartIsLegal(g: Graph, m: Monitor, order: seq<Factory>, f: Factory, i: int)
    requires Lists(order, m) && m.stopped == {} && f !in order && i in m.pending
    requires NoDuplicates(order) && DependencyOrdered(g, order) && forall d :: d in g.deps(f) ==> d in order
    ensures Legal(g, m, StartUp(f, i))
    ensures Lists(order + [f], After(m, StartUp(f, i)))
    ensures NoDuplicates(order + [f]) && DependencyOrdered(g, order + [f])
  {
    var after := order + [f];
    forall j, d | 0 <= j < |after| && d in g.deps(after[j]) ensures d in after[..j] {
      assert after[..j] == if j < |order| then order[..j] else order;
    }
  }

  /** With everything after position `n` stopped, the module before it may stop. */
  lemma StopIsLegal(g: Graph, m: Monitor, order: seq<Factory>, n: nat)
    requires Lists(order, m) && NoDuplicates(order) && DependencyOrdered(g, order)
    requires 0 < n <= |order| && forall f :: f in m.stopped <==> f in order[n..]
    ensures order[n - 1] in m.registered
    ensures Legal(g, m, Stop(order[n - 1], m.registered[order[n - 1]]))
  {
    var f := order[n - 1];
    forall d | d in g.deps(f) ensures d in m.registered && d !in m.stopped {
      assert d in order[..n - 1];
    }
    assert order == order[..n] + order[n..];
    forall h | h in m.registered && h !in m.stopped ensures f !in g.deps(h) {
      assert h in order[..n];
      var j :| 0 <= j < n && order[j] == h;
      assert f !in order[..j];
    }
  }

  /** With everything after position `n` freed, the module before it may be freed. */
  lemma FreeIsLegal(g: Graph, m: Monitor, order: seq<Factory>, n: nat)
    requires 0 < n <= |order| && Lists(order[..n], m)
    requires NoDuplicates(order) && DependencyOrdered(g, order)
    requires Accounted(m) && m.stopped == m.registered.Keys
    ensures order[n - 1] in m.registered
    ensures Legal(g, m, Free(order[n - 1], m.registered[order[n - 1]]))
    ensures Lists(order[..n - 1], After(m, Free(order[n - 1], m.registered[order[n - 1]])))
  {
    var f := order[n - 1];
    assert order[..n] == order[..n - 1] + [f];
    assert f !in order[..n - 1];
    forall h | h in m.registered ensures f !in g.deps(h) {
      var j :| 0 <= j < n && order[j] == h;
      assert f !in order[..j];
    }
  }

  /** The modules whose Start has run, in order. */
  ghost function Started(trace: seq<Event>): seq<Factory> {
    if trace == [] then []
    else
      var last := trace[|trace| - 1];
      Started(trace[..|trace| - 1]) + if last.StartUp? then [last.factory] else []
  }

  lemma StartedExtend(trace: seq<Event>, e: Event)
    ensures Started(trace + [e]) == Started(trace) + if e.StartUp? then [e.factory] else []
  {
    assert (trace + [e])[..|trace|] == trace;
  }

  /** The instance has been started for the module at some point, and has not been freed since. */
  ghost predicate IsLive(trace: seq<Event>, f: Factory, i: int) {
    exists k :: 0 <= k < |trace| && trace[k] == StartUp(f, i) && Free(f, i) !in trace[k..]
  }

  lemma {:induction false} LiveMeansRegistered(g: Graph, trace: seq<Event>, f: Factory, i: int)
    requires Observe(g, trace).Some?
    ensures var m := Observe(g, trace).value;
      IsLive(trace, f, i) <==> f in m.registered && m.registered[f] == i
  {
    if trace != [] {
      var before, e := trace[..|trace| - 1], trace[|trace| - 1];
      LiveMeansRegistered(g, before, f, i);
      TraceAccounted(g, before);
      LiveStep(before, e, f, i);
      assert before + [e] == trace;
    }
  }

  lemma LiveStep(before: seq<Event>, e: Event, f: Factory, i: int)
    ensures IsLive(before + [e], f, i) <==> e == StartUp(f, i) || (IsLive(before, f, i) && e != Free(f, i))
  {
    var trace := before + [e];
    if e == StartUp(f, i) {
      assert trace[|before|] == StartUp(f, i) && trace[|before|..] == [e];
    }
    if k :| 0 <= k < |before| && before[k] == StartUp(f, i) && Free(f, i) !in before[k..] {
      assert trace[k] == StartUp(f, i) && trace[k..] == before[k..] + [e];
    }
    if k :| 0 <= k < |trace| && trace[k] == StartUp(f, i) && Free(f, i) !in trace[k..] {
      assert trace[k..][|trace| - 1 - k] == e;
      if k < |before| {
        assert before[k] == StartUp(f, i) && trace[k..] == before[k..] + [e];
      }
    }
  }
}
