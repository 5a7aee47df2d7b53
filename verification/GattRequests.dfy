/** The requests a GATT server has yet to answer, as an observer of
    system/service/gatt_server.cc sees them. */
module GattRequests {
  import opened Options

  datatype ConnId = ConnId(id: int)
  datatype Request = Request(conn: ConnId, id: int)

  datatype Event =
    | Recorded(request: Request, handle: int)
    | Answered(request: Request, handle: int)
    | Disconnected(conn: ConnId)

  type Outstanding = map<Request, int>

  /** A request is recorded only while it is not outstanding and answered only while it
      is, with the handle it was recorded with. */
  ghost predicate Legal(m: Outstanding, e: Event) {
    match e
    case Recorded(r, h) => r !in m
    case Answered(r, h) => r in m && m[r] == h
    case Disconnected(c) => true
  }

  ghost function OnConnection(m: Outstanding, c: ConnId): set<Request> {
    set r | r in m && r.conn == c
  }

  ghost function After(m: Outstanding, e: Event): Outstanding {
    match e
    case Recorded(r, h) => m[r := h]
    case Answered(r, h) => m - {r}
    case Disconnected(c) => m - OnConnection(m, c)
  }

  /** What is outstanding after a trace, or None once an event was not legal. */
  ghost function Observe(trace: seq<Event>): Option<Outstanding> {
    if trace == [] then Some(map[])
    else
      var before, e := Observe(trace[..|trace| - 1]), trace[|trace| - 1];
      if before.Some? && Legal(before.value, e) then Some(After(before.value, e)) else None
  }

  lemma ObserveExtend(trace: seq<Event>, m: Outstanding, e: Event)
    requires Observe(trace) == Some(m) && Legal(m, e)
    ensures Observe(trace + [e]) == Some(After(m, e))
  {
    assert (trace + [e])[..|trace|] == trace;
  }

  lemma {:induction false} PrefixIsObserved(trace: seq<Event>, i: nat)
    requires Observe(trace).Some? && i <= |trace|
    ensures Observe(trace[..i]).Some?
    ensures i < |trace| ==> Legal(Observe(trace[..i]).value, trace[i])
    ensures i < |trace| ==> Observe(trace[..i + 1]) == Some(After(Observe(trace[..i]).value, trace[i]))
    decreases |trace|
  {
    if i == |trace| {
      assert trace[..i] == trace;
    } else {
      var before := trace[..|trace| - 1];
      if i < |before| {
        PrefixIsObserved(before, i);
        assert before[..i] == trace[..i] && before[..i + 1] == trace[..i + 1];
      } else {
        assert trace[..i + 1] == trace;
      }
    }
  }

  // ----- conservation -----

  ghost function NumRecorded(trace: seq<Event>): nat {
    if trace == [] then 0
    else NumRecorded(trace[..|trace| - 1]) + if trace[|trace| - 1].Recorded? then 1 else 0
  }

  ghost function NumAnswered(trace: seq<Event>): nat {
    if trace == [] then 0
    else NumAnswered(trace[..|trace| - 1]) + if trace[|trace| - 1].Answered? then 1 else 0
  }

  /** How many outstanding requests were lost with their connection. */
  ghost function NumDropped(trace: seq<Event>): nat {
    if trace == [] then 0
    else
      var before, e := trace[..|trace| - 1], trace[|trace| - 1];
      NumDropped(before)
      + if e.Disconnected? && Observe(before).Some? then |OnConnection(Observe(before).value, e.conn)| else 0
  }

  lemma RemovedSize(m: Outstanding, gone: set<Request>)
    requires gone <= m.Keys
    ensures |m - gone| == |m| - |gone|
  {
    assert (m - gone).Keys == m.Keys - gone;
    assert m.Keys == (m.Keys - gone) + gone;
  }

  /** Requests are conserved: every one recorded has been answered, is outstanding on a
      live connection, or was dropped with its connection. */
  lemma {:induction false} Conservation(trace: seq<Event>)
    requires Observe(trace).Some?
    ensures NumRecorded(trace) == NumAnswered(trace) + |Observe(trace).value| + NumDropped(trace)
  {
    if trace != [] {
      var before, e := trace[..|trace| - 1], trace[|trace| - 1];
      Conservation(before);
      var m := Observe(before).value;
      match e
      case Recorded(r, h) =>
      case Answered(r, h) => RemovedSize(m, {r});
      case Disconnected(c) => RemovedSize(m, OnConnection(m, c));
    }
  }

  // ----- each request is answered at most once, with its own handle -----

  /** An event that ends the request if it is outstanding. */
  ghost predicate Ends(e: Event, r: Request) {
    (e.Answered? && e.request == r) || (e.Disconnected? && e.conn == r.conn)
  }

  /** Since `i` recorded it, nothing has ended the request. */
  ghost predicate OpenSince(trace: seq<Event>, i: nat, r: Request) {
    && i < |trace| && trace[i].Recorded? && trace[i].request == r
    && forall k :: i < k < |trace| ==> !Ends(trace[k], r)
  }

  lemma {:induction false} OutstandingWasRecorded(trace: seq<Event>, r: Request) returns (i: nat)
    requires Observe(trace).Some? && r in Observe(trace).value
    ensures OpenSince(trace, i, r) && trace[i].handle == Observe(trace).value[r]
  {
    var before, e := trace[..|trace| - 1], trace[|trace| - 1];
    if e.Recorded? && e.request == r {
      i := |trace| - 1;
    } else {
      i := OutstandingWasRecorded(before, r);
      assert forall k :: 0 <= k < |before| ==> before[k] == trace[k];
    }
  }

  /** Every answer is to a request recorded earlier with the same handle, and that
      request has been neither answered nor dropped in between. */
  lemma AnsweredOnce(trace: seq<Event>, j: nat) returns (i: nat)
    requires Observe(trace).Some? && j < |trace| && trace[j].Answered?
    ensures i < j && trace[i] == Recorded(trace[j].request, trace[j].handle)
    ensures forall k :: i < k < j ==> !Ends(trace[k], trace[j].request)
  {
    PrefixIsObserved(trace, j);
    i := OutstandingWasRecorded(trace[..j], trace[j].request);
    assert forall k :: 0 <= k < j ==> trace[..j][k] == trace[k];
  }
}
