/** The GATT server of system/service/gatt_server.cc: two indexes over shared connection
    objects, the requests outstanding on them, and the indications in flight. */
module GattServer {
  import opened Options
  import opened GattRequests
  import opened GattIndications

  datatype Address = Address(text: string)

  const MAX_ATTR_LEN := 600
  const EXECUTE_WRITE_HANDLE := -1

  class Connection {
    const connId: ConnId
    const bdaddr: Address
    var requests: map<int, int>   // request_id_to_handle

    constructor (connId: ConnId, bdaddr: Address)
      ensures this.connId == connId && this.bdaddr == bdaddr && requests == map[]
    {
      this.connId, this.bdaddr, requests := connId, bdaddr, map[];
    }
  }

  class PendingIndication {
    const hasCallback: bool
    var hasSuccess: bool

    constructor (hasCallback: bool)
      ensures this.hasCallback == hasCallback && !hasSuccess
    {
      this.hasCallback, hasSuccess := hasCallback, false;
    }
  }

  // ----- the two indexes -----

  type ById = map<ConnId, Connection>
  type ByAddress = map<Address, seq<Connection>>

  ghost predicate Distinct(list: seq<Connection>) {
    forall i, j :: 0 <= i < j < |list| ==> list[i] != list[j]
  }

  /** The two indexes describe the same connections, each once. */
  ghost predicate Agree(byId: ById, byAddress: ByAddress) {
    && (forall c :: c in byId ==> byId[c].connId == c)
    && (forall c :: c in byId ==> byId[c].bdaddr in byAddress && byId[c] in byAddress[byId[c].bdaddr])
    && (forall a, x :: a in byAddress && x in byAddress[a] ==>
          x.bdaddr == a && x.connId in byId && byId[x.connId] == x)
    && (forall a :: a in byAddress ==> Distinct(byAddress[a]))
  }

  function ListOf(byAddress: ByAddress, a: Address): seq<Connection> {
    if a in byAddress then byAddress[a] else []
  }

  lemma ConnectKeepsAgreement(byId: ById, byAddress: ByAddress, x: Connection)
    requires Agree(byId, byAddress) && x.connId !in byId
    ensures Agree(byId[x.connId := x], byAddress[x.bdaddr := ListOf(byAddress, x.bdaddr) + [x]])
  {
    var list := ListOf(byAddress, x.bdaddr);
    assert x !in list;
    assert x in list + [x];
    assert forall y :: y in list + [x] <==> y in list || y == x;
  }

  /** The list without its first connection of that id. */
  function Erase(list: seq<Connection>, c: ConnId): seq<Connection> {
    if list == [] then [] else if list[0].connId == c then list[1..] else [list[0]] + Erase(list[1..], c)
  }

  function EraseAt(byAddress: ByAddress, a: Address, c: ConnId): ByAddress {
    if a in byAddress then byAddress[a := Erase(byAddress[a], c)] else byAddress
  }

  lemma {:induction false} EraseMembers(list: seq<Connection>, c: ConnId)
    requires Distinct(list)
    requires forall x, y :: x in list && y in list && x.connId == y.connId ==> x == y
    ensures Distinct(Erase(list, c))
    ensures forall i :: 0 <= i < |Erase(list, c)| ==> Erase(list, c)[i] in list && Erase(list, c)[i].connId != c
    ensures forall x :: x in list && x.connId != c ==> x in Erase(list, c)
  {
    if list != [] {
      var tail := list[1..];
      EraseMembers(tail, c);
      assert list == [list[0]] + tail;
      assert list[0] !in tail;
    }
  }

  /** A disconnection keeps the two indexes in agreement exactly when the HAL reports the
      address the connection was made with, or does not know the connection. */
  lemma DisconnectKeepsAgreementExactly(byId: ById, byAddress: ByAddress, c: ConnId, a: Address)
    requires Agree(byId, byAddress)
    ensures Agree(byId - {c}, EraseAt(byAddress, a, c)) <==> (c in byId ==> byId[c].bdaddr == a)
  {
    if c in byId && byId[c].bdaddr != a {
      DisconnectLeaves(byId, byAddress, c, a);
    } else {
      DisconnectKeepsAgreement(byId, byAddress, c, a);
    }
  }

  lemma DisconnectLeaves(byId: ById, byAddress: ByAddress, c: ConnId, a: Address)
    requires Agree(byId, byAddress) && c in byId && byId[c].bdaddr != a
    ensures !Agree(byId - {c}, EraseAt(byAddress, a, c))
  {
    var x := byId[c];
    var list := EraseAt(byAddress, a, c)[x.bdaddr];
    assert list == byAddress[x.bdaddr] && x in list;
  }

  lemma DisconnectKeepsAgreement(byId: ById, byAddress: ByAddress, c: ConnId, a: Address)
    requires Agree(byId, byAddress) && (c in byId ==> byId[c].bdaddr == a)
    ensures Agree(byId - {c}, EraseAt(byAddress, a, c))
  {
    var byId', byAddress' := byId - {c}, EraseAt(byAddress, a, c);
    if a in byAddress {
      EraseMembers(byAddress[a], c);
    }
    forall b, x: Connection | b in byAddress' && x in byAddress'[b]
      ensures x.bdaddr == b && x.connId in byId' && byId'[x.connId] == x
    {
      assert x in byAddress[b];
    }
  }

  /** What is outstanding is exactly what the connection objects hold. */
  ghost predicate Matches(byId: ById, outstanding: Outstanding)
    reads byId.Values
  {
    && (forall r :: r in outstanding ==>
          r.conn in byId && r.id in byId[r.conn].requests && byId[r.conn].requests[r.id] == outstanding[r])
    && (forall c, i :: c in byId && i in byId[c].requests ==> Request(c, i) in outstanding)
  }

  lemma DisconnectMatches(byId: ById, outstanding: Outstanding, c: ConnId)
    requires Matches(byId, outstanding)
    ensures Matches(byId - {c}, After(outstanding, Disconnected(c)))
  {
    var byId' := byId - {c};
    forall d, i | d in byId' && i in byId'[d].requests
      ensures Request(d, i) in After(outstanding, Disconnected(c))
    {
      assert d in byId && i in byId[d].requests;
    }
  }

  // ----- indications in flight -----

  type Pending = map<ConnId, PendingIndication>
  type History = map<PendingIndication, Group>

  /** Each connection waits on at most one group, and each group knows who waits on it. */
  ghost predicate Coordinated(pending: Pending, history: History) {
    && (forall c :: c in pending ==> pending[c] in history && c in history[pending[c]].waiting)
    && (forall g, c :: g in history && c in history[g].waiting ==> c in pending && pending[c] == g)
  }

  /** Every history is sound, and the objects hold what their histories say. */
  ghost predicate Faithful(history: History)
    reads history.Keys
  {
    AllSound(history) && Flagged(history)
  }

  ghost predicate Flagged(history: History)
    reads history.Keys
  {
    forall g :: g in history ==>
      history[g].hasCallback == g.hasCallback && history[g].hasSuccess == g.hasSuccess
  }

  ghost predicate AllSound(history: History) {
    forall g :: g in history ==> Sound(history[g])
  }

  /** Adding a group that has only been sent keeps the histories faithful. */
  lemma SentIsFaithful(history: History, g: PendingIndication, sentOn: set<ConnId>)
    requires Faithful(history) && g !in history && !g.hasSuccess
    ensures Faithful(history[g := Sent(g.hasCallback, sentOn)])
    ensures history[g := Begin(g.hasCallback)][g := Sent(g.hasCallback, sentOn)]
         == history[g := Sent(g.hasCallback, sentOn)]
  {
    assert Acked([]) == {};
  }

  /** The group after it has been sent on these connections. */
  ghost function Sent(hasCallback: bool, sentOn: set<ConnId>): Group {
    Begin(hasCallback).(sentOn := sentOn, waiting := sentOn)
  }

  /** The pending map extended by one group on some new connections. */
  ghost predicate Extended(before: Pending, pending: Pending, sent: set<ConnId>, g: PendingIndication) {
    && pending.Keys == before.Keys + sent
    && (forall c :: c in before ==> c in pending && pending[c] == before[c])
    && (forall c :: c in sent ==> c in pending && pending[c] == g)
  }

  lemma ExtendedByNone(before: Pending, pending: Pending, g: PendingIndication)
    requires Extended(before, pending, {}, g)
    ensures pending == before
  {
  }

  lemma ExtendByOne(before: Pending, pending: Pending, sent: set<ConnId>, history: History,
                    g: PendingIndication, c: ConnId)
    requires Extended(before, pending, sent, g) && c !in pending
    ensures Extended(before, pending[c := g], sent + {c}, g)
    ensures history[g := Sent(g.hasCallback, sent)][g := SendOn(Sent(g.hasCallback, sent), c)]
         == history[g := Sent(g.hasCallback, sent + {c})]
  {
  }

  lemma SendCoordinated(pending: Pending, history: History, g: PendingIndication, c: ConnId)
    requires Coordinated(pending, history) && g in history && c !in pending
    ensures Coordinated(pending[c := g], history[g := SendOn(history[g], c)])
  {
  }

  /** A connection that stops waiting leaves the rest coordinated. */
  lemma AckCoordinated(pending: Pending, history: History, c: ConnId, after: Group)
    requires Coordinated(pending, history) && c in pending
    requires after.waiting == history[pending[c]].waiting - {c}
    ensures Coordinated(pending - {c}, history[pending[c] := after])
  {
    var pending', history' := pending - {c}, history[pending[c] := after];
    forall h, d | h in history' && d in history'[h].waiting ensures d in pending' && pending'[d] == h {
      assert d in history[h].waiting;
    }
    forall d | d in pending' ensures pending'[d] in history' && d in history'[pending'[d]].waiting {
      assert d in history[pending[d]].waiting;
    }
  }

  /** An acknowledgement keeps the book of groups in order. */
  lemma AckKeepsBooks(pending: Pending, history: History, c: ConnId, status: int)
    requires Coordinated(pending, history) && AllSound(history) && c in pending
    ensures var g := pending[c];
      var history' := history[g := Acknowledge(history[g], c, status)];
      Coordinated(pending - {c}, history') && AllSound(history')
  {
    var group := history[pending[c]];
    AckKeepsSound(group, c, status);
    AckCoordinated(pending, history, c, Acknowledge(group, c, status));
  }

  /** No other connection refers to the group exactly when this is the last one waiting. */
  lemma UniqueMeansLast(pending: Pending, history: History, g: PendingIndication, c: ConnId)
    requires Coordinated(pending, history) && g in history
    ensures (forall d :: d in pending - {c} ==> pending[d] != g) <==> history[g].waiting - {c} == {}
  {
    if d :| d in history[g].waiting - {c} {
      assert d in pending - {c} && pending[d] == g;
    }
  }

  /** Only connections that are open have an indication pending. */
  ghost predicate AllOpen(pending: Pending, byId: ById) {
    pending.Keys <= byId.Keys
  }

  lemma AckKeepsOpen(pending: Pending, byId: ById, c: ConnId)
    ensures AllOpen(pending, byId) ==> AllOpen(pending - {c}, byId)
  {
  }

  /** Closing a connection strands its indication, and only its own. */
  lemma DisconnectKeepsOpenExactly(pending: Pending, byId: ById, c: ConnId)
    requires AllOpen(pending, byId)
    ensures AllOpen(pending, byId - {c}) <==> c !in pending
  {
    assert AllOpen(pending, byId - {c}) ==> (c in pending.Keys ==> c in (byId - {c}).Keys);
  }

  /** The connections of a list on which nothing is pending and the HAL agrees to send. */
  ghost function Targets(list: seq<Connection>, pending: Pending, statusOf: ConnId -> int)
    : set<ConnId>
  {
    if list == [] then {}
    else
      var c := list[|list| - 1].connId;
      Targets(list[..|list| - 1], pending, statusOf)
      + if c !in pending && statusOf(c) == SUCCESS then {c} else {}
  }

  lemma TargetsStep(list: seq<Connection>, i: nat, pending: Pending, statusOf: ConnId -> int)
    requires i < |list|
    ensures var c := list[i].connId;
      Targets(list[..i + 1], pending, statusOf)
      == Targets(list[..i], pending, statusOf) + if c !in pending && statusOf(c) == SUCCESS then {c} else {}
  {
    assert list[..i + 1][..i] == list[..i];
  }

  /** These are exactly the free connections of the list that the HAL accepts. */
  lemma {:induction false} TargetsAreNew(list: seq<Connection>, pending: Pending, statusOf: ConnId -> int)
    ensures forall c :: c in Targets(list, pending, statusOf) ==> c !in pending && statusOf(c) == SUCCESS
    ensures forall c :: c in Targets(list, pending, statusOf) ==> exists x :: x in list && x.connId == c
    ensures forall x :: x in list && x.connId !in pending && statusOf(x.connId) == SUCCESS ==>
      x.connId in Targets(list, pending, statusOf)
  {
    if list != [] {
      var before, last := list[..|list| - 1], list[|list| - 1];
      TargetsAreNew(before, pending, statusOf);
      assert list == before + [last] && last in list;
    }
  }

  lemma TargetsAreOpen(byId: ById, byAddress: ByAddress, a: Address, pending: Pending, statusOf: ConnId -> int)
    ensures Agree(byId, byAddress) ==> Targets(ListOf(byAddress, a), pending, statusOf) <= byId.Keys
  {
    TargetsAreNew(ListOf(byAddress, a), pending, statusOf);
  }

  /** The request callbacks of the HAL; a write may want no response. */
  datatype Kind = Read(handle: int) | Write(handle: int, needResponse: bool) | ExecuteWrite

  function HandleOf(kind: Kind): int {
    if kind.ExecuteWrite? then EXECUTE_WRITE_HANDLE else kind.handle
  }

  predicate WantsResponse(kind: Kind) {
    !kind.Write? || kind.needResponse
  }

  /** A response handed to the HAL. */
  datatype Response = Response(conn: ConnId, requestId: int, error: int, handle: int, offset: int, value: seq<bv8>)

  class GattServer {
    const serverId: int
    var byId: map<ConnId, Connection>               // conn_id_map_
    var byAddress: map<Address, seq<Connection>>    // conn_addr_map_
    var pending: map<ConnId, PendingIndication>     // pending_indications_
    ghost var history: History                      // every SendNotification so far
    ghost var trace: seq<Event>                     // everything that happened to requests
    ghost var outstanding: Outstanding

    /** The connection half: both indexes and the requests on the connections. */
    ghost predicate ConnectionsValid()
      reads `byId, `byAddress, `trace, `outstanding, byId.Values
    {
      Agree(byId, byAddress) && Tracked()
    }

    /** An observer of the requests knows exactly what the connections hold. */
    ghost predicate Tracked()
      reads `byId, `trace, `outstanding, byId.Values
    {
      Observe(trace) == Some(outstanding) && Matches(byId, outstanding)
    }

    /** The indication half, which shares no field or object with the other. */
    ghost predicate IndicationsValid()
      reads `pending, `history, history.Keys
    {
      Coordinated(pending, history) && Faithful(history)
    }

    constructor (serverId: int)
      ensures ConnectionsValid() && IndicationsValid() && this.serverId == serverId
      ensures byId == map[] && byAddress == map[] && trace == [] && pending == map[] && history == map[]
    {
      this.serverId := serverId;
      byId, byAddress, pending := map[], map[], map[];
      history, trace, outstanding := map[], [], map[];
    }

    /** No indication is pending on a connection that has been closed. */
    ghost predicate NoneStale()
      reads `pending, `byId
    {
      AllOpen(pending, byId)
    }

    // ----- connections -----

    /** Keeps everything in order, with two exceptions: the two indexes part ways exactly
        when a connection is closed under another address than it was made with, and an
        indication goes stale exactly when its connection is closed. */
    method ConnectionCallback(c: ConnId, server: int, connected: bool, address: Address)
      requires ConnectionsValid()
      modifies `byId, `byAddress, `trace, `outstanding
      ensures Tracked()
      ensures ConnectionsValid() <==>
        (server == serverId && !connected && c in old(byId) ==> old(byId)[c].bdaddr == address)
      ensures old(NoneStale()) ==> (NoneStale() <==> !(server == serverId && !connected && c in pending))
      ensures fresh(byId.Values - old(byId.Values))
      ensures server != serverId ==> byId == old(byId) && byAddress == old(byAddress) && trace == old(trace)
      ensures server == serverId && !connected ==>
        && byId == old(byId) - {c} && byAddress == EraseAt(old(byAddress), address, c)
        && trace == old(trace) + [Disconnected(c)]
      ensures server == serverId && connected && c in old(byId) ==>
        byId == old(byId) && byAddress == old(byAddress) && trace == old(trace)
      ensures server == serverId && connected && c !in old(byId) ==>
        && c in byId && fresh(byId[c]) && byId == old(byId)[c := byId[c]]
        && byId[c].bdaddr == address && byId[c].requests == map[] && trace == old(trace)
        && byAddress == old(byAddress)[address := ListOf(old(byAddress), address) + [byId[c]]]
    {
      if server != serverId {
        return;
      }
      if !connected {
        Disconnect(c, address);
      } else if c !in byId {
        Connect(c, address);
      }
    }

    method Connect(c: ConnId, address: Address)
      requires ConnectionsValid() && c !in byId
      modifies `byId, `byAddress
      ensures ConnectionsValid()
      ensures c in byId && fresh(byId[c]) && byId == old(byId)[c := byId[c]]
      ensures byId[c].bdaddr == address && byId[c].requests == map[]
      ensures byAddress == old(byAddress)[address := ListOf(old(byAddress), address) + [byId[c]]]
    {
      var conn := new Connection(c, address);
      ConnectKeepsAgreement(byId, byAddress, conn);
      byId := byId[c := conn];
      byAddress := byAddress[address := ListOf(byAddress, address) + [conn]];
    }

    method Disconnect(c: ConnId, address: Address)
      requires ConnectionsValid()
      modifies `byId, `byAddress, `trace, `outstanding
      ensures Tracked()
      ensures Agree(byId, byAddress) <==> (c in old(byId) ==> old(byId)[c].bdaddr == address)
      ensures byId == old(byId) - {c} && byAddress == EraseAt(old(byAddress), address, c)
      ensures trace == old(trace) + [Disconnected(c)]
    {
      ghost var conns, before := byId, outstanding;
      ObserveExtend(trace, outstanding, Disconnected(c));
      DropConnection(c, address);
      trace, outstanding := trace + [Disconnected(c)], After(outstanding, Disconnected(c));
      assert Matches(conns, before);
      DisconnectMatches(conns, before, c);
    }

    method DropConnection(c: ConnId, address: Address)
      requires Agree(byId, byAddress)
      modifies `byId, `byAddress
      ensures Agree(byId, byAddress) <==> (c in old(byId) ==> old(byId)[c].bdaddr == address)
      ensures byId == old(byId) - {c} && byAddress == EraseAt(old(byAddress), address, c)
    {
      DisconnectKeepsAgreementExactly(byId, byAddress, c, address);
      byId := byId - {c};
      if address in byAddress {
        var list := EraseFirst(byAddress[address], c);
        byAddress := byAddress[address := list];
      }
    }

    // ----- requests -----

    /** The connection a request came on, if it is known and the request is new to it. */
    method GetConnection(c: ConnId, address: Address, requestId: int) returns (conn: Connection?)
      ensures conn == if c in byId && byId[c].bdaddr == address && requestId !in byId[c].requests
                      then byId[c] else null
    {
      if c !in byId {
        return null;
      }
      conn := byId[c];
      if conn.bdaddr != address {
        return null;
      }
      if requestId in conn.requests {
        return null;
      }
    }

    /** Any of the five request callbacks; the delegate hears of it if `delivered`. */
    method RequestCallback(c: ConnId, address: Address, requestId: int, kind: Kind) returns (delivered: bool)
      requires ConnectionsValid()
      modifies `trace, `outstanding, byId.Values
      ensures ConnectionsValid()
      ensures delivered <==> c in byId && byId[c].bdaddr == address && requestId !in old(byId[c].requests)
      ensures delivered && WantsResponse(kind) ==>
        && byId[c].requests == old(byId[c].requests)[requestId := HandleOf(kind)]
        && trace == old(trace) + [Recorded(Request(c, requestId), HandleOf(kind))]
      ensures delivered ==> trace == old(trace) + match kind
                                                  case Read(h) => [Recorded(Request(c, requestId), h)]
                                                  case Write(h, true) => [Recorded(Request(c, requestId), h)]
                                                  case Write(_, false) => []
                                                  case ExecuteWrite => [Recorded(Request(c, requestId), -1)]
      ensures !(delivered && WantsResponse(kind)) ==>
        trace == old(trace) && forall d :: d in byId ==> unchanged(byId[d])
      ensures forall d :: d in byId && d != c ==> unchanged(byId[d])
    {
      var conn := GetConnection(c, address, requestId);
      if conn == null {
        return false;
      }
      if WantsResponse(kind) {
        Record(c, requestId, HandleOf(kind));
      }
      return true;
    }

    method Record(c: ConnId, requestId: int, handle: int)
      requires Agree(byId, byAddress) && Tracked() && c in byId && requestId !in byId[c].requests
      modifies `trace, `outstanding, byId[c]
      ensures Tracked() && trace == old(trace) + [Recorded(Request(c, requestId), handle)]
      ensures byId[c].requests == old(byId[c].requests)[requestId := handle]
    {
      var e := Recorded(Request(c, requestId), handle);
      ObserveExtend(trace, outstanding, e);
      trace, outstanding := trace + [e], After(outstanding, e);
      byId[c].requests := byId[c].requests[requestId := handle];
    }

    method Answer(conn: Connection, requestId: int)
      requires Agree(byId, byAddress) && Tracked()
      requires conn.connId in byId && byId[conn.connId] == conn && requestId in conn.requests
      modifies `trace, `outstanding, conn
      ensures Tracked()
      ensures trace == old(trace) + [Answered(Request(conn.connId, requestId), old(conn.requests[requestId]))]
      ensures conn.requests == old(conn.requests) - {requestId}
    {
      var e := Answered(Request(conn.connId, requestId), conn.requests[requestId]);
      ObserveExtend(trace, outstanding, e);
      trace, outstanding := trace + [e], After(outstanding, e);
      conn.requests := conn.requests - {requestId};
    }

    /** `parses` says whether the address text is a valid address and `status` is what the
        HAL returns; `sent` is the response given to the HAL, if any. */
    method SendResponse(address: Address, parses: bool, requestId: int, error: int, offset: int,
                        value: seq<bv8>, status: int) returns (ok: bool, sent: Option<Response>)
      requires ConnectionsValid()
      modifies `trace, `outstanding, byId.Values
      ensures ConnectionsValid()
      ensures sent.Some? <==>
        && parses && offset >= 0 && |value| + offset <= MAX_ATTR_LEN
        && exists x :: x in ListOf(byAddress, address) && requestId in old(x.requests)
      ensures ok <==> sent.Some? && status == SUCCESS
      ensures sent.Some? ==>
        var list, c := ListOf(byAddress, address), sent.value.conn;
        && c in byId && byId[c] in list && requestId in old(byId[c].requests)
        && old(LastHolder(ListOf(byAddress, address), requestId, byId[c]))
        && sent.value == ResponseTo(c, requestId, error, old(byId[c].requests[requestId]), offset, value)
      ensures sent.Some? ==>
        && sent.value.requestId == requestId && sent.value.error == error
        && sent.value.handle == old(byId[sent.value.conn].requests[requestId])
        && (sent.value.handle != -1 ==> sent.value.offset == offset && sent.value.value == value)
        && (sent.value.handle == -1 ==> sent.value.offset == 0 && sent.value.value == [])
      ensures ok ==>
        var c := sent.value.conn;
        && trace == old(trace) + [Answered(Request(c, requestId), sent.value.handle)]
        && byId[c].requests == old(byId[c].requests) - {requestId}
        && forall d :: d in byId && d != c ==> unchanged(byId[d])
      ensures !ok ==> trace == old(trace) && forall d :: d in byId ==> unchanged(byId[d])
    {
      ok, sent := false, None;
      if !parses || offset < 0 || |value| + offset > MAX_ATTR_LEN || address !in byAddress {
        return;
      }
      var conn := FindRequest(byAddress[address], requestId);
      if conn == null {
        return;
      }
      sent := Some(ResponseTo(conn.connId, requestId, error, conn.requests[requestId], offset, value));
      if status != SUCCESS {
        return;
      }
      Answer(conn, requestId);
      ok := true;
    }

    // ----- indications -----

    /** `statusOf` is what the HAL returns when asked to send on a connection. */
    method SendNotification(address: Address, parses: bool, hasCallback: bool, statusOf: ConnId -> int)
      returns (ok: bool, g: PendingIndication?)
      requires IndicationsValid()
      modifies `pending, `history
      ensures IndicationsValid()
      ensures var targets := if parses then Targets(ListOf(byAddress, address), old(pending), statusOf) else {};
        && (ok <==> targets != {})
        && (!ok ==> pending == old(pending))
        && (ok ==>
              && g != null && fresh(g) && Extended(old(pending), pending, targets, g)
              && history == old(history)[g := Sent(hasCallback, targets)]
              && g.hasCallback == hasCallback && history[g].hasCallback == hasCallback
              && history[g].sentOn == history[g].waiting == targets && history[g].acks == [])
      ensures forall h :: h in old(history) ==> h in history && history[h] == old(history)[h]
      ensures fresh(history.Keys - old(history.Keys))
      ensures Agree(byId, byAddress) && old(NoneStale()) ==> NoneStale()
    {
      if !parses || address !in byAddress {
        return false, null;
      }
      TargetsAreOpen(byId, byAddress, address, pending, statusOf);
      ok, g := SendTo(byAddress[address], hasCallback, statusOf);
      if !ok {
        ExtendedByNone(old(pending), pending, g);
      }
    }

    /** The rest of SendNotification, for the connections of the address. */
    method SendTo(list: seq<Connection>, hasCallback: bool, statusOf: ConnId -> int)
      returns (ok: bool, g: PendingIndication)
      requires IndicationsValid()
      modifies `pending, `history
      ensures IndicationsValid() && fresh(g) && g !in old(history) && g.hasCallback == hasCallback
      ensures var targets := Targets(list, old(pending), statusOf);
        && (ok <==> targets != {}) && Extended(old(pending), pending, targets, g)
        && history == old(history)[g := Sent(hasCallback, targets)]
    {
      g := new PendingIndication(hasCallback);
      history := history[g := Begin(hasCallback)];
      var sendCount := SendAll(list, g, statusOf);
      SentIsFaithful(old(history), g, Targets(list, old(pending), statusOf));
      ok := sendCount > 0;
    }

    /** The loop of SendNotification over the connections of the address. */
    method SendAll(list: seq<Connection>, g: PendingIndication, statusOf: ConnId -> int) returns (sendCount: nat)
      requires Coordinated(pending, history) && g in history && history[g] == Begin(g.hasCallback)
      modifies `pending, `history
      ensures Coordinated(pending, history)
      ensures var targets := Targets(list, old(pending), statusOf);
        && (sendCount > 0 <==> targets != {})
        && history == old(history)[g := Sent(g.hasCallback, targets)]
        && Extended(old(pending), pending, targets, g)
    {
      ghost var before, base := pending, history;
      ghost var sent: set<ConnId> := {};
      sendCount := 0;
      for i := 0 to |list|
        invariant Coordinated(pending, history) && Extended(before, pending, sent, g)
        invariant history == base[g := Sent(g.hasCallback, sent)]
        invariant sent == Targets(list[..i], before, statusOf)
        invariant sendCount > 0 <==> sent != {}
      {
        var c := list[i].connId;
        TargetsStep(list, i, before, statusOf);
        if c in pending || statusOf(c) != SUCCESS {
          assert c in sent || c in before || statusOf(c) != SUCCESS;
          continue;
        }
        ExtendByOne(before, pending, sent, base, g, c);
        sendCount, sent := sendCount + 1, sent + {c};
        AddPending(c, g);
      }
      assert list[..|list|] == list;
    }

    method AddPending(c: ConnId, g: PendingIndication)
      requires Coordinated(pending, history) && g in history && c !in pending
      modifies `pending, `history
      ensures Coordinated(pending, history)
      ensures pending == old(pending)[c := g] && history == old(history)[g := SendOn(old(history)[g], c)]
    {
      SendCoordinated(pending, history, g, c);
      pending, history := pending[c := g], history[g := SendOn(history[g], c)];
    }

    /** The acknowledgement of an indication; `fired` is what the callback is given. */
    method IndicationSentCallback(c: ConnId, status: int) returns (fired: Option<int>)
      requires IndicationsValid()
      modifies `pending, `history, history.Keys
      ensures IndicationsValid() && pending == old(pending) - {c}
      ensures history.Keys == old(history.Keys) && (old(NoneStale()) ==> NoneStale())
      ensures c !in old(pending) ==> fired == None && history == old(history)
      ensures c in old(pending) ==>
        var g := old(pending)[c];
        && history == old(history)[g := Acknowledge(old(history)[g], c, status)]
        && history[g].fired == old(history)[g].fired + (if fired.Some? then [fired.value] else [])
    {
      if c !in pending {
        return None;
      }
      AckKeepsOpen(pending, byId, c);
      fired := Acknowledged(c, status);
    }

    method Acknowledged(c: ConnId, status: int) returns (fired: Option<int>)
      requires IndicationsValid() && c in pending
      modifies `pending, `history, history.Keys
      ensures IndicationsValid() && pending == old(pending) - {c} && history.Keys == old(history.Keys)
      ensures var g := old(pending)[c];
        && history == old(history)[g := Acknowledge(old(history)[g], c, status)]
        && history[g].fired == old(history)[g].fired + (if fired.Some? then [fired.value] else [])
    {
      AckKeepsBooks(pending, history, c, status);
      fired := Complete(c, pending[c], status);
    }

    method Complete(c: ConnId, g: PendingIndication, status: int) returns (fired: Option<int>)
      requires Coordinated(pending, history) && Flagged(history) && c in pending && g == pending[c]
      modifies `pending, `history, g
      ensures Flagged(history) && pending == old(pending) - {c} && history.Keys == old(history.Keys)
      ensures history == old(history)[g := Acknowledge(old(history)[g], c, status)]
      ensures history[g].fired == old(history)[g].fired + if fired.Some? then [fired.value] else []
    {
      var unique := IsUnique(c, g);
      fired := Notify(g, status, unique);
      pending, history := pending - {c}, history[g := Acknowledge(history[g], c, status)];
    }

    method Notify(g: PendingIndication, status: int, unique: bool) returns (fired: Option<int>)
      modifies g
      ensures g.hasSuccess == (old(g.hasSuccess) || status == SUCCESS)
      ensures fired == if unique && g.hasCallback then Some(if g.hasSuccess then SUCCESS else status) else None
    {
      if status == SUCCESS {
        g.hasSuccess := true;
      }
      fired := if unique && g.hasCallback then Some(if g.hasSuccess then SUCCESS else status) else None;
    }

    /** Whether erasing the entry of `c` leaves the caller the only owner of the group. */
    method IsUnique(c: ConnId, g: PendingIndication) returns (unique: bool)
      requires Coordinated(pending, history) && g in history
      ensures unique <==> history[g].waiting - {c} == {}
    {
      UniqueMeansLast(pending, history, g, c);
      var rest := pending - {c};
      unique := forall d :: d in rest ==> rest[d] != g;
    }
  }

  function ResponseTo(c: ConnId, requestId: int, error: int, handle: int, offset: int, value: seq<bv8>): Response {
    if handle == EXECUTE_WRITE_HANDLE then Response(c, requestId, error, handle, 0, [])
    else Response(c, requestId, error, handle, offset, value)
  }

  /** Of the connections in the list that have the request, this is the last. */
  ghost predicate LastHolder(list: seq<Connection>, requestId: int, conn: Connection)
    reads list
  {
    exists i :: 0 <= i < |list| && list[i] == conn && requestId in list[i].requests
             && forall j :: i < j < |list| ==> requestId !in list[j].requests
  }

  /** The loop of SendResponse: without a break, so the last match is kept. */
  method FindRequest(list: seq<Connection>, requestId: int) returns (conn: Connection?)
    ensures conn == null ==> forall x :: x in list ==> requestId !in x.requests
    ensures conn != null ==> LastHolder(list, requestId, conn)
  {
    conn := null;
    for i := 0 to |list|
      invariant conn == null ==> forall j :: 0 <= j < i ==> requestId !in list[j].requests
      invariant conn != null ==> exists k :: 0 <= k < i && list[k] == conn && requestId in conn.requests
                                          && forall j :: k < j < i ==> requestId !in list[j].requests
    {
      if requestId in list[i].requests {
        conn := list[i];
      }
    }
  }

  /** The loop that removes the connection object of an address. */
  method EraseFirst(list: seq<Connection>, c: ConnId) returns (rest: seq<Connection>)
    ensures rest == Erase(list, c)
  {
    for i := 0 to |list|
      invariant Erase(list, c) == list[..i] + Erase(list[i..], c)
    {
      assert list[i..][1..] == list[i + 1..];
      if list[i].connId == c {
        return list[..i] + list[i + 1..];
      }
    }
    assert list[|list|..] == [];
    return list;
  }

  /** The connection is the only one the server has. */
  ghost predicate OnlyOne(byId: ById, byAddress: ByAddress, c: ConnId, address: Address) {
    c in byId && byId[c].bdaddr == address && ListOf(byAddress, address) == [byId[c]] && byId.Keys == {c}
  }

  /** A HAL that takes everything it is given. */
  function Accepting(c: ConnId): int {
    SUCCESS
  }

  lemma OnlyTarget(x: Connection, pending: Pending)
    ensures Targets([x], pending, Accepting) == if x.connId in pending then {} else {x.connId}
  {
    assert [x][..0] == [];
  }

  method Open(c: ConnId, address: Address) returns (server: GattServer)
    ensures fresh(server) && server.ConnectionsValid() && server.IndicationsValid() && server.serverId == 1
    ensures OnlyOne(server.byId, server.byAddress, c, address) && server.pending == map[]
  {
    server := new GattServer(1);
    server.ConnectionCallback(c, 1, true, address);
  }

  method Send(server: GattServer, c: ConnId, address: Address) returns (ok: bool)
    requires server.IndicationsValid() && OnlyOne(server.byId, server.byAddress, c, address)
    requires server.byId[c].connId == c
    modifies server`pending, server`history
    ensures server.IndicationsValid() && (ok <==> c !in old(server.pending)) && c in server.pending
  {
    OnlyTarget(server.byId[c], server.pending);
    var g;
    ok, g := server.SendNotification(address, true, true, Accepting);
  }

  method OpenAndSend(c: ConnId, address: Address) returns (server: GattServer, ok: bool)
    ensures fresh(server) && server.ConnectionsValid() && server.IndicationsValid() && server.serverId == 1
    ensures OnlyOne(server.byId, server.byAddress, c, address) && ok && c in server.pending
  {
    server := Open(c, address);
    ok := Send(server, c, address);
  }

  method Reopen(server: GattServer, c: ConnId, address: Address)
    requires server.ConnectionsValid() && server.serverId == 1
    requires OnlyOne(server.byId, server.byAddress, c, address)
    modifies server`byId, server`byAddress, server`trace, server`outstanding
    ensures OnlyOne(server.byId, server.byAddress, c, address) && server.byId[c].connId == c
  {
    server.ConnectionCallback(c, 1, false, address);
    server.ConnectionCallback(c, 1, true, address);
  }

  /** A connection that has been closed with an indication pending and opened again gets
      no further indication. */
  method StaleIndicationBlocks(c: ConnId, address: Address) returns (first: bool, second: bool)
    ensures first && !second
  {
    var server;
    server, first := OpenAndSend(c, address);
    Reopen(server, c, address);
    second := Send(server, c, address);
  }
}
