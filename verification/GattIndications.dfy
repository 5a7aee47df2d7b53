/** One call to SendNotification of system/service/gatt_server.cc: the connections it was
    sent on, their acknowledgements, and the callback that reports the outcome. */
module GattIndications {
  import opened GattRequests

  const SUCCESS := 0  // BT_STATUS_SUCCESS, and GATT_ERROR_NONE

  datatype Ack = Ack(conn: ConnId, status: int)

  /** A pending indication with its history. */
  datatype Group = Group(
    hasCallback: bool,
    hasSuccess: bool,
    sentOn: set<ConnId>,
    waiting: set<ConnId>,  // those that have not acknowledged yet
    acks: seq<Ack>,
    fired: seq<int>)   // what the callback was invoked with

  ghost function Acked(acks: seq<Ack>): set<ConnId> {
    set a | a in acks :: a.conn
  }

  ghost predicate SomeSuccess(acks: seq<Ack>) {
    exists a :: a in acks && a.status == SUCCESS
  }

  /** Success if any acknowledgement succeeded, else the status of the last one. */
  ghost function Outcome(acks: seq<Ack>): int
    requires acks != []
  {
    if SomeSuccess(acks) then SUCCESS else acks[|acks| - 1].status
  }

  /** The callback has run exactly once if everyone has acknowledged, and not at all
      before that. */
  ghost predicate Sound(g: Group) {
    && Acked(g.acks) <= g.sentOn && g.waiting == g.sentOn - Acked(g.acks)
    && (forall i, j :: 0 <= i < j < |g.acks| ==> g.acks[i].conn != g.acks[j].conn)
    && (g.hasSuccess <==> SomeSuccess(g.acks))
    && g.fired == if g.hasCallback && g.acks != [] && g.waiting == {} then [Outcome(g.acks)] else []
  }

  ghost function Begin(hasCallback: bool): Group {
    Group(hasCallback, false, {}, {}, [], [])
  }

  ghost function SendOn(g: Group, c: ConnId): Group {
    g.(sentOn := g.sentOn + {c}, waiting := g.waiting + {c})
  }

  /** An acknowledgement as the code handles it: the callback runs if no other connection
      still refers to the group. */
  ghost function Acknowledge(g: Group, c: ConnId, status: int): Group {
    var success := g.hasSuccess || status == SUCCESS;
    var last := g.waiting - {c} == {};
    Group(g.hasCallback, success, g.sentOn, g.waiting - {c}, g.acks + [Ack(c, status)],
          g.fired + if last && g.hasCallback then [if success then SUCCESS else status] else [])
  }

  /** Acknowledging keeps the group sound, and runs the callback exactly on the
      acknowledgement of the last connection waiting. */
  lemma AckKeepsSound(g: Group, c: ConnId, status: int)
    requires Sound(g) && c in g.waiting
    ensures Sound(Acknowledge(g, c, status))
    ensures g.fired == []
    ensures Acknowledge(g, c, status).fired != [] <==> g.hasCallback && g.waiting == {c}
  {
    var acks, ack := g.acks, Ack(c, status);
    var after := acks + [ack];
    assert ack in after;
    assert forall a :: a in after <==> a in acks || a == ack;
    assert Acked(after) == Acked(acks) + {c};
    assert SomeSuccess(after) <==> SomeSuccess(acks) || status == SUCCESS;
  }

  /** As long as one connection has not acknowledged, the callback does not run. */
  lemma WaitingMeansSilent(g: Group, c: ConnId)
    requires Sound(g) && c in g.waiting
    ensures g.fired == []
    ensures forall d, status :: d != c ==> Acknowledge(g, d, status).fired == []
  {
    forall d, status | d != c ensures Acknowledge(g, d, status).fired == [] {
      assert c in g.waiting - {d};
    }
  }

  /** What the caller of SendNotification is promised about its callback. */
  lemma CallbackPromise(g: Group)
    requires Sound(g)
    ensures |g.fired| <= 1
    ensures g.fired != [] <==> g.hasCallback && g.acks != [] && forall c :: c in g.sentOn ==> c in Acked(g.acks)
    ensures g.fired != [] ==> (g.fired[0] == SUCCESS <==> exists a :: a in g.acks && a.status == SUCCESS)
    ensures g.fired != [] && g.fired[0] != SUCCESS ==> g.fired[0] == g.acks[|g.acks| - 1].status
  {
    if g.fired != [] {
      assert g.acks[|g.acks| - 1] in g.acks;
    }
    if forall c :: c in g.sentOn ==> c in Acked(g.acks) {
      assert g.waiting == {};
    } else {
      var c :| c in g.sentOn && c !in Acked(g.acks);
      assert c in g.waiting;
    }
  }
}
