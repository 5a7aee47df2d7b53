/** The metrics logger of system/common/metrics.cc, run sequentially: four leaky queues
    with counters, the Bluetooth session being logged, and the dump that drains it all. */
module MetricsLogger {
  import opened Options
  import opened Words
  import opened LeakyQueue
  import opened A2dpMetrics

  const MAX_SESSIONS := 50
  const MAX_PAIR_EVENTS := 50
  const MAX_WAKE_EVENTS := 1000
  const MAX_SCAN_EVENTS := 50

  datatype PairEvent = PairEvent(disconnectReason: int, timeMs: int, deviceClass: int, deviceType: int)
  datatype WakeEvent = WakeEvent(kind: int, requestor: string, name: string, timeMs: int)
  datatype ScanEvent = ScanEvent(start: bool, initiator: string, tech: int, results: int, timeMs: int)

  datatype Tech = UnknownTech | LE | BREDR
  datatype Reason = Unset | UnknownReason | MetricsDump | NextStartWithoutEndPrevious

  datatype Session = Session(
    tech: Tech,
    durationSec: int,
    reason: Reason,
    device: Option<int>,      // device class, always logged as BR/EDR
    a2dp: Option<Metrics>)

  const AUDIO_DEVICE := 0x04  // BTM_COD_MAJOR_AUDIO

  /** The protobuf the dump is serialized from. */
  datatype Log = Log(
    numSessions: int, numPairEvents: int, numScanEvents: int, numWakeEvents: int,
    sessions: seq<Session>, pairEvents: seq<PairEvent>, scanEvents: seq<ScanEvent>, wakeEvents: seq<WakeEvent>)

  const NO_LOG := Log(0, 0, 0, 0, [], [], [], [])

  /** A session as it is enqueued: the duration is an unsigned difference. */
  function Closed(s: Session, startMs: int, endMs: int, reason: Reason): Session {
    s.(durationSec := U64(endMs - startMs) / 1000, reason := reason)
  }

  /** A closed session keeps what it had, takes the reason, and lasts the whole seconds from
      its start to its end. */
  lemma ClosedMeaning(s: Session, startMs: int, endMs: int, reason: Reason)
    ensures var c := Closed(s, startMs, endMs, reason);
      && c.tech == s.tech && c.device == s.device && c.a2dp == s.a2dp && c.reason == reason
      && (startMs <= endMs < startMs + TWO_64 ==>
            c.durationSec * 1000 <= endMs - startMs < (c.durationSec + 1) * 1000)
  {
  }

  /** A time stamp of zero stands for the clock. */
  function Stamp(timeMs: int, clock: int): int {
    if timeMs == 0 then clock else timeMs
  }

  ghost predicate Holds<T>(q: LeakyBondedQueue<T>, capacity: int, logged: seq<T>)
    reads q
  {
    q.Valid() && q.capacity == capacity && q.items == Latest(logged, capacity)
  }

  /** One drain loop of Build: it empties the queue, because a list no longer than the
      queue's capacity never fails its size test. */
  method Drain<T>(q: LeakyBondedQueue<T>) returns (list: seq<T>)
    requires q.Valid()
    modifies q
    ensures q.Valid() && q.items == [] && list == old(q.items)
  {
    list := [];
    while q.items != [] && |list| <= q.capacity
      invariant q.Valid() && list + q.items == old(q.items)
      decreases |q.items|
    {
      var x := q.Dequeue();
      list := list + [x];
    }
  }

  /** The fifth loop of Build, which goes by the emptiness of another queue than it takes
      from.  It stays defined if it can fill the list, and does nothing if the other queue
      is empty. */
  method DrainWhile<S, T>(other: LeakyBondedQueue<S>, q: LeakyBondedQueue<T>, before: seq<T>) returns (list: seq<T>)
    requires q.Valid() && (other.items == [] || |before| + |q.items| > q.capacity)
    modifies q
    ensures q.Valid() && list + q.items == before + old(q.items)
    ensures old(other.items) == [] ==> list == before && q.items == old(q.items)
  {
    list := before;
    ghost var guard := other.items;
    while other.items != [] && |list| <= q.capacity
      invariant q.Valid() && list + q.items == before + old(q.items)
      invariant guard == [] ==> other.items == [] && list == before && q.items == old(q.items)
      decreases |q.items|
    {
      var x := q.Dequeue();
      list := list + [x];
    }
  }

  class BluetoothMetricsLogger {
    const sessions: LeakyBondedQueue<Session>
    const pairEvents: LeakyBondedQueue<PairEvent>
    const scanEvents: LeakyBondedQueue<ScanEvent>
    const wakeEvents: LeakyBondedQueue<WakeEvent>
    const metrics: A2dpSessionMetrics
    var log: Log
    var session: Option<Session>
    var sessionStartMs: int

    // everything logged since the last dump or reset
    ghost var ended: seq<Session>
    ghost var paired: seq<PairEvent>
    ghost var scanned: seq<ScanEvent>
    ghost var woken: seq<WakeEvent>
    // the A2DP updates of the session being logged
    ghost var updates: seq<Metrics>

    /** Each queue holds the latest of what was logged and its counter counts all of it. */
    ghost predicate EventsKept()
      reads `log, `ended, `paired, `scanned, `woken, sessions, pairEvents, scanEvents, wakeEvents
    {
      && Holds(sessions, MAX_SESSIONS, ended) && Holds(pairEvents, MAX_PAIR_EVENTS, paired)
      && Holds(scanEvents, MAX_SCAN_EVENTS, scanned) && Holds(wakeEvents, MAX_WAKE_EVENTS, woken)
      && log == Log(|ended|, |paired|, |scanned|, |woken|, [], [], [], [])
    }

    /** The open session carries the merge of exactly the A2DP updates it received. */
    ghost predicate SessionKept()
      reads `session, `updates, metrics
    {
      && metrics.View() == Accumulate(updates)
      && match session
         case None => updates == []
         case Some(s) => s.a2dp == if updates == [] then None else Some(Accumulate(updates))
    }

    ghost predicate Valid()
      reads this, sessions, pairEvents, scanEvents, wakeEvents, metrics
    {
      EventsKept() && SessionKept()
    }

    constructor ()
      ensures Valid() && session == None && ended == [] && paired == [] && scanned == [] && woken == []
      ensures fresh(sessions) && fresh(pairEvents) && fresh(scanEvents) && fresh(wakeEvents) && fresh(metrics)
    {
      sessions := new LeakyBondedQueue(MAX_SESSIONS);
      pairEvents := new LeakyBondedQueue(MAX_PAIR_EVENTS);
      scanEvents := new LeakyBondedQueue(MAX_SCAN_EVENTS);
      wakeEvents := new LeakyBondedQueue(MAX_WAKE_EVENTS);
      metrics := new A2dpSessionMetrics();
      log, session, sessionStartMs := NO_LOG, None, 0;
      ended, paired, scanned, woken, updates := [], [], [], [], [];
    }

    // ----- events -----

    method LogPairEvent(e: PairEvent)
      requires Valid()
      modifies `log, `paired, pairEvents
      ensures Valid() && paired == old(paired) + [e]
    {
      LatestStep(paired, e, MAX_PAIR_EVENTS);
      pairEvents.Enqueue(e);
      log := log.(numPairEvents := log.numPairEvents + 1);
      paired := paired + [e];
    }

    method LogWakeEvent(e: WakeEvent)
      requires Valid()
      modifies `log, `woken, wakeEvents
      ensures Valid() && woken == old(woken) + [e]
    {
      LatestStep(woken, e, MAX_WAKE_EVENTS);
      wakeEvents.Enqueue(e);
      log := log.(numWakeEvents := log.numWakeEvents + 1);
      woken := woken + [e];
    }

    method LogScanEvent(e: ScanEvent)
      requires Valid()
      modifies `log, `scanned, scanEvents
      ensures Valid() && scanned == old(scanned) + [e]
    {
      LatestStep(scanned, e, MAX_SCAN_EVENTS);
      scanEvents.Enqueue(e);
      log := log.(numScanEvents := log.numScanEvents + 1);
      scanned := scanned + [e];
    }

    // ----- sessions -----

    /** `clock` is the boot time in milliseconds if it is read. */
    method LogBluetoothSessionEnd(reason: Reason, timeMs: int, clock: int)
      requires Valid()
      modifies `log, `session, `ended, `updates, sessions, metrics
      ensures Valid() && session == None
      ensures ended == old(ended) + match old(session)
                                    case None => []
                                    case Some(s) => [Closed(s, sessionStartMs, Stamp(timeMs, clock), reason)]
      ensures old(session).Some? ==>
        var c, endMs := ended[|ended| - 1], if timeMs == 0 then clock else timeMs;
        && c.tech == old(session).value.tech && c.device == old(session).value.device
        && c.a2dp == old(session).value.a2dp && c.reason == reason
        && (sessionStartMs <= endMs < sessionStartMs + TWO_64 ==>
              c.durationSec * 1000 <= endMs - sessionStartMs < (c.durationSec + 1) * 1000)
    {
      if session == None {
        return;
      }
      var closed := Closed(session.value, sessionStartMs, Stamp(timeMs, clock), reason);
      LatestStep(ended, closed, MAX_SESSIONS);
      ClosedMeaning(session.value, sessionStartMs, Stamp(timeMs, clock), reason);
      sessions.Enqueue(closed);
      metrics.Reset();
      session, updates := None, [];
      log := log.(numSessions := log.numSessions + 1);
      ended := ended + [closed];
    }

    /** `clock` is read if a session has to be ended, `startClock` after that if no time is given. */
    method LogBluetoothSessionStart(tech: Tech, timeMs: int, clock: int, startClock: int)
      requires Valid()
      modifies `log, `session, `sessionStartMs, `ended, `updates, sessions, metrics
      ensures Valid() && session == Some(Session(tech, 0, Unset, None, None)) && updates == []
      ensures sessionStartMs == if timeMs == 0 then startClock else timeMs
      ensures ended == old(ended) + match old(session)
                                    case None => []
                                    case Some(s) => [Closed(s, old(sessionStartMs), clock, NextStartWithoutEndPrevious)]
    {
      if session.Some? {
        LogBluetoothSessionEnd(NextStartWithoutEndPrevious, 0, clock);
      }
      sessionStartMs := Stamp(timeMs, startClock);
      session := Some(Session(tech, 0, Unset, None, None));
    }

    method LogBluetoothSessionDeviceInfo(deviceClass: int, clock: int)
      requires Valid()
      modifies `log, `session, `sessionStartMs, `ended, `updates, sessions, metrics
      ensures Valid() && ended == old(ended) && updates == old(updates)
      ensures session == Some(old(OpenOr(UnknownTech)).(device := Some(deviceClass)))
      ensures old(session) == None ==> session == Some(Session(UnknownTech, 0, Unset, Some(deviceClass), None))
      ensures sessionStartMs == if old(session).Some? then old(sessionStartMs) else clock
    {
      if session == None {
        LogBluetoothSessionStart(UnknownTech, 0, clock, clock);
      }
      session := Some(session.value.(device := Some(deviceClass)));
    }

    /** The session being logged, or the one that is begun in its absence. */
    ghost function OpenOr(tech: Tech): Session
      reads this
    {
      match session
      case None => Session(tech, 0, Unset, None, None)
      case Some(s) => s
    }

    method LogA2dpSession(update: Metrics, clock: int)
      requires Valid()
      modifies `log, `session, `sessionStartMs, `ended, `updates, sessions, metrics
      ensures Valid() && ended == old(ended) && updates == old(updates) + [update]
      ensures session.Some? && session.value.a2dp == Some(Accumulate(old(updates) + [update]))
      ensures session.value.(a2dp := None)
        == old(OpenOr(BREDR)).(a2dp := None, device := if old(session).Some? then old(session).value.device
                                                       else Some(AUDIO_DEVICE))
      ensures old(session) == None ==>
        session.value.(a2dp := None) == Session(BREDR, 0, Unset, Some(0x04), None) && sessionStartMs == clock
    {
      if session == None {
        LogBluetoothSessionStart(BREDR, 0, clock, clock);
        LogBluetoothSessionDeviceInfo(AUDIO_DEVICE, clock);
      }
      metrics.Update(update);
      assert (updates + [update])[..|updates|] == updates;
      updates := updates + [update];
      session := Some(session.value.(a2dp := Some(metrics.View())));
    }

    // ----- the dump -----

    /** Ends the open session and begins its continuation. */
    method CutoffSession(clock: int, restart: int)
      requires Valid()
      modifies `log, `session, `sessionStartMs, `ended, `updates, sessions, metrics
      ensures Valid() && updates == []
      ensures match old(session)
              case None => session == None && ended == old(ended)
              case Some(s) =>
                && session == Some(s.(a2dp := None)) && sessionStartMs == restart
                && ended == old(ended) + [Closed(s, old(sessionStartMs), clock, MetricsDump)]
    {
      if session.Some? {
        var continued := session.value.(a2dp := None);
        LogBluetoothSessionEnd(MetricsDump, 0, clock);
        session := Some(continued);
        sessionStartMs := restart;
        metrics.Reset();
      }
    }

    /** Build and WriteString: the serialized log, and a logger with nothing left in it
        but the session that goes on. */
    method WriteString(clock: int, restart: int) returns (dump: Log)
      requires Valid()
      modifies this, sessions, pairEvents, scanEvents, wakeEvents, metrics
      ensures Valid() && ended == [] && paired == [] && scanned == [] && woken == [] && updates == []
      ensures sessions.items == [] && pairEvents.items == [] && scanEvents.items == [] && wakeEvents.items == []
      ensures dump.numPairEvents == |old(paired)| && dump.pairEvents == Latest(old(paired), MAX_PAIR_EVENTS)
      ensures dump.numScanEvents == |old(scanned)| && dump.scanEvents == Latest(old(scanned), MAX_SCAN_EVENTS)
      ensures dump.numWakeEvents == |old(woken)| && dump.wakeEvents == Latest(old(woken), MAX_WAKE_EVENTS)
      ensures var all := old(ended) + (match old(session)
                                       case None => []
                                       case Some(s) => [Closed(s, old(sessionStartMs), clock, MetricsDump)]);
        dump.numSessions == |all| && dump.sessions == Latest(all, MAX_SESSIONS)
      ensures session == match old(session)
                         case None => None
                         case Some(s) => Some(s.(a2dp := None))
    {
      CutoffSession(clock, restart);
      dump := Build();
      log := NO_LOG;
      ended, paired, scanned, woken := [], [], [], [];
    }

    method Build() returns (built: Log)
      requires EventsKept()
      modifies `log, sessions, pairEvents, scanEvents, wakeEvents
      ensures sessions.Valid() && pairEvents.Valid() && scanEvents.Valid() && wakeEvents.Valid()
      ensures sessions.items == [] && pairEvents.items == [] && scanEvents.items == [] && wakeEvents.items == []
      ensures log == built
        == Log(|ended|, |paired|, |scanned|, |woken|,
               Latest(ended, MAX_SESSIONS), Latest(paired, MAX_PAIR_EVENTS),
               Latest(scanned, MAX_SCAN_EVENTS), Latest(woken, MAX_WAKE_EVENTS))
    {
      var s := Drain(sessions);
      var p := Drain(pairEvents);
      var c := Drain(scanEvents);
      var w := Drain(wakeEvents);
      w := DrainWhile(sessions, wakeEvents, w);
      log := log.(sessions := s, pairEvents := p, scanEvents := c, wakeEvents := w);
      built := log;
    }

    method Reset()
      requires Valid()
      modifies this, sessions, pairEvents, scanEvents, wakeEvents, metrics
      ensures Valid() && session == None && sessionStartMs == 0
      ensures ended == [] && paired == [] && scanned == [] && woken == [] && updates == []
    {
      ResetEvents();
      ResetSession();
    }

    method ResetSession()
      modifies `session, `sessionStartMs, `updates, metrics
      ensures SessionKept() && session == None && sessionStartMs == 0 && updates == []
    {
      session, sessionStartMs, updates := None, 0, [];
      metrics.Reset();
    }

    /** ResetLog and the clearing of the queues. */
    method ResetEvents()
      requires EventsKept()
      modifies `log, `ended, `paired, `scanned, `woken, sessions, pairEvents, scanEvents, wakeEvents
      ensures EventsKept() && ended == [] && paired == [] && scanned == [] && woken == []
    {
      log := NO_LOG;
      ended, paired, scanned, woken := [], [], [], [];
      ClearQueues();
    }

    method ClearQueues()
      requires sessions.Valid() && pairEvents.Valid() && scanEvents.Valid() && wakeEvents.Valid()
      modifies sessions, pairEvents, scanEvents, wakeEvents
      ensures sessions.Valid() && pairEvents.Valid() && scanEvents.Valid() && wakeEvents.Valid()
      ensures sessions.items == [] && pairEvents.items == [] && scanEvents.items == [] && wakeEvents.items == []
    {
      sessions.Clear();
      pairEvents.Clear();
      wakeEvents.Clear();
      scanEvents.Clear();
    }
  }

  // ----- from the first event to the dump -----

  datatype Occurrence = Paired(pair: PairEvent) | Scanned(scan: ScanEvent) | Woken(wake: WakeEvent)

  function PairsOf(events: seq<Occurrence>): seq<PairEvent> {
    if events == [] then []
    else PairsOf(events[..|events| - 1]) + var e := events[|events| - 1]; if e.Paired? then [e.pair] else []
  }

  function ScansOf(events: seq<Occurrence>): seq<ScanEvent> {
    if events == [] then []
    else ScansOf(events[..|events| - 1]) + var e := events[|events| - 1]; if e.Scanned? then [e.scan] else []
  }

  function WakesOf(events: seq<Occurrence>): seq<WakeEvent> {
    if events == [] then []
    else WakesOf(events[..|events| - 1]) + var e := events[|events| - 1]; if e.Woken? then [e.wake] else []
  }

  method LogOne(logger: BluetoothMetricsLogger, e: Occurrence)
    requires logger.Valid()
    modifies logger`log, logger`paired, logger`scanned, logger`woken
    modifies logger.pairEvents, logger.scanEvents, logger.wakeEvents
    ensures logger.Valid()
    ensures logger.paired == old(logger.paired) + if e.Paired? then [e.pair] else []
    ensures logger.scanned == old(logger.scanned) + if e.Scanned? then [e.scan] else []
    ensures logger.woken == old(logger.woken) + if e.Woken? then [e.wake] else []
  {
    match e
    case Paired(pair) => logger.LogPairEvent(pair);
    case Scanned(scan) => logger.LogScanEvent(scan);
    case Woken(wake) => logger.LogWakeEvent(wake);
  }

  method LogAll(events: seq<Occurrence>) returns (logger: BluetoothMetricsLogger)
    ensures fresh(logger) && fresh(logger.sessions) && fresh(logger.pairEvents) && fresh(logger.scanEvents)
    ensures fresh(logger.wakeEvents) && fresh(logger.metrics) && logger.Valid()
    ensures logger.paired == PairsOf(events) && logger.scanned == ScansOf(events) && logger.woken == WakesOf(events)
  {
    logger := new BluetoothMetricsLogger();
    for i := 0 to |events|
      invariant fresh(logger) && fresh(logger.sessions) && fresh(logger.pairEvents) && fresh(logger.scanEvents)
      invariant fresh(logger.wakeEvents) && fresh(logger.metrics) && logger.Valid()
      invariant logger.paired == PairsOf(events[..i]) && logger.scanned == ScansOf(events[..i])
      invariant logger.woken == WakesOf(events[..i])
    {
      assert events[..i + 1][..i] == events[..i];
      LogOne(logger, events[i]);
    }
    assert events[..|events|] == events;
  }

  /** Whatever is logged, in whatever order, the dump counts all of it and holds the latest
      events of each kind. */
  method LogAndDump(events: seq<Occurrence>) returns (dump: Log)
    ensures dump.numPairEvents == |PairsOf(events)| && dump.pairEvents == Latest(PairsOf(events), MAX_PAIR_EVENTS)
    ensures dump.numScanEvents == |ScansOf(events)| && dump.scanEvents == Latest(ScansOf(events), MAX_SCAN_EVENTS)
    ensures dump.numWakeEvents == |WakesOf(events)| && dump.wakeEvents == Latest(WakesOf(events), MAX_WAKE_EVENTS)
  {
    var logger := LogAll(events);
    dump := logger.WriteString(0, 0);
  }
}
