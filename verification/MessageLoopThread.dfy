/** The life cycle of system/common/message_loop_thread.cc (the path without the Rust
    thread) as a protocol: any number of callers in StartUp and ShutDown, and the OS
    threads they create.  Each region that holds api_mutex_ is one step; so is each
    blocking call between two regions. */
module MessageLoopThread {
  import opened Options

  datatype Caller = Caller(id: int)  // a thread that calls StartUp or ShutDown
  datatype Tid = Tid(id: int)        // an OS thread created by StartUp

  /** Where a caller is inside StartUp or ShutDown; a caller outside has no entry. */
  datatype Pc =
    | WaitingForStart(tid: Tid)  // in start_up_future.wait()
    | Joining(tid: Tid)          // quit posted to `tid`, in thread_->join()
    | Deleting(tid: Tid)         // join returned, second region of ShutDown to come

  /** An OS thread: created, inside run_loop_->Run(), or past its last region. */
  datatype Phase = Spawned | Looping | Exited

  datatype State = State(
    thread: Option<Tid>,        // thread_
    messageLoop: Option<Tid>,   // message_loop_, named by the thread that made it
    runLoop: Option<Tid>,       // run_loop_
    threadId: Option<Tid>,      // thread_id_, None for -1
    shuttingDown: bool,         // shutting_down_
    callers: map<Caller, Pc>,
    threads: map<Tid, Phase>,   // every OS thread ever created
    quit: set<Tid>,             // threads whose run loop has been told to quit
    joined: set<Tid>,
    deleted: set<Tid>,
    faulted: bool)              // a null pointer was used, or a thread joined or deleted wrongly

  const INITIAL := State(None, None, None, None, false, map[], map[], {}, {}, {}, false)

  /** The steps, by caller or by OS thread. */
  datatype Step =
    | StartUpLock(caller: Caller, tid: Tid)
    | StartUpReturn(caller: Caller)
    | ShutDownLock(caller: Caller)
    | Join(caller: Caller)
    | ShutDownDelete(caller: Caller)
    | ThreadEnter(tid: Tid)
    | ThreadExit(tid: Tid)

  /** When a step can be taken; a caller is in at most one call. */
  ghost predicate Enabled(s: State, step: Step) {
    match step
    case StartUpLock(c, t) => c !in s.callers && t !in s.threads
    case StartUpReturn(c) =>
      c in s.callers && s.callers[c].WaitingForStart?
      && s.callers[c].tid in s.threads && s.threads[s.callers[c].tid] != Spawned
    case ShutDownLock(c) => c !in s.callers
    case Join(c) =>
      // thread_ is read here, outside the lock
      c in s.callers && s.callers[c].Joining?
      && (s.thread.Some? && s.thread.value in s.threads ==> s.threads[s.thread.value] == Exited)
    case ShutDownDelete(c) => c in s.callers && s.callers[c].Deleting?
    case ThreadEnter(t) => t in s.threads && s.threads[t] == Spawned
    case ThreadExit(t) => t in s.threads && s.threads[t] == Looping && t in s.quit
  }

  function After(s: State, step: Step): State {
    match step
    case StartUpLock(c, t) =>
      if s.thread.Some? then s  // already started: returns at once
      else s.(thread := Some(t), threads := s.threads[t := Spawned], callers := s.callers[c := WaitingForStart(t)])
    case StartUpReturn(c) => s.(callers := s.callers - {c})
    case ShutDownLock(c) =>
      if s.thread.None? || s.messageLoop.None? || s.shuttingDown then s  // returns at once
      else if s.runLoop.None? then s.(faulted := true)
      else s.(shuttingDown := true, quit := s.quit + {s.runLoop.value},
              callers := s.callers[c := Joining(s.thread.value)])
    case Join(c) =>
      if s.thread.None? || s.thread.value in s.joined || s.thread.value in s.deleted
      then s.(faulted := true)
      else s.(joined := s.joined + {s.thread.value}, callers := s.callers[c := Deleting(s.thread.value)])
    case ShutDownDelete(c) =>
      if s.thread.None? || s.thread.value !in s.joined || s.thread.value in s.deleted
      then s.(faulted := true)  // delete of null is harmless, of a joinable thread is not
      else s.(deleted := s.deleted + {s.thread.value}, thread := None, shuttingDown := false,
              callers := s.callers - {c})
    case ThreadEnter(t) =>
      if s.messageLoop.Some? || s.runLoop.Some? then s.(faulted := true)  // a loop would leak
      else s.(messageLoop := Some(t), runLoop := Some(t), threadId := Some(t), threads := s.threads[t := Looping])
    case ThreadExit(t) =>
      if s.messageLoop != Some(t) || s.runLoop != Some(t) then s.(faulted := true)
      else s.(messageLoop := None, runLoop := None, threadId := None, threads := s.threads[t := Exited])
  }

  // ----- what the state looks like in every run -----

  ghost predicate Closing(s: State, c: Caller) {
    c in s.callers && !s.callers[c].WaitingForStart?
  }

  ghost predicate Awaits(s: State, c: Caller, t: Tid) {
    c in s.callers && s.callers[c] == WaitingForStart(t)
  }

  ghost predicate Joined(s: State, c: Caller) {
    c in s.callers && s.callers[c].Deleting?
  }

  ghost predicate Unfinished(s: State, t: Tid) {
    t in s.threads && s.threads[t] != Exited
  }

  /** All the OS threads but the current one are done with for good. */
  ghost predicate OthersGone(s: State) {
    forall t :: t in s.threads && s.thread != Some(t) ==> s.threads[t] == Exited && t in s.joined && t in s.deleted
  }

  /** The fields describe the loop of the current thread, or nothing. */
  ghost predicate FieldsAgree(s: State) {
    && s.messageLoop == s.runLoop == s.threadId
    && (s.threadId.Some? <==> s.thread.Some? && s.thread.value in s.threads && s.threads[s.thread.value] == Looping)
    && (s.threadId.Some? ==> s.threadId == s.thread)
  }

  /** What each caller inside a call is waiting for. */
  ghost predicate CallersAgree(s: State) {
    && (forall c :: c in s.callers && s.callers[c].WaitingForStart? ==> s.callers[c].tid in s.threads)
    && (forall c :: Closing(s, c) ==> s.thread == Some(s.callers[c].tid))
    && (forall c, d :: Closing(s, c) && Closing(s, d) ==> c == d)
    && (s.shuttingDown <==> exists c :: Closing(s, c))
  }

  ghost predicate CurrentThread(s: State) {
    s.thread.Some? ==>
      var t := s.thread.value;
      && t in s.threads && t !in s.deleted
      && (t in s.quit <==> s.shuttingDown)
      && (t in s.quit ==> s.threads[t] != Spawned)
      && (s.threads[t] == Exited ==> t in s.quit)
      && (t in s.joined <==> exists c :: Joined(s, c))
      && (t in s.joined ==> s.threads[t] == Exited)
      && (s.threads[t] == Spawned ==> exists c :: Awaits(s, c, t))
  }

  ghost predicate Inv(s: State) {
    && !s.faulted
    && OthersGone(s) && FieldsAgree(s) && CallersAgree(s) && CurrentThread(s)
    && s.quit <= s.threads.Keys && s.joined <= s.threads.Keys && s.deleted <= s.threads.Keys
  }

  lemma StepKeepsInv(s: State, step: Step)
    requires Inv(s) && Enabled(s, step)
    ensures Inv(After(s, step))
  {
    match step
    case StartUpLock(c, t) => StartUpLockKeepsInv(s, c, t);
    case StartUpReturn(c) => StartUpReturnKeepsInv(s, c);
    case ShutDownLock(c) => ShutDownLockKeepsInv(s, c);
    case Join(c) => JoinKeepsInv(s, c);
    case ShutDownDelete(c) => ShutDownDeleteKeepsInv(s, c);
    case ThreadEnter(t) => ThreadEnterKeepsInv(s, t);
    case ThreadExit(t) => ThreadExitKeepsInv(s, t);
  }

  lemma StartUpLockKeepsInv(s: State, c: Caller, t: Tid)
    requires Inv(s) && Enabled(s, StartUpLock(c, t))
    ensures Inv(After(s, StartUpLock(c, t)))
  {
    var s' := After(s, StartUpLock(c, t));
    if s.thread.None? {
      assert Awaits(s', c, t);
      assert forall d :: (Closing(s', d) <==> Closing(s, d)) && (Joined(s', d) <==> Joined(s, d));
    }
  }

  lemma StartUpReturnKeepsInv(s: State, c: Caller)
    requires Inv(s) && Enabled(s, StartUpReturn(c))
    ensures Inv(After(s, StartUpReturn(c)))
  {
    var s' := After(s, StartUpReturn(c));
    assert forall d, t :: Awaits(s, d, t) && d != c ==> Awaits(s', d, t);
    assert forall d :: Closing(s', d) <==> Closing(s, d);
    assert forall d :: Joined(s', d) <==> Joined(s, d);
  }

  lemma ShutDownLockKeepsInv(s: State, c: Caller)
    requires Inv(s) && Enabled(s, ShutDownLock(c))
    ensures Inv(After(s, ShutDownLock(c)))
  {
    var s' := After(s, ShutDownLock(c));
    if s != s' {
      assert Closing(s', c);
      assert forall d :: Closing(s', d) ==> d == c || Closing(s, d);
      assert forall d :: Joined(s', d) <==> Joined(s, d);
      assert forall d, t :: Awaits(s, d, t) ==> Awaits(s', d, t);
    }
  }

  lemma JoinKeepsInv(s: State, c: Caller)
    requires Inv(s) && Enabled(s, Join(c))
    ensures Inv(After(s, Join(c)))
  {
    var s' := After(s, Join(c));
    assert Closing(s, c);
    assert !Joined(s, c) && forall d :: Joined(s, d) ==> Closing(s, d);
    assert forall d, t :: Awaits(s, d, t) ==> Awaits(s', d, t);
    assert Joined(s', c) && forall d :: Closing(s', d) <==> Closing(s, d);
  }

  lemma ShutDownDeleteKeepsInv(s: State, c: Caller)
    requires Inv(s) && Enabled(s, ShutDownDelete(c))
    ensures Inv(After(s, ShutDownDelete(c)))
  {
    var s' := After(s, ShutDownDelete(c));
    assert Closing(s, c) && Joined(s, c);
    assert forall d :: Closing(s', d) ==> Closing(s, d) && d != c;
  }

  lemma ThreadEnterKeepsInv(s: State, t: Tid)
    requires Inv(s) && Enabled(s, ThreadEnter(t))
    ensures Inv(After(s, ThreadEnter(t)))
  {
    var s' := After(s, ThreadEnter(t));
    assert forall d :: (Closing(s', d) <==> Closing(s, d)) && (Joined(s', d) <==> Joined(s, d));
  }

  lemma ThreadExitKeepsInv(s: State, t: Tid)
    requires Inv(s) && Enabled(s, ThreadExit(t))
    ensures Inv(After(s, ThreadExit(t)))
  {
    var s' := After(s, ThreadExit(t));
    assert forall d :: (Closing(s', d) <==> Closing(s, d)) && (Joined(s', d) <==> Joined(s, d));
  }

  ghost predicate Takes(s: State, step: Step, s': State) {
    Enabled(s, step) && s' == After(s, step)
  }

  /** A run of the protocol: any interleaving of enabled steps. */
  ghost predicate IsRun(run: seq<State>, steps: seq<Step>) {
    && |run| == |steps| + 1 && run[0] == INITIAL
    && forall i :: 0 <= i < |steps| ==> Takes(run[i], steps[i], run[i + 1])
  }

  lemma {:induction false} RunKeepsInv(run: seq<State>, steps: seq<Step>, i: nat)
    requires IsRun(run, steps) && i < |run|
    ensures Inv(run[i])
  {
    if i > 0 {
      RunKeepsInv(run, steps, i - 1);
      assert Takes(run[i - 1], steps[i - 1], run[i]);
      StepKeepsInv(run[i - 1], steps[i - 1]);
    }
  }

  // ----- safety, as the callers see it -----

  predicate IsRunning(s: State) {
    s.threadId.Some?
  }

  /** DoInThreadDelayed posts exactly when there is a message loop. */
  predicate CanPost(s: State) {
    s.messageLoop.Some?
  }

  /** In every state of every run: at most one OS thread is alive; the loop, the run loop
      and the thread id are set and cleared together, and only while there is a thread;
      a shutdown is in progress exactly when one caller, and no other, is between posting
      quit and deleting; and no null pointer is used and no thread mishandled. */
  lemma RunIsSafe(run: seq<State>, steps: seq<Step>, i: nat)
    requires IsRun(run, steps) && i < |run|
    ensures !run[i].faulted
    ensures forall t, u :: Unfinished(run[i], t) && Unfinished(run[i], u) ==> t == u
    ensures run[i].messageLoop == run[i].runLoop == run[i].threadId
    ensures IsRunning(run[i]) ==> run[i].thread == run[i].threadId
    ensures CanPost(run[i]) <==> IsRunning(run[i])
    ensures run[i].shuttingDown <==> exists c :: Closing(run[i], c)
    ensures forall c, d :: Closing(run[i], c) && Closing(run[i], d) ==> c == d
  {
    RunKeepsInv(run, steps, i);
  }

  lemma StepGrows(s: State, step: Step, s': State)
    requires Takes(s, step, s')
    ensures s.joined <= s'.joined && s.deleted <= s'.deleted
  {
  }

  lemma {:induction false} JoinedAndDeletedGrow(run: seq<State>, steps: seq<Step>, i: nat, j: nat)
    requires IsRun(run, steps) && i <= j < |run|
    ensures run[i].joined <= run[j].joined && run[i].deleted <= run[j].deleted
    decreases j
  {
    if i < j {
      JoinedAndDeletedGrow(run, steps, i, j - 1);
      assert Takes(run[j - 1], steps[j - 1], run[j]);
      StepGrows(run[j - 1], steps[j - 1], run[j]);
    }
  }

  /** No run joins an OS thread twice, or deletes one twice. */
  lemma NothingTwice(run: seq<State>, steps: seq<Step>, i: nat, j: nat)
    requires IsRun(run, steps) && i < j < |steps|
    ensures steps[i].Join? && steps[j].Join? ==>
      run[i].thread.Some? && run[j].thread.Some? && run[i].thread != run[j].thread
    ensures steps[i].ShutDownDelete? && steps[j].ShutDownDelete? ==>
      run[i].thread.Some? && run[j].thread.Some? && run[i].thread != run[j].thread
  {
    assert Takes(run[i], steps[i], run[i + 1]) && Takes(run[j], steps[j], run[j + 1]);
    RunKeepsInv(run, steps, i + 1);
    RunKeepsInv(run, steps, j + 1);
    JoinedAndDeletedGrow(run, steps, i + 1, j);
  }

  // ----- every call finishes -----

  /** A step that is not the beginning of a call. */
  predicate Internal(step: Step) {
    !step.StartUpLock? && !step.ShutDownLock?
  }

  /** An upper bound on the steps left in the calls now in progress. */
  ghost function Work(s: State): int {
    2 * |s.callers| - Credit(s) + ThreadWork(s)
  }

  ghost function Credit(s: State): int {
    if exists c :: Joined(s, c) then 1 else 0
  }

  function ThreadWork(s: State): int {
    if s.thread.None? || s.thread.value !in s.threads then 0
    else match s.threads[s.thread.value]
         case Spawned => 2
         case Looping => 1
         case Exited => 0
  }

  lemma InternalStepsAreWork(s: State, step: Step)
    requires Inv(s) && Enabled(s, step) && Internal(step)
    ensures 0 <= Work(After(s, step)) < Work(s)
  {
    WorkIsNonNegative(After(s, step));
    match step
    case StartUpReturn(c) => StartUpReturnIsWork(s, c);
    case Join(c) => JoinIsWork(s, c);
    case ShutDownDelete(c) => ShutDownDeleteIsWork(s, c);
    case ThreadEnter(t) => ThreadStepIsWork(s, step);
    case ThreadExit(t) => ThreadStepIsWork(s, step);
  }

  lemma StartUpReturnIsWork(s: State, c: Caller)
    requires Inv(s) && Enabled(s, StartUpReturn(c))
    ensures Work(After(s, StartUpReturn(c))) == Work(s) - 2
  {
    CallerGone(s, c);
    assert forall d :: Joined(After(s, StartUpReturn(c)), d) <==> Joined(s, d);
  }

  lemma ShutDownDeleteIsWork(s: State, c: Caller)
    requires Inv(s) && Enabled(s, ShutDownDelete(c))
    ensures Work(After(s, ShutDownDelete(c))) < Work(s)
  {
    assert Joined(s, c) && Closing(s, c);
    CallerGone(s, c);
    assert Credit(s) == 1 && ThreadWork(s) == 0;
  }

  lemma ThreadStepIsWork(s: State, step: Step)
    requires Inv(s) && Enabled(s, step) && (step.ThreadEnter? || step.ThreadExit?)
    ensures Work(After(s, step)) == Work(s) - 1
  {
    var s' := After(s, step);
    assert s.thread == Some(step.tid) && !s'.faulted;
    assert s'.callers == s.callers;
    assert forall d :: Joined(s', d) <==> Joined(s, d);
  }

  lemma CallerGone(s: State, c: Caller)
    requires c in s.callers
    ensures |s.callers - {c}| == |s.callers| - 1
  {
    assert s.callers.Keys == (s.callers - {c}).Keys + {c};
  }

  lemma JoinIsWork(s: State, c: Caller)
    requires Inv(s) && Enabled(s, Join(c))
    ensures Work(After(s, Join(c))) == Work(s) - 1
  {
    var s' := After(s, Join(c));
    assert Closing(s, c) && !Joined(s, c);
    assert forall d :: Joined(s, d) ==> Closing(s, d);
    assert Credit(s) == 0;
    assert Joined(s', c);
    assert s'.callers.Keys == s.callers.Keys;
  }

  lemma WorkIsNonNegative(s: State)
    ensures Work(s) >= 0
  {
    if c :| Joined(s, c) {
      assert c in s.callers.Keys;
    }
  }

  /** While any call is in progress some internal step can be taken: no deadlock. */
  lemma SomeStepIsEnabled(s: State, c: Caller) returns (step: Step)
    requires Inv(s) && c in s.callers
    ensures Internal(step) && Enabled(s, step)
  {
    match s.callers[c]
    case WaitingForStart(t) =>
      step := if s.threads[t] == Spawned then ThreadEnter(t) else StartUpReturn(c);
    case Joining(t) =>
      assert Closing(s, c);
      step := if s.threads[t] == Looping then ThreadExit(t) else Join(c);
    case Deleting(t) =>
      step := ShutDownDelete(c);
  }

  /** With no new calls, every interleaving of the rest takes at most `Work` steps, and
      one that can go no further has let every caller return. */
  lemma {:induction false} EveryCallFinishes(s: State, run: seq<State>, steps: seq<Step>)
    requires Inv(s) && |run| == |steps| + 1 && run[0] == s
    requires forall i :: 0 <= i < |steps| ==>
      Internal(steps[i]) && Takes(run[i], steps[i], run[i + 1])
    ensures |steps| <= Work(s) && Inv(run[|steps|])
    ensures (forall step :: Internal(step) ==> !Enabled(run[|steps|], step)) ==> run[|steps|].callers == map[]
    decreases |steps|
  {
    WorkIsNonNegative(s);
    if steps == [] {
      if c :| c in s.callers {
        var step := SomeStepIsEnabled(s, c);
      } else {
        assert s.callers == map[];
      }
    } else {
      assert Takes(s, steps[0], run[1]);
      InternalStepsAreWork(s, steps[0]);
      StepKeepsInv(s, steps[0]);
      EveryCallFinishes(run[1], run[1..], steps[1..]);
    }
  }

  // ----- what StartUp and ShutDown promise their callers -----

  /** Another StartUp has created the thread and still waits for it. */
  ghost predicate ComingUp(s: State) {
    && s.thread.Some? && s.thread.value in s.threads && s.threads[s.thread.value] == Spawned
    && exists c :: Awaits(s, c, s.thread.value)
  }

  /** A ShutDown is in progress and the thread has left its loop. */
  ghost predicate GoingDown(s: State) {
    && s.thread.Some? && s.thread.value in s.threads && s.threads[s.thread.value] == Exited
    && exists c :: Closing(s, c)
  }

  /** A StartUp that returns at once breaks its promise exactly while another StartUp is
      still waiting or a ShutDown has seen the thread out; with no other call in progress
      it keeps it. */
  lemma StartUpPromise(s: State, c: Caller, t: Tid)
    requires Inv(s) && Enabled(s, StartUpLock(c, t))
    ensures var s' := After(s, StartUpLock(c, t));
      && (c !in s'.callers <==> s.thread.Some?)
      && (c !in s'.callers ==> (!IsRunning(s') <==> ComingUp(s) || GoingDown(s)))
      && (c !in s'.callers && s.callers == map[] ==> IsRunning(s'))
  {
  }

  ghost predicate ExitsBetween(steps: seq<Step>, t: Tid, i: int, j: int)
    requires j <= |steps|
  {
    exists k :: 0 <= i < k < j && steps[k] == ThreadExit(t)
  }

  /** The call that step `i` began with a new thread `t` is still waiting before step `j`. */
  ghost predicate WaitsFrom(run: seq<State>, steps: seq<Step>, i: nat, j: nat, c: Caller, t: Tid) {
    && IsRun(run, steps) && i < j <= |steps| && steps[i] == StartUpLock(c, t) && c in run[i + 1].callers
    && forall k :: i < k < j ==> steps[k] != StartUpReturn(c)
  }

  lemma {:induction false} WaitedThread(run: seq<State>, steps: seq<Step>, i: nat, j: nat, c: Caller, t: Tid)
    requires WaitsFrom(run, steps, i, j, c, t)
    ensures Awaits(run[j], c, t) && t in run[j].threads
    ensures run[j].threads[t] == Exited <==> ExitsBetween(steps, t, i, j)
    decreases j
  {
    if j == i + 1 {
      assert Takes(run[i], steps[i], run[j]);
    } else {
      WaitedThread(run, steps, i, j - 1, c, t);
      RunKeepsInv(run, steps, j - 1);
      RunKeepsInv(run, steps, j);
      WaitedStep(run[j - 1], steps[j - 1], run[j], c, t);
      assert ExitsBetween(steps, t, i, j) <==> ExitsBetween(steps, t, i, j - 1) || steps[j - 1] == ThreadExit(t);
    }
  }

  lemma WaitedStep(s: State, step: Step, s': State, c: Caller, t: Tid)
    requires Takes(s, step, s') && !s'.faulted && Awaits(s, c, t) && t in s.threads && step != StartUpReturn(c)
    ensures Awaits(s', c, t) && t in s'.threads
    ensures s'.threads[t] == Exited <==> s.threads[t] == Exited || step == ThreadExit(t)
  {
  }

  /** A StartUp that waited returns with its own thread running exactly when that thread
      has not left its loop since the call began. */
  lemma StartUpWaitPromise(run: seq<State>, steps: seq<Step>, i: nat, j: nat, c: Caller, t: Tid)
    requires WaitsFrom(run, steps, i, j, c, t) && j < |steps| && steps[j] == StartUpReturn(c)
    ensures IsRunning(run[j + 1]) && run[j + 1].threadId == Some(t) <==> !ExitsBetween(steps, t, i, j)
  {
    assert Takes(run[j], steps[j], run[j + 1]);
    RunKeepsInv(run, steps, j);
    WaitedThread(run, steps, i, j, c, t);
  }

  /** A ShutDown that returns at once leaves the loop running exactly when another
      ShutDown has not seen it out yet, and leaves a thread exactly when one is coming up
      or being shut down; one that does not return at once ends with the thread joined,
      deleted and cleared. */
  lemma ShutDownPromise(s: State, c: Caller)
    requires Inv(s)
    ensures Enabled(s, ShutDownLock(c)) ==>
      var s' := After(s, ShutDownLock(c));
      c !in s'.callers ==>
        && (IsRunning(s') <==> s.shuttingDown && s.messageLoop.Some?)
        && (CanPost(s') <==> s.shuttingDown && s.messageLoop.Some?)
        && (s'.thread.Some? <==> ComingUp(s) || exists d :: Closing(s, d))
        && (s.callers == map[] ==> s'.thread.None?)
    ensures Enabled(s, ShutDownDelete(c)) ==>
      var s' := After(s, ShutDownDelete(c));
      s'.thread.None? && !IsRunning(s') && s.thread.Some? && s.thread.value in s'.joined && s.thread.value in s'.deleted
  {
    if Enabled(s, ShutDownDelete(c)) {
      assert Closing(s, c) && Joined(s, c);
    }
  }

  /** A second StartUp can return before anything runs, and a ShutDown in that window
      returns with the thread still coming up. */
  lemma StartUpCanReturnTooEarly(a: Caller, b: Caller, c: Caller, t: Tid, u: Tid)
    requires a != b && b != c && c != a && t != u
    ensures var steps := [StartUpLock(a, t), StartUpLock(b, u), ShutDownLock(c), ThreadEnter(t)];
      exists run: seq<State> ::
        && IsRun(run, steps)
        && b !in run[2].callers && !IsRunning(run[2])
        && c !in run[3].callers && run[3].thread.Some? && IsRunning(run[4])
  {
    var steps := [StartUpLock(a, t), StartUpLock(b, u), ShutDownLock(c), ThreadEnter(t)];
    var s1 := After(INITIAL, steps[0]);
    var s4 := After(s1, steps[3]);
    var run := [INITIAL, s1, s1, s1, s4];
    assert IsRun(run, steps);
  }

  /** A StartUp that waits can return after its thread has been shut down again. */
  lemma StartUpCanReturnTooLate(a: Caller, b: Caller, t: Tid)
    requires a != b
    ensures var steps := [StartUpLock(a, t), ThreadEnter(t), ShutDownLock(b), ThreadExit(t), StartUpReturn(a)];
      exists run: seq<State> :: IsRun(run, steps) && a in run[1].callers && !IsRunning(run[5])
  {
    var steps := [StartUpLock(a, t), ThreadEnter(t), ShutDownLock(b), ThreadExit(t), StartUpReturn(a)];
    var s1 := After(INITIAL, steps[0]);
    var s2 := After(s1, steps[1]);
    var s3 := After(s2, steps[2]);
    var s4 := After(s3, steps[3]);
    var run := [INITIAL, s1, s2, s3, s4, After(s4, steps[4])];
    assert IsRun(run, steps);
  }

  /** A second ShutDown can return while the thread is still running. */
  lemma ShutDownCanReturnTooEarly(a: Caller, b: Caller, c: Caller, t: Tid)
    requires a != b && b != c && c != a
    ensures var steps := [StartUpLock(a, t), ThreadEnter(t), StartUpReturn(a), ShutDownLock(b), ShutDownLock(c)];
      exists run: seq<State> :: IsRun(run, steps) && c !in run[5].callers && IsRunning(run[5]) && CanPost(run[5])
  {
    var steps := [StartUpLock(a, t), ThreadEnter(t), StartUpReturn(a), ShutDownLock(b), ShutDownLock(c)];
    var s1 := After(INITIAL, steps[0]);
    var s2 := After(s1, steps[1]);
    var s3 := After(s2, steps[2]);
    var s4 := After(s3, steps[3]);
    var run := [INITIAL, s1, s2, s3, s4, s4];
    assert IsRun(run, steps);
  }
}
