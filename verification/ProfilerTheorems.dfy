/** What the profiler switch promises over every run of any number of threads. */
module ProfilerTheorems {
  import opened ProfilerSwitch

  /** The dynamic loader is tried at most once, and only after annotation was requested. */
  lemma LoadedAtMostOnce(run: seq<State>, i: nat)
    requires IsRun(run) && i < |run|
    ensures run[i].attempts <= 1
    ensures run[i].attempts == 1 ==> Asked(run[i].log)
  {
    RunInv(run, i);
  }

  /** The override is always the latest write, and the environment default is only ever the very first one. */
  lemma OverrideIsLatest(run: seq<State>, i: nat)
    requires IsRun(run) && i < |run|
    ensures run[i].override == Latest(run[i].log)
    ensures forall k | 0 <= k < |run[i].log| && run[i].log[k].Latched? :: k == 0
  {
    RunInv(run, i);
  }

  /** With the mutex free and the shim loaded, its flag is the latest override; there always is one. */
  lemma SwitchesAgree(run: seq<State>, i: nat)
    requires IsRun(run) && i < |run|
    requires run[i].mutex == Free && run[i].loader == Loaded
    ensures run[i].log != [] && run[i].shim == run[i].log[|run[i].log| - 1].value
  {
    RunInv(run, i);
  }

  /**
    While a thread can reach the shim, the switches differ only if some thread is between its store and its forward.
   */
  lemma DisagreeOnlyInsideForward(run: seq<State>, i: nat)
    requires IsRun(run) && i < |run|
    requires run[i].cached && AsInt(run[i].shim) != run[i].override
    ensures run[i].mutex.Held? && run[i].mutex.t < |run[i].threads|
    ensures var p := run[i].threads[run[i].mutex.t]; p.LoadForward? || p.Forward? || p.SetForward?
  {
    RunInv(run, i);
  }

  /** Mutual exclusion: at most one thread is inside the loader's critical section. */
  lemma OneInside(run: seq<State>, i: nat, t: nat, u: nat)
    requires IsRun(run) && i < |run| && t < |run[i].threads| && u < |run[i].threads|
    requires Holding(run[i].threads[t]) && Holding(run[i].threads[u])
    ensures t == u
  {
    RunInv(run, i);
  }

  /** A thread that is about to emit always has a fully loaded shim, visible to everyone. */
  lemma EmittersHaveTheShim(run: seq<State>, i: nat, t: nat)
    requires IsRun(run) && i < |run| && t < |run[i].threads|
    requires run[i].threads[t].Emit?
    ensures run[i].loader == Loaded && run[i].cached
  {
    RunInv(run, i);
    assert ThreadOk(run[i], t);
  }

  /**
    Ranges stay balanced however the switch is flipped: between calls the shim has exactly as many ranges open for a
    thread as the thread has pushed successfully and not popped, and every pop finds the shim.
   */
  lemma RangesBalance(run: seq<State>, i: nat, t: nat)
    requires IsRun(run) && i < |run| && t < |run[i].threads|
    ensures |run[i].depth| == |run[i].open| == |run[i].threads|
    ensures run[i].threads[t].Idle? ==> run[i].depth[t] == run[i].open[t]
    ensures run[i].threads[t].PopApi? ==> run[i].cached && run[i].depth[t] == run[i].open[t] + 1
  {
    RunInv(run, i);
    assert ThreadOk(run[i], t);
  }

  // ---- what never changes back --------------------------------------------------------------------

  /** The load has ended: it succeeded, or it failed and no thread is still trying. */
  predicate Settled(s: State) {
    Shaped(s) && (s.loader == Loaded || (s.loader == Unavailable && !Inside(s).Resolve? && !Inside(s).StoreState?))
  }

  /** What a step may do to the outcome, the cached pointer and the history. */
  predicate Progress(s: State, s': State) {
    && (Settled(s) ==> Settled(s') && s'.loader == s.loader)
    && (s.cached ==> s'.cached)
    && s.log <= s'.log
  }

  lemma GateProgress(s: State, t: nat, choice: bool)
    requires Inv(s) && t < |s.threads| && InGate(s.threads[t])
    ensures Progress(s, Gate(s, t, choice))
  {
    hide Asked, MutexOk, ThreadsOk, OverrideOk, LoaderOk;
    AtThread(s, t);
  }

  lemma SetProgress(s: State, t: nat)
    requires Inv(s) && t < |s.threads| && InSet(s.threads[t])
    requires s.threads[t].SetLock? ==> s.mutex.Free?
    ensures Progress(s, Set(s, t))
  {
    hide Asked, MutexOk, ThreadsOk, OverrideOk, LoaderOk;
    AtThread(s, t);
  }

  lemma CallProgress(s: State, t: nat, choice: bool)
    requires Inv(s) && t < |s.threads| && InCall(s.threads[t])
    ensures Progress(s, Call(s, t, choice))
  {
    hide Asked, MutexOk, ThreadsOk, OverrideOk, LoaderOk;
    AtThread(s, t);
  }

  lemma AttemptProgress(s: State, t: nat, choice: bool, flag: bool)
    requires Inv(s) && t < |s.threads|
    requires s.threads[t].Lock? || (Holding(s.threads[t]) && !InSet(s.threads[t]))
    requires s.threads[t].Lock? ==> s.mutex.Free?
    ensures Progress(s, Attempt(s, t, choice, flag))
  {
    hide Asked, MutexOk, ThreadsOk, OverrideOk;
    AtThread(s, t);
  }

  lemma SettledStep(s: State, a: Action)
    requires Inv(s) && Enabled(s, a)
    ensures Progress(s, Apply(s, a))
  {
    hide Asked, MutexOk, ThreadsOk, OverrideOk, LoaderOk, Gate, Set, Call, Attempt;
    match a
    case Step(t, choice, flag) =>
      if InGate(s.threads[t]) {
        GateProgress(s, t, choice);
      } else if InSet(s.threads[t]) {
        SetProgress(s, t);
      } else if InCall(s.threads[t]) {
        CallProgress(s, t, choice);
      } else {
        AttemptProgress(s, t, choice, flag);
      }
    case _ => AtThread(s, a.t);
  }

  lemma SettledNext(s: State, s': State)
    requires Inv(s) && Next(s, s')
    ensures Progress(s, s')
  {
    hide Inv, Settled;
    var a :| Enabled(s, a) && s' == Apply(s, a);
    SettledStep(s, a);
  }

  /** Both outcomes of the load are terminal, the cached pointer is never withdrawn, no write is forgotten. */
  lemma {:induction false} OutcomesAreTerminal(run: seq<State>, i: nat, j: nat)
    requires IsRun(run) && i <= j < |run|
    ensures Progress(run[i], run[j])
    decreases j
  {
    hide Inv, Settled, Next;
    if i == j {
    } else {
      OutcomesAreTerminal(run, i, j - 1);
      RunInv(run, j - 1);
      RunStep(run, j - 1);
      SettledNext(run[j - 1], run[j]);
    }
  }

  /** With the mutex free, a load that was attempted has ended. */
  lemma FreeIsSettled(run: seq<State>, i: nat)
    requires IsRun(run) && i < |run| && run[i].mutex == Free && run[i].attempts > 0
    ensures Settled(run[i])
  {
    RunInv(run, i);
  }

  /** Once set, the override is never unset again. */
  lemma OverrideStaysSet(run: seq<State>, i: nat, j: nat)
    requires IsRun(run) && i <= j < |run| && run[i].override != -1
    ensures run[j].override != -1
  {
    OutcomesAreTerminal(run, i, j);
    OverrideIsLatest(run, i);
    OverrideIsLatest(run, j);
  }

  // ---- which calls emit -----------------------------------------------------------------------------

  /** A step moves only its own thread. */
  lemma OneThreadMoves(s: State, a: Action)
    requires Inv(s) && Enabled(s, a)
    ensures var s' := Apply(s, a); |s'.threads| == |s.threads| && s'.threads == s.threads[a.t := s'.threads[a.t]]
  {
    hide Asked, MutexOk, ThreadsOk, OverrideOk, LoaderOk, Gate, Set, Call, Attempt;
    AtThread(s, a.t);
    match a
    case Step(t, choice, flag) =>
      if InGate(s.threads[t]) {
        GateIsLatching(s, t, choice);
      } else if InSet(s.threads[t]) {
        SetMoves(s, t);
      } else if InCall(s.threads[t]) {
        CallMoves(s, t, choice);
      } else {
        AttemptMoves(s, t, choice, flag);
      }
    case _ =>
  }

  /** The thread is in a call that emits, and has not come to the emission. */
  predicate Emitting(p: Thread) {
    InGate(p) || (PastGate(p) && !p.Emit?)
  }

  lemma GateMove(s: State, t: nat, choice: bool)
    requires OverrideOk(s) && t < |s.threads| && InGate(s.threads[t])
    ensures var s' := Gate(s, t, choice);
            InGate(s'.threads[t]) || s'.threads[t] == if Latest(s'.log) == 1 then LoadApi(s.threads[t].push) else Idle
    ensures var s' := Gate(s, t, choice); !InGate(s'.threads[t]) ==> Latest(s'.log) != -1
  {
  }

  lemma AttemptMove(s: State, t: nat, choice: bool, flag: bool)
    requires Inv(s) && t < |s.threads| && InAttempt(s, s.threads[t])
    ensures var s' := Attempt(s, t, choice, flag);
            PastGate(s'.threads[t]) || (s'.threads[t].Idle? && s'.loader == Unavailable && s'.mutex == Free)
  {
    hide Asked, ThreadsOk, OverrideOk, MutexOk;
    AtThread(s, t);
  }

  /** A call leaves the gate exactly as the switch says, and gives up behind it only when the shim could not load. */
  lemma EmitMoves(s: State, s': State, t: nat)
    requires Inv(s) && Next(s, s') && t < |s.threads| && Emitting(s.threads[t])
    ensures t < |s'.threads|
    ensures InGate(s.threads[t]) && !InGate(s'.threads[t]) ==>
              if Latest(s'.log) == 1 then PastGate(s'.threads[t]) else s'.threads[t].Idle? && Latest(s'.log) == 0
    ensures !InGate(s.threads[t]) && !PastGate(s'.threads[t]) ==>
              s'.threads[t].Idle? && s'.loader == Unavailable && Settled(s')
  {
    hide Gate, Attempt, Set, Asked, MutexOk, ThreadsOk, LoaderOk;
    var a :| Enabled(s, a) && s' == Apply(s, a);
    OneThreadMoves(s, a);
    if a.t != t {
    } else if InGate(s.threads[t]) {
      GateMove(s, t, a.choice);
    } else if !s.threads[t].LoadApi? {
      AttemptMove(s, t, a.choice, a.flag);
      StepKeeps(s, a);
    }
  }

  /**
    A call that is over without having emitted gave up for a reason: at some time during the call the latest write was
    off, or the load had failed for good. So while the switch is on and the shim loads, every call emits.
   */
  lemma {:induction false} SilentForAReason(run: seq<State>, i: nat, j: nat, t: nat) returns (m: nat)
    requires IsRun(run) && i < j < |run| && t < |run[i].threads| && Emitting(run[i].threads[t])
    requires forall n | i <= n <= j :: t < |run[n].threads| && !run[n].threads[t].Emit?
    requires run[j].threads[t].Idle?
    ensures i < m <= j && (Latest(run[m].log) == 0 || (run[m].loader == Unavailable && Settled(run[m])))
    decreases j - i
  {
    hide Inv, Next, Settled, Latest;
    RunInv(run, i);
    RunStep(run, i);
    EmitMoves(run[i], run[i + 1], t);
    m := i + 1;
    if Emitting(run[i + 1].threads[t]) {
      m := SilentForAReason(run, i + 1, j, t);
    }
  }

  /** And a call emits only if the latest write was on when it passed the gate. */
  lemma {:induction false} EmitsOnlyWhenOn(run: seq<State>, i: nat, j: nat, t: nat) returns (m: nat)
    requires IsRun(run) && i < j < |run| && t < |run[i].threads| && InGate(run[i].threads[t])
    requires forall n | i <= n <= j :: t < |run[n].threads| && !run[n].threads[t].Idle?
    requires run[j].threads[t].Emit?
    ensures i < m <= j && Latest(run[m].log) == 1 && run[j].cached && run[j].loader == Loaded
    decreases j - i
  {
    hide Inv, Next, Settled, Latest, ThreadsOk;
    EmittersHaveTheShim(run, j, t);
    RunInv(run, i);
    RunStep(run, i);
    EmitMoves(run[i], run[i + 1], t);
    m := i + 1;
    if InGate(run[i + 1].threads[t]) {
      m := EmitsOnlyWhenOn(run, i + 1, j, t);
    }
  }

  /** Undisturbed, a first call latches what the environment says, and goes on exactly if that is on. */
  lemma LatchesTheEnvironment(s: State, t: nat, env: bool, choice: bool)
    requires t < |s.threads| && s.threads[t].LoadOverride? && s.override == -1
    ensures var s1 := Gate(s, t, choice);
            InGate(s1.threads[t]) &&
            var s2 := Gate(s1, t, env);
            InGate(s2.threads[t]) &&
            var s3 := Gate(s2, t, choice);
            s3.log == s.log + [Latched(env)] && s3.override == AsInt(env) && (s3.threads[t].Idle? <==> !env)
  {
  }

  // ---- what a call does to the open ranges ------------------------------------------------------------

  /** An emission ends the call. It opens a range for its thread exactly if it is a push the shim accepts. */
  lemma EmitEffect(run: seq<State>, i: nat, t: nat, accepted: bool, flag: bool)
    requires IsRun(run) && i < |run| && t < |run[i].threads| && run[i].threads[t].Emit?
    ensures Enabled(run[i], Step(t, accepted, flag))
    ensures var s, s' := run[i], Apply(run[i], Step(t, accepted, flag));
            var more := if s.threads[t].push && accepted then 1 else 0;
            && s'.threads == s.threads[t := Idle]
            && s'.depth == s.depth[t := s.depth[t] + more] && s'.open == s.open[t := s.open[t] + more]
  {
    hide Asked, MutexOk, OverrideOk, LoaderOk;
    RunInv(run, i);
    AtThread(run[i], t);
  }

  /** A pop, undisturbed, closes exactly one range of its thread, whatever the switch says. */
  lemma PopCloses(run: seq<State>, i: nat, t: nat, choice: bool, flag: bool)
    requires IsRun(run) && i < |run| && t < |run[i].threads| == |run[i].open| == |run[i].depth|
    requires run[i].threads[t].Idle? && run[i].open[t] > 0
    ensures var s := run[i];
            Enabled(s, CallPop(t)) &&
            var s1 := Apply(s, CallPop(t));
            Enabled(s1, Step(t, choice, flag)) &&
            var s2 := Apply(s1, Step(t, choice, flag));
            Enabled(s2, Step(t, choice, flag)) &&
            var s3 := Apply(s2, Step(t, choice, flag));
            s.depth[t] > 0 && s3 == s.(depth := s.depth[t := s.depth[t] - 1], open := s.open[t := s.open[t] - 1])
  {
    hide Asked, MutexOk, OverrideOk, LoaderOk;
    RunInv(run, i);
    AtThread(run[i], t);
    var s := run[i];
    var s1 := Apply(s, CallPop(t));
    var s2 := Apply(s1, Step(t, choice, flag));
    var s3 := Apply(s2, Step(t, choice, flag));
    assert s3.threads == s.threads;
  }

  // ---- the pointer is published before the forward --------------------------------------------------

  lemma Extend(run: seq<State>, a: Action, s: State) returns (longer: seq<State>)
    requires IsRun(run) && Enabled(run[|run| - 1], a) && Apply(run[|run| - 1], a) == s
    ensures IsRun(longer) && longer[|longer| - 1] == s
  {
    hide Init, Enabled, Apply;
    longer := run + [s];
    assert Next(run[|run| - 1], longer[|run|]);
    forall i {:trigger longer[i + 1]} | 0 <= i < |longer| - 1 ensures Next(longer[i], longer[i + 1]) {
      if i < |run| - 1 {
        RunStep(run, i);
      }
    }
  }

  /** Two threads; `p` and `q` are where they are. */
  function Before(p: Thread, q: Thread, mutex: Holder, log: seq<Write>): (s: State) {
    State(Latest(log), mutex, NotAttempted, false, true, [0, 0], [p, q], log, 0, [0, 0])
  }

  /** The same while the first thread loads the shim, after `setEnabled(true)`. */
  function During(p: Thread, q: Thread, loader: Loader, cached: bool, shim: bool): (s: State) {
    State(1, Held(0), loader, cached, shim, [0, 0], [p, q], [Explicit(true)], 1, [0, 0])
  }

  lemma SwitchesOn() returns (run: seq<State>)
    ensures IsRun(run) && run[|run| - 1] == Before(Idle, Idle, Free, [Explicit(true)])
  {
    run := [Before(Idle, Idle, Free, [])];
    run := Extend(run, CallSet(0, true), Before(SetLock(true), Idle, Free, []));
    run := Extend(run, Step(0, true, true), Before(SetStore(true), Idle, Held(0), []));
    run := Extend(run, Step(0, true, true), Before(SetUnlock, Idle, Held(0), [Explicit(true)]));
    run := Extend(run, Step(0, true, true), Before(Idle, Idle, Free, [Explicit(true)]));
  }

  lemma ReachesLoader() returns (run: seq<State>)
    ensures IsRun(run) && run[|run| - 1] == During(Resolve(true), Idle, Unavailable, false, true)
  {
    var on := [Explicit(true)];
    run := SwitchesOn();
    run := Extend(run, CallEmit(0, true), Before(LoadOverride(true), Idle, Free, on));
    run := Extend(run, Step(0, true, true), Before(LoadApi(true), Idle, Free, on));
    run := Extend(run, Step(0, true, true), Before(Lock(true), Idle, Free, on));
    run := Extend(run, Step(0, true, true), Before(CheckState(true), Idle, Held(0), on));
    run := Extend(run, Step(0, true, true), During(Resolve(true), Idle, Unavailable, false, true));
  }

  lemma Publishes() returns (run: seq<State>)
    ensures IsRun(run) && run[|run| - 1] == During(LoadForward(true), Idle, Loaded, true, false)
  {
    run := ReachesLoader();
    run := Extend(run, Step(0, true, false), During(StoreState(true), Idle, Unavailable, false, false));
    run := Extend(run, Step(0, true, true), During(StoreApi(true), Idle, Loaded, false, false));
    run := Extend(run, Step(0, true, true), During(LoadForward(true), Idle, Loaded, true, false));
  }

  /**
    The pointer is published before the override is forwarded: in some run, after `setEnabled(true)`, another thread
    already emits through a shim whose own flag is still at its default, off.
   */
  lemma PublishedBeforeForward() returns (run: seq<State>)
    ensures IsRun(run)
    ensures var s := run[|run| - 1];
            |s.threads| == 2 && s.threads[1].Emit? && s.log == [Explicit(true)] && s.override == 1 && !s.shim
  {
    run := Publishes();
    run := Extend(run, CallEmit(1, true), During(LoadForward(true), LoadOverride(true), Loaded, true, false));
    run := Extend(run, Step(1, true, true), During(LoadForward(true), LoadApi(true), Loaded, true, false));
    run := Extend(run, Step(1, true, true), During(LoadForward(true), Emit(true), Loaded, true, false));
  }
}
