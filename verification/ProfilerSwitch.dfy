/**
  The external profiler's master switch and its lazily loaded shim, as interleaved atomic steps of any number of
  threads that emit (`rangePush`, `mark`, `isEnabled`), pop ranges, and call `setEnabled`, under sequential consistency.
 */
module ProfilerSwitch {
  datatype Loader = NotAttempted | Loaded | Unavailable

  /** A write to the override: an explicit `setEnabled`, or the environment default latched on first use. */
  datatype Write = Explicit(value: bool) | Latched(value: bool)

  /** Where a thread is. `push` tells whether the call is a range push. */
  datatype Thread =
    | Idle
    | LoadOverride(push: bool)
    | ReadEnvironment(push: bool)
    | Latch(push: bool, env: bool)
    | LoadApi(push: bool)
    | Lock(push: bool)
    | CheckState(push: bool)
    | Resolve(push: bool)
    | StoreState(push: bool)
    | StoreApi(push: bool)
    | LoadForward(push: bool)
    | Forward(push: bool, seen: int)
    | Unlock(push: bool, api: bool)
    | Emit(push: bool)
    | SetLock(value: bool)
    | SetStore(value: bool)
    | SetForward(value: bool)
    | SetUnlock
    | PopApi
    | PopCall

  datatype Holder = Free | Held(t: nat)

  /**
    The shared variables and thread positions; `shim` is the loaded library's own flag and `depth` the ranges it has
    open for each thread. History: the writes to the override, the load attempts, and for each thread the
    pushes that returned true and are not yet popped.
   */
  datatype State = State(
    override: int, mutex: Holder, loader: Loader, cached: bool, shim: bool, depth: seq<nat>, threads: seq<Thread>,
    log: seq<Write>, attempts: nat, open: seq<nat>)

  /** `choice` and `flag` are what the step learns from outside: the environment, the dynamic loader, the shim. */
  datatype Action =
    | CallEmit(t: nat, push: bool)
    | CallPop(t: nat)
    | CallSet(t: nat, value: bool)
    | Step(t: nat, choice: bool, flag: bool)

  function AsInt(b: bool): (r: int) {
    if b then 1 else 0
  }

  ghost predicate Init(s: State) {
    && s.override == -1 && s.mutex == Free && s.loader == NotAttempted && !s.cached
    && |s.depth| == |s.open| == |s.threads|
    && (forall t | 0 <= t < |s.threads| :: s.threads[t] == Idle && s.depth[t] == s.open[t] == 0)
    && s.log == [] && s.attempts == 0
  }

  /** Callers pop only ranges whose push returned true; locking waits for the mutex. */
  predicate Enabled(s: State, a: Action) {
    && a.t < |s.threads| == |s.depth| == |s.open|
    && match a
       case CallEmit(t, _) => s.threads[t].Idle?
       case CallSet(t, _) => s.threads[t].Idle?
       case CallPop(t) => s.threads[t].Idle? && s.open[t] > 0
       case Step(t, _, _) => !s.threads[t].Idle? && (s.threads[t].Lock? || s.threads[t].SetLock? ==> s.mutex.Free?)
  }

  function At(s: State, t: nat, p: Thread): (s': State)
    requires t < |s.threads|
  {
    s.(threads := s.threads[t := p])
  }

  function WriteOverride(s: State, w: Write): (s': State) {
    s.(override := AsInt(w.value), log := s.log + [w])
  }

  /** `annotationRequestedNow`. */
  function Gate(s: State, t: nat, choice: bool): (s': State)
    requires t < |s.threads|
    requires s.threads[t].LoadOverride? || s.threads[t].ReadEnvironment? || s.threads[t].Latch?
  {
    var push := s.threads[t].push;
    match s.threads[t]
    case LoadOverride(_) =>
      At(s, t, if s.override == -1 then ReadEnvironment(push) else if s.override == 1 then LoadApi(push) else Idle)
    case ReadEnvironment(_) => At(s, t, Latch(push, choice))
    case Latch(_, env) =>
      var s' := if s.override == -1 then WriteOverride(s, Latched(env)) else s;
      At(s', t, if s'.override == 1 then LoadApi(push) else Idle)
  }

  /** `attemptLoad`, from taking the mutex to releasing it. */
  function Attempt(s: State, t: nat, choice: bool, flag: bool): (s': State)
    requires t < |s.threads|
  {
    match s.threads[t]
    case Lock(push) => At(s, t, CheckState(push)).(mutex := Held(t))
    case CheckState(push) =>
      (match s.loader
       case Loaded => At(s, t, Unlock(push, true))
       case Unavailable => At(s, t, Unlock(push, false))
       case NotAttempted => At(s, t, Resolve(push)).(loader := Unavailable, attempts := s.attempts + 1))
    case Resolve(push) => if choice then At(s, t, StoreState(push)).(shim := flag) else At(s, t, Unlock(push, false))
    case StoreState(push) => At(s, t, StoreApi(push)).(loader := Loaded)
    case StoreApi(push) => At(s, t, LoadForward(push)).(cached := true)
    case LoadForward(push) => At(s, t, Forward(push, s.override))
    case Forward(push, v) => At(s, t, Unlock(push, true)).(shim := if v != -1 then v == 1 else s.shim)
    case Unlock(push, api) => At(s, t, if api then Emit(push) else Idle).(mutex := Free)
    case _ => s
  }

  /** `sinkSetEnabled`, store and forward under the mutex. */
  function Set(s: State, t: nat): (s': State)
    requires t < |s.threads|
  {
    match s.threads[t]
    case SetLock(b) => At(s, t, SetStore(b)).(mutex := Held(t))
    case SetStore(b) => At(WriteOverride(s, Explicit(b)), t, if s.loader == Loaded then SetForward(b) else SetUnlock)
    case SetForward(b) => At(s, t, SetUnlock).(shim := b)
    case SetUnlock => At(s, t, Idle).(mutex := Free)
    case _ => s
  }

  /** The remaining steps: reading the cached pointer, calling into the shim. */
  function Call(s: State, t: nat, choice: bool): (s': State)
    requires t < |s.threads| == |s.depth| == |s.open|
  {
    match s.threads[t]
    case LoadApi(push) => At(s, t, if s.cached then Emit(push) else Lock(push))
    case Emit(push) =>
      if push && choice then At(s, t, Idle).(depth := s.depth[t := s.depth[t] + 1], open := s.open[t := s.open[t] + 1])
      else At(s, t, Idle)
    case PopApi => At(s, t, if s.cached then PopCall else Idle)
    case PopCall => At(s, t, Idle).(depth := s.depth[t := if s.depth[t] > 0 then s.depth[t] - 1 else 0])
    case _ => s
  }

  predicate InGate(p: Thread) {
    p.LoadOverride? || p.ReadEnvironment? || p.Latch?
  }

  predicate InSet(p: Thread) {
    p.SetLock? || p.SetStore? || p.SetForward? || p.SetUnlock?
  }

  predicate InCall(p: Thread) {
    p.LoadApi? || p.Emit? || p.PopApi? || p.PopCall?
  }

  function Apply(s: State, a: Action): (s': State)
    requires Enabled(s, a)
  {
    match a
    case CallEmit(t, push) => At(s, t, LoadOverride(push))
    case CallPop(t) => At(s, t, PopApi).(open := s.open[t := s.open[t] - 1])
    case CallSet(t, b) => At(s, t, SetLock(b))
    case Step(t, choice, flag) =>
      if InGate(s.threads[t]) then Gate(s, t, choice)
      else if InSet(s.threads[t]) then Set(s, t)
      else if InCall(s.threads[t]) then Call(s, t, choice)
      else Attempt(s, t, choice, flag)
  }

  ghost predicate Next(s: State, s': State) {
    exists a :: Enabled(s, a) && s' == Apply(s, a)
  }

  ghost predicate IsRun(run: seq<State>) {
    && |run| > 0 && Init(run[0])
    && forall i {:trigger run[i + 1]} | 0 <= i < |run| - 1 :: Next(run[i], run[i + 1])
  }

  // ---- the invariant ----------------------------------------------------------------------------

  predicate Holding(p: Thread) {
    || p.CheckState? || p.Resolve? || p.StoreState? || p.StoreApi? || p.LoadForward? || p.Forward? || p.Unlock?
    || p.SetStore? || p.SetForward? || p.SetUnlock?
  }

  predicate Shaped(s: State) {
    |s.threads| == |s.depth| == |s.open| && (s.mutex.Held? ==> s.mutex.t < |s.threads|)
  }

  /** The position of the thread in the critical section. */
  function Inside(s: State): (p: Thread)
    requires Shaped(s)
  {
    if s.mutex.Held? then s.threads[s.mutex.t] else Idle
  }

  predicate MutexOk(s: State) {
    forall t | 0 <= t < |s.threads| :: Holding(s.threads[t]) <==> s.mutex == Held(t)
  }

  /** What the override should be after these writes. */
  function Latest(log: seq<Write>): (v: int) {
    if log == [] then -1 else AsInt(log[|log| - 1].value)
  }

  /** The override is the last write, and the environment default was latched, if ever, before every explicit write. */
  predicate OverrideOk(s: State) {
    s.override == Latest(s.log) && forall i | 1 <= i < |s.log| :: s.log[i].Explicit?
  }

  /** Annotation was requested at some time. */
  predicate Asked(log: seq<Write>) {
    exists w | w in log :: w.value
  }

  /** The thread passed the gate in its current call. */
  predicate PastGate(p: Thread) {
    p.LoadApi? || p.Lock? || p.Emit? || (Holding(p) && !InSet(p))
  }

  /** The switches may differ only inside these windows of the critical section. */
  predicate Forwarding(p: Thread) {
    p.StoreApi? || p.LoadForward? || p.Forward? || p.SetForward?
  }

  predicate LoaderOk(s: State)
    requires Shaped(s)
  {
    var p := Inside(s);
    && s.attempts == (if s.loader == NotAttempted then 0 else 1)
    && (s.attempts > 0 ==> Asked(s.log))
    && (s.cached ==> s.loader == Loaded)
    && (s.loader == Loaded ==> s.cached || p.StoreApi?)
    && (p.Resolve? || p.StoreState? ==> s.loader == Unavailable)
    && (p.StoreApi? || p.LoadForward? || p.Forward? || p.SetForward? ==> s.loader == Loaded)
    && (p.StoreApi? ==> !s.cached)
    && (p.Unlock? ==> s.loader == if p.api then Loaded else Unavailable)
    && (p.Forward? ==> p.seen == s.override)
    && (p.SetForward? ==> AsInt(p.value) == s.override)
    && (s.loader == Loaded && !Forwarding(p) ==> AsInt(s.shim) == s.override)
  }

  predicate ThreadOk(s: State, t: nat)
    requires Shaped(s) && t < |s.threads|
  {
    var p := s.threads[t];
    && (PastGate(p) ==> Asked(s.log))
    && (p.Emit? || (p.Unlock? && p.api) ==> s.cached)
    && s.depth[t] == s.open[t] + (if p.PopApi? || p.PopCall? then 1 else 0)
    && (s.depth[t] > 0 ==> s.cached)
  }

  predicate ThreadsOk(s: State)
    requires Shaped(s)
  {
    forall t | 0 <= t < |s.threads| :: ThreadOk(s, t)
  }

  predicate Inv(s: State) {
    Shaped(s) && MutexOk(s) && OverrideOk(s) && LoaderOk(s) && ThreadsOk(s)
  }

  lemma InitInv(s: State)
    requires Init(s)
    ensures Inv(s)
  {
  }

  lemma AskedGrows(log: seq<Write>, w: Write)
    ensures Asked(log) || w.value ==> Asked(log + [w])
  {
    if Asked(log) {
      var x :| x in log && x.value;
      assert x in log + [w];
    }
    assert w in log + [w];
  }

  /** A set override means someone asked, once its value is true. */
  lemma OneIsAsked(s: State)
    requires OverrideOk(s) && s.override == 1
    ensures Asked(s.log)
  {
    assert s.log[|s.log| - 1] in s.log;
  }

  /** Threads other than the moving one keep their part, as long as flags and requests only grow. */
  lemma OthersKeep(s: State, s': State, t: nat)
    requires Shaped(s) && Shaped(s') && ThreadsOk(s)
    requires t < |s.threads| == |s'.threads|
    requires s'.threads == s.threads[t := s'.threads[t]]
    requires s'.depth == s.depth[t := s'.depth[t]] && s'.open == s.open[t := s'.open[t]]
    requires s.cached ==> s'.cached
    requires Asked(s.log) ==> Asked(s'.log)
    requires ThreadOk(s', t)
    ensures ThreadsOk(s')
  {
    hide Asked;
    forall u | 0 <= u < |s'.threads| ensures ThreadOk(s', u) {
      assert ThreadOk(s, u);
    }
  }

  lemma MutexKeeps(s: State, s': State, t: nat)
    requires Shaped(s) && MutexOk(s)
    requires t < |s.threads| == |s'.threads| && s'.threads == s.threads[t := s'.threads[t]]
    requires s'.mutex == s.mutex || (s.mutex in {Free, Held(t)} && s'.mutex in {Free, Held(t)})
    requires Holding(s'.threads[t]) <==> s'.mutex == Held(t)
    ensures MutexOk(s')
  {
    hide Holding;
    forall u | 0 <= u < |s'.threads| ensures Holding(s'.threads[u]) <==> s'.mutex == Held(u) {
      assert Holding(s.threads[u]) <==> s.mutex == Held(u);
    }
  }

  /** What the invariant says about one thread. */
  lemma AtThread(s: State, t: nat)
    requires Inv(s) && t < |s.threads|
    ensures ThreadOk(s, t)
    ensures Holding(s.threads[t]) <==> s.mutex == Held(t)
    ensures Asked(s.log) ==> s.override != -1
  {
  }

  lemma WriteKeeps(s: State, w: Write)
    requires OverrideOk(s) && (w.Latched? ==> s.override == -1)
    ensures OverrideOk(WriteOverride(s, w))
  {
  }

  lemma OverrideUnmoved(s: State, s': State)
    requires OverrideOk(s) && s'.override == s.override && s'.log == s.log
    ensures OverrideOk(s') && (s.override == 0 || s.override == 1 || s.override == -1)
  {
  }

  /** A step moves one thread, in or out of the critical section only by itself, and withdraws nothing. */
  predicate Moves(s: State, s': State, t: nat) {
    && Shaped(s) && Shaped(s') && t < |s.threads| == |s'.threads|
    && s'.threads == s.threads[t := s'.threads[t]]
    && s'.depth == s.depth[t := s'.depth[t]] && s'.open == s.open[t := s'.open[t]]
    && (s.cached ==> s'.cached)
    && (s'.mutex == s.mutex || (s.mutex in {Free, Held(t)} && s'.mutex in {Free, Held(t)}))
    && (Holding(s'.threads[t]) <==> s'.mutex == Held(t))
  }

  lemma MovesKeep(s: State, s': State, t: nat)
    requires Inv(s) && Moves(s, s', t) && (Asked(s.log) ==> Asked(s'.log))
    requires OverrideOk(s') && LoaderOk(s') && ThreadOk(s', t)
    ensures Inv(s')
  {
    hide Asked, OverrideOk, LoaderOk, ThreadOk, Holding, MutexOk, ThreadsOk;
    MutexKeeps(s, s', t);
    OthersKeep(s, s', t);
  }

  // ---- the gate ---------------------------------------------------------------------------------

  /** The gate's only write: the environment default, where nothing was written before. */
  function Latching(s: State, t: nat): (s': State)
    requires t < |s.threads|
  {
    if s.threads[t].Latch? && s.override == -1 then WriteOverride(s, Latched(s.threads[t].env)) else s
  }

  lemma LatchingKeeps(s: State, t: nat)
    requires OverrideOk(s) && t < |s.threads|
    ensures var e := Latching(s, t);
            && OverrideOk(e) && (Asked(s.log) ==> Asked(e.log) && e.log == s.log)
            && (e.override == 1 ==> Asked(e.log))
  {
    var s' := Latching(s, t);
    if s.threads[t].Latch? && s.override == -1 {
      WriteKeeps(s, Latched(s.threads[t].env));
    }
    if s'.override == 1 {
      OneIsAsked(s');
    }
  }

  lemma GateIsLatching(s: State, t: nat, choice: bool)
    requires Shaped(s) && t < |s.threads| && InGate(s.threads[t]) && !Holding(s.threads[t]) && s.mutex != Held(t)
    ensures var e, m := Gate(s, t, choice), Latching(s, t);
            && e == m.(threads := e.threads) && Moves(s, e, t)
            && (e.threads[t].LoadApi? ==> m.override == 1)
            && (InGate(e.threads[t]) || e.threads[t].LoadApi? || e.threads[t].Idle?)
  {
  }

  lemma GateKeeps(s: State, t: nat, choice: bool)
    requires Inv(s) && t < |s.threads| && InGate(s.threads[t])
    ensures Inv(Gate(s, t, choice))
  {
    hide Asked, MutexOk, ThreadsOk, OverrideOk, Moves, Gate, Latching;
    AtThread(s, t);
    GateIsLatching(s, t, choice);
    LatchingKeeps(s, t);
    GateLoader(s, t, choice);
    GateThread(s, t, choice);
    OverrideUnmoved(Latching(s, t), Gate(s, t, choice));
    MovesKeep(s, Gate(s, t, choice), t);
  }

  /** If the shim was ever tried, someone had asked, so nothing is left to latch. */
  lemma GateLoader(s: State, t: nat, choice: bool)
    requires Inv(s) && t < |s.threads| && InGate(s.threads[t])
    ensures Shaped(Gate(s, t, choice)) && LoaderOk(Gate(s, t, choice))
  {
    hide Asked, MutexOk, ThreadsOk, OverrideOk, Gate, Moves;
    AtThread(s, t);
    LatchingKeeps(s, t);
    GateIsLatching(s, t, choice);
    OtherInside(s, Gate(s, t, choice), t);
  }

  lemma OtherInside(s: State, s': State, t: nat)
    requires Moves(s, s', t) && s'.mutex == s.mutex != Held(t)
    ensures Shaped(s') && Inside(s') == Inside(s)
  {
    hide Holding;
  }

  lemma GateThread(s: State, t: nat, choice: bool)
    requires Inv(s) && t < |s.threads| && InGate(s.threads[t])
    ensures Shaped(Gate(s, t, choice)) && t < |Gate(s, t, choice).threads| && ThreadOk(Gate(s, t, choice), t)
  {
    hide Asked, MutexOk, ThreadsOk, OverrideOk, LoaderOk, Gate;
    AtThread(s, t);
    LatchingKeeps(s, t);
    GateIsLatching(s, t, choice);
  }

  // ---- setEnabled ---------------------------------------------------------------------------------

  lemma SetMoves(s: State, t: nat)
    requires Inv(s) && t < |s.threads| && InSet(s.threads[t])
    requires s.threads[t].SetLock? ==> s.mutex.Free?
    ensures Moves(s, Set(s, t), t)
  {
    hide Asked, ThreadsOk, OverrideOk, LoaderOk, MutexOk;
    AtThread(s, t);
  }

  lemma SetLoader(s: State, t: nat)
    requires Inv(s) && t < |s.threads| && InSet(s.threads[t])
    requires s.threads[t].SetLock? ==> s.mutex.Free?
    ensures Shaped(Set(s, t)) && LoaderOk(Set(s, t)) && (Asked(s.log) ==> Asked(Set(s, t).log))
  {
    hide Asked, MutexOk, ThreadsOk, OverrideOk;
    AtThread(s, t);
    if s.threads[t].SetStore? {
      AskedGrows(s.log, Explicit(s.threads[t].value));
    }
  }

  lemma SetThread(s: State, t: nat)
    requires Inv(s) && t < |s.threads| && InSet(s.threads[t])
    requires Moves(s, Set(s, t), t) && (Asked(s.log) ==> Asked(Set(s, t).log))
    ensures OverrideOk(Set(s, t)) && ThreadOk(Set(s, t), t)
  {
    hide Asked, MutexOk, ThreadsOk, OverrideOk, LoaderOk;
    AtThread(s, t);
    if s.threads[t].SetStore? {
      WriteKeeps(s, Explicit(s.threads[t].value));
      OverrideUnmoved(WriteOverride(s, Explicit(s.threads[t].value)), Set(s, t));
    } else {
      OverrideUnmoved(s, Set(s, t));
    }
  }

  lemma SetKeeps(s: State, t: nat)
    requires Inv(s) && t < |s.threads| && InSet(s.threads[t])
    requires s.threads[t].SetLock? ==> s.mutex.Free?
    ensures Inv(Set(s, t))
  {
    hide Inv, Moves, Set, LoaderOk, OverrideOk, ThreadOk, Asked;
    SetMoves(s, t);
    SetLoader(s, t);
    SetThread(s, t);
    MovesKeep(s, Set(s, t), t);
  }

  // ---- calls into the shim ----------------------------------------------------------------------------

  lemma CallMoves(s: State, t: nat, choice: bool)
    requires Inv(s) && t < |s.threads| && InCall(s.threads[t])
    ensures Moves(s, Call(s, t, choice), t) && Call(s, t, choice).log == s.log
  {
    hide Asked, ThreadsOk, OverrideOk, LoaderOk, MutexOk;
    AtThread(s, t);
  }

  lemma CallLoader(s: State, t: nat, choice: bool)
    requires Inv(s) && t < |s.threads| && InCall(s.threads[t]) && Moves(s, Call(s, t, choice), t)
    ensures OverrideOk(Call(s, t, choice)) && LoaderOk(Call(s, t, choice))
  {
    hide Asked, MutexOk, ThreadsOk, OverrideOk, Moves;
    AtThread(s, t);
    OtherInside(s, Call(s, t, choice), t);
    OverrideUnmoved(s, Call(s, t, choice));
  }

  lemma CallThread(s: State, t: nat, choice: bool)
    requires Inv(s) && t < |s.threads| && InCall(s.threads[t]) && Moves(s, Call(s, t, choice), t)
    ensures ThreadOk(Call(s, t, choice), t)
  {
    hide Asked, MutexOk, ThreadsOk, OverrideOk, LoaderOk;
    AtThread(s, t);
  }

  lemma CallKeeps(s: State, t: nat, choice: bool)
    requires Inv(s) && t < |s.threads| && InCall(s.threads[t])
    ensures Inv(Call(s, t, choice))
  {
    hide MutexOk, ThreadsOk, Moves, Call, LoaderOk, OverrideOk, ThreadOk, Asked;
    CallMoves(s, t, choice);
    CallLoader(s, t, choice);
    CallThread(s, t, choice);
    MovesKeep(s, Call(s, t, choice), t);
  }

  // ---- the load attempt -------------------------------------------------------------------------------

  predicate InAttempt(s: State, p: Thread) {
    (p.Lock? && s.mutex.Free?) || (Holding(p) && !InSet(p))
  }

  lemma AttemptLocks(s: State, t: nat, choice: bool, flag: bool)
    requires Shaped(s) && t < |s.threads| && (Holding(s.threads[t]) <==> s.mutex == Held(t))
    requires (s.threads[t].Lock? && s.mutex.Free?) || s.threads[t].Unlock?
    ensures Moves(s, Attempt(s, t, choice, flag), t)
  {
    var s' := Attempt(s, t, choice, flag);
    assert s'.threads == s.threads[t := s'.threads[t]] && s'.depth == s.depth && s'.open == s.open;
  }

  lemma StaysHolding(s: State, t: nat, choice: bool, flag: bool)
    requires t < |s.threads| && Holding(s.threads[t]) && !InSet(s.threads[t]) && !s.threads[t].Unlock?
    ensures var e := Attempt(s, t, choice, flag);
            e.mutex == s.mutex && |e.threads| == |s.threads| && Holding(e.threads[t])
  {
  }

  lemma AttemptStays(s: State, t: nat, choice: bool, flag: bool)
    requires Shaped(s) && t < |s.threads| && s.mutex == Held(t)
    requires Holding(s.threads[t]) && !InSet(s.threads[t]) && !s.threads[t].Unlock?
    ensures Moves(s, Attempt(s, t, choice, flag), t)
  {
    StaysHolding(s, t, choice, flag);
    hide Holding;
    var s' := Attempt(s, t, choice, flag);
    assert s'.threads == s.threads[t := s'.threads[t]] && s'.depth == s.depth && s'.open == s.open;
  }

  lemma AttemptMoves(s: State, t: nat, choice: bool, flag: bool)
    requires Inv(s) && t < |s.threads| && InAttempt(s, s.threads[t])
    ensures Moves(s, Attempt(s, t, choice, flag), t)
  {
    AtThread(s, t);
    hide Asked, ThreadsOk, OverrideOk, LoaderOk, MutexOk, ThreadOk, Moves, Attempt;
    if s.threads[t].Lock? || s.threads[t].Unlock? {
      AttemptLocks(s, t, choice, flag);
    } else {
      AttemptStays(s, t, choice, flag);
    }
  }

  lemma AttemptLoader(s: State, t: nat, choice: bool, flag: bool)
    requires Inv(s) && t < |s.threads| && InAttempt(s, s.threads[t]) && Shaped(Attempt(s, t, choice, flag))
    ensures LoaderOk(Attempt(s, t, choice, flag))
  {
    AtThread(s, t);
    OverrideUnmoved(s, s);
    hide Asked, MutexOk, ThreadsOk, OverrideOk;
  }

  lemma AttemptThread(s: State, t: nat, choice: bool, flag: bool)
    requires Inv(s) && t < |s.threads| && InAttempt(s, s.threads[t]) && Moves(s, Attempt(s, t, choice, flag), t)
    ensures ThreadOk(Attempt(s, t, choice, flag), t)
  {
    hide Asked, MutexOk, ThreadsOk, OverrideOk;
    AtThread(s, t);
  }

  lemma AttemptKeeps(s: State, t: nat, choice: bool, flag: bool)
    requires Inv(s) && t < |s.threads| && InAttempt(s, s.threads[t])
    ensures Inv(Attempt(s, t, choice, flag))
  {
    var s' := Attempt(s, t, choice, flag);
    AttemptMoves(s, t, choice, flag);
    OverrideUnmoved(s, s');
    hide Inv, Attempt, LoaderOk, OverrideOk, ThreadOk, Asked;
    AttemptLoader(s, t, choice, flag);
    AttemptThread(s, t, choice, flag);
    MovesKeep(s, s', t);
  }

  /** A call begins. */
  lemma BeginKeeps(s: State, a: Action)
    requires Inv(s) && Enabled(s, a) && !a.Step?
    ensures Inv(Apply(s, a))
  {
    hide Asked, MutexOk, ThreadsOk, OverrideOk;
    var s' := Apply(s, a);
    AtThread(s, a.t);
    OverrideUnmoved(s, s');
    assert Moves(s, s', a.t);
    OtherInside(s, s', a.t);
    MovesKeep(s, s', a.t);
  }

  /** Every step of every thread keeps the invariant. */
  lemma StepKeeps(s: State, a: Action)
    requires Inv(s) && Enabled(s, a)
    ensures Inv(Apply(s, a))
  {
    hide Inv, Gate, Set, Call, Attempt;
    match a
    case Step(t, choice, flag) =>
      if InGate(s.threads[t]) {
        GateKeeps(s, t, choice);
      } else if InSet(s.threads[t]) {
        SetKeeps(s, t);
      } else if InCall(s.threads[t]) {
        CallKeeps(s, t, choice);
      } else {
        AttemptKeeps(s, t, choice, flag);
      }
    case _ => BeginKeeps(s, a);
  }

  lemma NextKeeps(s: State, s': State)
    requires Inv(s) && Next(s, s')
    ensures Inv(s')
  {
    hide Inv;
    var a :| Enabled(s, a) && s' == Apply(s, a);
    StepKeeps(s, a);
  }

  lemma RunStep(run: seq<State>, i: nat)
    requires IsRun(run) && i + 1 < |run|
    ensures Next(run[i], run[i + 1])
  {
  }

  lemma {:induction false} RunInv(run: seq<State>, i: nat)
    requires IsRun(run) && i < |run|
    ensures Inv(run[i])
  {
    hide Inv, Next;
    if i == 0 {
      InitInv(run[0]);
    } else {
      RunInv(run, i - 1);
      RunStep(run, i - 1);
      NextKeeps(run[i - 1], run[i]);
    }
  }
}
