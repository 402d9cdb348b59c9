/**
  The asynchronous logger as interleaved atomic steps of any number of producers (`log`), flushers
  (`flush`), the consumer thread (`run`) and the destructor, under sequential consistency.
 */
module Logger {
  import opened Arithmetic
  import opened StringArena
  import opened MpscRing

  type Offset = n: nat | n <= ARENA_SIZE
  type Arena = a: seq<Byte> | |a| == ARENA_SIZE witness seq(ARENA_SIZE, _ => 0)

  /** `header` stands for format string, level, channel and timestamp; sinks receive a text of header and arguments. */
  datatype Record = Record(header: int, args: seq<Arg>)
  datatype StoredRecord = StoredRecord(header: int, args: seq<StoredArg>)

  /** A sink: the messages written to it, and how many of them have been pushed out by `flush`. */
  datatype Sink = Sink(written: seq<Record>, flushed: nat)

  /** Where a `log()` call is; every state but the first is inside the call. */
  datatype Producer =
    | Ready
    | LoadPos(rec: Record)
    | LoadSeq(rec: Record, pos: nat)
    | Cas(rec: Record, pos: nat)
    | Copying(rec: Record, pos: nat, stored: seq<StoredArg>, used: Offset)
    | Publishing(rec: Record, pos: nat)
    | Finishing
    | Dropping
    | CountingDrop

  /**
    Where the consumer is. `settled` remembers how many claims there were when no call was in flight, `seen` the
    count of claims that its exit test read.
   */
  datatype Consumer =
    | Peek
    | Render
    | Write(msg: Record, next: nat)
    | Releasing
    | Advancing
    | CheckStop
    | CheckInFlight
    | CheckEnqueued(settled: nat)
    | CheckConsumed(settled: nat, seen: nat)
    | IdleFlush(next: nat)
    | FinalFlush(settled: nat, seen: nat, next: nat)
    | Exited(settled: nat, seen: nat)

  datatype Flusher =
    | Idle
    | CheckJoinable
    | LoadTarget
    | Wait(target: nat)
    | FlushSink(target: nat, next: nat)
    | Returned(target: nat)
    | Skipped

  datatype Destructor =
    | NotCalled
    | Joining
    | ReadWritten
    | ReadDropped(written: nat)
    | Done(written: nat, dropped: nat)

  /**
    The shared variables, every thread's position, and history: the record of each claimed position,
    which call holds which claimed and unpublished position, and how many calls began (in all, and
    after the stop flag was set).
   */
  datatype State = State(
    ring: Ring, items: seq<StoredRecord>, arenas: seq<Arena>,
    inFlight: int, dropped: nat, stop: bool, sinks: seq<Sink>,
    producers: seq<Producer>, flushers: seq<Flusher>, consumer: Consumer, destructor: Destructor,
    history: seq<Record>, owner: map<nat, nat>, calls: nat, lateCalls: nat)

  datatype Action =
    | Begin(t: nat, rec: Record)
    | Produce(t: nat)
    | SpuriousFailure(t: nat)
    | Consume
    | CallFlush(f: nat)
    | Flush(f: nat)
    | Destroy

  ghost predicate Shape(s: State) {
    && MpscRing.Shaped(s.ring)
    && |s.items| == |s.arenas| == s.ring.capacity
  }

  /** Any number of threads and sinks, arbitrary initial slot contents. */
  ghost predicate Init(s: State) {
    && s.ring == NewRing(s.ring.capacity) && s.ring.capacity >= 2
    && |s.items| == |s.arenas| == s.ring.capacity
    && s.inFlight == s.dropped == s.calls == s.lateCalls == 0 && !s.stop
    && (forall k | 0 <= k < |s.sinks| :: s.sinks[k] == Sink([], 0))
    && (forall t | 0 <= t < |s.producers| :: s.producers[t] == Ready)
    && (forall f | 0 <= f < |s.flushers| :: s.flushers[f] == Idle)
    && s.consumer == Peek && s.destructor == NotCalled
    && s.history == [] && s.owner == map[]
  }

  ghost predicate Enabled(s: State, a: Action) {
    match a
    case Begin(t, _) => t < |s.producers| && s.producers[t].Ready?
    case Produce(t) => t < |s.producers| && !s.producers[t].Ready?
    case SpuriousFailure(t) => t < |s.producers| && s.producers[t].Cas?
    case Consume => !s.consumer.Exited?
    case CallFlush(f) => f < |s.flushers| && (s.flushers[f].Idle? || s.flushers[f].Returned? || s.flushers[f].Skipped?)
    case Flush(f) => f < |s.flushers| && !(s.flushers[f].Idle? || s.flushers[f].Returned? || s.flushers[f].Skipped?)
    case Destroy => !s.destructor.Done? && (s.destructor.Joining? ==> s.consumer.Exited?)
  }

  // ---- producers -------------------------------------------------------------

  function At(s: State, t: nat, p: Producer): (s': State)
    requires t < |s.producers|
  {
    s.(producers := s.producers[t := p])
  }

  /** `inFlightEnqueues.fetch_add`, the first step of a call. */
  function BeginCall(s: State, t: nat, rec: Record): (s': State)
    requires t < |s.producers|
  {
    At(s, t, LoadPos(rec)).(inFlight := s.inFlight + 1, calls := s.calls + 1,
                            lateCalls := s.lateCalls + if s.stop then 1 else 0)
  }

  function Probed(s: State, t: nat, rec: Record, pos: nat): (s': State)
    requires t < |s.producers| && Shape(s)
  {
    match ProbeSlot(s.ring, pos)
    case Claimable => At(s, t, Cas(rec, pos))
    case Full => At(s, t, Dropping)
    case Stale => At(s, t, LoadPos(rec))
  }

  function Claimed(s: State, t: nat, rec: Record): (s': State)
    requires t < |s.producers|
  {
    var pos := s.ring.enqueuePos;
    At(s, t, Copying(rec, pos, [], 0)).(ring := Claim(s.ring), history := s.history + [rec], owner := s.owner[pos := t])
  }

  function CopiedArg(s: State, t: nat): (s': State)
    requires t < |s.producers| && Shape(s)
    requires s.producers[t].Copying? && |s.producers[t].stored| < |s.producers[t].rec.args|
  {
    var Copying(rec, pos, stored, used) := s.producers[t];
    var arg, slot := rec.args[|stored|], pos % s.ring.capacity;
    At(s, t, Copying(rec, pos, stored + [StoreArg(arg, used)], UsedWith(arg, used)))
      .(arenas := s.arenas[slot := FillArena(arg, used, s.arenas[slot])])
  }

  function StoredItem(s: State, t: nat): (s': State)
    requires t < |s.producers| && Shape(s) && s.producers[t].Copying?
  {
    var Copying(rec, pos, stored, _) := s.producers[t];
    At(s, t, Publishing(rec, pos)).(items := s.items[pos % s.ring.capacity := StoredRecord(rec.header, stored)])
  }

  function Published(s: State, t: nat): (s': State)
    requires t < |s.producers| && Shape(s) && s.producers[t].Publishing?
  {
    var pos := s.producers[t].pos;
    At(s, t, Finishing).(ring := Publish(s.ring, pos), owner := s.owner - {pos})
  }

  function ProducerStep(s: State, t: nat): (s': State)
    requires t < |s.producers| && Shape(s)
  {
    match s.producers[t]
    case Ready => s
    case LoadPos(rec) => At(s, t, LoadSeq(rec, s.ring.enqueuePos))
    case LoadSeq(rec, pos) => Probed(s, t, rec, pos)
    case Cas(rec, pos) =>
      if s.ring.enqueuePos == pos then Claimed(s, t, rec) else At(s, t, LoadSeq(rec, s.ring.enqueuePos))
    case Copying(rec, _, stored, _) => if |stored| < |rec.args| then CopiedArg(s, t) else StoredItem(s, t)
    case Publishing(_, _) => Published(s, t)
    case Finishing => At(s, t, Ready).(inFlight := s.inFlight - 1)
    case Dropping => At(s, t, CountingDrop).(inFlight := s.inFlight - 1)
    case CountingDrop => At(s, t, Ready).(dropped := s.dropped + 1)
  }

  // ---- consumer --------------------------------------------------------------

  function WriteSink(sinks: seq<Sink>, k: nat, msg: Record): (r: seq<Sink>)
    requires k < |sinks|
  {
    sinks[k := sinks[k].(written := sinks[k].written + [msg])]
  }

  function FlushOne(sinks: seq<Sink>, k: nat): (r: seq<Sink>)
    requires k < |sinks|
  {
    sinks[k := sinks[k].(flushed := |sinks[k].written|)]
  }

  function Front(s: State): (msg: Record)
    requires Shape(s)
  {
    var slot := s.ring.dequeuePos % s.ring.capacity;
    Record(s.items[slot].header, Resolve(s.items[slot].args, s.arenas[slot]))
  }

  function ConsumerStep(s: State): (s': State)
    requires Shape(s)
  {
    match s.consumer
    case Peek => s.(consumer := if HasFront(s.ring) then Render else CheckStop)
    case Render => s.(consumer := Write(Front(s), 0))
    case Write(msg, k) =>
      if k < |s.sinks| then s.(consumer := Write(msg, k + 1), sinks := WriteSink(s.sinks, k, msg))
      else s.(consumer := Releasing)
    case Releasing => s.(consumer := Advancing, ring := Release(s.ring))
    case Advancing => s.(consumer := Peek, ring := Advance(s.ring))
    case CheckStop => s.(consumer := if s.stop then CheckInFlight else IdleFlush(0))
    case CheckInFlight => s.(consumer := if s.inFlight == 0 then CheckEnqueued(|s.history|) else IdleFlush(0))
    case CheckEnqueued(n) => s.(consumer := CheckConsumed(n, s.ring.enqueuePos))
    case CheckConsumed(n, seen) =>
      s.(consumer := if seen <= s.ring.dequeuePos then FinalFlush(n, seen, 0) else IdleFlush(0))
    case IdleFlush(k) =>
      if k < |s.sinks| then s.(consumer := IdleFlush(k + 1), sinks := FlushOne(s.sinks, k)) else s.(consumer := Peek)
    case FinalFlush(n, seen, k) =>
      if k < |s.sinks| then s.(consumer := FinalFlush(n, seen, k + 1), sinks := FlushOne(s.sinks, k))
      else s.(consumer := Exited(n, seen))
    case Exited(_, _) => s
  }

  // ---- flush() and the destructor ----------------------------------------------

  predicate Joined(s: State) {
    s.destructor.ReadWritten? || s.destructor.ReadDropped? || s.destructor.Done?
  }

  function FlusherStep(s: State, f: nat): (s': State)
    requires f < |s.flushers|
  {
    match s.flushers[f]
    case CheckJoinable => s.(flushers := s.flushers[f := if Joined(s) then Skipped else LoadTarget])
    case LoadTarget => s.(flushers := s.flushers[f := Wait(s.ring.enqueuePos)])
    case Wait(n) => if s.ring.dequeuePos < n then s else s.(flushers := s.flushers[f := FlushSink(n, 0)])
    case FlushSink(n, k) =>
      if k < |s.sinks| then s.(flushers := s.flushers[f := FlushSink(n, k + 1)], sinks := FlushOne(s.sinks, k))
      else s.(flushers := s.flushers[f := Returned(n)])
    case _ => s
  }

  function DestructorStep(s: State): (s': State) {
    match s.destructor
    case NotCalled => s.(stop := true, destructor := Joining)
    case Joining => s.(destructor := ReadWritten)
    case ReadWritten => s.(destructor := ReadDropped(s.ring.dequeuePos))
    case ReadDropped(w) => s.(destructor := Done(w, s.dropped))
    case Done(_, _) => s
  }

  ghost function Apply(s: State, a: Action): (s': State)
    requires Shape(s) && Enabled(s, a)
  {
    match a
    case Begin(t, rec) => BeginCall(s, t, rec)
    case Produce(t) => ProducerStep(s, t)
    case SpuriousFailure(t) => At(s, t, LoadSeq(s.producers[t].rec, s.ring.enqueuePos))
    case Consume => ConsumerStep(s)
    case CallFlush(f) => s.(flushers := s.flushers[f := CheckJoinable])
    case Flush(f) => FlusherStep(s, f)
    case Destroy => DestructorStep(s)
  }

  ghost predicate Next(s: State, s': State) {
    exists a :: Shape(s) && Enabled(s, a) && s' == Apply(s, a)
  }

  ghost predicate IsRun(run: seq<State>) {
    && |run| > 0 && Init(run[0])
    && forall i {:trigger run[i + 1]} | 0 <= i < |run| - 1 :: Next(run[i], run[i + 1])
  }

  function Last(run: seq<State>): (s: State)
    requires |run| > 0
  {
    run[|run| - 1]
  }
}
