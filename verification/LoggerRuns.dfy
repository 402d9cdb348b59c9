/** Runs of the logger that show its limits: for every capacity, number of sinks and initial slot contents. */
module LoggerRuns {
  import opened StringArena
  import opened MpscRing
  import opened Logger
  import opened LoggerInvariant

  /** There is an initial state for every capacity from two on and any number of sinks and threads. */
  lemma InitialState(capacity: nat, sinks: nat, producers: nat, flushers: nat) returns (s: State)
    requires capacity >= 2
    ensures Init(s) && s.ring.capacity == capacity
    ensures |s.sinks| == sinks && |s.producers| == producers && |s.flushers| == flushers
  {
    var arena: Arena := seq(ARENA_SIZE, _ => 0);
    s := State(NewRing(capacity), seq(capacity, _ => StoredRecord(0, [])), seq(capacity, _ => arena),
               0, 0, false, seq(sinks, _ => Sink([], 0)), seq(producers, _ => Ready), seq(flushers, _ => Idle),
               Peek, NotCalled, [], map[], 0, 0);
  }

  lemma Extend(run: seq<State>, a: Action) returns (run': seq<State>)
    requires IsRun(run) && Shape(Last(run)) && Enabled(Last(run), a)
    ensures IsRun(run') && Last(run') == Apply(Last(run), a) && Shape(Last(run'))
  {
    hide Enabled, Apply;
    run' := run + [Apply(Last(run), a)];
    assert Next(Last(run), run'[|run|]);
    forall i {:trigger run'[i + 1]} | 0 <= i < |run'| - 1 ensures Next(run'[i], run'[i + 1]) {
      if i < |run| - 1 {
        assert Next(run[i], run[i + 1]);
      }
    }
    RingInv(run');
  }

  /** What the invariant says of the ring, wherever a run has got to. */
  lemma RingInv(run: seq<State>)
    requires IsRun(run)
    ensures RingOk(Last(run))
  {
    RunInv(run, |run| - 1);
  }

  // ---- one log call ---------------------------------------------------------------------------

  /** The call has claimed the next position and has nothing to copy. */
  function Begun(s: State, t: nat, rec: Record): (s': State)
    requires t < |s.producers|
  {
    Claimed(s, t, rec).(inFlight := s.inFlight + 1, calls := s.calls + 1)
  }

  lemma Probes(run: seq<State>)
    requires IsRun(run) && Shape(Last(run))
    ensures var s := Last(run); var p := ProbeSlot(s.ring, s.ring.enqueuePos);
            if s.ring.enqueuePos < Released(s) + s.ring.capacity then p.Claimable? else p.Full?
  {
    RingInv(run);
    var s := Last(run);
    ProbeTellsTruth(s.ring, Released(s), s.owner.Keys, s.ring.enqueuePos);
  }

  /** A call up to the probe of the slot it aims at. */
  lemma CallProbes(run: seq<State>, t: nat, rec: Record) returns (run': seq<State>)
    requires IsRun(run) && Shape(Last(run)) && t < |Last(run).producers| && Last(run).producers[t].Ready?
    requires !Last(run).stop
    ensures IsRun(run') && Shape(Last(run'))
    ensures var s := Last(run);
            Last(run') == s.(inFlight := s.inFlight + 1, calls := s.calls + 1, producers := s.producers[t :=
              if s.ring.enqueuePos < Released(s) + s.ring.capacity then Cas(rec, s.ring.enqueuePos) else Dropping])
  {
    var s := Last(run);
    Probes(run);
    run' := Extend(run, Begin(t, rec));
    run' := Extend(run', Produce(t));
    assert Last(run').producers == s.producers[t := LoadSeq(rec, s.ring.enqueuePos)];
    run' := Extend(run', Produce(t));
    assert Last(run').producers == s.producers[t :=
      if s.ring.enqueuePos < Released(s) + s.ring.capacity then Cas(rec, s.ring.enqueuePos) else Dropping];
  }

  lemma CallClaims(run: seq<State>, t: nat, rec: Record) returns (run': seq<State>)
    requires IsRun(run) && Shape(Last(run)) && t < |Last(run).producers| && Last(run).producers[t].Ready?
    requires !Last(run).stop
    requires Last(run).ring.enqueuePos < Released(Last(run)) + Last(run).ring.capacity
    ensures IsRun(run') && Shape(Last(run')) && Last(run') == Begun(Last(run), t, rec)
  {
    var s := Last(run);
    run' := CallProbes(run, t, rec);
    run' := Extend(run', Produce(t));
    assert Last(run').producers == Begun(s, t, rec).producers;
  }

  /** A whole call that finds room: what it leaves behind. */
  ghost predicate Logged(s: State, s': State) {
    && s' == s.(ring := s'.ring, items := s'.items, calls := s.calls + 1, history := s'.history)
    && |s'.history| == |s.history| + 1
    && s'.ring.capacity == s.ring.capacity && s'.ring.dequeuePos == s.ring.dequeuePos
    && s'.ring.enqueuePos == s.ring.enqueuePos + 1
  }

  lemma LogOne(run: seq<State>, t: nat, rec: Record) returns (run': seq<State>)
    requires IsRun(run) && Shape(Last(run)) && t < |Last(run).producers| && Last(run).producers[t].Ready?
    requires !Last(run).stop
    requires rec.args == [] && Last(run).owner == map[]
    requires Last(run).ring.enqueuePos < Released(Last(run)) + Last(run).ring.capacity
    ensures IsRun(run') && Shape(Last(run')) && Logged(Last(run), Last(run'))
  {
    var s := Last(run);
    run' := CallClaims(run, t, rec);
    run' := CallPublishes(run', t);
    assert Last(run').producers == s.producers;
    assert Last(run').owner == s.owner;
  }

  lemma CallPublishes(run: seq<State>, t: nat) returns (run': seq<State>)
    requires IsRun(run) && Shape(Last(run)) && t < |Last(run).producers|
    requires Last(run).producers[t].Copying? && Last(run).producers[t].rec.args == []
    ensures IsRun(run') && Shape(Last(run'))
    ensures var s, e := Last(run), Last(run');
            e == s.(ring := Publish(s.ring, s.producers[t].pos), items := e.items, inFlight := s.inFlight - 1,
                     producers := s.producers[t := Ready], owner := s.owner - {s.producers[t].pos})
  {
    var s := Last(run);
    var pos := s.producers[t].pos;
    run' := Extend(run, Produce(t));
    assert Last(run').producers == s.producers[t := Publishing(s.producers[t].rec, pos)];
    run' := Extend(run', Produce(t));
    assert Last(run').producers == s.producers[t := Finishing];
    run' := Extend(run', Produce(t));
    assert Last(run').producers == s.producers[t := Ready];
  }

  /** A call that finds the ring full, up to the moment before its drop is counted. */
  lemma CallDrops(run: seq<State>, t: nat, rec: Record) returns (run': seq<State>)
    requires IsRun(run) && Shape(Last(run)) && t < |Last(run).producers| && Last(run).producers[t].Ready?
    requires !Last(run).stop
    requires Last(run).ring.enqueuePos >= Released(Last(run)) + Last(run).ring.capacity
    ensures IsRun(run') && Shape(Last(run'))
    ensures var s := Last(run);
            Last(run') == s.(calls := s.calls + 1, producers := s.producers[t := CountingDrop])
  {
    var s := Last(run);
    run' := CallProbes(run, t, rec);
    run' := Extend(run', Produce(t));
    assert Last(run').producers == s.producers[t := CountingDrop];
  }

  // ---- filling and draining ------------------------------------------------------------------------

  /** A run in which the first producer fills the ring of an idle logger. */
  lemma FillRing(s: State, rec: Record) returns (run: seq<State>)
    requires Init(s) && |s.producers| > 0 && rec.args == []
    ensures IsRun(run) && Shape(Last(run))
    ensures var f := Last(run);
            && f == s.(ring := f.ring, items := f.items, calls := f.calls, history := f.history)
            && f.ring.capacity == s.ring.capacity && f.ring.dequeuePos == 0
            && f.calls == |f.history| == f.ring.enqueuePos == s.ring.capacity
  {
    run := [s];
    while Last(run).ring.enqueuePos < s.ring.capacity
      invariant IsRun(run) && Shape(Last(run))
      invariant var f := Last(run);
                && f == s.(ring := f.ring, items := f.items, calls := f.calls, history := f.history)
                && f.ring.capacity == s.ring.capacity && f.ring.dequeuePos == 0
                && f.calls == |f.history| == f.ring.enqueuePos <= s.ring.capacity
      decreases s.ring.capacity - Last(run).ring.enqueuePos
    {
      run := LogOne(run, 0, rec);
    }
  }

  /** The consumer takes the front record up to the first store of `consume`. */
  lemma TakeFront(run: seq<State>) returns (run': seq<State>)
    requires IsRun(run) && Shape(Last(run)) && Last(run).consumer.Peek? && Last(run).owner == map[]
    requires Last(run).ring.dequeuePos < Last(run).ring.enqueuePos
    ensures IsRun(run') && Shape(Last(run'))
    ensures var s, e := Last(run), Last(run');
            e == s.(ring := Release(s.ring), consumer := Advancing, sinks := e.sinks) && |e.sinks| == |s.sinks|
  {
    var s := Last(run);
    RingInv(run);
    FrontIsPublished(s.ring, {});
    run' := Extend(run, Consume);
    run' := Extend(run', Consume);
    while Last(run').consumer.next < |s.sinks|
      invariant IsRun(run') && Shape(Last(run')) && Last(run').consumer.Write? && |Last(run').sinks| == |s.sinks|
      invariant var s' := Last(run'); s' == s.(consumer := s'.consumer, sinks := s'.sinks)
      decreases |s.sinks| - Last(run').consumer.next
    {
      run' := Extend(run', Consume);
    }
    run' := Extend(run', Consume);
    run' := Extend(run', Consume);
  }

  /** The consumer takes everything published. */
  lemma Drain(run: seq<State>) returns (run': seq<State>)
    requires IsRun(run) && Shape(Last(run)) && Last(run).consumer.Peek? && Last(run).owner == map[]
    ensures IsRun(run') && Shape(Last(run'))
    ensures var s, e := Last(run), Last(run');
            && e == s.(ring := e.ring, sinks := e.sinks) && |e.sinks| == |s.sinks|
            && e.ring.dequeuePos == e.ring.enqueuePos == s.ring.enqueuePos
  {
    var s := Last(run);
    run' := run;
    RingInv(run');
    while Last(run').ring.dequeuePos < s.ring.enqueuePos
      invariant IsRun(run') && Shape(Last(run')) && RingOk(Last(run'))
      invariant var s' := Last(run'); s' == s.(ring := s'.ring, sinks := s'.sinks) && |s'.sinks| == |s.sinks|
      invariant Last(run').ring.enqueuePos == s.ring.enqueuePos
      decreases s.ring.enqueuePos - Last(run').ring.dequeuePos
    {
      run' := TakeFront(run');
      run' := Extend(run', Consume);
      RingInv(run');
    }
  }

  /** With nothing left and nothing in flight, a stopped consumer leaves its loop. */
  lemma ConsumerLeaves(run: seq<State>) returns (run': seq<State>)
    requires IsRun(run) && Shape(Last(run)) && Last(run).consumer.Peek? && Last(run).stop && Last(run).inFlight == 0
    requires Last(run).ring.dequeuePos == Last(run).ring.enqueuePos
    ensures IsRun(run') && Shape(Last(run'))
    ensures var s, e := Last(run), Last(run');
            && e == s.(consumer := Exited(|s.history|, s.ring.enqueuePos), sinks := e.sinks)
            && |e.sinks| == |s.sinks|
            && forall k | 0 <= k < |s.sinks| :: e.sinks[k] == Sink(s.sinks[k].written, |s.sinks[k].written|)
  {
    var s := Last(run);
    RingInv(run);
    FrontIsPublished(s.ring, s.owner.Keys);
    run' := Extend(run, Consume);
    run' := Extend(run', Consume);
    run' := Extend(run', Consume);
    run' := Extend(run', Consume);
    run' := Extend(run', Consume);
    run' := FinalFlushes(run');
  }

  /** From reading its target, with everything consumed, to the end of the call. */
  lemma FlushFinishes(run: seq<State>, f: nat) returns (run': seq<State>)
    requires IsRun(run) && Shape(Last(run)) && f < |Last(run).flushers| && Last(run).flushers[f].LoadTarget?
    requires Last(run).ring.dequeuePos == Last(run).ring.enqueuePos
    ensures IsRun(run') && Shape(Last(run')) && f < |Last(run').flushers|
    ensures Last(run').flushers[f] == Returned(Last(run).ring.enqueuePos)
  {
    hide Init, Next, ConsumerStep, ProducerStep, DestructorStep;
    var s := Last(run);
    run' := Extend(run, Flush(f));
    run' := Extend(run', Flush(f));
    var n := 0;
    while n < |s.sinks|
      invariant IsRun(run') && Shape(Last(run')) && n <= |s.sinks| == |Last(run').sinks|
      invariant |Last(run').flushers| == |s.flushers| && Last(run').flushers[f] == FlushSink(s.ring.enqueuePos, n)
    {
      run' := Extend(run', Flush(f));
      n := n + 1;
    }
    run' := Extend(run', Flush(f));
  }

  /**
    In whatever state a run is, if the consumer is about to look, every claimed record is published and the destructor
    has not joined the consumer, then a `flush` call can be made and come back.
   */
  lemma FlushComesBack(run: seq<State>, f: nat) returns (run': seq<State>)
    requires IsRun(run) && Shape(Last(run)) && Last(run).consumer.Peek? && Last(run).owner == map[]
    requires Enabled(Last(run), CallFlush(f)) && (Last(run).destructor.NotCalled? || Last(run).destructor.Joining?)
    ensures IsRun(run') && Shape(Last(run')) && f < |Last(run').flushers|
    ensures Last(run').flushers[f] == Returned(Last(run).ring.enqueuePos)
  {
    hide Init, Next, ConsumerStep, ProducerStep, DestructorStep;
    run' := Drain(run);
    run' := Extend(run', CallFlush(f));
    run' := Extend(run', Flush(f));
    run' := FlushFinishes(run', f);
  }

  lemma FinalFlushes(run: seq<State>) returns (run': seq<State>)
    requires IsRun(run) && Shape(Last(run)) && Last(run).consumer.FinalFlush? && Last(run).consumer.next == 0
    ensures IsRun(run') && Shape(Last(run'))
    ensures var s, e := Last(run), Last(run');
            && e == s.(consumer := Exited(s.consumer.settled, s.consumer.seen), sinks := e.sinks)
            && |e.sinks| == |s.sinks|
            && forall k | 0 <= k < |s.sinks| :: e.sinks[k] == Sink(s.sinks[k].written, |s.sinks[k].written|)
  {
    var s := Last(run);
    run' := run;
    var n := 0;
    while n < |s.sinks|
      invariant IsRun(run') && Shape(Last(run')) && n <= |s.sinks| == |Last(run').sinks|
      invariant var s' := Last(run');
                s' == s.(consumer := FinalFlush(s.consumer.settled, s.consumer.seen, n), sinks := s'.sinks)
      invariant forall k | 0 <= k < |s.sinks| ::
                  Last(run').sinks[k] == if k < n then Sink(s.sinks[k].written, |s.sinks[k].written|) else s.sinks[k]
    {
      run' := Extend(run', Consume);
      n := n + 1;
    }
    run' := Extend(run', Consume);
  }

  // ---- the limits ----------------------------------------------------------------------------------

  /** Claims really get ahead by capacity plus one: the released slot is claimed before `dequeuePos` moves. */
  lemma BacklogReachesBound(s: State, rec: Record) returns (run: seq<State>)
    requires Init(s) && |s.producers| > 0 && rec.args == []
    ensures IsRun(run)
    ensures var e := Last(run);
            |e.history| == e.ring.dequeuePos + e.ring.capacity + 1 && e.ring.capacity == s.ring.capacity
  {
    run := FillRing(s, rec);
    run := TakeFront(run);
    run := CallClaims(run, 0, rec);
  }

  /** The shutdown line misses a drop: the dropped call has left the in-flight count and is not yet counted. */
  lemma SummaryMissesDrop(s: State, rec: Record) returns (run: seq<State>)
    requires Init(s) && |s.producers| > 0 && rec.args == []
    ensures IsRun(run)
    ensures var e := Last(run);
            && e.destructor == Done(s.ring.capacity, 0) && e.lateCalls == 0
            && e.calls == s.ring.capacity + 1 && |e.producers| > 0 && e.producers[0] == CountingDrop
  {
    run := FillRing(s, rec);
    run := CallDrops(run, 0, rec);
    run := Drain(run);
    run := Extend(run, Destroy);
    run := ConsumerLeaves(run);
    run := Extend(run, Destroy);
    run := Extend(run, Destroy);
    run := Extend(run, Destroy);
  }

  /** An idle logger is shut down, up to the consumer's exit. */
  lemma IdleShutdown(s: State) returns (run: seq<State>)
    requires Init(s)
    ensures IsRun(run) && Shape(Last(run))
    ensures var e := Last(run);
            && e == s.(stop := true, destructor := Joining, consumer := Exited(0, 0), sinks := e.sinks)
            && forall k | 0 <= k < |e.sinks| :: e.sinks[k].written == []
  {
    run := Extend([s], Destroy);
    run := ConsumerLeaves(run);
  }

  /** A run that the consumer has left, and in which a call that begins after that claims a slot nobody will read. */
  lemma LateClaim(s: State, rec: Record) returns (run: seq<State>)
    requires Init(s) && |s.producers| > 0
    ensures IsRun(run) && Shape(Last(run))
    ensures var e := Last(run);
            && e.consumer.Exited? && e.destructor == Joining && e.lateCalls == e.calls == 1
            && e.history == [rec] && e.dropped == 0 && e.ring.dequeuePos == 0
            && e.producers == s.producers[0 := Copying(rec, 0, [], 0)]
            && forall k | 0 <= k < |e.sinks| :: e.sinks[k].written == []
  {
    run := IdleShutdown(s);
    Probes(run);
    run := Extend(run, Begin(0, rec));
    run := Extend(run, Produce(0));
    run := Extend(run, Produce(0));
    run := Extend(run, Produce(0));
    assert Last(run).producers == s.producers[0 := Copying(rec, 0, [], 0)];
  }

  /** So a call that begins after the stop flag can be lost. */
  lemma LateCallIsLost(s: State, rec: Record) returns (run: seq<State>)
    requires Init(s) && |s.producers| > 0
    ensures IsRun(run)
    ensures var e := Last(run);
            && e.consumer.Exited? && e.lateCalls == 1 && e.history == [rec] && e.dropped == 0
            && forall k | 0 <= k < |e.sinks| :: e.sinks[k].written == []
  {
    run := LateClaim(s, rec);
  }

  /** And the shutdown line misses it, although every call has returned. */
  lemma SummaryMissesLateCall(s: State, rec: Record) returns (run: seq<State>)
    requires Init(s) && |s.producers| > 0 && rec.args == []
    ensures IsRun(run)
    ensures var e := Last(run);
            && e.destructor == Done(0, 0) && e.calls == 1
            && forall t | 0 <= t < |e.producers| :: e.producers[t].Ready?
  {
    run := LateClaim(s, rec);
    run := CallPublishes(run, 0);
    assert Last(run).producers == s.producers;
    run := Extend(run, Destroy);
    run := Extend(run, Destroy);
    run := Extend(run, Destroy);
  }
}
