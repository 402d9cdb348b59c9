/** What every run of the logger guarantees. */
module LoggerTheorems {
  import opened Arithmetic
  import opened StringArena
  import opened MpscRing
  import opened Logger
  import opened LoggerInvariant

  /**
    When the consumer has left its loop, every sink has received exactly the records claimed before the exit test
    read the claim count, each once and in claim order, and has been flushed after the last of them. So nothing ever
    claimed is lost if and only if nothing was claimed after that read, and if no call began after the stop flag,
    nothing was.
   */
  lemma NothingLostAtExit(run: seq<State>)
    requires IsRun(run) && Last(run).consumer.Exited?
    ensures var s := Last(run);
            && (forall k | 0 <= k < |s.sinks| ::
                  && InClaimOrder(s.sinks[k].written, s.history, s.consumer.seen)
                  && s.sinks[k].flushed == |s.sinks[k].written|)
            && s.consumer.settled <= s.consumer.seen <= |s.history|
            && (s.lateCalls == 0 ==> s.consumer.seen == |s.history|)
  {
    RunInv(run, |run| - 1);
  }

  /** A consumer that found nothing to do looks again only when every sink has flushed all it was given. */
  lemma IdleFlushesAll(run: seq<State>, i: nat, k: nat)
    requires IsRun(run) && i + 1 < |run| && run[i].consumer.IdleFlush? && !run[i + 1].consumer.IdleFlush?
    ensures run[i + 1].consumer == Peek && run[i + 1].sinks == run[i].sinks
    ensures k < |run[i].sinks| ==> run[i].sinks[k].flushed == |run[i].sinks[k].written| == run[i].ring.dequeuePos
  {
    hide ProducerStep, FlusherStep, DestructorStep, BeginCall, ProducersOk, SlotsOk, OwnersOk, FlushersOk;
    RunInv(run, i);
    var s, s' := run[i], run[i + 1];
    assert Next(s, s');
    var a :| Shape(s) && Enabled(s, a) && s' == Apply(s, a);
    if a != Consume {
      ConsumerUnmoved(s, a);
    }
  }

  /** The consumer is past the claim count of its exit test. */
  predicate PastCount(c: Consumer) {
    c.CheckConsumed? || c.FinalFlush? || c.Exited?
  }

  /** Only its own steps move the consumer. */
  lemma ConsumerUnmoved(s: State, a: Action)
    requires Shape(s) && Enabled(s, a) && a != Consume
    ensures Apply(s, a).consumer == s.consumer
  {
    hide FillArena, StoreArg;
  }

  lemma ConsumerCounts(s: State)
    requires Shape(s) && PastCount(ConsumerStep(s).consumer)
    ensures var c := ConsumerStep(s).consumer;
            if PastCount(s.consumer) then c.seen == s.consumer.seen
            else s.consumer.CheckEnqueued? && c.seen == s.ring.enqueuePos
  {
    hide Front, WriteSink, FlushOne, HasFront;
  }

  lemma CountedBefore(s: State, s': State)
    requires Next(s, s') && PastCount(s'.consumer)
    ensures if PastCount(s.consumer) then s'.consumer.seen == s.consumer.seen
            else s.consumer.CheckEnqueued? && s'.consumer.seen == s.ring.enqueuePos
  {
    var a :| Shape(s) && Enabled(s, a) && s' == Apply(s, a);
    hide ProducerStep, FlusherStep, DestructorStep, BeginCall, ConsumerStep, Next;
    if a == Consume {
      ConsumerCounts(s);
    } else {
      hide Apply;
      ConsumerUnmoved(s, a);
    }
  }

  /** The step of the run in which the exit test read the claim count. */
  lemma {:induction false} LastCount(run: seq<State>, j: nat) returns (i: nat)
    requires IsRun(run) && j < |run| && PastCount(run[j].consumer)
    ensures i < j && run[i].consumer.CheckEnqueued? && run[i].ring.enqueuePos == run[j].consumer.seen
    ensures forall m | i < m <= j :: PastCount(run[m].consumer)
  {
    hide Next;
    i := j - 1;
    assert Next(run[i], run[i + 1]);
    CountedBefore(run[i], run[j]);
    if PastCount(run[i].consumer) {
      i := LastCount(run, i);
    }
  }

  /**
    Nothing ever claimed is lost at exit if and only if nothing was claimed after the exit test last read the claim
    count.
   */
  lemma LostOnlyAfterLastCount(run: seq<State>) returns (i: nat)
    requires IsRun(run) && Last(run).consumer.Exited?
    ensures i < |run| - 1 && run[i].consumer.CheckEnqueued?
    ensures forall m | i < m < |run| :: PastCount(run[m].consumer)
    ensures var s := Last(run);
            && (forall k | 0 <= k < |s.sinks| :: InClaimOrder(s.sinks[k].written, run[i].history, |run[i].history|))
            && run[i].history <= s.history
            && (s.ring.dequeuePos == |s.history| <==> run[i].history == s.history)
  {
    hide Next, FlushersOk, ProducersOk, SlotsOk, OwnersOk;
    i := LastCount(run, |run| - 1);
    RunInv(run, i);
    RunInv(run, |run| - 1);
    HistoryGrows(run, i, |run| - 1);
  }

  /** In every state, every call that began is claimed, counted as dropped, or still undecided. */
  lemma CallsAreConserved(run: seq<State>)
    requires IsRun(run)
    ensures var s := Last(run); s.calls == |s.history| + s.dropped + Count(s.producers, Undecided)
    ensures var s := Last(run);
            s.consumer.Exited? && s.lateCalls == 0 && (forall t | 0 <= t < |s.producers| :: s.producers[t].Ready?)
            ==> s.ring.dequeuePos + s.dropped == s.calls
  {
    RunInv(run, |run| - 1);
    if forall t | 0 <= t < |Last(run).producers| :: Last(run).producers[t].Ready? {
      CountNone(Last(run).producers, Undecided);
    }
  }

  /**
    At the destructor's second read the first number is the number of records in every sink. The two printed numbers
    add up to all calls if and only if every claimed record was written and no call is undecided. A late call can
    spoil the first; a dropped call, which leaves the in-flight count before it is counted, the second.
   */
  lemma ShutdownSummaryIsExact(run: seq<State>)
    requires IsRun(run) && Last(run).destructor.ReadDropped?
    ensures var s := Last(run); var d := DestructorStep(s).destructor;
            && (d.written + d.dropped == s.calls <==>
                  d.written == |s.history| && forall t | 0 <= t < |s.producers| :: !Undecided(s.producers[t]))
            && forall k | 0 <= k < |s.sinks| :: |s.sinks[k].written| == d.written
  {
    hide OwnersOk, ProducersOk, SlotsOk, FlushersOk, Count, Next, Undecided;
    RunInv(run, |run| - 1);
    CountZeroIff(Last(run).producers, Undecided);
  }

  /** Without late calls they add up if and only if every `log` call has returned. */
  lemma ShutdownSummaryWithoutLateCalls(run: seq<State>)
    requires IsRun(run) && Last(run).destructor.ReadDropped? && Last(run).lateCalls == 0
    ensures var s := Last(run); var d := DestructorStep(s).destructor;
            && (d.written + d.dropped == s.calls <==> forall t | 0 <= t < |s.producers| :: s.producers[t].Ready?)
            && d.written == |s.history|
  {
    hide OwnersOk, ProducersOk, SlotsOk, FlushersOk, Count, Next;
    RunInv(run, |run| - 1);
    ShutdownSummaryIsExact(run);
    var s := Last(run);
    CountZeroIff(s.producers, InFlight);
    assert forall t | 0 <= t < |s.producers| :: !InFlight(s.producers[t]);
    assert forall t | 0 <= t < |s.producers| :: Undecided(s.producers[t]) <==> !s.producers[t].Ready?;
  }

  // ---- slots ---------------------------------------------------------------------

  /**
    While a slot is being read, its record and arena bytes are the ones its producer left, unclipped or clipped as
    specified.
   */
  lemma FrontIsStable(run: seq<State>)
    requires IsRun(run) && Reading(Last(run).consumer)
    ensures var s := Last(run);
            && s.ring.dequeuePos < |s.history| && Shape(s)
            && Front(s) == Rendered(s.history[s.ring.dequeuePos])
            && var args := s.history[s.ring.dequeuePos].args;
               Concat(Front(s).args) == Concat(args)[..Used(args)]
  {
    RunInv(run, |run| - 1);
    var s := Last(run);
    assert SlotOk(s, s.ring.dequeuePos);
    ClippedText(s.history[s.ring.dequeuePos].args);
  }

  predicate Reading(c: Consumer) {
    c.Render? || c.Write? || c.Releasing?
  }

  function SlotOf(s: State, t: nat): (slot: nat)
    requires t < |s.producers| && Holds(s.producers[t]) && s.ring.capacity > 0
  {
    s.producers[t].pos % s.ring.capacity
  }

  lemma HeldApart(s: State, t: nat, u: nat)
    requires Core(s) && t < |s.producers| && u < |s.producers| && t != u
    requires Holds(s.producers[t]) && Holds(s.producers[u])
    ensures SlotOf(s, t) != SlotOf(s, u)
  {
    hide ProducersOk, SlotsOk;
    var p, q := s.producers[t].pos, s.producers[u].pos;
    assert p in s.owner.Keys && q in s.owner.Keys;
    SlotsDiffer(Min(p, q), Max(p, q), s.ring.capacity);
  }

  lemma HeldApartFromFront(s: State, t: nat)
    requires Core(s) && ConsumerOk(s) && t < |s.producers| && Holds(s.producers[t]) && Reading(s.consumer)
    ensures SlotOf(s, t) != s.ring.dequeuePos % s.ring.capacity
  {
    hide ProducersOk, SlotsOk;
    assert s.producers[t].pos in s.owner.Keys;
    SlotsDiffer(s.ring.dequeuePos, s.producers[t].pos, s.ring.capacity);
  }

  /** No two calls write to one slot, and no call writes to the slot the consumer is reading. */
  lemma SlotsAreExclusive(run: seq<State>, t: nat, u: nat)
    requires IsRun(run) && t < |Last(run).producers| && u < |Last(run).producers|
    requires Holds(Last(run).producers[t])
    ensures Last(run).ring.capacity >= 2
    ensures t != u && Holds(Last(run).producers[u]) ==> SlotOf(Last(run), t) != SlotOf(Last(run), u)
    ensures Reading(Last(run).consumer) ==> SlotOf(Last(run), t) != Last(run).ring.dequeuePos % Last(run).ring.capacity
  {
    RunInv(run, |run| - 1);
    if t != u && Holds(Last(run).producers[u]) {
      HeldApart(Last(run), t, u);
    }
    if Reading(Last(run).consumer) {
      HeldApartFromFront(Last(run), t);
    }
  }

  /** A call is dropped only if, at the very step that decides it, every slot of the ring is taken. */
  lemma DroppedOnlyWhenFull(run: seq<State>, t: nat)
    requires IsRun(run) && t < |Last(run).producers| && Shape(Last(run))
    requires Last(run).producers[t].LoadSeq? && ProducerStep(Last(run), t).producers[t].Dropping?
    ensures |Last(run).history| == Released(Last(run)) + Last(run).ring.capacity
  {
    RunInv(run, |run| - 1);
    var s := Last(run);
    assert ProducerOk(s, s.producers[t]);
    ProbeTellsTruth(s.ring, Released(s), s.owner.Keys, s.producers[t].pos);
  }

  /** Claims outrun the consumer count by at most the capacity, plus one between the two stores of `consume`. */
  lemma BacklogIsBounded(run: seq<State>)
    requires IsRun(run)
    ensures var s := Last(run);
            var slack := if s.consumer.Advancing? then 1 else 0;
            s.ring.dequeuePos <= |s.history| <= s.ring.dequeuePos + s.ring.capacity + slack
  {
    RunInv(run, |run| - 1);
  }

  // ---- flush() -------------------------------------------------------------------

  lemma HistoryStep(s: State, s': State)
    requires Next(s, s')
    ensures s.history <= s'.history
  {
    hide Front, StoreArg, FillArena, UsedWith;
  }

  lemma {:induction false} HistoryGrows(run: seq<State>, i: nat, j: nat)
    requires IsRun(run) && i <= j < |run|
    ensures run[i].history <= run[j].history
  {
    hide Next;
    if i == j {
    } else {
      var m := j - 1;
      HistoryGrows(run, i, m);
      assert Next(run[m], run[m + 1]);
      HistoryStep(run[m], run[j]);
    }
  }

  /** Flusher `f` is in one and the same call, past reading its target, in state `i` and with target `n`. */
  ghost predicate HasTarget(run: seq<State>, f: nat, i: nat, n: nat) {
    i < |run| && f < |run[i].flushers| && Target(run[i].flushers[f], n)
  }

  predicate Target(f: Flusher, n: nat) {
    (f.Wait? || f.FlushSink? || f.Returned?) && f.target == n
  }

  ghost predicate InFlush(run: seq<State>, f: nat, i: nat) {
    exists n :: HasTarget(run, f, i, n)
  }

  /** A step inside one call keeps the call's target. */
  lemma TargetKept(s: State, s': State, f: nat, n: nat)
    requires Next(s, s') && f < |s.flushers| && Target(s.flushers[f], n)
    ensures f < |s'.flushers| && (Target(s'.flushers[f], n) || s'.flushers[f].CheckJoinable?)
  {
    hide ProducerStep, ConsumerStep, DestructorStep, BeginCall;
    var a :| Shape(s) && Enabled(s, a) && s' == Apply(s, a);
    if a != Flush(f) && a != CallFlush(f) {
      FlusherUnmoved(s, a, f);
    }
  }

  lemma {:induction false} TargetStays(run: seq<State>, f: nat, i: nat, j: nat, n: nat)
    requires IsRun(run) && i <= j < |run| && HasTarget(run, f, i, n)
    requires forall m | i <= m <= j :: InFlush(run, f, m)
    ensures HasTarget(run, f, j, n)
  {
    hide Next;
    if i == j {
    } else {
      var m := j - 1;
      TargetStays(run, f, i, m, n);
      assert InFlush(run, f, j) && Next(run[m], run[m + 1]);
      TargetKept(run[m], run[j], f, n);
    }
  }

  lemma SinkIsFlushed(s: State, f: nat, n: nat, k: nat)
    requires Inv(s) && f < |s.flushers| && s.flushers[f] == Returned(n) && k < |s.sinks|
    ensures n <= |s.history| && n <= s.sinks[k].flushed <= |s.sinks[k].written|
    ensures InClaimOrder(s.sinks[k].written[..n], s.history[..n], n)
  {
    assert FlusherOk(s, s.flushers[f]);
    assert InClaimOrder(s.sinks[k].written, s.history, WrittenTo(s, k));
  }

  /**
    `flush()`: a call that reads its target in state `i` and is back in state `j` has seen every record
    claimed by then written to every sink, in order, and every sink flushed after that.
   */
  lemma FlushedOnReturn(run: seq<State>, f: nat, i: nat, j: nat, k: nat)
    requires IsRun(run) && i < j < |run| && f < |run[i].flushers| && run[i].flushers[f].LoadTarget?
    requires forall m | i + 1 <= m <= j :: InFlush(run, f, m)
    requires f < |run[j].flushers| && run[j].flushers[f].Returned? && k < |run[j].sinks|
    ensures |run[i].history| <= run[j].sinks[k].flushed <= |run[j].sinks[k].written|
    ensures InClaimOrder(run[j].sinks[k].written[..|run[i].history|], run[i].history, |run[i].history|)
  {
    hide Inv, Next, InFlush, InClaimOrder;
    var n := |run[i].history|;
    TargetIsRead(run, f, i);
    TargetStays(run, f, i + 1, j, n);
    RunInv(run, j);
    HistoryGrows(run, i, j);
    SinkIsFlushed(run[j], f, n, k);
    assert run[j].history[..n] == run[i].history;
  }

  lemma ClaimCount(run: seq<State>, i: nat)
    requires IsRun(run) && i < |run|
    ensures |run[i].history| == run[i].ring.enqueuePos
  {
    RunInv(run, i);
  }

  /** Only its own steps move a flusher. */
  lemma FlusherUnmoved(s: State, a: Action, f: nat)
    requires Shape(s) && Enabled(s, a) && f < |s.flushers| && a != Flush(f) && a != CallFlush(f)
    ensures |Apply(s, a).flushers| == |s.flushers| && Apply(s, a).flushers[f] == s.flushers[f]
  {
    if !a.Flush? && !a.CallFlush? {
      FlushersUnmoved(s, a);
    }
  }

  lemma FlushersUnmoved(s: State, a: Action)
    requires Shape(s) && Enabled(s, a) && !a.Flush? && !a.CallFlush?
    ensures Apply(s, a).flushers == s.flushers
  {
    if a.Produce? {
      assert ProducerStep(s, a.t).flushers == s.flushers;
    } else if a.Consume? {
      assert ConsumerStep(s).flushers == s.flushers;
    }
  }

  lemma TargetIsRead(run: seq<State>, f: nat, i: nat)
    requires IsRun(run) && i + 1 < |run| && f < |run[i].flushers| && run[i].flushers[f].LoadTarget?
    requires InFlush(run, f, i + 1)
    ensures HasTarget(run, f, i + 1, |run[i].history|)
  {
    ClaimCount(run, i);
    assert Next(run[i], run[i + 1]);
    var a :| Shape(run[i]) && Enabled(run[i], a) && run[i + 1] == Apply(run[i], a);
    if a != Flush(f) {
      FlusherUnmoved(run[i], a, f);
    }
  }

  // ---- which flush() calls are skipped ---------------------------------------------

  /** The destructor has not come back from joining the consumer thread. */
  predicate BeforeJoin(d: Destructor) {
    d.NotCalled? || d.Joining?
  }

  /** From its first test a call goes on or is skipped; nothing else moves it. */
  lemma FlushTest(s: State, s': State, f: nat)
    requires Next(s, s') && f < |s.flushers| && s.flushers[f].CheckJoinable?
    ensures |s'.flushers| == |s.flushers|
    ensures s'.flushers[f] in {CheckJoinable, if BeforeJoin(s.destructor) then LoadTarget else Skipped}
  {
    hide ProducerStep, ConsumerStep, DestructorStep, BeginCall;
    var a :| Shape(s) && Enabled(s, a) && s' == Apply(s, a);
    if a != Flush(f) {
      FlusherUnmoved(s, a, f);
    }
  }

  lemma FlushMoves(s: State, s': State, f: nat)
    requires Next(s, s') && f < |s.flushers|
    ensures |s'.flushers| == |s.flushers|
    ensures s.flushers[f].Skipped? ==> s'.flushers[f].Skipped? || s'.flushers[f].CheckJoinable?
    ensures s'.flushers[f].Skipped? ==> s.flushers[f].Skipped? || s.flushers[f].CheckJoinable?
    ensures s.flushers[f].LoadTarget? ==> s'.flushers[f].LoadTarget? || s'.flushers[f].Wait?
  {
    hide ProducerStep, ConsumerStep, DestructorStep, BeginCall;
    var a :| Shape(s) && Enabled(s, a) && s' == Apply(s, a);
    if a != Flush(f) && a != CallFlush(f) {
      FlusherUnmoved(s, a, f);
    }
  }

  /** In one call from state `i` on: it has not begun another. */
  ghost predicate SameCall(run: seq<State>, f: nat, i: nat, j: nat) {
    forall m | i <= m <= j < |run| :: f < |run[m].flushers| && !run[m].flushers[f].CheckJoinable?
  }

  /** Once in the call's own steps, each state up to `j` is `LoadTarget` or, after the last of those, has a target. */
  lemma {:induction false} CallProgress(run: seq<State>, f: nat, i: nat, j: nat) returns (l: nat)
    requires IsRun(run) && i <= j < |run| && SameCall(run, f, i, j) && run[i].flushers[f].LoadTarget?
    ensures i <= l <= j && run[l].flushers[f].LoadTarget?
    ensures forall m | l + 1 <= m <= j :: InFlush(run, f, m)
  {
    hide Next, InFlush;
    if i == j {
      l := i;
    } else {
      var m := j - 1;
      l := CallProgress(run, f, i, m);
      assert Next(run[m], run[m + 1]);
      assert !run[j].flushers[f].CheckJoinable?;
      if l == m {
        FlushMoves(run[m], run[j], f);
        if run[j].flushers[f].LoadTarget? {
          l := j;
        } else {
          assert HasTarget(run, f, j, run[j].flushers[f].target);
          assert InFlush(run, f, j) by { InFlushAt(run, f, j, run[j].flushers[f].target); }
        }
      } else {
        var n := TargetAt(run, f, m);
        TargetKept(run[m], run[j], f, n);
        InFlushAt(run, f, j, n);
      }
    }
  }

  lemma InFlushAt(run: seq<State>, f: nat, i: nat, n: nat)
    requires HasTarget(run, f, i, n)
    ensures InFlush(run, f, i)
  {
  }

  lemma TargetAt(run: seq<State>, f: nat, i: nat) returns (n: nat)
    requires InFlush(run, f, i)
    ensures HasTarget(run, f, i, n)
  {
    n :| HasTarget(run, f, i, n);
  }

  lemma {:induction false} SkippedStays(run: seq<State>, f: nat, i: nat, j: nat)
    requires IsRun(run) && i <= j < |run| && SameCall(run, f, i, j) && run[i].flushers[f].Skipped?
    ensures run[j].flushers[f].Skipped?
  {
    hide Next;
    if i == j {
    } else {
      var m := j - 1;
      SkippedStays(run, f, i, m);
      assert Next(run[m], run[m + 1]);
      FlushMoves(run[m], run[j], f);
    }
  }

  /**
    `flush()` as a whole: a call makes its first test in state `i` and is over in state `j`. It is skipped if and only
    if the destructor had joined the consumer thread by that test. Otherwise it has returned, and every record claimed
    before the test is in every sink, in order, and flushed.
   */
  lemma FlushOutcome(run: seq<State>, f: nat, i: nat, j: nat)
    requires IsRun(run) && i < j < |run| && f < |run[i].flushers| && run[i].flushers[f].CheckJoinable?
    requires SameCall(run, f, i + 1, j) && (run[j].flushers[f].Returned? || run[j].flushers[f].Skipped?)
    ensures run[j].flushers[f].Skipped? <==> !run[i].destructor.NotCalled? && !run[i].destructor.Joining?
    ensures run[j].flushers[f].Returned? ==> forall k | 0 <= k < |run[j].sinks| ::
              && |run[i].history| <= run[j].sinks[k].flushed <= |run[j].sinks[k].written|
              && InClaimOrder(run[j].sinks[k].written[..|run[i].history|], run[i].history, |run[i].history|)
  {
    hide Next, InFlush, InClaimOrder;
    assert Next(run[i], run[i + 1]);
    FlushTest(run[i], run[i + 1], f);
    if BeforeJoin(run[i].destructor) {
      var l := CallProgress(run, f, i + 1, j);
      var n := TargetAt(run, f, j);
      HistoryGrows(run, i, l);
      forall k | 0 <= k < |run[j].sinks|
        ensures |run[i].history| <= run[j].sinks[k].flushed <= |run[j].sinks[k].written|
        ensures InClaimOrder(run[j].sinks[k].written[..|run[i].history|], run[i].history, |run[i].history|)
      {
        FlushedOnReturn(run, f, l, j, k);
        ClaimOrderShrinks(run[j].sinks[k].written, run[l].history, run[i].history);
      }
    } else {
      SkippedStays(run, f, i + 1, j);
    }
  }

  lemma ClaimOrderShrinks(written: seq<Record>, more: seq<Record>, less: seq<Record>)
    requires less <= more && |more| <= |written| && InClaimOrder(written[..|more|], more, |more|)
    ensures InClaimOrder(written[..|less|], less, |less|)
  {
    hide Rendered;
  }

  /** The test that skipped a call, and every state of the call since. */
  lemma {:induction false} SkippingTest(run: seq<State>, f: nat, j: nat) returns (i: nat)
    requires IsRun(run) && j < |run| && f < |run[j].flushers| && run[j].flushers[f].Skipped?
    ensures i < j && f < |run[i].flushers| && run[i].flushers[f].CheckJoinable? && SameCall(run, f, i + 1, j)
  {
    hide Next;
    i := j - 1;
    assert Next(run[i], run[i + 1]);
    FlusherCount(run[i], run[j]);
    FlushMoves(run[i], run[j], f);
    if run[i].flushers[f].Skipped? {
      i := SkippingTest(run, f, i);
    }
  }

  lemma FlusherCount(s: State, s': State)
    requires Next(s, s')
    ensures |s'.flushers| == |s.flushers|
  {
    hide ProducerStep, ConsumerStep, DestructorStep, BeginCall;
    var a :| Shape(s) && Enabled(s, a) && s' == Apply(s, a);
    if !a.Flush? && !a.CallFlush? {
      FlushersUnmoved(s, a);
    }
  }

  /**
    A skipped call finds at its test the consumer gone, and every sink holding and having flushed exactly what was
    claimed before the exit test read the claim count: everything ever claimed, if no call began after the stop flag.
   */
  lemma SkippedFindsAllFlushed(run: seq<State>, f: nat, j: nat) returns (i: nat)
    requires IsRun(run) && j < |run| && f < |run[j].flushers| && run[j].flushers[f].Skipped?
    ensures i < j && f < |run[i].flushers| && run[i].flushers[f].CheckJoinable? && SameCall(run, f, i + 1, j)
    ensures var s := run[i];
            && s.consumer.Exited? && s.stop
            && (forall k | 0 <= k < |s.sinks| ::
                  && InClaimOrder(s.sinks[k].written, s.history, s.consumer.seen)
                  && s.sinks[k].flushed == |s.sinks[k].written|)
            && (s.lateCalls == 0 ==> s.consumer.seen == |s.history|)
  {
    i := SkippingTest(run, f, j);
    FlushOutcome(run, f, i, j);
    RunInv(run, i);
    NothingLostAtExit(run[..i + 1]);
  }

  // ---- no loop hangs -----------------------------------------------------------------

  /** How many steps of its own a `flush` call has left once the consumer count has reached its target. */
  function FlushLeft(s: State, f: nat): (n: int)
    requires f < |s.flushers|
  {
    match s.flushers[f]
    case CheckJoinable => |s.sinks| + 4
    case LoadTarget => |s.sinks| + 3
    case Wait(_) => |s.sinks| + 2
    case FlushSink(_, k) => |s.sinks| - k + 1
    case _ => 0
  }

  /** Every step of a `flush` call is progress, unless it waits for a record that has not been consumed. */
  lemma FlushMovesOn(run: seq<State>, i: nat, f: nat)
    requires IsRun(run) && i < |run| && Shape(run[i]) && Enabled(run[i], Flush(f))
    ensures var s, s' := run[i], Apply(run[i], Flush(f));
            if s.flushers[f].Wait? && s.ring.dequeuePos < s.flushers[f].target then s' == s
            else |s'.flushers| == |s.flushers| && 0 <= FlushLeft(s', f) < FlushLeft(s, f)
  {
    hide ProducersOk, SlotsOk, OwnersOk, SinksOk, CountsOk, ConsumerOk, ConsumerStep, ProducerStep, BeginCall;
    RunInv(run, i);
    assert FlusherOk(run[i], run[i].flushers[f]);
  }

  /** How many sinks the consumer's loop over them still has to visit, and one more step to leave it. */
  function SinksLeft(s: State): (n: int) {
    match s.consumer
    case Write(_, k) => |s.sinks| - k + 1
    case IdleFlush(k) => |s.sinks| - k + 1
    case FinalFlush(_, _, k) => |s.sinks| - k + 1
    case _ => 0
  }

  /** The consumer's loops over the sinks end. */
  lemma ConsumerMovesOn(run: seq<State>, i: nat)
    requires IsRun(run) && i < |run| && Shape(run[i]) && Enabled(run[i], Consume)
    requires run[i].consumer.Write? || run[i].consumer.IdleFlush? || run[i].consumer.FinalFlush?
    ensures var s, s' := run[i], Apply(run[i], Consume); 0 <= SinksLeft(s') < SinksLeft(s)
  {
    hide ProducersOk, SlotsOk, OwnersOk, FlushersOk, SinksOk;
    RunInv(run, i);
  }
}
