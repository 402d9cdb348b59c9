/** The inductive invariant of the logger, part by part, and its preservation by every step. */
module LoggerInvariant {
  import opened Arithmetic
  import opened StringArena
  import opened MpscRing
  import opened Logger

  function Rendered(rec: Record): (msg: Record) {
    Record(rec.header, Clip(rec.args))
  }

  /** Slots given back to the producers; `dequeuePos` lags by one inside `consume`. */
  function Released(s: State): (n: nat) {
    s.ring.dequeuePos + if s.consumer.Advancing? then 1 else 0
  }

  predicate Holds(p: Producer) {
    p.Copying? || p.Publishing?
  }

  predicate InFlight(p: Producer) {
    !p.Ready? && !p.CountingDrop?
  }

  /** In a call that has neither claimed a position nor been counted as dropped. */
  predicate Undecided(p: Producer) {
    p.LoadPos? || p.LoadSeq? || p.Cas? || p.Dropping? || p.CountingDrop?
  }

  function Count(ps: seq<Producer>, f: Producer -> bool): (n: nat) {
    if |ps| == 0 then 0 else Count(ps[1..], f) + if f(ps[0]) then 1 else 0
  }

  lemma {:induction false} CountUpdate(ps: seq<Producer>, t: nat, p: Producer, f: Producer -> bool)
    requires t < |ps|
    ensures Count(ps[t := p], f) == Count(ps, f) - (if f(ps[t]) then 1 else 0) + (if f(p) then 1 else 0)
  {
    if t == 0 {
      assert ps[t := p][1..] == ps[1..];
    } else {
      assert ps[t := p][1..] == ps[1..][t - 1 := p];
      CountUpdate(ps[1..], t - 1, p, f);
    }
  }

  lemma {:induction false} CountPositive(ps: seq<Producer>, t: nat, f: Producer -> bool)
    requires t < |ps| && f(ps[t])
    ensures Count(ps, f) > 0
  {
    if t == 0 {
    } else {
      CountPositive(ps[1..], t - 1, f);
    }
  }

  lemma {:induction false} CountNone(ps: seq<Producer>, f: Producer -> bool)
    requires forall t | 0 <= t < |ps| :: !f(ps[t])
    ensures Count(ps, f) == 0
  {
    if |ps| == 0 {
    } else {
      assert !f(ps[0]);
      CountNone(ps[1..], f);
    }
  }

  lemma CountZeroIff(ps: seq<Producer>, f: Producer -> bool)
    ensures Count(ps, f) == 0 <==> forall t | 0 <= t < |ps| :: !f(ps[t])
  {
    if t :| 0 <= t < |ps| && f(ps[t]) {
      CountPositive(ps, t, f);
    } else {
      CountNone(ps, f);
    }
  }

  /** The slot holds what the consumer must see for `rec`. */
  ghost predicate SlotHolds(item: StoredRecord, arena: Arena, rec: Record) {
    item.header == rec.header && Resolve(item.args, arena) == Clip(rec.args)
  }

  ghost predicate RingOk(s: State) {
    && Shape(s)
    && MpscRing.Valid(s.ring, Released(s), s.owner.Keys)
    && |s.history| == s.ring.enqueuePos
  }

  ghost predicate OwnersOk(s: State) {
    && (forall p | p in s.owner ::
          && s.owner[p] < |s.producers|
          && Holds(s.producers[s.owner[p]]) && s.producers[s.owner[p]].pos == p)
    && (forall t | 0 <= t < |s.producers| :: Holds(s.producers[t]) ==>
          s.producers[t].pos in s.owner && s.owner[s.producers[t].pos] == t)
  }

  ghost predicate ProducerOk(s: State, p: Producer)
    requires RingOk(s)
  {
    match p
    case LoadSeq(_, pos) => pos <= s.ring.enqueuePos
    case Cas(_, pos) => pos <= s.ring.enqueuePos && pos < Released(s) + s.ring.capacity
    case Copying(rec, pos, stored, used) =>
      && pos < |s.history| && s.history[pos] == rec
      && |stored| <= |rec.args| && used == Used(rec.args[..|stored|])
      && Copied(rec.args[..|stored|], stored, s.arenas[pos % s.ring.capacity])
    case Publishing(rec, pos) =>
      && pos < |s.history| && s.history[pos] == rec
      && SlotHolds(s.items[pos % s.ring.capacity], s.arenas[pos % s.ring.capacity], rec)
    case _ => true
  }

  ghost predicate ProducersOk(s: State)
    requires RingOk(s)
  {
    forall t | 0 <= t < |s.producers| :: ProducerOk(s, s.producers[t])
  }

  ghost predicate SlotOk(s: State, p: nat)
    requires RingOk(s) && p < |s.history|
  {
    SlotHolds(s.items[p % s.ring.capacity], s.arenas[p % s.ring.capacity], s.history[p])
  }

  ghost predicate SlotsOk(s: State)
    requires RingOk(s)
  {
    forall p | Released(s) <= p < |s.history| && p !in s.owner :: SlotOk(s, p)
  }

  ghost predicate CountsOk(s: State) {
    && s.inFlight == Count(s.producers, InFlight)
    && s.calls == |s.history| + s.dropped + Count(s.producers, Undecided)
  }

  /** How many messages sink `k` must have received. */
  function WrittenTo(s: State, k: nat): (n: nat) {
    s.ring.dequeuePos +
    match s.consumer
    case Write(_, next) => if k < next then 1 else 0
    case Releasing => 1
    case Advancing => 1
    case _ => 0
  }

  /** `written` is the first `n` records of `history`, each once, in claim order, as rendered. */
  ghost predicate InClaimOrder(written: seq<Record>, history: seq<Record>, n: nat) {
    && |written| == n <= |history|
    && forall i | 0 <= i < n :: written[i] == Rendered(history[i])
  }

  ghost predicate SinksOk(s: State) {
    forall k | 0 <= k < |s.sinks| ::
      InClaimOrder(s.sinks[k].written, s.history, WrittenTo(s, k)) && s.sinks[k].flushed <= |s.sinks[k].written|
  }

  /** Nothing in flight, nothing new: what the consumer's exit test established still stands. */
  ghost predicate Quiet(s: State, settled: nat) {
    settled <= |s.history| && (s.lateCalls == 0 ==> s.inFlight == 0 && settled == |s.history|)
  }

  ghost predicate ConsumerOk(s: State) {
    match s.consumer
    case Render => s.ring.dequeuePos < |s.history| && s.ring.dequeuePos !in s.owner
    case Write(msg, k) =>
      && s.ring.dequeuePos < |s.history| && s.ring.dequeuePos !in s.owner
      && msg == Rendered(s.history[s.ring.dequeuePos]) && k <= |s.sinks|
    case Releasing => s.ring.dequeuePos < |s.history| && s.ring.dequeuePos !in s.owner
    case Advancing => s.ring.dequeuePos < |s.history|
    case CheckInFlight => s.stop
    case CheckEnqueued(n) => s.stop && Quiet(s, n)
    case CheckConsumed(n, seen) => s.stop && Quiet(s, n) && n <= seen && s.ring.dequeuePos <= seen
    case IdleFlush(k) => k <= |s.sinks| && forall j | 0 <= j < k :: s.sinks[j].flushed == |s.sinks[j].written|
    case FinalFlush(n, seen, k) =>
      && s.stop && Quiet(s, n) && n <= seen == s.ring.dequeuePos && k <= |s.sinks|
      && forall j | 0 <= j < k :: s.sinks[j].flushed == |s.sinks[j].written|
    case Exited(n, seen) =>
      && s.stop && Quiet(s, n) && n <= seen == s.ring.dequeuePos
      && forall j | 0 <= j < |s.sinks| :: s.sinks[j].flushed == |s.sinks[j].written|
    case _ => true
  }

  ghost predicate FlusherOk(s: State, f: Flusher) {
    match f
    case Wait(n) => n <= |s.history|
    case FlushSink(n, k) =>
      n <= s.ring.dequeuePos && k <= |s.sinks| && forall j | 0 <= j < k :: s.sinks[j].flushed >= n
    case Returned(n) => n <= s.ring.dequeuePos && forall j | 0 <= j < |s.sinks| :: s.sinks[j].flushed >= n
    case _ => true
  }

  ghost predicate FlushersOk(s: State) {
    forall f | 0 <= f < |s.flushers| :: FlusherOk(s, s.flushers[f])
  }

  ghost predicate DestructorOk(s: State) {
    && (s.destructor.NotCalled? ==> !s.stop)
    && (Joined(s) ==> s.consumer.Exited?)
    && (s.destructor.ReadDropped? || s.destructor.Done? ==> s.destructor.written == s.ring.dequeuePos)
  }

  /** Ring, slots and the producers that own them. */
  ghost predicate Core(s: State) {
    RingOk(s) && OwnersOk(s) && ProducersOk(s) && SlotsOk(s)
  }

  /** What has reached the sinks, and what consumer, flushers and destructor may rely on. */
  ghost predicate Outputs(s: State) {
    SinksOk(s) && ConsumerOk(s) && FlushersOk(s) && DestructorOk(s)
  }

  ghost predicate Inv(s: State) {
    Core(s) && CountsOk(s) && Outputs(s)
  }

  lemma InitInv(s: State)
    requires Init(s)
    ensures Inv(s)
  {
    NewRingValid(s.ring.capacity);
    CountNone(s.producers, InFlight);
    CountNone(s.producers, Undecided);
  }

  // ---- producer steps ---------------------------------------------------------

  /** A step that moves one producer between states that hold no position. */
  lemma MoveKeepsCore(s: State, s': State, t: nat)
    requires Core(s) && t < |s.producers| && |s'.producers| == |s.producers|
    requires s'.producers == s.producers[t := s'.producers[t]]
    requires s'.ring == s.ring && s'.items == s.items && s'.arenas == s.arenas && s'.consumer == s.consumer
    requires s'.history == s.history && s'.owner == s.owner
    requires !Holds(s.producers[t]) && !Holds(s'.producers[t]) && ProducerOk(s, s'.producers[t])
    ensures Core(s')
  {
    hide SlotHolds, Copied, Used, MpscRing.Valid;
    forall u | 0 <= u < |s'.producers| ensures ProducerOk(s', s'.producers[u]) {
      assert u != t ==> ProducerOk(s, s.producers[u]);
    }
    forall q | Released(s') <= q < |s'.history| && q !in s'.owner ensures SlotOk(s', q) {
      assert SlotOk(s, q);
    }
  }

  function Bit(b: bool): (n: int) {
    if b then 1 else 0
  }

  lemma CountsFollow(s: State, s': State, t: nat)
    requires CountsOk(s) && t < |s.producers| && |s'.producers| == |s.producers|
    requires s'.producers == s.producers[t := s'.producers[t]]
    requires s'.inFlight == s.inFlight - Bit(InFlight(s.producers[t])) + Bit(InFlight(s'.producers[t]))
    requires s'.calls - |s'.history| - s'.dropped ==
             s.calls - |s.history| - s.dropped - Bit(Undecided(s.producers[t])) + Bit(Undecided(s'.producers[t]))
    ensures CountsOk(s')
  {
    CountUpdate(s.producers, t, s'.producers[t], InFlight);
    CountUpdate(s.producers, t, s'.producers[t], Undecided);
  }

  /** Producers never disturb the sinks; only calls that begin after the stop flag can end the quiet. */
  lemma ProducersKeepOutputs(s: State, s': State, t: nat)
    requires Core(s) && CountsOk(s) && Outputs(s) && t < |s.producers|
    requires s'.sinks == s.sinks && s'.flushers == s.flushers && s'.consumer == s.consumer
    requires s'.destructor == s.destructor && s'.stop == s.stop && s'.ring.dequeuePos == s.ring.dequeuePos
    requires s.history <= s'.history && forall p | p in s'.owner :: p in s.owner || p >= |s.history|
    requires || InFlight(s.producers[t])
             || (s'.history == s.history && s'.inFlight == s.inFlight)
             || (s.stop ==> s'.lateCalls > 0)
    requires s'.lateCalls >= s.lateCalls
    ensures Outputs(s')
  {
    if InFlight(s.producers[t]) {
      CountPositive(s.producers, t, InFlight);
    }
    forall k | 0 <= k < |s'.sinks| ensures InClaimOrder(s'.sinks[k].written, s'.history, WrittenTo(s', k)) {
      assert InClaimOrder(s.sinks[k].written, s.history, WrittenTo(s, k));
    }
    forall f | 0 <= f < |s'.flushers| ensures FlusherOk(s', s'.flushers[f]) {
      assert FlusherOk(s, s.flushers[f]);
    }
  }

  lemma BeginKeeps(s: State, t: nat, rec: Record)
    requires Inv(s) && t < |s.producers| && s.producers[t].Ready?
    ensures Inv(BeginCall(s, t, rec))
  {
    var s' := BeginCall(s, t, rec);
    MoveKeepsCore(s, s', t);
    CountsFollow(s, s', t);
    ProducersKeepOutputs(s, s', t);
  }

  lemma SearchKeeps(s: State, t: nat)
    requires Inv(s) && t < |s.producers| && (s.producers[t].LoadPos? || s.producers[t].LoadSeq?)
    ensures Inv(ProducerStep(s, t))
  {
    hide Outputs, CountsOk, OwnersOk, SlotsOk, Copied, Used, SlotHolds;
    var s' := ProducerStep(s, t);
    assert ProducerOk(s, s.producers[t]);
    if s.producers[t].LoadSeq? {
      ProbeTellsTruth(s.ring, Released(s), s.owner.Keys, s.producers[t].pos);
    }
    MoveKeepsCore(s, s', t);
    CountsFollow(s, s', t);
    ProducersKeepOutputs(s, s', t);
  }

  lemma RetryKeeps(s: State, t: nat)
    requires Inv(s) && t < |s.producers| && s.producers[t].Cas?
    ensures Inv(At(s, t, LoadSeq(s.producers[t].rec, s.ring.enqueuePos)))
  {
    hide Outputs, CountsOk, OwnersOk, SlotsOk, Copied, Used, SlotHolds;
    var s' := At(s, t, LoadSeq(s.producers[t].rec, s.ring.enqueuePos));
    MoveKeepsCore(s, s', t);
    CountsFollow(s, s', t);
    ProducersKeepOutputs(s, s', t);
  }

  lemma LeaveKeeps(s: State, t: nat)
    requires Inv(s) && t < |s.producers|
    requires s.producers[t].Finishing? || s.producers[t].Dropping? || s.producers[t].CountingDrop?
    ensures Inv(ProducerStep(s, t))
  {
    var s' := ProducerStep(s, t);
    MoveKeepsCore(s, s', t);
    CountsFollow(s, s', t);
    ProducersKeepOutputs(s, s', t);
  }

  /** A claim only appends to the history, so it leaves every other producer's part alone. */
  lemma ClaimKeepsOther(s: State, t: nat, rec: Record, u: nat)
    requires Core(s) && t < |s.producers| && s.producers[t] == Cas(rec, s.ring.enqueuePos)
    requires RingOk(Claimed(s, t, rec)) && u < |s.producers| && u != t
    ensures ProducerOk(Claimed(s, t, rec), s.producers[u])
  {
    hide SlotHolds, Copied, Used, MpscRing.Valid, SlotsOk, OwnersOk;
    assert ProducerOk(s, s.producers[u]);
  }

  /** What the claimer has copied so far is nothing. */
  lemma ClaimStarts(s: State, t: nat, rec: Record)
    requires RingOk(s) && t < |s.producers| && RingOk(Claimed(s, t, rec))
    ensures ProducerOk(Claimed(s, t, rec), Copying(rec, s.ring.enqueuePos, [], 0))
  {
    hide MpscRing.Valid;
    assert rec.args[..0] == [];
  }

  lemma ClaimKeepsRing(s: State, t: nat, rec: Record)
    requires RingOk(s) && OwnersOk(s) && t < |s.producers| && s.ring.enqueuePos < Released(s) + s.ring.capacity
    requires !Holds(s.producers[t])
    ensures RingOk(Claimed(s, t, rec)) && OwnersOk(Claimed(s, t, rec))
  {
    ClaimKeepsValid(s.ring, Released(s), s.owner.Keys);
    assert Claimed(s, t, rec).owner.Keys == s.owner.Keys + {s.ring.enqueuePos};
  }

  lemma ClaimKeepsCore(s: State, t: nat, rec: Record)
    requires Core(s) && t < |s.producers| && s.producers[t] == Cas(rec, s.ring.enqueuePos)
    ensures Core(Claimed(s, t, rec))
  {
    var s' := Claimed(s, t, rec);
    assert ProducerOk(s, s.producers[t]);
    ClaimKeepsRing(s, t, rec);
    hide RingOk, OwnersOk, SlotHolds, ProducerOk;
    ClaimStarts(s, t, rec);
    forall u | 0 <= u < |s'.producers| ensures ProducerOk(s', s'.producers[u]) {
      if u != t {
        ClaimKeepsOther(s, t, rec, u);
      }
    }
    forall q | Released(s') <= q < |s'.history| && q !in s'.owner ensures SlotOk(s', q) {
      ClaimedIsOwned(s, t, rec, q);
      assert SlotOk(s, q);
    }
  }

  lemma ClaimedIsOwned(s: State, t: nat, rec: Record, q: nat)
    requires RingOk(s) && t < |s.producers| && q < |Claimed(s, t, rec).history| && q !in Claimed(s, t, rec).owner
    ensures q < |s.history| && q !in s.owner && Claimed(s, t, rec).history[q] == s.history[q]
  {
    hide MpscRing.Valid;
    assert s.ring.enqueuePos in Claimed(s, t, rec).owner;
  }

  lemma ClaimKeeps(s: State, t: nat)
    requires Inv(s) && t < |s.producers| && s.producers[t].Cas? && s.ring.enqueuePos == s.producers[t].pos
    ensures Inv(ProducerStep(s, t))
  {
    var s' := ProducerStep(s, t);
    ClaimKeepsCore(s, t, s.producers[t].rec);
    CountsFollow(s, s', t);
    ProducersKeepOutputs(s, s', t);
  }

  /** `s'` is `s` after producer `t` wrote to the slot it holds, and to nothing else. */
  ghost predicate WritesOwnSlot(s: State, s': State, t: nat) {
    && RingOk(s) && Shape(s') && t < |s.producers| && Holds(s.producers[t])
    && s' == s.(producers := s'.producers, items := s'.items, arenas := s'.arenas)
    && |s'.producers| == |s.producers| && s'.producers == s.producers[t := s'.producers[t]]
    && Holds(s'.producers[t]) && s'.producers[t].pos == s.producers[t].pos
    && var slot := s.producers[t].pos % s.ring.capacity;
       && s'.items == s.items[slot := s'.items[slot]]
       && s'.arenas == s.arenas[slot := s'.arenas[slot]]
  }

  lemma OtherSlotsUntouched(s: State, s': State, t: nat, p: nat)
    requires RingOk(s) && OwnersOk(s) && WritesOwnSlot(s, s', t)
    requires Released(s) <= p < |s.history| && p != s.producers[t].pos
    ensures s'.items[p % s.ring.capacity] == s.items[p % s.ring.capacity]
    ensures s'.arenas[p % s.ring.capacity] == s.arenas[p % s.ring.capacity]
  {
    var c, pos := s.ring.capacity, s.producers[t].pos;
    assert pos in s.owner.Keys;
    SlotsDiffer(Min(p, pos), Max(p, pos), c);
  }

  /** Writing to one's own slot disturbs no published slot ... */
  lemma PublishedUndisturbed(s: State, s': State, t: nat)
    requires Core(s) && WritesOwnSlot(s, s', t)
    ensures RingOk(s') && SlotsOk(s')
  {
    forall q | Released(s') <= q < |s'.history| && q !in s'.owner ensures SlotOk(s', q) {
      assert SlotOk(s, q);
      OtherSlotsUntouched(s, s', t, q);
    }
  }

  /** ... and no other producer. */
  lemma OthersUndisturbed(s: State, s': State, t: nat, u: nat)
    requires Core(s) && WritesOwnSlot(s, s', t) && RingOk(s') && u < |s.producers| && u != t
    ensures ProducerOk(s', s'.producers[u])
  {
    assert ProducerOk(s, s.producers[u]);
    if Holds(s.producers[u]) {
      assert s.producers[u].pos in s.owner.Keys;
      OtherSlotsUntouched(s, s', t, s.producers[u].pos);
    }
  }

  lemma SlotWriteKeepsCore(s: State, s': State, t: nat)
    requires Core(s) && WritesOwnSlot(s, s', t) && RingOk(s') && ProducerOk(s', s'.producers[t])
    ensures Core(s')
  {
    hide SlotHolds, Copied, Used, MpscRing.Valid;
    PublishedUndisturbed(s, s', t);
    forall u | 0 <= u < |s'.producers| ensures ProducerOk(s', s'.producers[u]) {
      if u != t {
        OthersUndisturbed(s, s', t, u);
      }
    }
  }

  lemma SlotWriteKeeps(s: State, s': State, t: nat)
    requires Inv(s) && WritesOwnSlot(s, s', t) && RingOk(s') && ProducerOk(s', s'.producers[t])
    ensures Inv(s')
  {
    SlotWriteKeepsCore(s, s', t);
    CountsFollow(s, s', t);
    ProducersKeepOutputs(s, s', t);
  }

  lemma CopyKeeps(s: State, t: nat)
    requires Inv(s) && t < |s.producers| && s.producers[t].Copying?
    requires |s.producers[t].stored| < |s.producers[t].rec.args|
    ensures Inv(CopiedArg(s, t))
  {
    hide Outputs, CountsOk, OwnersOk, SlotsOk, Copied, Used, MpscRing.Valid;
    var Copying(rec, pos, stored, used) := s.producers[t];
    assert ProducerOk(s, s.producers[t]);
    CopyNext(rec.args, |stored|, stored, s.arenas[pos % s.ring.capacity]);
    SlotWriteKeeps(s, CopiedArg(s, t), t);
  }

  lemma StoreKeeps(s: State, t: nat)
    requires Inv(s) && t < |s.producers| && s.producers[t].Copying?
    requires |s.producers[t].stored| >= |s.producers[t].rec.args|
    ensures Inv(StoredItem(s, t))
  {
    hide Outputs, CountsOk, OwnersOk, SlotsOk, Used, MpscRing.Valid;
    var Copying(rec, _, stored, _) := s.producers[t];
    assert ProducerOk(s, s.producers[t]);
    assert rec.args[..|stored|] == rec.args;
    SlotWriteKeeps(s, StoredItem(s, t), t);
  }

  lemma PublishKeepsRing(s: State, t: nat)
    requires RingOk(s) && OwnersOk(s) && t < |s.producers| && s.producers[t].Publishing?
    ensures RingOk(Published(s, t)) && OwnersOk(Published(s, t))
  {
    var pos, s' := s.producers[t].pos, Published(s, t);
    PublishKeepsValid(s.ring, Released(s), s.owner.Keys, pos);
    assert s'.owner.Keys == s.owner.Keys - {pos};
  }

  lemma PublishKeepsCore(s: State, t: nat)
    requires Core(s) && t < |s.producers| && s.producers[t].Publishing?
    ensures Core(Published(s, t))
  {
    hide SlotHolds, Copied, Used, MpscRing.Valid;
    var pos, s' := s.producers[t].pos, Published(s, t);
    assert ProducerOk(s, s.producers[t]);
    PublishKeepsRing(s, t);
    forall u | 0 <= u < |s'.producers| ensures ProducerOk(s', s'.producers[u]) {
      assert ProducerOk(s, s.producers[u]);
    }
    forall q | Released(s') <= q < |s'.history| && q !in s'.owner ensures SlotOk(s', q) {
      assert q != pos ==> SlotOk(s, q);
    }
  }

  lemma PublishKeeps(s: State, t: nat)
    requires Inv(s) && t < |s.producers| && s.producers[t].Publishing?
    ensures Inv(ProducerStep(s, t))
  {
    hide OwnersOk, ProducersOk, SlotsOk, MpscRing.Valid, CountsOk, Outputs;
    var s' := ProducerStep(s, t);
    PublishKeepsCore(s, t);
    CountsFollow(s, s', t);
    ProducersKeepOutputs(s, s', t);
  }

  lemma ProducerKeeps(s: State, t: nat)
    requires Inv(s) && t < |s.producers| && !s.producers[t].Ready?
    ensures Inv(ProducerStep(s, t))
  {
    match s.producers[t]
    case LoadPos(_) => SearchKeeps(s, t);
    case LoadSeq(_, _) => SearchKeeps(s, t);
    case Cas(_, pos) => if s.ring.enqueuePos == pos { ClaimKeeps(s, t); } else { RetryKeeps(s, t); }
    case Copying(rec, _, stored, _) => if |stored| < |rec.args| { CopyKeeps(s, t); } else { StoreKeeps(s, t); }
    case Publishing(_, _) => PublishKeeps(s, t);
    case _ => LeaveKeeps(s, t);
  }

  // ---- consumer, flush and destructor steps -----------------------------------------

  /** What follows from leaving the ring, the slots and the producers alone. */
  lemma ProducersUntouched(s: State, s': State)
    requires Inv(s) && Released(s') == Released(s)
    requires s'.ring == s.ring.(dequeuePos := s'.ring.dequeuePos) && s'.items == s.items && s'.arenas == s.arenas
    requires s'.producers == s.producers && s'.history == s.history && s'.owner == s.owner
    requires s'.inFlight == s.inFlight && s'.calls == s.calls && s'.dropped == s.dropped
    ensures Core(s') && CountsOk(s')
  {
    forall u | 0 <= u < |s'.producers| ensures ProducerOk(s', s'.producers[u]) {
      assert ProducerOk(s, s.producers[u]);
    }
    forall q | Released(s') <= q < |s'.history| && q !in s'.owner ensures SlotOk(s', q) {
      assert SlotOk(s, q);
    }
  }

  lemma ReadKeeps(s: State)
    requires Inv(s) && (s.consumer.Peek? || s.consumer.Render?)
    ensures Inv(ConsumerStep(s))
  {
    hide OwnersOk, ProducersOk, CountsOk, InClaimOrder, FlusherOk;
    ProducersUntouched(s, ConsumerStep(s));
    FrontIsPublished(s.ring, s.owner.Keys);
    if s.consumer.Render? {
      assert SlotOk(s, s.ring.dequeuePos);
    }
    ConsumerMoves(s, ConsumerStep(s));
  }

  lemma WriteKeepsOutputs(s: State)
    requires Outputs(s) && Shape(s) && s.consumer.Write?
    ensures Outputs(ConsumerStep(s))
  {
    hide Rendered;
    var s' := ConsumerStep(s);
    forall k | 0 <= k < |s'.sinks| ensures InClaimOrder(s'.sinks[k].written, s'.history, WrittenTo(s', k)) {
      assert InClaimOrder(s.sinks[k].written, s.history, WrittenTo(s, k));
    }
    forall f | 0 <= f < |s'.flushers| ensures FlusherOk(s', s'.flushers[f]) {
      assert FlusherOk(s, s.flushers[f]);
    }
  }

  lemma WriteKeeps(s: State)
    requires Inv(s) && s.consumer.Write?
    ensures Inv(ConsumerStep(s))
  {
    hide OwnersOk, ProducersOk, SlotsOk, MpscRing.Valid, CountsOk, SinksOk, FlushersOk, DestructorOk;
    ProducersUntouched(s, ConsumerStep(s));
    WriteKeepsOutputs(s);
  }

  lemma ReleaseKeepsCore(s: State)
    requires Core(s) && ConsumerOk(s) && s.consumer.Releasing?
    ensures Core(ConsumerStep(s))
  {
    hide SlotHolds, Copied, Used;
    var s' := ConsumerStep(s);
    ReleaseKeepsValid(s.ring, s.owner.Keys);
    forall u | 0 <= u < |s'.producers| ensures ProducerOk(s', s'.producers[u]) {
      assert ProducerOk(s, s.producers[u]);
    }
    forall q | Released(s') <= q < |s'.history| && q !in s'.owner ensures SlotOk(s', q) {
      assert SlotOk(s, q);
    }
  }

  lemma ReleaseKeepsOutputs(s: State)
    requires Outputs(s) && Shape(s) && s.consumer.Releasing?
    ensures Outputs(ConsumerStep(s))
  {
    var s' := ConsumerStep(s);
    forall k | 0 <= k < |s'.sinks| ensures InClaimOrder(s'.sinks[k].written, s'.history, WrittenTo(s', k)) {
      assert InClaimOrder(s.sinks[k].written, s.history, WrittenTo(s, k));
    }
    forall f | 0 <= f < |s'.flushers| ensures FlusherOk(s', s'.flushers[f]) {
      assert FlusherOk(s, s.flushers[f]);
    }
  }

  lemma ReleaseKeeps(s: State)
    requires Inv(s) && s.consumer.Releasing?
    ensures Inv(ConsumerStep(s))
  {
    hide OwnersOk, ProducersOk, SlotsOk, MpscRing.Valid, SinksOk, FlushersOk, DestructorOk, Count;
    ReleaseKeepsCore(s);
    ReleaseKeepsOutputs(s);
  }

  lemma AdvanceKeeps(s: State)
    requires Inv(s) && s.consumer.Advancing?
    ensures Inv(ConsumerStep(s))
  {
    ProducersUntouched(s, ConsumerStep(s));
  }

  lemma CheckKeeps(s: State)
    requires Inv(s)
    requires || s.consumer.CheckStop? || s.consumer.CheckInFlight?
             || s.consumer.CheckEnqueued? || s.consumer.CheckConsumed?
    ensures Inv(ConsumerStep(s))
  {
    hide OwnersOk, ProducersOk, SlotsOk, CountsOk, InClaimOrder, FlusherOk;
    ProducersUntouched(s, ConsumerStep(s));
    ConsumerMoves(s, ConsumerStep(s));
  }

  /** Flushing a sink only raises its flushed count, up to what has been written. */
  lemma FlushKeepsOthers(s: State, s': State, k: nat)
    requires Outputs(s) && k < |s.sinks| && s' == s.(sinks := FlushOne(s.sinks, k))
    ensures Outputs(s')
  {
    forall f | 0 <= f < |s'.flushers| ensures FlusherOk(s', s'.flushers[f]) {
      assert FlusherOk(s, s.flushers[f]);
    }
  }

  lemma DrainKeeps(s: State)
    requires Inv(s) && (s.consumer.IdleFlush? || s.consumer.FinalFlush?)
    ensures Inv(ConsumerStep(s))
  {
    hide OwnersOk, ProducersOk, SlotsOk, MpscRing.Valid, CountsOk, InClaimOrder, FlusherOk;
    var s' := ConsumerStep(s);
    ProducersUntouched(s, s');
    if s.consumer.next < |s.sinks| {
      FlushKeepsOthers(s, s.(sinks := s'.sinks), s.consumer.next);
      ConsumerMoves(s.(sinks := s'.sinks), s');
    } else {
      ConsumerMoves(s, s');
    }
  }

  /** The consumer moving between states in which the sinks are up to date. */
  lemma ConsumerMoves(s: State, s': State)
    requires Outputs(s) && s' == s.(consumer := s'.consumer) && ConsumerOk(s') && !Joined(s)
    requires forall k | 0 <= k < |s.sinks| :: WrittenTo(s', k) == WrittenTo(s, k)
    ensures Outputs(s')
  {
    forall f | 0 <= f < |s'.flushers| ensures FlusherOk(s', s'.flushers[f]) {
      assert FlusherOk(s, s.flushers[f]);
    }
  }

  lemma FlusherMoves(s: State, s': State, f: nat)
    requires Outputs(s) && f < |s.flushers| && |s'.flushers| == |s.flushers|
    requires s' == s.(flushers := s.flushers[f := s'.flushers[f]]) && FlusherOk(s, s'.flushers[f])
    ensures Outputs(s')
  {
    forall g | 0 <= g < |s'.flushers| ensures FlusherOk(s', s'.flushers[g]) {
      assert g != f ==> FlusherOk(s, s.flushers[g]);
    }
  }

  lemma FlusherKeepsOutputs(s: State, f: nat)
    requires Outputs(s) && |s.history| == s.ring.enqueuePos && f < |s.flushers|
    ensures Outputs(FlusherStep(s, f))
  {
    hide ConsumerOk, DestructorOk;
    var s' := FlusherStep(s, f);
    assert FlusherOk(s, s.flushers[f]);
    if s.flushers[f].FlushSink? && s.flushers[f].next < |s.sinks| {
      var mid := s.(sinks := s'.sinks);
      FlushKeepsOthers(s, mid, s.flushers[f].next);
      FlusherMoves(mid, s', f);
    } else {
      assert s'.flushers == s.flushers[f := s'.flushers[f]];
      FlusherMoves(s, s', f);
    }
  }

  lemma FlusherKeeps(s: State, f: nat)
    requires Inv(s) && f < |s.flushers|
    ensures Inv(FlusherStep(s, f))
  {
    hide OwnersOk, ProducersOk, SlotsOk, MpscRing.Valid, CountsOk, Outputs;
    ProducersUntouched(s, FlusherStep(s, f));
    FlusherKeepsOutputs(s, f);
  }

  lemma CallFlushKeeps(s: State, f: nat)
    requires Inv(s) && f < |s.flushers|
    ensures Inv(s.(flushers := s.flushers[f := CheckJoinable]))
  {
    var s' := s.(flushers := s.flushers[f := CheckJoinable]);
    ProducersUntouched(s, s');
    FlusherMoves(s, s', f);
  }

  lemma DestructorKeepsOutputs(s: State)
    requires Outputs(s) && (s.destructor.Joining? ==> s.consumer.Exited?)
    ensures Outputs(DestructorStep(s))
  {
    hide InClaimOrder;
    var s' := DestructorStep(s);
    forall f | 0 <= f < |s'.flushers| ensures FlusherOk(s', s'.flushers[f]) {
      assert FlusherOk(s, s.flushers[f]);
    }
  }

  lemma DestructorKeeps(s: State)
    requires Inv(s) && (s.destructor.Joining? ==> s.consumer.Exited?)
    ensures Inv(DestructorStep(s))
  {
    hide OwnersOk, ProducersOk, SlotsOk, MpscRing.Valid, CountsOk, Outputs;
    ProducersUntouched(s, DestructorStep(s));
    DestructorKeepsOutputs(s);
  }

  lemma StepKeeps(s: State, a: Action)
    requires Inv(s) && Enabled(s, a)
    ensures Inv(Apply(s, a))
  {
    match a
    case Begin(t, rec) => BeginKeeps(s, t, rec);
    case Produce(t) => ProducerKeeps(s, t);
    case SpuriousFailure(t) => RetryKeeps(s, t);
    case CallFlush(f) => CallFlushKeeps(s, f);
    case Flush(f) => FlusherKeeps(s, f);
    case Destroy => DestructorKeeps(s);
    case Consume =>
      match s.consumer {
        case Peek => ReadKeeps(s);
        case Render => ReadKeeps(s);
        case Write(_, _) => WriteKeeps(s);
        case Releasing => ReleaseKeeps(s);
        case Advancing => AdvanceKeeps(s);
        case IdleFlush(_) => DrainKeeps(s);
        case FinalFlush(_, _, _) => DrainKeeps(s);
        case _ => CheckKeeps(s);
      }
  }

  lemma NextKeeps(s: State, s': State)
    requires Inv(s) && Next(s, s')
    ensures Inv(s')
  {
    hide Inv, Apply;
    var a :| Shape(s) && Enabled(s, a) && s' == Apply(s, a);
    StepKeeps(s, a);
  }

  lemma RunStepKeeps(run: seq<State>, j: nat)
    requires IsRun(run) && j + 1 < |run| && Inv(run[j])
    ensures Inv(run[j + 1])
  {
    NextKeeps(run[j], run[j + 1]);
  }

  /** Every state of every run satisfies the invariant. */
  lemma {:induction false} RunInv(run: seq<State>, i: nat)
    requires IsRun(run) && i < |run|
    ensures Inv(run[i])
  {
    hide Inv, Next, Init;
    if i == 0 {
      InitInv(run[0]);
    } else {
      RunInv(run, i - 1);
      RunStepKeeps(run, i - 1);
    }
  }
}
