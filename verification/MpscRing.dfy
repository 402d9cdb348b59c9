/** The sequence-number ring buffer, one function per atomic access of the header. */
module MpscRing {
  import opened Arithmetic

  datatype Ring = Ring(capacity: nat, enqueuePos: nat, dequeuePos: nat, sequence: seq<nat>)

  /** What a producer learns from loading the sequence number of the slot it aims at. */
  datatype Probe = Claimable | Full | Stale

  function NewRing(capacity: nat): (r: Ring) {
    Ring(capacity, 0, 0, seq(capacity, i => i))
  }

  ghost predicate Shaped(r: Ring) {
    r.capacity >= 1 && |r.sequence| == r.capacity
  }

  function ProbeSlot(r: Ring, pos: nat): (p: Probe)
    requires Shaped(r)
  {
    var seqNo := r.sequence[pos % r.capacity];
    if seqNo == pos then Claimable else if seqNo < pos then Full else Stale
  }

  /** A successful compare-and-swap of `enqueuePos`. */
  function Claim(r: Ring): (r': Ring) {
    r.(enqueuePos := r.enqueuePos + 1)
  }

  function Publish(r: Ring, pos: nat): (r': Ring)
    requires Shaped(r)
  {
    r.(sequence := r.sequence[pos % r.capacity := pos + 1])
  }

  predicate HasFront(r: Ring)
    requires Shaped(r)
  {
    r.sequence[r.dequeuePos % r.capacity] == r.dequeuePos + 1
  }

  /** First store of `consume`: the slot is free for the next lap. */
  function Release(r: Ring): (r': Ring)
    requires Shaped(r)
  {
    r.(sequence := r.sequence[r.dequeuePos % r.capacity := r.dequeuePos + r.capacity])
  }

  /** Second store of `consume`: the consumer moves on. */
  function Advance(r: Ring): (r': Ring) {
    r.(dequeuePos := r.dequeuePos + 1)
  }

  /**
    `released` counts the slots freed for the next lap, `held` the positions claimed and not yet
    published. Every slot's sequence number is determined by the one position of the current lap
    that maps to it.
   */
  ghost predicate Valid(r: Ring, released: nat, held: set<nat>) {
    && Shaped(r) && r.capacity >= 2
    && released <= r.enqueuePos <= released + r.capacity
    && (forall p | p in held :: released <= p < r.enqueuePos)
    && forall p | released <= p < released + r.capacity ::
         r.sequence[p % r.capacity] == if p < r.enqueuePos && p !in held then p + 1 else p
  }

  /** Writing one slot of the lap leaves every other position of the lap alone. */
  lemma LapUpdate<T>(slots: seq<T>, c: nat, start: nat, pos: nat, v: T)
    requires c > 0 && |slots| == c && start <= pos < start + c
    ensures forall p {:trigger p % c} | start <= p < start + c ::
              slots[pos % c := v][p % c] == if p == pos then v else slots[p % c]
  {
    forall p {:trigger p % c} | start <= p < start + c
      ensures slots[pos % c := v][p % c] == if p == pos then v else slots[p % c]
    {
      if p < pos {
        SlotsDiffer(p, pos, c);
      } else if pos < p {
        SlotsDiffer(pos, p, c);
      }
    }
  }

  /** The position of the current lap that shares `pos`'s slot. */
  lemma LapPosition(released: nat, pos: nat, c: nat) returns (p: nat)
    requires c > 0
    ensures released <= p < released + c && p % c == pos % c
    ensures pos < released + c ==> p >= pos && (pos >= released ==> p == pos)
  {
    p := released + (pos - released) % c;
    var q := (pos - released) / c;
    assert p == pos - q * c;
    assert pos == (pos % c) + (pos / c) * c;
    assert p == pos % c + (pos / c - q) * c;
    ModuloUnique(p, pos / c - q, pos % c, c);
    if pos < released + c {
      MultipleIsFar(q, c);
      if pos >= released {
        ModuloUnique(pos - released, 0, pos - released, c);
      }
    }
  }

  lemma NewRingValid(capacity: nat)
    requires capacity >= 2
    ensures Valid(NewRing(capacity), 0, {})
  {
    forall p | 0 <= p < capacity ensures p % capacity == p {
      ModuloUnique(p, 0, p, capacity);
    }
  }

  /**
    What a probe proves. "Claimable" bounds the position by the current lap, a bound that stays true
    afterwards; "full" is never wrong: every slot of the ring is taken at that very moment.
   */
  lemma ProbeTellsTruth(r: Ring, released: nat, held: set<nat>, pos: nat)
    requires Valid(r, released, held) && pos <= r.enqueuePos
    ensures ProbeSlot(r, pos).Claimable? ==>
              released <= pos < released + r.capacity && (pos < r.enqueuePos ==> pos in held)
    ensures ProbeSlot(r, pos).Full? ==> r.enqueuePos == pos == released + r.capacity
    ensures pos == r.enqueuePos == released + r.capacity ==> ProbeSlot(r, pos).Full?
    ensures pos == r.enqueuePos < released + r.capacity ==> ProbeSlot(r, pos).Claimable?
  {
    var p := LapPosition(released, pos, r.capacity);
    assert r.sequence[p % r.capacity] == p || r.sequence[p % r.capacity] == p + 1;
    if p + 1 == pos || pos + 1 == p {
      SlotsDiffer(Min(p, pos), Max(p, pos), r.capacity);
    }
    if pos == released + r.capacity {
      NextLap(released, r.capacity);
      if p != released {
        SlotsDiffer(released, p, r.capacity);
      }
    }
  }

  lemma ClaimKeepsValid(r: Ring, released: nat, held: set<nat>)
    requires Valid(r, released, held) && r.enqueuePos < released + r.capacity
    ensures Valid(Claim(r), released, held + {r.enqueuePos})
  {
  }

  lemma PublishKeepsValid(r: Ring, released: nat, held: set<nat>, pos: nat)
    requires Valid(r, released, held) && pos in held
    ensures Valid(Publish(r, pos), released, held - {pos})
  {
    LapUpdate(r.sequence, r.capacity, released, pos, pos + 1);
  }

  /** The consumer sees an item exactly when the oldest position is claimed and published. */
  lemma FrontIsPublished(r: Ring, held: set<nat>)
    requires Valid(r, r.dequeuePos, held)
    ensures HasFront(r) <==> r.dequeuePos < r.enqueuePos && r.dequeuePos !in held
  {
    assert r.sequence[r.dequeuePos % r.capacity] ==
           if r.dequeuePos < r.enqueuePos && r.dequeuePos !in held then r.dequeuePos + 1 else r.dequeuePos;
  }

  lemma ReleaseKeepsValid(r: Ring, held: set<nat>)
    requires Valid(r, r.dequeuePos, held) && r.dequeuePos < r.enqueuePos && r.dequeuePos !in held
    ensures Valid(Release(r), r.dequeuePos + 1, held)
  {
    var pos, c := r.dequeuePos, r.capacity;
    LapUpdate(r.sequence, c, pos, pos, pos + c);
    NextLap(pos, c);
    forall p | pos + 1 <= p < pos + 1 + c
      ensures Release(r).sequence[p % c] == if p < r.enqueuePos && p !in held then p + 1 else p
    {
      if p < pos + c {
        assert Release(r).sequence[p % c] == r.sequence[p % c];
      }
    }
  }

  /**
    A ring of capacity one passes the constructor's power-of-two assertion, but a published and
    unconsumed item does not protect its slot: the next probe answers "claimable".
   */
  lemma CapacityOneOverwrites()
    ensures var r := Publish(Claim(NewRing(1)), 0);
            HasFront(r) && r.enqueuePos == 1 && ProbeSlot(r, r.enqueuePos).Claimable?
  {
  }

  /** From capacity two on, the slot of an unreleased position is never claimable again. */
  lemma UnreleasedSlotIsProtected(r: Ring, released: nat, held: set<nat>, pos: nat)
    requires Valid(r, released, held) && released <= pos < r.enqueuePos
    ensures r.enqueuePos % r.capacity == pos % r.capacity ==> !ProbeSlot(r, r.enqueuePos).Claimable?
  {
    ProbeTellsTruth(r, released, held, r.enqueuePos);
    if r.enqueuePos < released + r.capacity {
      SlotsDiffer(pos, r.enqueuePos, r.capacity);
    }
  }
}
