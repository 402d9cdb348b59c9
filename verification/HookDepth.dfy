/** A shadow object on its looper thread: its hooks, the guard against re-entry, and its destruction. */
module HookDepth {
  /** The guard's fields, and how often it has printed its warning. */
  datatype Guard = Guard(depth: int, warned: bool, warnings: nat)

  function Enter(g: Guard): (r: (bool, Guard)) {
    if g.depth > 0 then (false, if g.warned then g else Guard(g.depth, true, g.warnings + 1))
    else (true, g.(depth := g.depth + 1))
  }

  function Leave(g: Guard): (r: Guard) {
    g.(depth := g.depth - 1)
  }

  /** The emitted class `HookDepth`, updated in place. `running` is the number of hooks that are inside Mojo. */
  class Counter {
    var depth: int
    var warned: bool
    ghost var running: nat
    ghost var refused: nat
    ghost var warnings: nat

    ghost function Contents(): (g: Guard)
      reads this
    {
      Guard(depth, warned, warnings)
    }

    /**
      The counter is the number of hooks inside Mojo, at most one; a refusal has been reported, and only the first
      one.
     */
    ghost predicate Valid()
      reads this
    {
      depth == running <= 1 && (warned <==> refused > 0) && warnings == (if refused > 0 then 1 else 0)
    }

    constructor ()
      ensures Valid() && running == 0 && refused == 0 && Contents() == Guard(0, false, 0)
    {
      depth, warned, warnings := 0, false, 0;
      running, refused := 0, 0;
    }

    /** A hook gets into Mojo if and only if none is there. */
    method EnterHook() returns (ok: bool)
      requires Valid()
      modifies this
      ensures Valid()
      ensures ok <==> old(running) == 0
      ensures running == 1
      ensures refused == old(refused) + if ok then 0 else 1
      ensures (ok, Contents()) == Enter(old(Contents()))
    {
      if depth > 0 {
        if !warned {
          warnings := warnings + 1;
          warned := true;
        }
        refused := refused + 1;
        return false;
      }
      depth := depth + 1;
      running := running + 1;
      return true;
    }

    /** The hook that got in leaves, and the next one can enter. */
    method LeaveHook()
      requires Valid() && running == 1
      modifies this
      ensures Valid() && running == 0 && refused == old(refused)
      ensures Contents() == Leave(old(Contents()))
    {
      depth := depth - 1;
      running := running - 1;
    }
  }

  /** What runs on the object: a hook inside Mojo, a hook handled by the base class, or the destructor. */
  datatype Frame = InMojo(hook: string) | InBase(hook: string) | InDestructor

  /** The hook table: the slots that are not null, and whether there is a destroy function. */
  datatype Hooks = Hooks(slots: set<string>, destroy: bool)

  const NO_HOOKS := Hooks({}, false)

  /** In the destructor the table has been saved and cleared; `items` are still to be deleted. */
  datatype Phase = Alive | Destroying(saved: Hooks, items: nat) | Destroyed

  /** The object, the call stack (innermost frame last), and history: entries into Mojo and destroy calls. */
  datatype Shadow = Shadow(hooks: Hooks, guard: Guard, phase: Phase, frames: seq<Frame>, entries: nat, destroys: nat)

  datatype Event =
    | CallHook(hook: string)
    | Return
    | Delete(items: nat)
    | DeleteItem
    | FinishDelete

  ghost predicate Init(s: Shadow) {
    s.guard == Guard(0, false, 0) && s.phase == Alive && s.frames == [] && s.entries == s.destroys == 0
  }

  predicate OnTop(s: Shadow, f: Frame) {
    |s.frames| > 0 && s.frames[|s.frames| - 1] == f
  }

  /**
    Well-nested use: a hook may be called at any time until the object is gone, also from inside a hook or the
    destructor; deletion happens once; no hook returns into an object that is gone.
   */
  predicate Allowed(s: Shadow, e: Event) {
    match e
    case CallHook(_) => s.phase != Destroyed
    case Return => |s.frames| > 0 && !OnTop(s, InDestructor) && s.phase != Destroyed
    case Delete(_) => s.phase == Alive
    case DeleteItem => OnTop(s, InDestructor) && s.phase.Destroying? && s.phase.items > 0
    case FinishDelete => OnTop(s, InDestructor) && s.phase.Destroying? && s.phase.items == 0
  }

  /** A shadow's override: into Mojo if the slot is set and the guard lets it, else the base class. */
  function Override(s: Shadow, hook: string): (s': Shadow) {
    if hook !in s.hooks.slots then s.(frames := s.frames + [InBase(hook)])
    else
      var (ok, guard) := Enter(s.guard);
      if ok then s.(guard := guard, frames := s.frames + [InMojo(hook)], entries := s.entries + 1)
      else s.(guard := guard, frames := s.frames + [InBase(hook)])
  }

  function Apply(s: Shadow, e: Event): (s': Shadow)
    requires Allowed(s, e)
  {
    match e
    case CallHook(hook) => Override(s, hook)
    case Return =>
      var n := |s.frames| - 1;
      s.(frames := s.frames[..n], guard := if s.frames[n].InMojo? then Leave(s.guard) else s.guard)
    case Delete(items) =>
      s.(phase := Destroying(s.hooks, items), hooks := NO_HOOKS, frames := s.frames + [InDestructor])
    case DeleteItem => s.(phase := Destroying(s.phase.saved, s.phase.items - 1))
    case FinishDelete =>
      s.(phase := Destroyed, frames := s.frames[..|s.frames| - 1],
         destroys := s.destroys + if s.phase.saved.destroy then 1 else 0)
  }

  /** The states of a run of events from `s` on. */
  predicate Runs(s: Shadow, es: seq<Event>)
    decreases |es|
  {
    es == [] || (Allowed(s, es[0]) && Runs(Apply(s, es[0]), es[1..]))
  }

  function After(s: Shadow, es: seq<Event>): (s': Shadow)
    requires Runs(s, es)
    decreases |es|
  {
    if es == [] then s else After(Apply(s, es[0]), es[1..])
  }

  /** How many frames of the object are inside Mojo. */
  function Live(frames: seq<Frame>): (n: nat) {
    if frames == [] then 0
    else Live(frames[..|frames| - 1]) + if frames[|frames| - 1].InMojo? then 1 else 0
  }

  lemma LivePush(frames: seq<Frame>, f: Frame)
    ensures Live(frames + [f]) == Live(frames) + if f.InMojo? then 1 else 0
  {
    assert (frames + [f])[..|frames|] == frames;
  }

  lemma LivePop(frames: seq<Frame>)
    requires frames != []
    ensures var n := |frames| - 1; Live(frames) == Live(frames[..n]) + if frames[n].InMojo? then 1 else 0
  {
  }

  predicate Inv(s: Shadow) {
    && s.guard.depth == Live(s.frames) <= 1
    && (s.phase != Alive ==> s.hooks == NO_HOOKS)
    && s.guard.warnings == (if s.guard.warned then 1 else 0)
  }

  lemma ApplyKeeps(s: Shadow, e: Event)
    requires Inv(s) && Allowed(s, e)
    ensures Inv(Apply(s, e))
  {
    hide Live;
    match e
    case CallHook(hook) =>
      LivePush(s.frames, InMojo(hook));
      LivePush(s.frames, InBase(hook));
    case Delete(_) => LivePush(s.frames, InDestructor);
    case Return => LivePop(s.frames);
    case FinishDelete => LivePop(s.frames);
    case DeleteItem =>
  }

  lemma {:induction false} RunKeeps(s: Shadow, es: seq<Event>)
    requires Inv(s) && Runs(s, es)
    ensures Inv(After(s, es))
    decreases |es|
  {
    if es == [] {
    } else {
      ApplyKeeps(s, es[0]);
      RunKeeps(Apply(s, es[0]), es[1..]);
    }
  }

  /**
    Over every well-nested run, at most one frame of the object is inside Mojo, and the counter says how many; the
    warning is printed at most once.
   */
  lemma OneMojoFrame(s: Shadow, es: seq<Event>)
    requires Init(s) && Runs(s, es)
    ensures var s' := After(s, es); s'.guard.depth == Live(s'.frames) <= 1 && s'.guard.warnings <= 1
  {
    RunKeeps(s, es);
  }

  /**
    A hook enters Mojo exactly when its slot is set, destruction has not begun and no other hook of the object is in
    Mojo; otherwise the base class's version runs. The first hook refused because another is in Mojo is reported.
   */
  lemma EntersWhenFree(s: Shadow, es: seq<Event>, hook: string)
    requires Init(s) && Runs(s, es) && Allowed(After(s, es), CallHook(hook))
    ensures var s' := After(s, es); var s'' := Apply(s', CallHook(hook));
            var asked := hook in s.hooks.slots && s'.phase == Alive;
            var enters := asked && Live(s'.frames) == 0;
            && s''.frames == s'.frames + [if enters then InMojo(hook) else InBase(hook)]
            && s''.entries == s'.entries + (if enters then 1 else 0)
            && (s''.guard.warned <==> s'.guard.warned || (asked && !enters))
  {
    RunKeeps(s, es);
    HooksFixed(s, es);
  }

  /** Until destruction the table is the one the object was made with. */
  lemma {:induction false} HooksFixed(s: Shadow, es: seq<Event>)
    requires Runs(s, es)
    ensures After(s, es).phase == Alive ==> s.phase == Alive && After(s, es).hooks == s.hooks
    decreases |es|
  {
    if es == [] {
    } else {
      HooksFixed(Apply(s, es[0]), es[1..]);
    }
  }

  lemma {:induction false} NoEntry(s: Shadow, es: seq<Event>)
    requires s.hooks == NO_HOOKS && s.phase != Alive && Runs(s, es)
    ensures After(s, es).entries == s.entries
    decreases |es|
  {
    if es == [] {
    } else {
      NoEntry(Apply(s, es[0]), es[1..]);
    }
  }

  /** Once destruction has begun no hook enters Mojo any more, whatever is called while it runs. */
  lemma NoEntryAfterDelete(s: Shadow, es: seq<Event>, more: seq<Event>)
    requires Init(s) && Runs(s, es) && After(s, es).phase != Alive && Runs(After(s, es), more)
    ensures After(After(s, es), more).entries == After(s, es).entries
  {
    RunKeeps(s, es);
    NoEntry(After(s, es), more);
  }

  /** The destroy function runs at most once, and has run exactly when the object is gone and had one. */
  lemma {:induction false} DestroyedOnce(s: Shadow, es: seq<Event>)
    requires Init(s) && Runs(s, es)
    ensures var s' := After(s, es);
            && s'.destroys == (if s'.phase == Destroyed && s.hooks.destroy then 1 else 0)
  {
    DestroyFollows(s, es, s.hooks);
  }

  predicate DestroyOk(s: Shadow, made: Hooks) {
    && (s.phase == Alive ==> s.hooks == made)
    && (s.phase.Destroying? ==> s.phase.saved == made)
    && s.destroys == (if s.phase == Destroyed && made.destroy then 1 else 0)
  }

  lemma {:induction false} DestroyFollows(s: Shadow, es: seq<Event>, made: Hooks)
    requires DestroyOk(s, made) && Runs(s, es)
    ensures DestroyOk(After(s, es), made)
    decreases |es|
  {
    if es == [] {
    } else {
      DestroyFollows(Apply(s, es[0]), es[1..], made);
    }
  }

  // ---- a whole life ---------------------------------------------------------------------

  function Made(hooks: Hooks): (s: Shadow) {
    Shadow(hooks, Guard(0, false, 0), Alive, [], 0, 0)
  }

  /** The destructor deletes its items and is done. */
  function Finish(items: nat): (es: seq<Event>) {
    if items == 0 then [FinishDelete] else [DeleteItem] + Finish(items - 1)
  }

  lemma {:induction false} FinishRuns(s: Shadow, items: nat)
    requires s.phase.Destroying? && s.phase.items == items && OnTop(s, InDestructor)
    ensures Runs(s, Finish(items))
    ensures After(s, Finish(items)).phase == Destroyed && After(s, Finish(items)).frames == s.frames[..|s.frames| - 1]
    decreases items
  {
    if items == 0 {
      assert Finish(0)[1..] == [];
    } else {
      FinishRuns(Apply(s, DeleteItem), items - 1);
      assert Finish(items)[1..] == Finish(items - 1);
    }
  }

  lemma {:induction false} RunsOn(s: Shadow, es: seq<Event>, more: seq<Event>)
    requires Runs(s, es) && Runs(After(s, es), more)
    ensures Runs(s, es + more) && After(s, es + more) == After(After(s, es), more)
    decreases |es|
  {
    if es == [] {
      assert es + more == more;
    } else {
      RunsOn(Apply(s, es[0]), es[1..], more);
      assert (es + more)[1..] == es[1..] + more;
    }
  }

  lemma Then(s: Shadow, es: seq<Event>, e: Event)
    requires Runs(s, es) && Allowed(After(s, es), e)
    ensures Runs(s, es + [e]) && After(s, es + [e]) == Apply(After(s, es), e)
  {
    assert [e][1..] == [];
    RunsOn(s, es, [e]);
  }

  /** A hook enters Mojo, and another one called meanwhile is handled by the base class. */
  lemma Used(hooks: Hooks, hook: string, other: string) returns (es: seq<Event>)
    requires hook in hooks.slots
    ensures Runs(Made(hooks), es) && CallHook(other) in es
    ensures var s := After(Made(hooks), es);
            s.hooks == hooks && s.phase == Alive && s.frames == [] && s.entries == 1 && s.destroys == 0
  {
    hide Runs, After;
    var s := Made(hooks);
    StartsHere(s);
    es := Stepped(s, [], CallHook(hook));
    es := Stepped(s, es, CallHook(other));
    es := Stepped(s, es, Return);
    es := Stepped(s, es, Return);
  }

  /**
    Every object can live like this, with any number of items: a hook enters Mojo, another one called meanwhile is
    handled by the base class, and so is one called from the destructor.
   */
  lemma WholeLife(hooks: Hooks, hook: string, other: string, items: nat) returns (es: seq<Event>)
    requires hook in hooks.slots
    ensures Init(Made(hooks)) && Runs(Made(hooks), es)
    ensures CallHook(other) in es && Delete(items) in es
    ensures var s := After(Made(hooks), es);
            s.phase == Destroyed && s.frames == [] && s.entries == 1 && s.destroys == if hooks.destroy then 1 else 0
  {
    hide Runs, After;
    var s := Made(hooks);
    es := Used(hooks, hook, other);
    es := Stepped(s, es, Delete(items));
    es := Stepped(s, es, CallHook(hook));
    es := Stepped(s, es, Return);
    var d := After(s, es);
    assert d.frames == [InDestructor] && d.entries == 1;
    hide Apply, Allowed;
    FinishRuns(d, items);
    RunsOn(s, es, Finish(items));
    DestroyedOnce(s, es + Finish(items));
    NoEntryAfterDelete(s, es, Finish(items));
    es := es + Finish(items);
  }

  lemma StartsHere(s: Shadow)
    ensures Runs(s, []) && After(s, []) == s
  {
  }

  lemma Stepped(s: Shadow, es: seq<Event>, e: Event) returns (more: seq<Event>)
    requires Runs(s, es) && Allowed(After(s, es), e)
    ensures Runs(s, more) && After(s, more) == Apply(After(s, es), e) && e in more && forall x | x in es :: x in more
  {
    Then(s, es, e);
    more := es + [e];
  }
}
