/**
  Any number of calls on one chain at the same time: one step per access to a level, in every interleaving. A memory
  level is accessed under its mutex, and a file is taken to appear whole, being written under another name and renamed.
 */
module BlobCacheThreads {
  import opened BlobCache
  import opened BlobCacheTheorems
  import opened Wrappers
  import Base64

  /** What a call still has to do, level by level; `Checking` and `Writing` are the parts of a file level's insert. */
  datatype Frame =
    | InsertFrom(j: nat)
    | Checking(j: nat, at: nat)
    | Writing(j: nat)
    | AsyncInsertFrom(j: nat)
    | ContainsFrom(j: nat)
    | AsyncContainsFrom(j: nat)
    | AfterContains(j: nat)
    | FindFrom(j: nat)
    | Fill(j: nat)
    | AsyncFindFrom(j: nat)
    | AfterFind(j: nat)
    | AfterDelegate(j: nat)

  /**
    A call with its stack of frames, the innermost last; it has returned when the stack is empty. History: when the call
    began, and whether the chain contained the key then.
   */
  datatype Thread =
    | Idle
    | Running(call: Call, stack: seq<Frame>, answer: Answer, yes: bool, began: nat, sure: bool)

  datatype State = State(levels: seq<Level>, threads: seq<Thread>, clock: nat)

  datatype Action = Begin(t: nat, call: Call) | Step(t: nat)

  function Value(t: Thread): (v: Option<Blob>)
    requires t.Running?
  {
    if t.call.Insert? then Some(t.call.blob)
    else if t.answer.Found? then t.answer.blob else None
  }

  function First(c: Call): (f: Frame) {
    match c
    case Insert(async, _, _) => if async then AsyncInsertFrom(0) else InsertFrom(0)
    case Contains(async, _) => if async then AsyncContainsFrom(0) else ContainsFrom(0)
    case Find(async, _) => if async then AsyncFindFrom(0) else FindFrom(0)
  }

  function Start(s: State, c: Call): (t: Thread) {
    Running(c, [First(c)], Found(None), false, s.clock, ContainsSync(s.levels, c.key))
  }

  predicate Active(t: Thread) {
    t.Running? && t.stack != []
  }

  function Top(t: Thread): (f: Frame)
    requires Active(t)
  {
    t.stack[|t.stack| - 1]
  }

  /** The top frame replaced by others. */
  function Then(t: Thread, more: seq<Frame>): (t': Thread)
    requires Active(t)
    ensures t'.Running?
  {
    t.(stack := t.stack[..|t.stack| - 1] + more)
  }

  function Store(ls: seq<Level>, j: nat, k: Key, v: Blob, h: Hash): (ls': seq<Level>)
    requires j < |ls|
  {
    ls[j := InsertHere(ls[j], k, v, false, h)]
  }

  /** The frames of an insert, synchronous or not. */
  predicate Inserting(f: Frame) {
    f.InsertFrom? || f.Checking? || f.Writing? || f.AsyncInsertFrom?
  }

  function InsertStep(ls: seq<Level>, t: Thread, h: Hash): (r: (seq<Level>, Thread))
    requires Active(t) && Inserting(Top(t)) && Value(t).Some?
  {
    var k, v := t.call.key, Value(t).value;
    match Top(t)
    case InsertFrom(j) =>
      if j >= |ls| then (ls, Then(t, []))
      else if ls[j].Memory? then (Store(ls, j, k, v, h), Then(t, [InsertFrom(j + 1)]))
      else (ls, Then(t, [Checking(j, j)]))
    case Checking(j, at) =>
      (ls, Then(t, if at >= |ls| then [Writing(j)]
                   else if ContainsHere(ls[at], k) then [InsertFrom(j + 1)] else [Checking(j, at + 1)]))
    case Writing(j) => (if j < |ls| then Store(ls, j, k, v, h) else ls, Then(t, [InsertFrom(j + 1)]))
    case AsyncInsertFrom(j) =>
      (ls, Then(t, (if j + 1 < |ls| then [AsyncInsertFrom(j + 1)] else []) + [InsertFrom(j)]))
  }

  predicate Testing(f: Frame) {
    f.ContainsFrom? || f.AsyncContainsFrom? || f.AfterContains?
  }

  function ContainsStep(ls: seq<Level>, t: Thread): (t': Thread)
    requires Active(t) && Testing(Top(t))
  {
    match Top(t)
    case ContainsFrom(j) =>
      if j >= |ls| then Then(t, [])
      else if ContainsHere(ls[j], t.call.key) then Then(t, []).(yes := true)
      else Then(t, [ContainsFrom(j + 1)])
    case AsyncContainsFrom(j) => Then(t, [AfterContains(j), ContainsFrom(j)])
    case AfterContains(j) => Then(t, if t.yes || j + 1 >= |ls| then [] else [AsyncContainsFrom(j + 1)])
  }

  predicate Finding(f: Frame) {
    f.FindFrom? || f.Fill? || f.AsyncFindFrom? || f.AfterFind? || f.AfterDelegate?
  }

  function FindStep(ls: seq<Level>, t: Thread, h: Hash): (t': Thread)
    requires Active(t) && Finding(Top(t))
  {
    match Top(t)
    case FindFrom(j) =>
      if j >= |ls| then Then(t, [])
      else
        (match FindHere(ls[j], t.call.key, h)
         case Corrupt => t.(stack := [], answer := Corrupt)
         case Found(Some(v)) => Then(t, []).(answer := Found(Some(v)))
         case Found(None) => Then(t, if j + 1 >= |ls| then [] else [Fill(j), FindFrom(j + 1)]))
    case Fill(j) => Then(t, if Value(t).Some? then [InsertFrom(j)] else [])
    case AsyncFindFrom(j) => Then(t, [AfterFind(j), FindFrom(j)])
    case AfterFind(j) =>
      Then(t, if Value(t).Some? || j + 1 >= |ls| then [] else [AfterDelegate(j), AsyncFindFrom(j + 1)])
    case AfterDelegate(j) => Then(t, if Value(t).Some? then [AsyncInsertFrom(j)] else [])
  }

  function Run(ls: seq<Level>, t: Thread, h: Hash): (r: (seq<Level>, Thread))
    requires Active(t)
  {
    if Inserting(Top(t)) then if Value(t).Some? then InsertStep(ls, t, h) else (ls, t)
    else if Testing(Top(t)) then (ls, ContainsStep(ls, t))
    else (ls, FindStep(ls, t, h))
  }

  /** Any number of threads on any chain whose levels hold nothing but the one blob of each key. */
  ghost predicate Init(s: State, truth: map<Key, Blob>, h: Hash) {
    && |s.levels| > 0 && Agrees(s.levels, truth, h) && s.clock == 0
    && forall t | 0 <= t < |s.threads| :: s.threads[t] == Idle
  }

  /** Each key is only ever inserted with its one blob. */
  predicate Enabled(s: State, a: Action, truth: map<Key, Blob>) {
    && a.t < |s.threads|
    && match a
       case Begin(t, c) => !Active(s.threads[t]) && (c.Insert? ==> c.key in truth && truth[c.key] == c.blob)
       case Step(t) => Active(s.threads[t])
  }

  function Apply(s: State, a: Action, truth: map<Key, Blob>, h: Hash): (s': State)
    requires Enabled(s, a, truth)
  {
    match a
    case Begin(t, c) => State(s.levels, s.threads[t := Start(s, c)], s.clock + 1)
    case Step(t) =>
      var (levels, thread) := Run(s.levels, s.threads[t], h);
      State(levels, s.threads[t := thread], s.clock + 1)
  }

  ghost predicate Next(s: State, s': State, truth: map<Key, Blob>, h: Hash) {
    exists a :: Enabled(s, a, truth) && s' == Apply(s, a, truth, h)
  }

  ghost predicate IsRun(run: seq<State>, truth: map<Key, Blob>, h: Hash) {
    && |run| > 0 && Init(run[0], truth, h)
    && forall i {:trigger run[i + 1]} | 0 <= i < |run| - 1 :: Next(run[i], run[i + 1], truth, h)
  }

  // ---- the chain only grows ---------------------------------------------------------------------

  /** Levels keep their kind and never lose a key. */
  ghost predicate Grows(ls: seq<Level>, ls': seq<Level>) {
    && |ls'| == |ls|
    && (forall i | 0 <= i < |ls| :: Writable(ls'[i]) == Writable(ls[i]) && ls'[i].Memory? == ls[i].Memory?)
    && forall i, k: Key | 0 <= i < |ls| && ContainsHere(ls[i], k) :: ContainsHere(ls'[i], k)
  }

  lemma StoreGrows(ls: seq<Level>, j: nat, k: Key, v: Blob, h: Hash)
    requires j < |ls|
    ensures Grows(ls, Store(ls, j, k, v, h))
    ensures Writable(ls[j]) ==> ContainsHere(Store(ls, j, k, v, h)[j], k)
  {
    hide Base64.UrlBody;
  }

  lemma StoreAgrees(ls: seq<Level>, truth: map<Key, Blob>, j: nat, k: Key, v: Blob, h: Hash)
    requires j < |ls| && Agrees(ls, truth, h) && k in truth && truth[k] == v
    ensures Agrees(Store(ls, j, k, v, h), truth, h)
  {
    hide HoldsTruth, InsertHere;
    forall i, o: Key | 0 <= i < |ls| ensures HoldsTruth(Store(ls, j, k, v, h)[i], truth, o, h) {
      assert HoldsTruth(ls[i], truth, o, h);
      if i == j {
        InsertHereKeepsTruth(ls[j], truth, k, v, false, o, h);
      }
    }
  }

  /** Some level from `j` on has the key. */
  ghost predicate HasFrom(ls: seq<Level>, k: Key, j: nat) {
    exists i | j <= i < |ls| :: ContainsHere(ls[i], k)
  }

  lemma {:induction false} HasFromStart(ls: seq<Level>, k: Key)
    ensures ContainsSync(ls, k) <==> HasFrom(ls, k, 0)
  {
    hide ContainsHere;
    if |ls| == 0 {
    } else {
      var tail := ls[1..];
      HasFromStart(tail, k);
      assert forall i | 0 <= i < |tail| :: tail[i] == ls[i + 1];
      if i :| 0 <= i < |ls| && ContainsHere(ls[i], k) {
        assert i > 0 ==> ContainsHere(tail[i - 1], k);
      }
      if i :| 0 <= i < |tail| && ContainsHere(tail[i], k) {
        assert ContainsHere(ls[i + 1], k);
      }
    }
  }

  /** The key is there, or no level before `j` could have taken it. */
  ghost predicate Covered(ls: seq<Level>, k: Key, j: nat) {
    HasFrom(ls, k, 0) || forall i | 0 <= i < j && i < |ls| :: !Writable(ls[i])
  }

  lemma GrowsKeeps(ls: seq<Level>, ls': seq<Level>, k: Key, j: nat)
    requires Grows(ls, ls')
    ensures HasFrom(ls, k, j) ==> HasFrom(ls', k, j)
    ensures Covered(ls, k, j) ==> Covered(ls', k, j)
  {
    hide ContainsHere, Writable;
    if i :| j <= i < |ls| && ContainsHere(ls[i], k) {
      assert ContainsHere(ls'[i], k);
    }
    if i :| 0 <= i < |ls| && ContainsHere(ls[i], k) {
      assert ContainsHere(ls'[i], k);
    }
  }

  // ---- the invariant ----------------------------------------------------------------------------

  predicate FrameFits(c: Call, f: Frame) {
    match c
    case Insert(_, _, _) => Inserting(f)
    case Contains(_, _) => Testing(f)
    case Find(_, _) => Finding(f) || Inserting(f)
  }

  /** Where the insert of a call has got to: levels before this one have been offered the blob. */
  function Offered(t: Thread, n: nat): (j: nat)
    requires t.Running?
  {
    if t.stack == [] then n else if Inserting(Top(t)) then Top(t).j else 0
  }

  /** Whether the innermost frame starts a look from level `j` on. */
  predicate LooksFrom(t: Thread, j: nat) {
    Active(t) && var f := Top(t);
    (f.FindFrom? || f.AsyncFindFrom? || f.ContainsFrom? || f.AsyncContainsFrom?) && f.j == j
  }

  /** A call that is sure to see the key has seen it, or will come by it. */
  ghost predicate SureOk(ls: seq<Level>, t: Thread, seen: bool)
    requires t.Running?
  {
    t.sure ==> seen || exists j: nat :: LooksFrom(t, j) && HasFrom(ls, t.call.key, j)
  }

  /** Stack and values of a call. */
  ghost predicate FramesOk(truth: map<Key, Blob>, t: Thread)
    requires t.Running?
  {
    var k := t.call.key;
    && (forall i | 0 <= i < |t.stack| :: FrameFits(t.call, t.stack[i]))
    && (forall i | 0 <= i < |t.stack| && Inserting(t.stack[i]) :: Value(t).Some?)
    && t.answer.Found?
    && (Value(t).Some? ==> k in truth && Value(t).value == truth[k])
  }

  ghost predicate ProgressOk(ls: seq<Level>, t: Thread)
    requires t.Running?
  {
    match t.call
    case Insert(_, k, _) => Covered(ls, k, Offered(t, |ls|))
    case Contains(_, k) => (t.yes ==> HasFrom(ls, k, 0)) && SureOk(ls, t, t.yes)
    case Find(_, k) => (Value(t).Some? ==> HasFrom(ls, k, 0)) && SureOk(ls, t, Value(t).Some?)
  }

  ghost predicate ThreadOk(ls: seq<Level>, truth: map<Key, Blob>, t: Thread) {
    t.Running? ==> FramesOk(truth, t) && ProgressOk(ls, t)
  }

  ghost predicate Inv(s: State, truth: map<Key, Blob>, h: Hash) {
    && |s.levels| > 0 && Agrees(s.levels, truth, h)
    && forall t | 0 <= t < |s.threads| :: ThreadOk(s.levels, truth, s.threads[t])
  }

  lemma GrowsKeepsThread(ls: seq<Level>, ls': seq<Level>, truth: map<Key, Blob>, t: Thread)
    requires Grows(ls, ls') && ThreadOk(ls, truth, t)
    ensures ThreadOk(ls', truth, t)
  {
    hide Grows, Covered, HasFrom, FramesOk, LooksFrom;
    if t.Running? {
      var k := t.call.key;
      GrowsKeeps(ls, ls', k, Offered(t, |ls|));
      GrowsKeeps(ls, ls', k, 0);
      GrownLength(ls, ls');
      forall j: nat ensures HasFrom(ls, k, j) ==> HasFrom(ls', k, j) {
        GrowsKeeps(ls, ls', k, j);
      }
    }
  }

  lemma GrownLength(ls: seq<Level>, ls': seq<Level>)
    requires Grows(ls, ls')
    ensures |ls'| == |ls|
  {
  }

  /** Replacing the top frame by fitting ones keeps the stack in order. */
  lemma ThenFits(truth: map<Key, Blob>, t: Thread, more: seq<Frame>)
    requires Active(t) && FramesOk(truth, t)
    requires forall i | 0 <= i < |more| :: FrameFits(t.call, more[i]) && (Inserting(more[i]) ==> Value(t).Some?)
    ensures FramesOk(truth, Then(t, more))
  {
    hide FrameFits, Inserting;
    var t' := Then(t, more);
    forall i | 0 <= i < |t'.stack|
      ensures FrameFits(t.call, t'.stack[i]) && (Inserting(t'.stack[i]) ==> Value(t).Some?)
    {
      if i < |t.stack| - 1 {
        assert t'.stack[i] == t.stack[i];
      } else {
        assert t'.stack[i] == more[i - (|t.stack| - 1)];
      }
    }
  }

  lemma ThenTop(t: Thread, more: seq<Frame>)
    requires Active(t) && more != []
    ensures Active(Then(t, more)) && Top(Then(t, more)) == more[|more| - 1]
  {
  }

  // ---- an insert's steps ------------------------------------------------------------------------

  lemma InsertLevels(ls: seq<Level>, truth: map<Key, Blob>, t: Thread, h: Hash)
    requires Agrees(ls, truth, h) && Active(t) && Inserting(Top(t)) && Value(t).Some? && FramesOk(truth, t)
    ensures var ls' := InsertStep(ls, t, h).0; Agrees(ls', truth, h) && Grows(ls, ls')
  {
    hide Agrees, Store, FrameFits;
    var j := Top(t).j;
    if j < |ls| {
      StoreAgrees(ls, truth, j, t.call.key, Value(t).value, h);
      StoreGrows(ls, j, t.call.key, Value(t).value, h);
    }
  }

  lemma InsertFrames(ls: seq<Level>, truth: map<Key, Blob>, t: Thread, h: Hash)
    requires Active(t) && Inserting(Top(t)) && Value(t).Some? && FramesOk(truth, t)
    ensures FramesOk(truth, InsertStep(ls, t, h).1)
  {
    hide Store;
    assert !t.call.Contains? by {
      assert FrameFits(t.call, t.stack[|t.stack| - 1]);
    }
    var j := Top(t).j;
    ThenFits(truth, t, []);
    ThenFits(truth, t, [InsertFrom(j + 1)]);
    ThenFits(truth, t, [Writing(j)]);
    ThenFits(truth, t, [AsyncInsertFrom(j + 1), InsertFrom(j)]);
    ThenFits(truth, t, [] + [InsertFrom(j)]);
    if Top(t).Checking? {
      ThenFits(truth, t, [Checking(j, Top(t).at + 1)]);
    } else {
      ThenFits(truth, t, [Checking(j, j)]);
    }
  }

  lemma CoveredMore(ls: seq<Level>, k: Key, j: nat)
    requires Covered(ls, k, j)
    ensures HasFrom(ls, k, 0) || j >= |ls| ==> forall m: nat :: Covered(ls, k, m)
    ensures j < |ls| && !Writable(ls[j]) ==> Covered(ls, k, j + 1)
  {
    hide HasFrom, Writable;
  }

  /** A blob that a level has taken is there; one that it has not, the level could not take. */
  lemma StoreCovers(ls: seq<Level>, j: nat, k: Key, v: Blob, h: Hash)
    requires Covered(ls, k, j)
    ensures j < |ls| ==> Covered(Store(ls, j, k, v, h), k, j + 1)
    ensures j >= |ls| ==> Covered(ls, k, j + 1)
  {
    CoveredMore(ls, k, j);
    if j < |ls| {
      StoreGrows(ls, j, k, v, h);
      var ls' := Store(ls, j, k, v, h);
      hide Store, ContainsHere, Writable;
      GrowsKeeps(ls, ls', k, j);
      GrowsKeeps(ls, ls', k, j + 1);
    }
  }

  lemma InsertCovers(ls: seq<Level>, truth: map<Key, Blob>, t: Thread, h: Hash)
    requires Active(t) && Inserting(Top(t)) && t.call.Insert? && FramesOk(truth, t)
    requires Covered(ls, t.call.key, Top(t).j)
    ensures var (ls', t') := InsertStep(ls, t, h); Covered(ls', t.call.key, Offered(t', |ls'|))
  {
    hide Store, Covered, HasFrom, FrameFits;
    var k, v, j := t.call.key, t.call.blob, Top(t).j;
    CoveredMore(ls, k, j);
    StoreCovers(ls, j, k, v, h);
    if Top(t).Checking? && Top(t).at < |ls| && ContainsHere(ls[Top(t).at], k) {
      SeenIsThere(ls, k, Top(t).at);
    }
    if Top(t).AsyncInsertFrom? {
      ThenTop(t, (if j + 1 < |ls| then [AsyncInsertFrom(j + 1)] else []) + [InsertFrom(j)]);
    }
  }

  lemma SeenIsThere(ls: seq<Level>, k: Key, i: nat)
    requires i < |ls| && ContainsHere(ls[i], k)
    ensures HasFrom(ls, k, 0)
  {
  }

  lemma InsertKeeps(ls: seq<Level>, truth: map<Key, Blob>, t: Thread, h: Hash)
    requires Agrees(ls, truth, h) && Active(t) && Inserting(Top(t)) && ThreadOk(ls, truth, t)
    ensures Value(t).Some?
    ensures var (ls', t') := InsertStep(ls, t, h); Agrees(ls', truth, h) && Grows(ls, ls') && ThreadOk(ls', truth, t')
  {
    assert Value(t).Some? && FrameFits(t.call, Top(t));
    InsertLevels(ls, truth, t, h);
    InsertFrames(ls, truth, t, h);
    var (ls', t') := InsertStep(ls, t, h);
    if t.call.Insert? {
      InsertCovers(ls, truth, t, h);
    } else {
      hide Grows, HasFrom, Agrees, FramesOk;
      GrowsKeeps(ls, ls', t.call.key, 0);
    }
  }

  // ---- the steps of contains and find -----------------------------------------------------------------

  lemma ContainsFrames(ls: seq<Level>, truth: map<Key, Blob>, t: Thread)
    requires Active(t) && Testing(Top(t)) && FramesOk(truth, t)
    ensures t.call.Contains? && FramesOk(truth, ContainsStep(ls, t))
  {
    assert FrameFits(t.call, t.stack[|t.stack| - 1]);
    var j := Top(t).j;
    ThenFits(truth, t, []);
    ThenFits(truth, t, [ContainsFrom(j + 1)]);
    ThenFits(truth, t, [AfterContains(j), ContainsFrom(j)]);
    ThenFits(truth, t, [AsyncContainsFrom(j + 1)]);
  }

  lemma NextLook(ls: seq<Level>, k: Key, j: nat)
    requires HasFrom(ls, k, j)
    ensures j < |ls| && (ContainsHere(ls[j], k) || HasFrom(ls, k, j + 1))
  {
  }

  lemma ContainsKeeps(ls: seq<Level>, truth: map<Key, Blob>, t: Thread)
    requires Active(t) && Testing(Top(t)) && ThreadOk(ls, truth, t)
    ensures ThreadOk(ls, truth, ContainsStep(ls, t))
  {
    ContainsFrames(ls, truth, t);
    hide FramesOk, HasFrom, ContainsHere;
    var k, f, t' := t.call.key, Top(t), ContainsStep(ls, t);
    if f.ContainsFrom? && f.j < |ls| && ContainsHere(ls[f.j], k) {
      SeenIsThere(ls, k, f.j);
    }
    if t.sure && !t.yes {
      var j: nat :| LooksFrom(t, j) && HasFrom(ls, k, j);
      NextLook(ls, k, j);
      if f.AsyncContainsFrom? {
        ThenTop(t, [AfterContains(j), ContainsFrom(j)]);
        assert LooksFrom(t', j);
      } else if !ContainsHere(ls[j], k) {
        ThenTop(t, [ContainsFrom(j + 1)]);
        assert LooksFrom(t', j + 1);
      }
    }
  }

  lemma AgreesAt(ls: seq<Level>, truth: map<Key, Blob>, k: Key, j: nat, h: Hash)
    requires Agrees(ls, truth, h) && j < |ls|
    ensures ContainsHere(ls[j], k) ==> k in truth
    ensures FindHere(ls[j], k, h) == Found(if ContainsHere(ls[j], k) then Some(truth[k]) else None)
  {
    hide FindHere, ContainsHere;
    assert HoldsTruth(ls[j], truth, k, h);
    FindHereIsTruth(ls[j], truth, k, h);
  }

  /** The stack of a lookup after one step. */
  lemma FindFrames(ls: seq<Level>, truth: map<Key, Blob>, t: Thread, h: Hash)
    requires Agrees(ls, truth, h) && Active(t) && Finding(Top(t)) && FramesOk(truth, t)
    ensures t.call.Find? && FramesOk(truth, FindStep(ls, t, h))
  {
    assert FrameFits(t.call, t.stack[|t.stack| - 1]);
    var j := Top(t).j;
    if Top(t).FindFrom? && j < |ls| {
      AgreesAt(ls, truth, t.call.key, j, h);
    }
    hide Agrees, FindHere, ContainsHere;
    ThenFits(truth, t, []);
    ThenFits(truth, t, [Fill(j), FindFrom(j + 1)]);
    ThenFits(truth, t, [AfterFind(j), FindFrom(j)]);
    ThenFits(truth, t, [AfterDelegate(j), AsyncFindFrom(j + 1)]);
    if Value(t).Some? {
      ThenFits(truth, t, [InsertFrom(j)]);
      ThenFits(truth, t, [AsyncInsertFrom(j)]);
    }
  }

  lemma FindKeeps(ls: seq<Level>, truth: map<Key, Blob>, t: Thread, h: Hash)
    requires Agrees(ls, truth, h) && Active(t) && Finding(Top(t)) && ThreadOk(ls, truth, t)
    ensures ThreadOk(ls, truth, FindStep(ls, t, h))
  {
    FindFrames(ls, truth, t, h);
    var k, f, t' := t.call.key, Top(t), FindStep(ls, t, h);
    if f.FindFrom? && f.j < |ls| {
      AgreesAt(ls, truth, k, f.j, h);
      if ContainsHere(ls[f.j], k) {
        SeenIsThere(ls, k, f.j);
      }
    }
    hide FramesOk, HasFrom, ContainsHere, FindHere, Agrees;
    if t.sure && Value(t).None? {
      var j: nat :| LooksFrom(t, j) && HasFrom(ls, k, j);
      NextLook(ls, k, j);
      if f.AsyncFindFrom? {
        ThenTop(t, [AfterFind(j), FindFrom(j)]);
        assert LooksFrom(t', j);
      } else if !ContainsHere(ls[j], k) {
        LaterLevel(ls, k, j + 1);
        ThenTop(t, [Fill(j), FindFrom(j + 1)]);
        assert LooksFrom(t', j + 1);
      }
    }
  }

  lemma LaterLevel(ls: seq<Level>, k: Key, j: nat)
    requires HasFrom(ls, k, j)
    ensures j < |ls|
  {
  }

  // ---- runs ---------------------------------------------------------------------------------------

  lemma StartOk(s: State, c: Call, truth: map<Key, Blob>)
    requires c.Insert? ==> c.key in truth && truth[c.key] == c.blob
    ensures ThreadOk(s.levels, truth, Start(s, c))
  {
    hide ContainsSync, HasFrom;
    HasFromStart(s.levels, c.key);
    assert c.Contains? || c.Find? ==> LooksFrom(Start(s, c), 0);
  }

  lemma RunKeeps(ls: seq<Level>, truth: map<Key, Blob>, t: Thread, h: Hash)
    requires Agrees(ls, truth, h) && Active(t) && ThreadOk(ls, truth, t)
    ensures var (ls', t') := Run(ls, t, h); Agrees(ls', truth, h) && Grows(ls, ls') && ThreadOk(ls', truth, t')
  {
    hide Agrees, ThreadOk, InsertStep, ContainsStep, FindStep;
    if Inserting(Top(t)) {
      InsertKeeps(ls, truth, t, h);
    } else if Testing(Top(t)) {
      ContainsKeeps(ls, truth, t);
    } else {
      FindKeeps(ls, truth, t, h);
    }
  }

  /** Every step of every interleaving keeps the invariant, and the chain only grows. */
  lemma StepKeeps(s: State, a: Action, truth: map<Key, Blob>, h: Hash)
    requires Inv(s, truth, h) && Enabled(s, a, truth)
    ensures Inv(Apply(s, a, truth, h), truth, h) && Grows(s.levels, Apply(s, a, truth, h).levels)
  {
    hide Agrees, ThreadOk, Run, Grows, Start;
    var s' := Apply(s, a, truth, h);
    match a {
      case Begin(t, c) =>
        StartOk(s, c, truth);
        SameGrows(s.levels);
      case Step(t) =>
        RunKeeps(s.levels, truth, s.threads[t], h);
    }
    GrownLength(s.levels, s'.levels);
    forall u | 0 <= u < |s'.threads| ensures ThreadOk(s'.levels, truth, s'.threads[u]) {
      if u != a.t {
        GrowsKeepsThread(s.levels, s'.levels, truth, s.threads[u]);
      }
    }
  }

  lemma SameGrows(ls: seq<Level>)
    ensures Grows(ls, ls)
  {
  }
}
