/** A call that runs alone: step by step it does what the functions on the whole chain say, damaged files included. */
module BlobCacheAlone {
  import opened BlobCache
  import opened BlobCacheTheorems
  import opened BlobCacheThreads
  import opened Wrappers

  function RunMany(ls: seq<Level>, t: Thread, h: Hash, n: nat): (r: (seq<Level>, Thread))
    decreases n
  {
    if n == 0 || !Active(t) then (ls, t)
    else var (ls', t') := Run(ls, t, h); RunMany(ls', t', h, n - 1)
  }

  ghost predicate Reaches(ls: seq<Level>, t: Thread, ls': seq<Level>, t': Thread, h: Hash) {
    exists n: nat :: RunMany(ls, t, h, n) == (ls', t')
  }

  lemma {:induction false} RunOn(ls: seq<Level>, t: Thread, h: Hash, n: nat, m: nat)
    ensures var (ls', t') := RunMany(ls, t, h, n); RunMany(ls, t, h, n + m) == RunMany(ls', t', h, m)
    decreases n
  {
    hide Run;
    if n == 0 || !Active(t) {
    } else {
      var (ls', t') := Run(ls, t, h);
      RunOn(ls', t', h, n - 1, m);
    }
  }

  lemma ReachesOn(ls: seq<Level>, t: Thread, ls1: seq<Level>, t1: Thread, ls2: seq<Level>, t2: Thread, h: Hash)
    requires Reaches(ls, t, ls1, t1, h) && Reaches(ls1, t1, ls2, t2, h)
    ensures Reaches(ls, t, ls2, t2, h)
  {
    hide RunMany;
    var n: nat :| RunMany(ls, t, h, n) == (ls1, t1);
    var m: nat :| RunMany(ls1, t1, h, m) == (ls2, t2);
    RunOn(ls, t, h, n, m);
  }

  lemma ReachesStep(ls: seq<Level>, t: Thread, h: Hash)
    requires Active(t)
    ensures Reaches(ls, t, Run(ls, t, h).0, Run(ls, t, h).1, h)
  {
    hide Run;
    var (ls', t') := Run(ls, t, h);
    assert RunMany(ls', t', h, 0) == (ls', t');
    assert RunMany(ls, t, h, 1) == (ls', t');
  }

  /** One step, then the rest. */
  lemma StepThen(ls: seq<Level>, t: Thread, ls2: seq<Level>, t2: Thread, h: Hash)
    requires Active(t) && Reaches(Run(ls, t, h).0, Run(ls, t, h).1, ls2, t2, h)
    ensures Reaches(ls, t, ls2, t2, h)
  {
    hide Run, Reaches;
    ReachesStep(ls, t, h);
    ReachesOn(ls, t, Run(ls, t, h).0, Run(ls, t, h).1, ls2, t2, h);
  }

  lemma ThenThen(t: Thread, a: seq<Frame>, f: Frame, b: seq<Frame>)
    requires Active(t)
    ensures Active(Then(t, a + [f])) && Top(Then(t, a + [f])) == f
    ensures Then(Then(t, a + [f]), b) == Then(t, a + b)
  {
    var t' := Then(t, a + [f]);
    assert t'.stack[..|t'.stack| - 1] == t.stack[..|t.stack| - 1] + a;
    assert Then(t', b).stack == Then(t, a + b).stack;
  }

  /** The case of a single frame. */
  lemma ThenOne(t: Thread, f: Frame, b: seq<Frame>)
    requires Active(t)
    ensures Active(Then(t, [f])) && Top(Then(t, [f])) == f && Then(Then(t, [f]), b) == Then(t, b)
  {
    ThenThen(t, [], f, b);
    assert [] + [f] == [f] && [] + b == b;
  }

  // ---- inserts ------------------------------------------------------------------------------------

  predicate At(t: Thread, f: Frame) {
    Active(t) && Top(t) == f
  }

  lemma {:induction false} CheckAlone(ls: seq<Level>, t: Thread, j: nat, at: nat, h: Hash)
    requires At(t, Checking(j, at)) && Value(t).Some? && at <= |ls|
    ensures var next := if ContainsSync(ls[at..], t.call.key) then InsertFrom(j + 1) else Writing(j);
            Reaches(ls, t, ls, Then(t, [next]), h)
    decreases |ls| - at
  {
    hide Reaches, ContainsHere, Then;
    var k := t.call.key;
    ReachesStep(ls, t, h);
    if at < |ls| {
      assert ls[at..][0] == ls[at] && ls[at..][1..] == ls[at + 1..];
      if !ContainsHere(ls[at], k) {
        var t' := Then(t, [Checking(j, at + 1)]);
        var last := if ContainsSync(ls[at + 1..], k) then InsertFrom(j + 1) else Writing(j);
        ThenOne(t, Checking(j, at + 1), [last]);
        ThenSame(t, [Checking(j, at + 1)]);
        CheckAlone(ls, t', j, at + 1, h);
        StepThen(ls, t, ls, Then(t, [last]), h);
      }
    }
  }

  lemma ThenSame(t: Thread, more: seq<Frame>)
    requires Active(t)
    ensures var t' := Then(t, more); t' == t.(stack := t'.stack)
    ensures Value(Then(t, more)) == Value(t)
  {
  }

  /** What one level of an insert does. */
  lemma LevelAlone(ls: seq<Level>, t: Thread, j: nat, h: Hash)
    requires At(t, InsertFrom(j)) && Value(t).Some? && j < |ls|
    ensures var l := InsertHere(ls[j], t.call.key, Value(t).value, ContainsSync(ls[j..], t.call.key), h);
            Reaches(ls, t, ls[j := l], Then(t, [InsertFrom(j + 1)]), h)
  {
    hide Reaches, ContainsHere, Then, ContainsSync;
    var k, v := t.call.key, Value(t).value;
    if ls[j].Memory? {
      ReachesStep(ls, t, h);
    } else {
      var t1 := Then(t, [Checking(j, j)]);
      ThenSame(t, [Checking(j, j)]);
      ThenOne(t, Checking(j, j), [InsertFrom(j + 1)]);
      ThenOne(t, Checking(j, j), [Writing(j)]);
      CheckAlone(ls, t1, j, j, h);
      if ContainsSync(ls[j..], k) {
        StepThen(ls, t, ls, Then(t, [InsertFrom(j + 1)]), h);
        assert ls[j := ls[j]] == ls;
      } else {
        var t2 := Then(t, [Writing(j)]);
        ThenSame(t, [Writing(j)]);
        ThenOne(t, Writing(j), [InsertFrom(j + 1)]);
        StepThen(ls, t, ls, t2, h);
        ReachesStep(ls, t2, h);
        ReachesOn(ls, t, ls, t2, Store(ls, j, k, v, h), Then(t, [InsertFrom(j + 1)]), h);
      }
    }
  }

  lemma {:induction false} InsertAlone(ls: seq<Level>, t: Thread, j: nat, h: Hash)
    requires At(t, InsertFrom(j)) && Value(t).Some? && j <= |ls|
    ensures Reaches(ls, t, ls[..j] + InsertSync(ls[j..], t.call.key, Value(t).value, h), Then(t, []), h)
    decreases |ls| - j
  {
    hide Reaches, Then, ContainsSync, InsertHere;
    var k, v := t.call.key, Value(t).value;
    if j == |ls| {
      ReachesStep(ls, t, h);
      assert ls[..j] + [] == ls;
    } else {
      var l := InsertHere(ls[j], k, v, ContainsSync(ls[j..], k), h);
      var ls1, t1 := ls[j := l], Then(t, [InsertFrom(j + 1)]);
      LevelAlone(ls, t, j, h);
      ThenSame(t, [InsertFrom(j + 1)]);
      ThenOne(t, InsertFrom(j + 1), []);
      InsertAlone(ls1, t1, j + 1, h);
      InsertSplits(ls, k, v, j, h);
      ReachesOn(ls, t, ls1, t1, ls[..j] + InsertSync(ls[j..], k, v, h), Then(t, []), h);
    }
  }

  lemma InsertSplits(ls: seq<Level>, k: Key, v: Blob, j: nat, h: Hash)
    requires j < |ls|
    ensures var l := InsertHere(ls[j], k, v, ContainsSync(ls[j..], k), h); var ls1 := ls[j := l];
            ls1[..j + 1] + InsertSync(ls1[j + 1..], k, v, h) == ls[..j] + InsertSync(ls[j..], k, v, h)
  {
    hide InsertHere, ContainsSync;
    var l := InsertHere(ls[j], k, v, ContainsSync(ls[j..], k), h);
    var ls1 := ls[j := l];
    assert ls1[j + 1..] == ls[j + 1..] == ls[j..][1..] && ls[j..][0] == ls[j];
    assert ls1[..j + 1] == ls[..j] + [l];
  }

  lemma {:induction false} AsyncInsertAlone(ls: seq<Level>, t: Thread, j: nat, h: Hash)
    requires At(t, AsyncInsertFrom(j)) && Value(t).Some? && j < |ls|
    ensures Reaches(ls, t, ls[..j] + AsyncInsert(ls[j..], t.call.key, Value(t).value, h), Then(t, []), h)
    decreases |ls| - j
  {
    hide Reaches, Then, InsertSync;
    var k, v := t.call.key, Value(t).value;
    var once := InsertSync(ls[j..], k, v, h);
    var ls1 := ls[..j] + once;
    if j + 1 == |ls| {
      assert [] + [InsertFrom(j)] == [InsertFrom(j)];
      var t1 := Then(t, [InsertFrom(j)]);
      ThenSame(t, [InsertFrom(j)]);
      ThenOne(t, InsertFrom(j), []);
      InsertAlone(ls, t1, j, h);
      StepThen(ls, t, ls1, Then(t, []), h);
    } else {
      var next := AsyncInsertFrom(j + 1);
      var t1, t2 := Then(t, [next] + [InsertFrom(j)]), Then(t, [next]);
      ThenSame(t, [next] + [InsertFrom(j)]);
      ThenSame(t, [next]);
      ThenThen(t, [next], InsertFrom(j), []);
      assert [next] + [] == [next];
      InsertAlone(ls, t1, j, h);
      StepThen(ls, t, ls1, t2, h);
      ThenOne(t, next, []);
      AsyncInsertAlone(ls1, t2, j + 1, h);
      assert ls1[..j + 1] == ls[..j] + [once[0]] && ls1[j + 1..] == once[1..];
      assert ls1[..j + 1] + AsyncInsert(ls1[j + 1..], k, v, h) == ls[..j] + AsyncInsert(ls[j..], k, v, h);
      ReachesOn(ls, t, ls1, t2, ls[..j] + AsyncInsert(ls[j..], k, v, h), Then(t, []), h);
    }
  }

  /** The top frame replaced, with what the call has found out. */
  function ThenTold(t: Thread, more: seq<Frame>, yes: bool): (t': Thread)
    requires Active(t)
  {
    var t' := Then(t, more);
    t'.(yes := yes)
  }

  function ThenAnswered(t: Thread, more: seq<Frame>, a: Answer): (t': Thread)
    requires Active(t)
  {
    var t' := Then(t, more);
    t'.(answer := a)
  }

  // ---- membership tests -----------------------------------------------------------------------------

  lemma {:induction false} ContainsAlone(ls: seq<Level>, t: Thread, j: nat, h: Hash)
    requires At(t, ContainsFrom(j)) && j <= |ls| && !t.yes
    ensures Reaches(ls, t, ls, ThenTold(t, [], ContainsSync(ls[j..], t.call.key)), h)
    decreases |ls| - j
  {
    hide Reaches, Then, ContainsHere;
    ReachesStep(ls, t, h);
    ThenSame(t, []);
    if j < |ls| {
      assert ls[j..][0] == ls[j] && ls[j..][1..] == ls[j + 1..];
      if !ContainsHere(ls[j], t.call.key) {
        var t1 := Then(t, [ContainsFrom(j + 1)]);
        ThenSame(t, [ContainsFrom(j + 1)]);
        ThenOne(t, ContainsFrom(j + 1), []);
        ContainsAlone(ls, t1, j + 1, h);
        StepThen(ls, t, ls, ThenTold(t, [], ContainsSync(ls[j + 1..], t.call.key)), h);
      }
    }
  }

  lemma {:induction false} AsyncContainsAlone(ls: seq<Level>, t: Thread, j: nat, h: Hash)
    requires At(t, AsyncContainsFrom(j)) && j < |ls| && !t.yes
    ensures Reaches(ls, t, ls, ThenTold(t, [], AsyncContains(ls[j..], t.call.key)), h)
    decreases |ls| - j
  {
    hide Reaches, Then, ContainsSync;
    var k, after := t.call.key, AfterContains(j);
    var here := ContainsSync(ls[j..], k);
    var t1, t2 := Then(t, [after] + [ContainsFrom(j)]), ThenTold(t, [after], here);
    assert [after] + [ContainsFrom(j)] == [after, ContainsFrom(j)] && [after] + [] == [after];
    ThenSame(t, [after] + [ContainsFrom(j)]);
    ThenSame(t, [after]);
    ThenSame(t, []);
    ThenThen(t, [after], ContainsFrom(j), []);
    ContainsAlone(ls, t1, j, h);
    StepThen(ls, t, ls, t2, h);
    ThenOne(t, after, []);
    ThenYes(t, [after], here, []);
    ReachesStep(ls, t2, h);
    assert ls[j..][1..] == ls[j + 1..];
    if here || j + 1 == |ls| {
      ReachesOn(ls, t, ls, t2, ls, ThenTold(t, [], here), h);
    } else {
      var t3 := Then(t, [AsyncContainsFrom(j + 1)]);
      ThenOne(t, after, [AsyncContainsFrom(j + 1)]);
      ThenOne(t, AsyncContainsFrom(j + 1), []);
      ThenSame(t, [AsyncContainsFrom(j + 1)]);
      AsyncContainsAlone(ls, t3, j + 1, h);
      var end := ThenTold(t, [], AsyncContains(ls[j + 1..], k));
      assert t2 == Then(t, [after]);
      ReachesOn(ls, t, ls, t2, ls, t3, h);
      ReachesOn(ls, t, ls, t3, ls, end, h);
    }
  }

  lemma ThenYes(t: Thread, a: seq<Frame>, yes: bool, b: seq<Frame>)
    requires Active(t) && Active(Then(t, a))
    ensures var t' := ThenTold(t, a, yes);
            Active(t') && Top(t') == Top(Then(t, a)) && Then(t', b) == Then(Then(t, a), b).(yes := yes)
  {
  }

  lemma ThenAnswer(t: Thread, a: seq<Frame>, answer: Answer, b: seq<Frame>)
    requires Active(t) && Active(Then(t, a))
    ensures var t' := ThenAnswered(t, a, answer);
            Active(t') && Top(t') == Top(Then(t, a)) && Then(t', b) == Then(Then(t, a), b).(answer := answer)
  {
  }

  // ---- lookups ------------------------------------------------------------------------------------------

  /** The call with its answer: an error ends it at once. */
  function Answered(t: Thread, a: Answer): (t': Thread)
    requires Active(t)
  {
    if a.Corrupt? then t.(stack := [], answer := a) else ThenAnswered(t, [], a)
  }

  /** A lookup has come back from the delegate: a hit is inserted from here on. */
  lemma FillAlone(ls: seq<Level>, t: Thread, j: nat, a: Answer, h: Hash)
    requires Active(t) && t.call.Find? && j < |ls| && a.Found?
    ensures var end := if a.blob.Some? then ls[..j] + InsertSync(ls[j..], t.call.key, a.blob.value, h) else ls;
            Reaches(ls, ThenAnswered(t, [Fill(j)], a), end, Answered(t, a), h)
  {
    hide Reaches, Then, InsertSync;
    var t1 := ThenAnswered(t, [Fill(j)], a);
    ThenOne(t, Fill(j), []);
    ThenOne(t, Fill(j), [InsertFrom(j)]);
    ThenSame(t, [Fill(j)]);
    ThenAnswer(t, [Fill(j)], a, []);
    ThenAnswer(t, [Fill(j)], a, [InsertFrom(j)]);
    ReachesStep(ls, t1, h);
    if a.blob.Some? {
      var t2 := ThenAnswered(t, [InsertFrom(j)], a);
      ThenOne(t, InsertFrom(j), []);
      ThenSame(t, [InsertFrom(j)]);
      ThenAnswer(t, [InsertFrom(j)], a, []);
      InsertAlone(ls, t2, j, h);
      StepThen(ls, t1, ls[..j] + InsertSync(ls[j..], t.call.key, a.blob.value, h), Answered(t, a), h);
    }
  }

  lemma {:induction false} FindAlone(ls: seq<Level>, t: Thread, j: nat, h: Hash)
    requires At(t, FindFrom(j)) && t.call.Find? && j < |ls| && t.answer == Found(None)
    ensures var (a, after) := FindSync(ls[j..], t.call.key, h);
            Reaches(ls, t, ls[..j] + after, Answered(t, a), h)
    decreases |ls| - j
  {
    hide Reaches, Then, FindHere, InsertSync;
    var k := t.call.key;
    assert ls[j..][0] == ls[j] && ls[j..][1..] == ls[j + 1..] && ls[..j] + ls[j..] == ls;
    ThenSame(t, []);
    ReachesStep(ls, t, h);
    if FindHere(ls[j], k, h) == Found(None) && j + 1 < |ls| {
      var t1 := Then(t, [Fill(j)] + [FindFrom(j + 1)]);
      assert [Fill(j)] + [FindFrom(j + 1)] == [Fill(j), FindFrom(j + 1)] && [Fill(j)] + [] == [Fill(j)];
      ThenThen(t, [Fill(j)], FindFrom(j + 1), []);
      ThenSame(t, [Fill(j)] + [FindFrom(j + 1)]);
      ThenSame(t, [Fill(j)]);
      FindAlone(ls, t1, j + 1, h);
      var (below, rest) := FindSync(ls[j + 1..], k, h);
      var ls1 := ls[..j + 1] + rest;
      StepThen(ls, t, ls1, Answered(t1, below), h);
      assert ls1 == ls[..j] + ([ls[j]] + rest);
      assert ls1[..j] == ls[..j] && ls1[j..] == [ls[j]] + rest;
      if below.Found? {
        assert Answered(t1, below) == ThenAnswered(t, [Fill(j)], below);
        FillAlone(ls1, t, j, below, h);
        var end := if below.blob.Some? then ls1[..j] + InsertSync(ls1[j..], k, below.blob.value, h) else ls1;
        ReachesOn(ls, t, ls1, Answered(t1, below), end, Answered(t, below), h);
      }
    }
  }

  /** The asynchronous form of the same. */
  lemma AsyncFillAlone(ls: seq<Level>, t: Thread, j: nat, a: Answer, h: Hash)
    requires Active(t) && t.call.Find? && j < |ls| && a.Found?
    ensures var end := if a.blob.Some? then ls[..j] + AsyncInsert(ls[j..], t.call.key, a.blob.value, h) else ls;
            Reaches(ls, ThenAnswered(t, [AfterDelegate(j)], a), end, Answered(t, a), h)
  {
    hide Reaches, Then, AsyncInsert;
    var t1 := ThenAnswered(t, [AfterDelegate(j)], a);
    ThenOne(t, AfterDelegate(j), []);
    ThenOne(t, AfterDelegate(j), [AsyncInsertFrom(j)]);
    ThenSame(t, [AfterDelegate(j)]);
    ThenAnswer(t, [AfterDelegate(j)], a, []);
    ThenAnswer(t, [AfterDelegate(j)], a, [AsyncInsertFrom(j)]);
    ReachesStep(ls, t1, h);
    if a.blob.Some? {
      var t2 := ThenAnswered(t, [AsyncInsertFrom(j)], a);
      ThenOne(t, AsyncInsertFrom(j), []);
      ThenSame(t, [AsyncInsertFrom(j)]);
      ThenAnswer(t, [AsyncInsertFrom(j)], a, []);
      AsyncInsertAlone(ls, t2, j, h);
      StepThen(ls, t1, ls[..j] + AsyncInsert(ls[j..], t.call.key, a.blob.value, h), Answered(t, a), h);
    }
  }

  /** The wrapped synchronous lookup of an asynchronous one, and what is left to do after it. */
  lemma FindImplAlone(ls: seq<Level>, t: Thread, j: nat, h: Hash)
    requires At(t, AsyncFindFrom(j)) && t.call.Find? && j < |ls| && t.answer == Found(None)
    ensures var (a, after) := FindSync(ls[j..], t.call.key, h);
            if a != Found(None) || j + 1 == |ls| then Reaches(ls, t, ls[..j] + after, Answered(t, a), h)
            else Reaches(ls, t, ls[..j] + after, Then(t, [AfterDelegate(j)] + [AsyncFindFrom(j + 1)]), h)
  {
    hide Reaches, Then, FindSync;
    var after, first := AfterFind(j), FindFrom(j);
    var t1 := Then(t, [after] + [first]);
    assert [after] + [first] == [after, first] && [after] + [] == [after];
    ThenThen(t, [after], first, []);
    ThenSame(t, [after] + [first]);
    ThenSame(t, [after]);
    FindAlone(ls, t1, j, h);
    var (a, rest) := FindSync(ls[j..], t.call.key, h);
    var ls1 := ls[..j] + rest;
    StepThen(ls, t, ls1, Answered(t1, a), h);
    if a.Found? {
      var t2 := ThenAnswered(t, [after], a);
      var more := [AfterDelegate(j)] + [AsyncFindFrom(j + 1)];
      assert more == [AfterDelegate(j), AsyncFindFrom(j + 1)];
      ThenOne(t, after, []);
      ThenOne(t, after, more);
      ThenAnswer(t, [after], a, []);
      ThenAnswer(t, [after], a, more);
      ThenSame(t, more);
      ReachesStep(ls1, t2, h);
      if a != Found(None) || j + 1 == |ls| {
        ReachesOn(ls, t, ls1, t2, ls1, Answered(t, a), h);
      } else {
        ReachesOn(ls, t, ls1, t2, ls1, Then(t, more), h);
      }
    }
  }

  lemma {:induction false} AsyncFindAlone(ls: seq<Level>, t: Thread, j: nat, h: Hash)
    requires At(t, AsyncFindFrom(j)) && t.call.Find? && j < |ls| && t.answer == Found(None)
    ensures var (a, after) := AsyncFind(ls[j..], t.call.key, h);
            Reaches(ls, t, ls[..j] + after, Answered(t, a), h)
    decreases |ls| - j
  {
    hide Reaches, Then, FindSync, AsyncInsert;
    var k := t.call.key;
    FindImplAlone(ls, t, j, h);
    var (answer, after) := FindSync(ls[j..], k, h);
    if answer == Found(None) && j + 1 < |ls| {
      var back, down := AfterDelegate(j), AsyncFindFrom(j + 1);
      var ls1, t1 := ls[..j] + after, Then(t, [back] + [down]);
      assert [back] + [] == [back];
      ThenThen(t, [back], down, []);
      ThenSame(t, [back] + [down]);
      ThenSame(t, [back]);
      AsyncFindAlone(ls1, t1, j + 1, h);
      assert ls1[j + 1..] == after[1..] && ls1[..j + 1] == ls[..j] + [after[0]];
      var (below, rest) := AsyncFind(after[1..], k, h);
      var ls2 := ls[..j] + ([after[0]] + rest);
      assert ls1[..j + 1] + rest == ls2;
      ReachesOn(ls, t, ls1, t1, ls2, Answered(t1, below), h);
      assert ls2[..j] == ls[..j] && ls2[j..] == [after[0]] + rest;
      if below.Found? {
        AsyncFillAlone(ls2, t, j, below, h);
        var end := if below.blob.Some? then ls2[..j] + AsyncInsert(ls2[j..], k, below.blob.value, h) else ls2;
        ReachesOn(ls, t, ls2, Answered(t1, below), end, Answered(t, below), h);
      }
    }
  }

  // ---- whole calls ---------------------------------------------------------------------------------------

  function ReplyOf(t: Thread): (r: Reply)
    requires t.Running?
  {
    match t.call
    case Insert(_, _, _) => Done
    case Contains(_, _) => Present(t.yes)
    case Find(_, _) => Looked(t.answer)
  }

  /**
    A call that runs alone on any chain, damaged files included, returns, and reply and chain are those of the
    functions on the whole chain.
   */
  lemma CallAlone(s: State, c: Call, h: Hash) returns (end: Thread)
    requires |s.levels| > 0
    ensures end.Running? && end.stack == [] && (ReplyOf(end), Do(s.levels, c, h).1) == Do(s.levels, c, h)
    ensures Reaches(s.levels, Start(s, c), Do(s.levels, c, h).1, end, h)
  {
    hide Reaches, ContainsSync, AsyncContains, InsertSync, AsyncInsert, FindSync, AsyncFind;
    var ls, t, k := s.levels, Start(s, c), c.key;
    assert ls[..0] == [] && ls[0..] == ls && t.stack[..0] == [];
    assert forall x: seq<Level> :: [] + x == x;
    match c
    case Insert(async, _, v) =>
      end := Then(t, []);
      if async { AsyncInsertAlone(ls, t, 0, h); } else { InsertAlone(ls, t, 0, h); }
    case Contains(async, _) =>
      end := ThenTold(t, [], if async then AsyncContains(ls, k) else ContainsSync(ls, k));
      if async { AsyncContainsAlone(ls, t, 0, h); } else { ContainsAlone(ls, t, 0, h); }
    case Find(async, _) =>
      end := Answered(t, if async then AsyncFind(ls, k, h).0 else FindSync(ls, k, h).0);
      if async { AsyncFindAlone(ls, t, 0, h); } else { FindAlone(ls, t, 0, h); }
  }
}
