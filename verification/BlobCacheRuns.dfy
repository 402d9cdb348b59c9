/** What every interleaving of calls on one chain guarantees, if each key is inserted with one blob only. */
module BlobCacheRuns {
  import opened BlobCache
  import opened BlobCacheTheorems
  import opened BlobCacheThreads
  import opened Wrappers

  lemma InitInv(s: State, truth: map<Key, Blob>, h: Hash)
    requires Init(s, truth, h)
    ensures Inv(s, truth, h)
  {
    hide Agrees;
  }

  lemma NextKeeps(s: State, s': State, truth: map<Key, Blob>, h: Hash)
    requires Inv(s, truth, h) && Next(s, s', truth, h)
    ensures Inv(s', truth, h) && Grows(s.levels, s'.levels) && s'.clock == s.clock + 1
  {
    hide Inv, Grows, Run, Start;
    var a :| Enabled(s, a, truth) && s' == Apply(s, a, truth, h);
    StepKeeps(s, a, truth, h);
  }

  lemma RunStep(run: seq<State>, truth: map<Key, Blob>, h: Hash, i: nat)
    requires IsRun(run, truth, h) && i + 1 < |run|
    ensures Next(run[i], run[i + 1], truth, h)
  {
  }

  /** Every state of every run: all levels agree, no thread can go wrong, and the clock is the number of the state. */
  lemma {:induction false} RunInv(run: seq<State>, truth: map<Key, Blob>, h: Hash, i: nat)
    requires IsRun(run, truth, h) && i < |run|
    ensures Inv(run[i], truth, h) && run[i].clock == i
  {
    hide Inv, Next;
    if i == 0 {
      InitInv(run[0], truth, h);
    } else {
      RunInv(run, truth, h, i - 1);
      RunStep(run, truth, h, i - 1);
      NextKeeps(run[i - 1], run[i], truth, h);
    }
  }

  /** Every interleaving keeps every level in agreement with the one blob of each key. */
  lemma LevelsAgree(run: seq<State>, truth: map<Key, Blob>, h: Hash, i: nat)
    requires IsRun(run, truth, h) && i < |run|
    ensures Agrees(run[i].levels, truth, h)
  {
    RunInv(run, truth, h, i);
  }

  /** No key is ever lost, and levels keep their kind. */
  lemma {:induction false} LevelsGrow(run: seq<State>, truth: map<Key, Blob>, h: Hash, i: nat, j: nat)
    requires IsRun(run, truth, h) && i <= j < |run|
    ensures Grows(run[i].levels, run[j].levels)
    decreases j
  {
    hide Inv, Next;
    if i == j {
    } else {
      LevelsGrow(run, truth, h, i, j - 1);
      RunInv(run, truth, h, j - 1);
      RunStep(run, truth, h, j - 1);
      NextKeeps(run[j - 1], run[j], truth, h);
      GrowsOn(run[i].levels, run[j - 1].levels, run[j].levels);
    }
  }

  lemma GrowsOn(a: seq<Level>, b: seq<Level>, c: seq<Level>)
    requires Grows(a, b) && Grows(b, c)
    ensures Grows(a, c)
  {
    hide ContainsHere, Writable;
  }

  lemma StaysContained(run: seq<State>, truth: map<Key, Blob>, h: Hash, i: nat, j: nat, k: Key)
    requires IsRun(run, truth, h) && i <= j < |run| && ContainsSync(run[i].levels, k)
    ensures ContainsSync(run[j].levels, k)
  {
    hide Grows, HasFrom, ContainsSync;
    LevelsGrow(run, truth, h, i, j);
    HasFromStart(run[i].levels, k);
    HasFromStart(run[j].levels, k);
    GrowsKeeps(run[i].levels, run[j].levels, k, 0);
  }

  /** A call knows when it began, and whether the chain contained its key then. */
  ghost predicate HistoryOk(run: seq<State>, j: nat, t: Thread) {
    t.Running? ==> t.began < j <= |run| && t.sure == ContainsSync(run[t.began].levels, t.call.key)
  }

  lemma StepKeepsHistory(ls: seq<Level>, t: Thread, h: Hash)
    requires Active(t)
    ensures var t' := Run(ls, t, h).1;
            t'.Running? && t'.call == t.call && t'.began == t.began && t'.sure == t.sure
  {
    hide Store, FindHere, ContainsHere;
  }

  /** After a step a thread is as before, further in the same call, or at the start of a new one. */
  lemma ThreadHistory(s: State, s': State, truth: map<Key, Blob>, h: Hash, u: nat) returns (c: Call)
    requires Next(s, s', truth, h) && u < |s'.threads|
    ensures u < |s.threads|
    ensures var t, t' := s.threads[u], s'.threads[u];
            || t' == t || t' == Start(s, c)
            || (t.Running? && t'.Running? && t'.call == t.call && t'.began == t.began && t'.sure == t.sure)
  {
    hide Run, Start;
    var a :| Enabled(s, a, truth) && s' == Apply(s, a, truth, h);
    if a == Step(u) {
      StepKeepsHistory(s.levels, s.threads[u], h);
    }
    c := if a.Begin? then a.call else Insert(false, [0], []);
  }

  lemma {:induction false} RunHistory(run: seq<State>, truth: map<Key, Blob>, h: Hash, j: nat, u: nat)
    requires IsRun(run, truth, h) && j < |run| && u < |run[j].threads|
    ensures HistoryOk(run, j, run[j].threads[u])
  {
    hide ContainsSync;
    if j == 0 {
    } else {
      RunInv(run, truth, h, j - 1);
      RunStep(run, truth, h, j - 1);
      hide Inv, Next, IsRun;
      var c := ThreadHistory(run[j - 1], run[j], truth, h, u);
      RunHistory(run, truth, h, j - 1, u);
    }
  }

  // ---- what calls return ----------------------------------------------------------------------------

  /** The thread's last call has returned. */
  predicate Returned(t: Thread) {
    t.Running? && t.stack == []
  }

  /** When an insert has returned, the chain contains its key, unless no level could be written. */
  lemma InsertIsThere(run: seq<State>, truth: map<Key, Blob>, h: Hash, i: nat, t: nat)
    requires IsRun(run, truth, h) && i < |run| && t < |run[i].threads|
    requires Returned(run[i].threads[t]) && run[i].threads[t].call.Insert?
    ensures CanWrite(run[i].levels) ==> ContainsSync(run[i].levels, run[i].threads[t].call.key)
  {
    hide ContainsSync;
    RunInv(run, truth, h, i);
    var ls, th := run[i].levels, run[i].threads[t];
    assert ThreadOk(ls, truth, th);
    HasFromStart(ls, th.call.key);
  }

  /**
    A lookup never fails and never answers anything but the key's blob. It answers it if the chain contained the key
    when the lookup began, and answers that it is absent if the chain does not contain it when the lookup returns.
   */
  lemma FindIsRight(run: seq<State>, truth: map<Key, Blob>, h: Hash, j: nat, u: nat)
    requires IsRun(run, truth, h) && j < |run| && u < |run[j].threads|
    requires Returned(run[j].threads[u]) && run[j].threads[u].call.Find?
    ensures var t := run[j].threads[u]; var k := t.call.key;
            && (t.answer == Found(None) || (k in truth && t.answer == Found(Some(truth[k]))))
            && t.began < j
            && (ContainsSync(run[t.began].levels, k) ==> t.answer != Found(None))
            && (!ContainsSync(run[j].levels, k) ==> t.answer == Found(None))
  {
    hide ContainsSync, HasFrom;
    RunInv(run, truth, h, j);
    RunHistory(run, truth, h, j, u);
    var t := run[j].threads[u];
    assert ThreadOk(run[j].levels, truth, t);
    HasFromStart(run[j].levels, t.call.key);
  }

  /** The same for a membership test. */
  lemma ContainsIsRight(run: seq<State>, truth: map<Key, Blob>, h: Hash, j: nat, u: nat)
    requires IsRun(run, truth, h) && j < |run| && u < |run[j].threads|
    requires Returned(run[j].threads[u]) && run[j].threads[u].call.Contains?
    ensures var t := run[j].threads[u]; var k := t.call.key;
            && t.began < j
            && (ContainsSync(run[t.began].levels, k) ==> t.yes)
            && (!ContainsSync(run[j].levels, k) ==> !t.yes)
  {
    hide ContainsSync, HasFrom;
    RunInv(run, truth, h, j);
    RunHistory(run, truth, h, j, u);
    var t := run[j].threads[u];
    assert ThreadOk(run[j].levels, truth, t);
    HasFromStart(run[j].levels, t.call.key);
  }

  /**
    On a chain that can be written, a lookup that begins after an insert of its key has returned answers the inserted
    blob, whatever other calls do meanwhile.
   */
  lemma FindSeesInsert(run: seq<State>, truth: map<Key, Blob>, h: Hash, i: nat, t: nat, j: nat, u: nat)
    requires IsRun(run, truth, h) && i < |run| && j < |run| && t < |run[i].threads| && u < |run[j].threads|
    requires Returned(run[i].threads[t]) && run[i].threads[t].call.Insert? && CanWrite(run[i].levels)
    requires Returned(run[j].threads[u]) && run[j].threads[u].call.Find?
    requires run[j].threads[u].call.key == run[i].threads[t].call.key && i <= run[j].threads[u].began
    ensures run[j].threads[u].answer == Found(Some(run[i].threads[t].call.blob))
  {
    hide CanWrite, ContainsSync;
    var c := run[i].threads[t].call;
    InsertIsThere(run, truth, h, i, t);
    FindIsRight(run, truth, h, j, u);
    StaysContained(run, truth, h, i, run[j].threads[u].began, c.key);
    RunInv(run, truth, h, i);
    assert ThreadOk(run[i].levels, truth, run[i].threads[t]);
  }

  /** And a membership test then says yes. */
  lemma ContainsSeesInsert(run: seq<State>, truth: map<Key, Blob>, h: Hash, i: nat, t: nat, j: nat, u: nat)
    requires IsRun(run, truth, h) && i < |run| && j < |run| && t < |run[i].threads| && u < |run[j].threads|
    requires Returned(run[i].threads[t]) && run[i].threads[t].call.Insert? && CanWrite(run[i].levels)
    requires Returned(run[j].threads[u]) && run[j].threads[u].call.Contains?
    requires run[j].threads[u].call.key == run[i].threads[t].call.key && i <= run[j].threads[u].began
    ensures run[j].threads[u].yes
  {
    hide CanWrite, ContainsSync;
    InsertIsThere(run, truth, h, i, t);
    ContainsIsRight(run, truth, h, j, u);
    StaysContained(run, truth, h, i, run[j].threads[u].began, run[i].threads[t].call.key);
  }
}
