/** What a chain of cache levels promises over whole runs: it behaves as one map. */
module BlobCacheTheorems {
  import opened Base64
  import opened BlobCache
  import opened Wrappers

  // ---- single operations ----------------------------------------------------------------------

  lemma {:induction false} InsertKeepsKinds(ls: seq<Level>, k: Key, v: Blob, h: Hash)
    ensures CanWrite(InsertSync(ls, k, v, h)) <==> CanWrite(ls)
  {
    if |ls| == 0 {
    } else {
      InsertKeepsKinds(ls[1..], k, v, h);
      CanWriteTail(ls);
      CanWriteTail(InsertSync(ls, k, v, h));
      assert InsertSync(ls, k, v, h)[1..] == InsertSync(ls[1..], k, v, h);
    }
  }

  lemma CanWriteTail(ls: seq<Level>)
    requires |ls| > 0
    ensures CanWrite(ls) <==> Writable(ls[0]) || CanWrite(ls[1..])
  {
    var tail := ls[1..];
    assert forall i | 0 <= i < |tail| :: tail[i] == ls[i + 1];
    if i :| 0 <= i < |ls| && Writable(ls[i]) {
      assert i > 0 ==> Writable(tail[i - 1]);
    }
    if j :| 0 <= j < |tail| && Writable(tail[j]) {
      assert Writable(ls[j + 1]);
    }
  }

  /** Write-through of a key's own blob: the key becomes present exactly when some level can be written. */
  lemma InsertRefines(ls: seq<Level>, truth: map<Key, Blob>, k: Key, v: Blob, h: Hash)
    requires Agrees(ls, truth, h)
    requires k in truth && truth[k] == v
    ensures Agrees(InsertSync(ls, k, v, h), truth, h)
    ensures forall j: Key ::
              ContainsSync(InsertSync(ls, k, v, h), j) <==> ContainsSync(ls, j) || (j == k && CanWrite(ls))
    ensures CanWrite(InsertSync(ls, k, v, h)) <==> CanWrite(ls)
  {
    hide Agrees, ContainsSync, InsertSync;
    InsertAgrees(ls, truth, k, v, h);
    InsertedIsContained(ls, k, v, h);
    InsertKeepsKinds(ls, k, v, h);
  }

  /** On an agreeing chain `find` answers the one blob, never errs, and its filling changes no membership. */
  lemma {:induction false} FindRefines(ls: seq<Level>, truth: map<Key, Blob>, k: Key, h: Hash)
    requires |ls| > 0 && Agrees(ls, truth, h)
    ensures ContainsSync(ls, k) ==> k in truth
    ensures FindSync(ls, k, h).0 == Found(if ContainsSync(ls, k) then Some(truth[k]) else None)
    ensures Agrees(FindSync(ls, k, h).1, truth, h)
    ensures forall j: Key :: ContainsSync(FindSync(ls, k, h).1, j) <==> ContainsSync(ls, j)
    ensures CanWrite(FindSync(ls, k, h).1) <==> CanWrite(ls)
  {
    hide Agrees, HoldsTruth, FindHere, ContainsHere, CanWrite, Writable, InsertSync;
    AgreesTail(ls, truth, h);
    FindHereIsTruth(ls[0], truth, k, h);
    ContainedIsTrue(ls, truth, k, h);
    if !ContainsHere(ls[0], k) && |ls| > 1 {
      FindRefines(ls[1..], truth, k, h);
      var (below, rest) := FindSync(ls[1..], k, h);
      var ls' := [ls[0]] + rest;
      assert ls'[1..] == rest;
      AgreesTail(ls', truth, h);
      CanWriteTail(ls);
      CanWriteTail(ls');
      assert forall j: Key :: ContainsSync(ls', j) <==> ContainsSync(ls, j);
      if below.blob.Some? {
        InsertRefines(ls', truth, k, below.blob.value, h);
      }
    }
  }

  lemma {:induction false} ContainedIsTrue(ls: seq<Level>, truth: map<Key, Blob>, k: Key, h: Hash)
    requires Agrees(ls, truth, h)
    ensures ContainsSync(ls, k) ==> k in truth
  {
    if |ls| == 0 {
    } else {
      AgreesTail(ls, truth, h);
      ContainedIsTrue(ls[1..], truth, k, h);
      assert HoldsTruth(ls[0], truth, k, h);
    }
  }

  // ---- runs -------------------------------------------------------------------------------------

  /** A call on the head of the chain, made synchronously or asynchronously and waited for. */
  datatype Call =
    | Insert(async: bool, key: Key, blob: Blob)
    | Contains(async: bool, key: Key)
    | Find(async: bool, key: Key)

  datatype Reply = Done | Present(yes: bool) | Looked(answer: Answer)

  function Do(ls: seq<Level>, c: Call, h: Hash): (r: (Reply, seq<Level>))
    requires |ls| > 0
    ensures |r.1| == |ls|
  {
    match c
    case Insert(async, k, v) =>
      AsyncInsertLength(ls, k, v, h);
      (Done, if async then AsyncInsert(ls, k, v, h) else InsertSync(ls, k, v, h))
    case Contains(async, k) => (Present(if async then AsyncContains(ls, k) else ContainsSync(ls, k)), ls)
    case Find(async, k) =>
      var (answer, ls') := if async then AsyncFind(ls, k, h) else FindSync(ls, k, h);
      (Looked(answer), ls')
  }

  function Replies(ls: seq<Level>, calls: seq<Call>, h: Hash): (r: seq<Reply>)
    requires |ls| > 0
    ensures |r| == |calls|
    decreases |calls|
  {
    if calls == [] then []
    else var (reply, ls') := Do(ls, calls[0], h); [reply] + Replies(ls', calls[1..], h)
  }

  /** The same calls on one plain map, which takes inserts only if it can be written. */
  function MapDo(m: map<Key, Blob>, writable: bool, c: Call): (r: (Reply, map<Key, Blob>)) {
    match c
    case Insert(_, k, v) => (Done, if writable then m[k := v] else m)
    case Contains(_, k) => (Present(k in m), m)
    case Find(_, k) => (Looked(Found(if k in m then Some(m[k]) else None)), m)
  }

  function MapReplies(m: map<Key, Blob>, writable: bool, calls: seq<Call>): (r: seq<Reply>)
    decreases |calls|
  {
    if calls == [] then []
    else var (reply, m') := MapDo(m, writable, calls[0]); [reply] + MapReplies(m', writable, calls[1..])
  }

  /** The map that a chain stands for. */
  ghost function View(ls: seq<Level>, truth: map<Key, Blob>): (m: map<Key, Blob>) {
    map k | k in truth && ContainsSync(ls, k) :: truth[k]
  }

  /** Each key is only ever inserted with one blob. */
  ghost predicate OneBlob(calls: seq<Call>, truth: map<Key, Blob>) {
    forall c | c in calls && c.Insert? :: c.key in truth && truth[c.key] == c.blob
  }

  /** One call on the chain is one call on the map. */
  lemma CallRefines(ls: seq<Level>, truth: map<Key, Blob>, c: Call, h: Hash)
    requires |ls| > 0 && Agrees(ls, truth, h)
    requires c.Insert? ==> c.key in truth && truth[c.key] == c.blob
    ensures Agrees(Do(ls, c, h).1, truth, h)
    ensures CanWrite(Do(ls, c, h).1) <==> CanWrite(ls)
    ensures (Do(ls, c, h).0, View(Do(ls, c, h).1, truth)) == MapDo(View(ls, truth), CanWrite(ls), c)
  {
    hide Agrees, CanWrite, InsertSync, FindSync, ContainsSync, AsyncInsert, AsyncFind, AsyncContains;
    match c
    case Insert(_, k, v) =>
      AsyncInsertIsSync(ls, k, v, h);
      InsertRefines(ls, truth, k, v, h);
      assert View(Do(ls, c, h).1, truth) == MapDo(View(ls, truth), CanWrite(ls), c).1;
    case Contains(_, k) =>
      AsyncContainsIsSync(ls, k);
      FindRefines(ls, truth, k, h);
    case Find(_, k) =>
      AsyncFindIsSync(ls, k, h);
      FindRefines(ls, truth, k, h);
      assert View(Do(ls, c, h).1, truth) == View(ls, truth);
  }

  /**
    For every chain of memory and file levels, some read-only, and every run of synchronous and asynchronous
    calls that gives each key one blob, the replies are those of one plain map.
    */
  lemma {:induction false} RunRefinesMap(ls: seq<Level>, truth: map<Key, Blob>, calls: seq<Call>, h: Hash)
    requires |ls| > 0 && Agrees(ls, truth, h)
    requires OneBlob(calls, truth)
    ensures Replies(ls, calls, h) == MapReplies(View(ls, truth), CanWrite(ls), calls)
    decreases |calls|
  {
    hide Agrees, CanWrite, Do, MapDo, View;
    if calls == [] {
    } else {
      CallRefines(ls, truth, calls[0], h);
      RunRefinesMap(Do(ls, calls[0], h).1, truth, calls[1..], h);
    }
  }

  /** Read-through filling is invisible: a lookup changes no reply of any later run. */
  lemma FillingIsInvisible(ls: seq<Level>, truth: map<Key, Blob>, k: Key, calls: seq<Call>, h: Hash)
    requires |ls| > 0 && Agrees(ls, truth, h)
    requires OneBlob(calls, truth)
    ensures Replies(FindSync(ls, k, h).1, calls, h) == Replies(ls, calls, h)
  {
    hide Agrees, CanWrite, Replies, MapReplies, FindSync, ContainsSync;
    FindRefines(ls, truth, k, h);
    assert View(FindSync(ls, k, h).1, truth) == View(ls, truth);
    RunRefinesMap(ls, truth, calls, h);
    RunRefinesMap(FindSync(ls, k, h).1, truth, calls, h);
  }

  // ---- inserts that clash -------------------------------------------------------------------------

  /**
    What the chain must look like before an insert for a lookup right after it to see the new blob. The topmost
    level that is in memory, or already has the key, or is the first writable one when no level has the key, decides:
    a file level that already has the key keeps its old blob.
    */
  ghost predicate InsertShows(ls: seq<Level>, k: Key, v: Blob, h: Hash) {
    |ls| > 0 &&
    (if ls[0].Memory? then true
     else if ContainsHere(ls[0], k) then Holds(ls[0], k, v, h)
     else (!ls[0].readOnly && !ContainsSync(ls[1..], k)) || InsertShows(ls[1..], k, v, h))
  }

  lemma WrittenIsFound(l: Level, k: Key, v: Blob, h: Hash)
    requires Writable(l)
    ensures FindHere(InsertHere(l, k, v, false, h), k, h) == Found(Some(v))
  {
    hide UrlBody;
    FindHereIsTruth(InsertHere(l, k, v, false, h), map[k := v], k, h);
  }

  /** A lookup right after an insert returns the inserted blob if and only if `InsertShows` held before. */
  lemma {:induction false} InsertThenFind(ls: seq<Level>, k: Key, v: Blob, h: Hash)
    requires |ls| > 0
    ensures FindSync(InsertSync(ls, k, v, h), k, h).0 == Found(Some(v)) <==> InsertShows(ls, k, v, h)
  {
    hide UrlBody;
    FindHereIff(ls[0], k, v, h);
    var once := InsertSync(ls, k, v, h);
    assert once[1..] == InsertSync(ls[1..], k, v, h);
    if ls[0].Memory? || (!ContainsSync(ls, k) && !ls[0].readOnly) {
      WrittenIsFound(ls[0], k, v, h);
    } else if !ContainsHere(ls[0], k) && |ls| > 1 {
      InsertThenFind(ls[1..], k, v, h);
    }
  }

  /** On a clash a file level does not overwrite: the old blob keeps being found. */
  lemma FilesDoNotOverwrite(k: Key, h: Hash)
    ensures var ls := [Files(map[UrlBody(k) := [0] + h([0])], false)];
            && InsertSync(ls, k, [1], h) == ls
            && FindSync(InsertSync(ls, k, [1], h), k, h).0 == Found(Some([0]))
  {
    hide UrlBody;
    var l := Files(map[UrlBody(k) := [0] + h([0])], false);
    FindHereIsTruth(l, map[k := [0]], k, h);
    assert InsertSync([l], k, [1], h) == [l];
  }

  // ---- damaged files ------------------------------------------------------------------------------

  /** An insert changes no file of a level that already has the key, wherever the level stands in the chain. */
  lemma {:induction false} FilesKeepTheirBlob(ls: seq<Level>, k: Key, v: Blob, i: nat, h: Hash)
    requires i < |ls| && ls[i].Files? && ContainsHere(ls[i], k)
    ensures InsertSync(ls, k, v, h)[i] == ls[i]
  {
    hide UrlBody;
    if i == 0 {
    } else {
      FilesKeepTheirBlob(ls[1..], k, v, i - 1, h);
    }
  }

  lemma {:induction false} InsertAbove(ls: seq<Level>, k: Key, v: Blob, i: nat, h: Hash)
    requires i < |ls| && ContainsHere(ls[i], k)
    requires forall j | 0 <= j < i :: ls[j].Files? && !ContainsHere(ls[j], k)
    ensures forall j | 0 <= j < i :: InsertSync(ls, k, v, h)[j] == ls[j]
  {
    hide UrlBody;
    if i == 0 {
    } else {
      InsertAbove(ls[1..], k, v, i - 1, h);
      ContainedBelow(ls, k, i);
    }
  }

  /**
    A damaged file under nothing but file levels without the key is contained, fails every lookup, and no insert of
    any blob repairs it.
   */
  lemma DamageStays(ls: seq<Level>, k: Key, v: Blob, i: nat, h: Hash)
    requires i < |ls| && Damaged(ls[i], k, h)
    requires forall j | 0 <= j < i :: ls[j].Files? && !ContainsHere(ls[j], k)
    ensures ContainsSync(ls, k) && FindSync(ls, k, h).0 == Corrupt
    ensures FindSync(InsertSync(ls, k, v, h), k, h).0 == Corrupt
  {
    hide UrlBody;
    FindHereIff(ls[i], k, v, h);
    ContainedBelow(ls, k, i);
    FindIsTopmost(ls, k, i, h);
    FilesKeepTheirBlob(ls, k, v, i, h);
    InsertAbove(ls, k, v, i, h);
    FindIsTopmost(InsertSync(ls, k, v, h), k, i, h);
  }

  lemma {:induction false} InsertAt(ls: seq<Level>, k: Key, v: Blob, i: nat, h: Hash)
    requires i < |ls|
    ensures InsertSync(ls, k, v, h)[i] == InsertHere(ls[i], k, v, ContainsSync(ls[i..], k), h)
  {
    if i == 0 {
      assert ls[0..] == ls;
    } else {
      InsertAt(ls[1..], k, v, i - 1, h);
      assert ls[1..][i - 1..] == ls[i..];
    }
  }

  /** An insert can only give a level the key, and it always gives it to a memory level; what it writes is intact. */
  lemma InsertHereEffect(l: Level, k: Key, v: Blob, already: bool, h: Hash)
    ensures var l' := InsertHere(l, k, v, already, h);
            && (!ContainsHere(l', k) ==> l.Files? && !ContainsHere(l, k))
            && (Damaged(l', k, h) ==> Damaged(l, k, h))
  {
    hide UrlBody, FindHere;
    var l' := InsertHere(l, k, v, already, h);
    if Writable(l) && (l.Memory? || !already) {
      WrittenIsFound(l, k, v, h);
      FindHereIff(l', k, v, h);
    }
  }

  /** Some damaged level has nothing above it but file levels without the key. */
  ghost predicate DamageShows(ls: seq<Level>, k: Key, h: Hash) {
    exists i | 0 <= i < |ls| ::
      Damaged(ls[i], k, h) && forall j | 0 <= j < i :: ls[j].Files? && !ContainsHere(ls[j], k)
  }

  /** A lookup after an insert of any blob fails if and only if such a level was there before. */
  lemma CorruptAfterInsertIff(ls: seq<Level>, k: Key, v: Blob, h: Hash)
    requires |ls| > 0
    ensures FindSync(InsertSync(ls, k, v, h), k, h).0 == Corrupt <==> DamageShows(ls, k, h)
  {
    hide UrlBody, Damaged, FindSync, ContainsHere, InsertHere;
    var ls' := InsertSync(ls, k, v, h);
    if i :| 0 <= i < |ls| && Damaged(ls[i], k, h) && forall j | 0 <= j < i :: ls[j].Files? && !ContainsHere(ls[j], k) {
      DamageStays(ls, k, v, i, h);
    }
    FindSyncIff(ls', k, h);
    if i :| 0 <= i < |ls'| && Damaged(ls'[i], k, h) && forall j | 0 <= j < i :: !ContainsHere(ls'[j], k) {
      forall j | 0 <= j <= i
        ensures !ContainsHere(ls'[j], k) ==> ls[j].Files? && !ContainsHere(ls[j], k)
        ensures Damaged(ls'[j], k, h) ==> Damaged(ls[j], k, h)
      {
        InsertAt(ls, k, v, j, h);
        InsertHereEffect(ls[j], k, v, ContainsSync(ls[j..], k), h);
      }
    }
  }
}
