/** The chain of cache levels as values: what each synchronous and asynchronous operation does to it. */
module BlobCache {
  import opened Arithmetic
  import opened Base64
  import opened Wrappers

  type Key = k: seq<Byte> | |k| > 0 witness [0]
  type Blob = seq<Byte>

  /** The 128-bit content hash, any function to 16 bytes. */
  type Hash = h: Blob -> seq<Byte> | IsHash(h) witness (_: Blob) => seq(16, _ => 0)

  ghost predicate IsHash(h: Blob -> seq<Byte>) {
    forall b :: |h(b)| == 16
  }

  /** One backend: an in-memory table, or a directory of files named after the encoded key. */
  datatype Level =
    | Memory(cache: map<Key, Blob>)
    | Files(files: map<string, seq<Byte>>, readOnly: bool)

  /** The answer of a lookup; a damaged file is an error. */
  datatype Answer = Corrupt | Found(blob: Option<Blob>)

  // ---- one level -----------------------------------------------------------------------

  /** `findSyncImpl`. */
  function FindHere(l: Level, k: Key, h: Hash): (a: Answer) {
    match l
    case Memory(cache) => Found(if k in cache then Some(cache[k]) else None)
    case Files(files, _) =>
      var name := UrlBody(k);
      if name !in files then Found(None)
      else
        var content := files[name];
        if |content| < 16 then Corrupt
        else
          var n := |content| - 16;
          if h(content[..n]) != content[n..] then Corrupt else Found(Some(content[..n]))
  }

  /** `containsSyncImpl`. */
  predicate ContainsHere(l: Level, k: Key) {
    match l case Memory(cache) => k in cache case Files(files, _) => UrlBody(k) in files
  }

  /** `insertSyncImpl`, told whether this level or one below it already has the key. */
  function InsertHere(l: Level, k: Key, v: Blob, already: bool, h: Hash): (r: Level) {
    match l
    case Memory(cache) => Memory(cache[k := v])
    case Files(files, readOnly) => if already || readOnly then l else Files(files[UrlBody(k) := v + h(v)], readOnly)
  }

  predicate Writable(l: Level) {
    l.Memory? || !l.readOnly
  }

  // ---- the chain, synchronously -----------------------------------------------------------

  predicate ContainsSync(ls: seq<Level>, k: Key) {
    |ls| > 0 && (ContainsHere(ls[0], k) || ContainsSync(ls[1..], k))
  }

  function InsertSync(ls: seq<Level>, k: Key, v: Blob, h: Hash): (r: seq<Level>)
    ensures |r| == |ls|
  {
    if |ls| == 0 then [] else [InsertHere(ls[0], k, v, ContainsSync(ls, k), h)] + InsertSync(ls[1..], k, v, h)
  }

  /** Answer and resulting chain; a hit below is inserted here, which walks the whole chain again. */
  function FindSync(ls: seq<Level>, k: Key, h: Hash): (r: (Answer, seq<Level>))
    requires |ls| > 0
    ensures |r.1| == |ls|
  {
    match FindHere(ls[0], k, h)
    case Corrupt => (Corrupt, ls)
    case Found(Some(v)) => (Found(Some(v)), ls)
    case Found(None) =>
      if |ls| == 1 then (Found(None), ls)
      else
        var (below, rest) := FindSync(ls[1..], k, h);
        var ls' := [ls[0]] + rest;
        match below
        case Found(Some(v)) => (below, InsertSync(ls', k, v, h))
        case _ => (below, ls')
  }

  // ---- the chain, asynchronously ------------------------------------------------------------
  // Every default `*Impl` runs the synchronous operation on the whole chain, and the delegate is
  // then visited again.

  function AsyncInsert(ls: seq<Level>, k: Key, v: Blob, h: Hash): (r: seq<Level>)
    requires |ls| > 0
    decreases |ls|
  {
    var ls' := InsertSync(ls, k, v, h);
    if |ls| == 1 then ls' else [ls'[0]] + AsyncInsert(ls'[1..], k, v, h)
  }

  predicate AsyncContains(ls: seq<Level>, k: Key)
    requires |ls| > 0
  {
    ContainsSync(ls, k) || (|ls| > 1 && AsyncContains(ls[1..], k))
  }

  function AsyncFind(ls: seq<Level>, k: Key, h: Hash): (r: (Answer, seq<Level>))
    requires |ls| > 0
    ensures |r.1| == |ls|
    decreases |ls|
  {
    var (answer, ls') := FindSync(ls, k, h);
    if answer != Found(None) || |ls| == 1 then (answer, ls')
    else
      var (below, rest) := AsyncFind(ls'[1..], k, h);
      var ls'' := [ls'[0]] + rest;
      match below
      case Found(Some(v)) => AsyncInsertLength(ls'', k, v, h); (below, AsyncInsert(ls'', k, v, h))
      case _ => (below, ls'')
  }

  lemma {:induction false} AsyncInsertLength(ls: seq<Level>, k: Key, v: Blob, h: Hash)
    requires |ls| > 0
    ensures |AsyncInsert(ls, k, v, h)| == |ls|
    decreases |ls|
  {
    if |ls| == 1 {
    } else {
      AsyncInsertLength(InsertSync(ls, k, v, h)[1..], k, v, h);
    }
  }

  /** After an insert, every level that can be written has the key. */
  lemma {:induction false} InsertedIsContained(ls: seq<Level>, k: Key, v: Blob, h: Hash)
    ensures ContainsSync(InsertSync(ls, k, v, h), k) <==>
            ContainsSync(ls, k) || exists i | 0 <= i < |ls| :: Writable(ls[i])
  {
    if |ls| == 0 {
    } else {
      var tail := ls[1..];
      InsertedIsContained(tail, k, v, h);
      assert InsertSync(ls, k, v, h)[1..] == InsertSync(tail, k, v, h);
      assert forall i | 0 <= i < |tail| :: tail[i] == ls[i + 1];
      if i :| 0 <= i < |ls| && Writable(ls[i]) {
        assert i == 0 || Writable(tail[i - 1]);
      }
      if j :| 0 <= j < |tail| && Writable(tail[j]) {
        assert Writable(ls[j + 1]);
      }
    }
  }

  /** Inserting the same blob a second time changes nothing, on any chain. */
  lemma {:induction false} InsertIsIdempotent(ls: seq<Level>, k: Key, v: Blob, h: Hash)
    ensures InsertSync(InsertSync(ls, k, v, h), k, v, h) == InsertSync(ls, k, v, h)
  {
    if |ls| == 0 {
    } else {
      var once := InsertSync(ls, k, v, h);
      InsertIsIdempotent(ls[1..], k, v, h);
      assert once[1..] == InsertSync(ls[1..], k, v, h);
      InsertedIsContained(ls, k, v, h);
      assert InsertHere(once[0], k, v, ContainsSync(once, k), h) == once[0];
      assert once == [once[0]] + once[1..];
    }
  }

  /** The asynchronous insert, although it visits lower levels several times, does what the synchronous one does. */
  lemma {:induction false} AsyncInsertIsSync(ls: seq<Level>, k: Key, v: Blob, h: Hash)
    requires |ls| > 0
    ensures AsyncInsert(ls, k, v, h) == InsertSync(ls, k, v, h)
    decreases |ls|
  {
    if |ls| == 1 {
    } else {
      var once := InsertSync(ls, k, v, h);
      assert once[1..] == InsertSync(ls[1..], k, v, h);
      AsyncInsertIsSync(once[1..], k, v, h);
      InsertIsIdempotent(ls[1..], k, v, h);
    }
  }

  lemma {:induction false} AsyncContainsIsSync(ls: seq<Level>, k: Key)
    requires |ls| > 0
    ensures AsyncContains(ls, k) == ContainsSync(ls, k)
  {
    if |ls| == 1 {
    } else {
      AsyncContainsIsSync(ls[1..], k);
    }
  }

  lemma MissChangesNothing(ls: seq<Level>, k: Key, h: Hash)
    requires |ls| > 0 && FindSync(ls, k, h).0 == Found(None)
    ensures FindSync(ls, k, h).1 == ls
    ensures |ls| > 1 ==> FindSync(ls[1..], k, h) == (Found(None), ls[1..])
  {
    if |ls| > 1 {
      MissChangesNothing(ls[1..], k, h);
      assert [ls[0]] + ls[1..] == ls;
    }
  }

  /** So do find and contains: same answer, errors included, and same chain afterwards. */
  lemma {:induction false} AsyncFindIsSync(ls: seq<Level>, k: Key, h: Hash)
    requires |ls| > 0
    ensures AsyncFind(ls, k, h) == FindSync(ls, k, h)
  {
    if FindSync(ls, k, h).0 == Found(None) {
      MissChangesNothing(ls, k, h);
      if |ls| > 1 {
        AsyncFindIsSync(ls[1..], k, h);
        assert [ls[0]] + ls[1..] == ls;
      }
    }
  }

  // ---- what a lookup answers -------------------------------------------------------------------

  /** The level stores exactly `v` for the key; a file is the blob followed by its hash. */
  ghost predicate Holds(l: Level, k: Key, v: Blob, h: Hash) {
    match l
    case Memory(cache) => k in cache && cache[k] == v
    case Files(files, _) => UrlBody(k) in files && files[UrlBody(k)] == v + h(v)
  }

  /** The level has a file for the key, and it is no blob followed by its hash. */
  ghost predicate Damaged(l: Level, k: Key, h: Hash) {
    l.Files? && UrlBody(k) in l.files && forall v: Blob :: l.files[UrlBody(k)] != v + h(v)
  }

  /** One level answers a blob exactly when it stores that blob intact, and fails exactly when its file is damaged. */
  lemma FindHereIff(l: Level, k: Key, v: Blob, h: Hash)
    ensures FindHere(l, k, h) == Found(Some(v)) <==> Holds(l, k, v, h)
    ensures FindHere(l, k, h) == Corrupt <==> Damaged(l, k, h)
    ensures FindHere(l, k, h) == Found(None) <==> !ContainsHere(l, k)
  {
    hide UrlBody;
    if l.Files? && UrlBody(k) in l.files {
      var content := l.files[UrlBody(k)];
      ReadBack(content, v, h);
      if FindHere(l, k, h) == Corrupt {
        forall u: Blob ensures content != u + h(u) {
          ReadBack(content, u, h);
        }
      } else {
        var n := |content| - 16;
        assert content == content[..n] + content[n..];
      }
    }
  }

  lemma ReadBack(content: seq<Byte>, v: Blob, h: Hash)
    ensures content == v + h(v) ==>
              |content| >= 16 && content[..|content| - 16] == v && content[|content| - 16..] == h(v)
  {
    assert |h(v)| == 16;
  }

  /** `find` says absent exactly when `contains` says absent, on any chain, damaged or not. */
  lemma {:induction false} ContainsAgreesWithFind(ls: seq<Level>, k: Key, h: Hash)
    requires |ls| > 0
    ensures FindSync(ls, k, h).0 == Found(None) <==> !ContainsSync(ls, k)
  {
    if |ls| == 1 {
    } else {
      ContainsAgreesWithFind(ls[1..], k, h);
    }
  }

  /** The answer of `find` is that of the topmost level which has the key, errors included. */
  lemma {:induction false} FindIsTopmost(ls: seq<Level>, k: Key, i: nat, h: Hash)
    requires i < |ls| && ContainsHere(ls[i], k)
    requires forall j | 0 <= j < i :: !ContainsHere(ls[j], k)
    ensures FindSync(ls, k, h).0 == FindHere(ls[i], k, h)
  {
    if i == 0 {
    } else {
      FindIsTopmost(ls[1..], k, i - 1, h);
    }
  }

  lemma {:induction false} Topmost(ls: seq<Level>, k: Key, h: Hash) returns (i: nat)
    requires |ls| > 0 && FindSync(ls, k, h).0 != Found(None)
    ensures i < |ls| && ContainsHere(ls[i], k) && forall j | 0 <= j < i :: !ContainsHere(ls[j], k)
  {
    hide UrlBody;
    if ContainsHere(ls[0], k) {
      i := 0;
    } else {
      i := Topmost(ls[1..], k, h);
      i := i + 1;
    }
  }

  lemma {:induction false} ContainedBelow(ls: seq<Level>, k: Key, i: nat)
    requires i < |ls| && ContainsHere(ls[i], k)
    ensures ContainsSync(ls, k)
  {
    if i == 0 {
    } else {
      ContainedBelow(ls[1..], k, i - 1);
    }
  }

  /** The topmost level that has the key stores exactly `v`. */
  ghost predicate TopHolds(ls: seq<Level>, k: Key, v: Blob, h: Hash) {
    exists i | 0 <= i < |ls| :: Holds(ls[i], k, v, h) && forall j | 0 <= j < i :: !ContainsHere(ls[j], k)
  }

  /** The topmost level that has the key is damaged. */
  ghost predicate TopDamaged(ls: seq<Level>, k: Key, h: Hash) {
    exists i | 0 <= i < |ls| :: Damaged(ls[i], k, h) && forall j | 0 <= j < i :: !ContainsHere(ls[j], k)
  }

  /** The answer for the key: what the topmost level that has it stores, or failure if that level is damaged. */
  ghost predicate IsAnswer(ls: seq<Level>, k: Key, h: Hash, a: Answer) {
    && (forall v: Blob :: a == Found(Some(v)) <==> TopHolds(ls, k, v, h))
    && (a == Corrupt <==> TopDamaged(ls, k, h))
    && (a == Found(None) <==> forall i | 0 <= i < |ls| :: !ContainsHere(ls[i], k))
  }

  lemma TopmostDecides(ls: seq<Level>, k: Key, i: nat, v: Blob, h: Hash)
    requires i < |ls| && ContainsHere(ls[i], k) && forall j | 0 <= j < i :: !ContainsHere(ls[j], k)
    ensures TopHolds(ls, k, v, h) <==> Holds(ls[i], k, v, h)
    ensures TopDamaged(ls, k, h) <==> Damaged(ls[i], k, h)
  {
    hide UrlBody;
    forall j | 0 <= j < |ls| ensures Holds(ls[j], k, v, h) || Damaged(ls[j], k, h) ==> ContainsHere(ls[j], k) {
    }
    hide Holds, Damaged, ContainsHere;
  }

  /** On any chain a lookup gives that answer. */
  lemma FindSyncIff(ls: seq<Level>, k: Key, h: Hash)
    requires |ls| > 0
    ensures IsAnswer(ls, k, h, FindSync(ls, k, h).0)
  {
    hide UrlBody, FindHere, FindSync, TopHolds, TopDamaged, Damaged, Holds, ContainsHere;
    var a := FindSync(ls, k, h).0;
    if a == Found(None) {
      NothingToFind(ls, k, h);
    } else {
      var i := Topmost(ls, k, h);
      FindIsTopmost(ls, k, i, h);
      forall v: Blob ensures a == Found(Some(v)) <==> TopHolds(ls, k, v, h) {
        FindHereIff(ls[i], k, v, h);
        TopmostDecides(ls, k, i, v, h);
      }
      assert TopDamaged(ls, k, h) <==> a == Corrupt by {
        FindHereIff(ls[i], k, [], h);
        TopmostDecides(ls, k, i, [], h);
      }
    }
  }

  lemma NothingToFind(ls: seq<Level>, k: Key, h: Hash)
    requires |ls| > 0 && FindSync(ls, k, h).0 == Found(None)
    ensures IsAnswer(ls, k, h, Found(None))
  {
    hide UrlBody, FindSync;
    ContainsAgreesWithFind(ls, k, h);
    if i :| 0 <= i < |ls| && ContainsHere(ls[i], k) {
      ContainedBelow(ls, k, i);
    }
  }

  predicate Hit(a: Answer) {
    a.Found? && a.blob.Some?
  }

  /** The head without the key passes the lookup on, and stores what comes back. */
  lemma FindBelow(ls: seq<Level>, k: Key, h: Hash)
    requires |ls| > 1 && !ContainsHere(ls[0], k)
    ensures var (below, rest) := FindSync(ls[1..], k, h);
            FindSync(ls, k, h) ==
            (below, if Hit(below) then InsertSync([ls[0]] + rest, k, below.blob.value, h) else [ls[0]] + rest)
  {
    hide UrlBody, InsertSync;
  }

  lemma FindAtHead(ls: seq<Level>, k: Key, h: Hash)
    requires |ls| > 0 && (|ls| == 1 || ContainsHere(ls[0], k))
    ensures FindSync(ls, k, h) == (FindHere(ls[0], k, h), ls)
    ensures !ContainsHere(ls[0], k) ==> !Hit(FindHere(ls[0], k, h))
  {
    hide UrlBody;
  }

  /** A hit below the head leaves the chain exactly as an insert of the found blob does; nothing else changes it. */
  lemma {:induction false} FillingIsInsert(ls: seq<Level>, k: Key, h: Hash)
    requires |ls| > 0
    ensures var (answer, ls') := FindSync(ls, k, h);
            if Hit(answer) && !ContainsHere(ls[0], k)
            then ls' == InsertSync(ls, k, answer.blob.value, h) else ls' == ls
  {
    hide UrlBody, InsertSync, ContainsHere, FindSync, FindHere, ContainsSync;
    if ContainsHere(ls[0], k) || |ls| == 1 {
      FindAtHead(ls, k, h);
    } else {
      var tail := ls[1..];
      FindBelow(ls, k, h);
      FillingIsInsert(tail, k, h);
      assert [ls[0]] + tail == ls;
      if Hit(FindSync(tail, k, h).0) {
        ContainsAgreesWithFind(tail, k, h);
        FillTwice(ls[0], tail, k, FindSync(tail, k, h).0.blob.value, h);
      }
    }
  }

  lemma FillTwice(l: Level, tail: seq<Level>, k: Key, v: Blob, h: Hash)
    ensures ContainsSync(tail, k) ==>
              InsertSync([l] + InsertSync(tail, k, v, h), k, v, h) == InsertSync([l] + tail, k, v, h)
  {
    InsertIsIdempotent(tail, k, v, h);
    InsertedIsContained(tail, k, v, h);
    var once := [l] + InsertSync(tail, k, v, h);
    assert once[1..] == InsertSync(tail, k, v, h) && ([l] + tail)[1..] == tail;
  }

  // ---- refinement of one map --------------------------------------------------------------------

  /** What this level holds for `k`, if anything, is exactly `truth[k]`, stored intact. */
  ghost predicate HoldsTruth(l: Level, truth: map<Key, Blob>, k: Key, h: Hash) {
    ContainsHere(l, k) ==>
      && k in truth
      && match l
         case Memory(cache) => cache[k] == truth[k]
         case Files(files, _) => files[UrlBody(k)] == truth[k] + h(truth[k])
  }

  /** Every level of the chain stores, for every key, nothing but the one blob of that key. */
  ghost predicate Agrees(ls: seq<Level>, truth: map<Key, Blob>, h: Hash) {
    forall i, k: Key | 0 <= i < |ls| :: HoldsTruth(ls[i], truth, k, h)
  }

  ghost predicate CanWrite(ls: seq<Level>) {
    exists i | 0 <= i < |ls| :: Writable(ls[i])
  }

  lemma AgreesTail(ls: seq<Level>, truth: map<Key, Blob>, h: Hash)
    requires |ls| > 0
    ensures Agrees(ls, truth, h) <==> Agrees(ls[1..], truth, h) && forall k: Key :: HoldsTruth(ls[0], truth, k, h)
  {
    var tail := ls[1..];
    assert forall i | 0 <= i < |tail| :: tail[i] == ls[i + 1];
    if Agrees(ls, truth, h) {
      forall i, k: Key | 0 <= i < |tail| ensures HoldsTruth(tail[i], truth, k, h) {
        assert HoldsTruth(ls[i + 1], truth, k, h);
      }
    }
    if Agrees(tail, truth, h) && forall k: Key :: HoldsTruth(ls[0], truth, k, h) {
      forall i, k: Key | 0 <= i < |ls| ensures HoldsTruth(ls[i], truth, k, h) {
        assert i > 0 ==> HoldsTruth(tail[i - 1], truth, k, h);
      }
    }
  }

  /** A level that holds the truth answers it, and never reports a damaged file. */
  lemma FindHereIsTruth(l: Level, truth: map<Key, Blob>, k: Key, h: Hash)
    requires HoldsTruth(l, truth, k, h)
    ensures FindHere(l, k, h) == Found(if ContainsHere(l, k) then Some(truth[k]) else None)
  {
    hide UrlBody;
    if l.Files? && ContainsHere(l, k) {
      var v := truth[k];
      var content := l.files[UrlBody(k)];
      assert |h(v)| == 16;
      assert content[..|content| - 16] == v && content[|content| - 16..] == h(v);
    }
  }

  /** Storing the key's own blob keeps the truth for every key: no two keys share a file name. */
  lemma InsertHereKeepsTruth(l: Level, truth: map<Key, Blob>, k: Key, v: Blob, already: bool, other: Key, h: Hash)
    requires HoldsTruth(l, truth, other, h)
    requires k in truth && truth[k] == v
    ensures HoldsTruth(InsertHere(l, k, v, already, h), truth, other, h)
    ensures other != k ==> (ContainsHere(InsertHere(l, k, v, already, h), other) <==> ContainsHere(l, other))
  {
    hide UrlBody;
    UrlInjective(other, k);
  }

  /** Write-through of a key's own blob keeps agreement, and touches no other key. */
  lemma {:induction false} InsertAgrees(ls: seq<Level>, truth: map<Key, Blob>, k: Key, v: Blob, h: Hash)
    requires Agrees(ls, truth, h)
    requires k in truth && truth[k] == v
    ensures Agrees(InsertSync(ls, k, v, h), truth, h)
    ensures forall j: Key | j != k :: ContainsSync(InsertSync(ls, k, v, h), j) <==> ContainsSync(ls, j)
  {
    hide HoldsTruth, Agrees, ContainsHere, InsertHere;
    if |ls| == 0 {
      NothingAgrees(truth, h);
    } else {
      var ls' := InsertSync(ls, k, v, h);
      var already := ContainsSync(ls, k);
      AgreesTail(ls, truth, h);
      InsertAgrees(ls[1..], truth, k, v, h);
      assert ls'[1..] == InsertSync(ls[1..], k, v, h);
      forall j: Key
        ensures HoldsTruth(ls'[0], truth, j, h)
        ensures j != k ==> (ContainsHere(ls'[0], j) <==> ContainsHere(ls[0], j))
      {
        InsertHereKeepsTruth(ls[0], truth, k, v, already, j, h);
      }
      AgreesTail(ls', truth, h);
    }
  }

  lemma NothingAgrees(truth: map<Key, Blob>, h: Hash)
    ensures Agrees([], truth, h)
  {
  }
}
