/** The class hierarchy the bridge walks: ancestors, nearest bridged bases, and an order with bases first. */
module ClassOrder {
  type Class = string

  /** The public bases of every class the headers declare, and the classes the bridge carries, in configured order. */
  datatype Hierarchy = Hierarchy(records: map<Class, seq<Class>>, classes: seq<Class>)

  predicate Distinct(s: seq<Class>) {
    forall i, j | 0 <= i < j < |s| :: s[i] != s[j]
  }

  predicate WellFormed(h: Hierarchy) {
    Distinct(h.classes) && forall c | c in h.classes :: c in h.records
  }

  predicate Base(h: Hierarchy, c: Class, b: Class) {
    c in h.records && b in h.records[c] && b in h.records
  }

  /** A chain of bases upwards, the class first. */
  predicate Path(h: Hierarchy, p: seq<Class>) {
    |p| > 0 && forall i | 0 <= i < |p| - 1 :: Base(h, p[i], p[i + 1])
  }

  predicate PathTo(h: Hierarchy, c: Class, a: Class, p: seq<Class>) {
    |p| > 1 && Path(h, p) && p[0] == c && p[|p| - 1] == a
  }

  ghost predicate Above(h: Hierarchy, c: Class, a: Class) {
    exists p :: PathTo(h, c, a, p)
  }

  /** An acyclic hierarchy: bases rank lower. */
  ghost predicate Ranked(h: Hierarchy, rank: map<Class, nat>) {
    rank.Keys == h.records.Keys && forall c, b | Base(h, c, b) :: rank[b] < rank[c]
  }

  // ---- ancestors -------------------------------------------------------------------------------

  /** Reached in `d` base steps. */
  ghost predicate Reached(h: Hierarchy, name: Class, a: Class, d: nat) {
    exists p :: PathTo(h, name, a, p) && |p| == d + 1
  }

  /** `b` is in the list, at a depth of at most `d`. */
  predicate Within(cs: seq<Class>, ds: seq<nat>, b: Class, d: nat) {
    exists i | 0 <= i < |cs| && i < |ds| :: cs[i] == b && ds[i] <= d
  }

  ghost predicate BasesWithin(h: Hierarchy, c: Class, d: nat, cs: seq<Class>, ds: seq<nat>) {
    forall b | Base(h, c, b) :: Within(cs, ds, b, d)
  }

  predicate Ascending(ds: seq<nat>) {
    forall i, j | 0 <= i < j < |ds| :: ds[i] <= ds[j]
  }

  /** Depths in the lists are real distances, in order, and every class seen has its bases seen or queued one deeper. */
  ghost predicate Search(h: Hierarchy, name: Class, seen: seq<Class>, sd: seq<nat>, queue: seq<Class>, qd: seq<nat>) {
    && |seen| == |sd| && |queue| == |qd| && Distinct(seen)
    && (forall i | 0 <= i < |seen| :: seen[i] in h.records && Reached(h, name, seen[i], sd[i]))
    && (forall i | 0 <= i < |queue| :: queue[i] in h.records ==> Reached(h, name, queue[i], qd[i]))
    && Ascending(sd + qd) && Close(qd)
    && BasesWithin(h, name, 1, seen + queue, sd + qd)
    && (forall i | 0 <= i < |seen| :: BasesWithin(h, seen[i], sd[i] + 1, seen + queue, sd + qd))
  }

  lemma WithinKept(cs: seq<Class>, ds: seq<nat>, cs': seq<Class>, ds': seq<nat>, b: Class, d: nat, i: nat, i': nat)
    requires |cs| == |ds| && |cs'| == |ds'| && i < |cs| && i' < |cs'|
    requires cs[i] == b && ds[i] <= d && cs'[i'] == b && ds'[i'] <= ds[i]
    ensures Within(cs', ds', b, d)
  {
  }

  /** Dropping the queue's head loses nothing if it is unknown or already seen. */
  lemma DropWithin(h: Hierarchy, seen: seq<Class>, sd: seq<nat>, queue: seq<Class>, qd: seq<nat>, b: Class, d: nat)
    requires |seen| == |sd| && |queue| == |qd| > 0 && Ascending(sd + qd)
    requires queue[0] in seen || b != queue[0]
    requires Within(seen + queue, sd + qd, b, d)
    ensures Within(seen + queue[1..], sd + qd[1..], b, d)
  {
    var cs, ds, cs', ds' := seen + queue, sd + qd, seen + queue[1..], sd + qd[1..];
    var i :| 0 <= i < |cs| && i < |ds| && cs[i] == b && ds[i] <= d;
    if i < |seen| {
      WithinKept(cs, ds, cs', ds', b, d, i, i);
    } else if i == |seen| {
      var j :| 0 <= j < |seen| && seen[j] == b;
      assert ds[j] <= ds[i];
      WithinKept(cs, ds, cs', ds', b, d, i, j);
    } else {
      WithinKept(cs, ds, cs', ds', b, d, i, i - 1);
    }
  }

  lemma DropBases(h: Hierarchy, c: Class, seen: seq<Class>, sd: seq<nat>, queue: seq<Class>, qd: seq<nat>, d: nat)
    requires |seen| == |sd| && |queue| == |qd| > 0 && Ascending(sd + qd)
    requires queue[0] in seen || queue[0] !in h.records
    requires BasesWithin(h, c, d, seen + queue, sd + qd)
    ensures BasesWithin(h, c, d, seen + queue[1..], sd + qd[1..])
  {
    hide Within;
    forall b | Base(h, c, b) ensures Within(seen + queue[1..], sd + qd[1..], b, d) {
      DropWithin(h, seen, sd, queue, qd, b, d);
    }
  }

  lemma SkipKeeps(h: Hierarchy, name: Class, seen: seq<Class>, sd: seq<nat>, queue: seq<Class>, qd: seq<nat>)
    requires Search(h, name, seen, sd, queue, qd) && |queue| > 0
    requires queue[0] in seen || queue[0] !in h.records
    ensures Search(h, name, seen, sd, queue[1..], qd[1..])
  {
    hide BasesWithin, Reached;
    var ds, ds' := sd + qd, sd + qd[1..];
    forall i, j | 0 <= i < j < |ds'| ensures ds'[i] <= ds'[j] {
      assert ds'[i] == (if i < |sd| then ds[i] else ds[i + 1]) && ds'[j] == (if j < |sd| then ds[j] else ds[j + 1]);
    }
    assert forall i | 0 <= i < |qd[1..]| :: qd[1..][i] == qd[i + 1];
    DropBases(h, name, seen, sd, queue, qd, 1);
    forall i | 0 <= i < |seen| ensures BasesWithin(h, seen[i], sd[i] + 1, seen + queue[1..], sd + qd[1..]) {
      DropBases(h, seen[i], seen, sd, queue, qd, sd[i] + 1);
    }
  }

  /** A base one step further up. */
  lemma ReachedStep(h: Hierarchy, name: Class, a: Class, b: Class, d: nat)
    requires Reached(h, name, a, d) && Base(h, a, b)
    ensures Reached(h, name, b, d + 1)
  {
    var p :| PathTo(h, name, a, p) && |p| == d + 1;
    var q := p + [b];
    assert PathTo(h, name, b, q) by {
      forall i | 0 <= i < |q| - 1 ensures Base(h, q[i], q[i + 1]) {
        if i < |p| - 1 {
          assert Base(h, p[i], p[i + 1]);
        }
      }
    }
  }

  lemma VisitWithin(seen: seq<Class>, sd: seq<nat>, queue: seq<Class>, qd: seq<nat>, more: seq<Class>, md: seq<nat>,
                    b: Class, d: nat)
    requires |seen| == |sd| && |queue| == |qd| > 0 && |more| == |md|
    requires Within(seen + queue, sd + qd, b, d)
    ensures Within(seen + [queue[0]] + (queue[1..] + more), sd + [qd[0]] + (qd[1..] + md), b, d)
  {
    var cs, ds := seen + queue, sd + qd;
    var cs', ds' := seen + [queue[0]] + (queue[1..] + more), sd + [qd[0]] + (qd[1..] + md);
    assert cs' == cs + more && ds' == ds + md;
    var i :| 0 <= i < |cs| && i < |ds| && cs[i] == b && ds[i] <= d;
    WithinKept(cs, ds, cs', ds', b, d, i, i);
  }

  predicate Close(qd: seq<nat>) {
    forall i, j | 0 <= i < |qd| && 0 <= j < |qd| :: qd[j] <= qd[i] + 1
  }

  lemma DepthsStay(sd: seq<nat>, qd: seq<nat>, md: seq<nat>)
    requires |qd| > 0 && Ascending(sd + qd) && Close(qd) && forall i | 0 <= i < |md| :: md[i] == qd[0] + 1
    ensures Ascending((sd + [qd[0]]) + (qd[1..] + md)) && Close(qd[1..] + md)
  {
    var ds, more := sd + qd, qd[1..] + md;
    assert (sd + [qd[0]]) + more == ds + md;
    forall i | 0 <= i < |qd| ensures qd[0] <= qd[i] <= qd[0] + 1 {
      assert ds[|sd|] == qd[0] && ds[|sd| + i] == qd[i];
    }
    assert forall i | 0 <= i < |sd| :: sd[i] == ds[i] && ds[i] <= ds[|sd|];
    assert forall i | 0 <= i < |more| :: more[i] == if i < |qd| - 1 then qd[i + 1] else qd[0] + 1;
  }

  lemma VisitKeeps(h: Hierarchy, name: Class, seen: seq<Class>, sd: seq<nat>, queue: seq<Class>, qd: seq<nat>)
    requires Search(h, name, seen, sd, queue, qd) && |queue| > 0
    requires queue[0] !in seen && queue[0] in h.records
    ensures var more := h.records[queue[0]];
            Search(h, name, seen + [queue[0]], sd + [qd[0]], queue[1..] + more, qd[1..] + seq(|more|, _ => qd[0] + 1))
  {
    hide Reached, Within, Ascending, Close;
    var x, d := queue[0], qd[0];
    var more := h.records[x];
    var md := seq(|more|, _ => d + 1);
    var seen', sd', queue', qd' := seen + [x], sd + [d], queue[1..] + more, qd[1..] + md;
    var cs', ds' := seen' + queue', sd' + qd';
    DepthsStay(sd, qd, md);
    forall i | 0 <= i < |queue'| && queue'[i] in h.records ensures Reached(h, name, queue'[i], qd'[i]) {
      if i >= |queue| - 1 {
        ReachedStep(h, name, x, queue'[i], d);
      }
    }
    forall b, e | Within(seen + queue, sd + qd, b, e) ensures Within(cs', ds', b, e) {
      VisitWithin(seen, sd, queue, qd, more, md, b, e);
    }
    forall b | Base(h, x, b) ensures Within(cs', ds', b, d + 1) {
      var k :| 0 <= k < |more| && more[k] == b;
      var at := |seen + queue| + k;
      assert cs' == (seen + queue) + more && ds' == (sd + qd) + md;
      assert cs'[at] == b && ds'[at] == d + 1;
      WithinKept(cs', ds', cs', ds', b, d + 1, at, at);
    }
  }

  lemma StartSearch(h: Hierarchy, name: Class)
    requires name in h.records
    ensures Search(h, name, [], [], h.records[name], seq(|h.records[name]|, _ => 1))
  {
    var bases := h.records[name];
    var ds := seq(|bases|, _ => 1);
    forall i | 0 <= i < |bases| && bases[i] in h.records ensures Reached(h, name, bases[i], 1) {
      assert PathTo(h, name, bases[i], [name, bases[i]]);
    }
    assert [] + bases == bases && [] + ds == ds;
    forall b | Base(h, name, b) ensures Within(bases, ds, b, 1) {
      var i :| 0 <= i < |bases| && bases[i] == b;
      assert ds[i] <= 1;
    }
  }

  /** At the end of the search every path is covered, by an entry no deeper than the path is long. */
  lemma {:induction false} PathWithin(h: Hierarchy, name: Class, a: Class, p: seq<Class>, seen: seq<Class>,
                                      sd: seq<nat>)
    requires Search(h, name, seen, sd, [], []) && PathTo(h, name, a, p)
    ensures Within(seen, sd, a, |p| - 1)
    decreases |p|
  {
    assert seen + [] == seen && sd + [] == sd;
    var n := |p| - 1;
    assert Base(h, p[n - 1], p[n]);
    if n > 1 {
      var q := p[..n];
      forall i | 0 <= i < |q| - 1 ensures Base(h, q[i], q[i + 1]) {
        assert Base(h, p[i], p[i + 1]);
      }
      PathWithin(h, name, q[|q| - 1], q, seen, sd);
      var i :| 0 <= i < |seen| && i < |sd| && seen[i] == p[n - 1] && sd[i] <= n - 1;
      assert BasesWithin(h, seen[i], sd[i] + 1, seen, sd);
    }
  }

  /** Earlier entries are no farther from `name` than later ones. */
  ghost predicate NearestFirst(h: Hierarchy, name: Class, seen: seq<Class>) {
    forall i, j, p | 0 <= i < j < |seen| && PathTo(h, name, seen[j], p) ::
      exists q | PathTo(h, name, seen[i], q) :: |q| <= |p|
  }

  lemma SearchDone(h: Hierarchy, name: Class, seen: seq<Class>, sd: seq<nat>)
    requires Search(h, name, seen, sd, [], [])
    ensures forall a :: a in seen <==> Above(h, name, a)
    ensures NearestFirst(h, name, seen)
  {
    assert sd + [] == sd;
    forall a ensures a in seen <==> Above(h, name, a) {
      if p :| PathTo(h, name, a, p) {
        PathWithin(h, name, a, p, seen, sd);
      }
      if i :| 0 <= i < |seen| && seen[i] == a {
        assert Reached(h, name, seen[i], sd[i]);
      }
    }
    forall i, j, p | 0 <= i < j < |seen| && PathTo(h, name, seen[j], p)
      ensures exists q | PathTo(h, name, seen[i], q) :: |q| <= |p|
    {
      PathWithin(h, name, seen[j], p, seen, sd);
      assert Reached(h, name, seen[i], sd[i]);
    }
  }

  /** `Model.ancestors`: exactly the known classes above, each once, nearest first; cyclic declarations included. */
  method Ancestors(h: Hierarchy, name: Class) returns (seen: seq<Class>)
    ensures Distinct(seen)
    ensures forall a :: a in seen <==> Above(h, name, a)
    ensures NearestFirst(h, name, seen)
  {
    hide Search;
    seen := [];
    if name !in h.records {
      NothingAbove(h, name);
      return;
    }
    var queue := h.records[name];
    ghost var sd: seq<nat>, qd := [], seq(|queue|, _ => 1);
    StartSearch(h, name);
    while |queue| > 0
      invariant Search(h, name, seen, sd, queue, qd)
      decreases h.records.Keys - (set c | c in seen), |queue|
    {
      SearchShape(h, name, seen, sd, queue, qd);
      var base := queue[0];
      if base in seen || base !in h.records {
        SkipKeeps(h, name, seen, sd, queue, qd);
        queue, qd := queue[1..], qd[1..];
      } else {
        VisitKeeps(h, name, seen, sd, queue, qd);
        var more := h.records[base];
        assert base in h.records.Keys - (set c | c in seen);
        seen, sd, queue, qd := seen + [base], sd + [qd[0]], queue[1..] + more, qd[1..] + seq(|more|, _ => qd[0] + 1);
        assert base in seen;
      }
    }
    SearchShape(h, name, seen, sd, queue, qd);
    assert queue == [] && qd == [];
    SearchDone(h, name, seen, sd);
  }

  lemma SearchShape(h: Hierarchy, name: Class, seen: seq<Class>, sd: seq<nat>, queue: seq<Class>, qd: seq<nat>)
    requires Search(h, name, seen, sd, queue, qd)
    ensures |seen| == |sd| && |queue| == |qd| && Distinct(seen)
  {
  }

  lemma NothingAbove(h: Hierarchy, name: Class)
    requires name !in h.records
    ensures forall a :: !Above(h, name, a)
    ensures NearestFirst(h, name, [])
  {
    forall a, p ensures PathTo(h, name, a, p) ==> name in h.records {
      if PathTo(h, name, a, p) {
        PathStart(h, name, a, p);
      }
    }
  }

  lemma PathStart(h: Hierarchy, c: Class, a: Class, p: seq<Class>)
    requires PathTo(h, c, a, p)
    ensures Base(h, c, p[1]) && a in h.records
  {
    assert Base(h, p[0], p[1]);
    assert Base(h, p[|p| - 2], p[|p| - 2 + 1]);
  }
}
