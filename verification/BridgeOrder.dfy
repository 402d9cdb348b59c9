/** The order in which the bridged classes are emitted. */
module BridgeOrder {
  import opened ClassOrder

  // ---- nearest bridged bases ------------------------------------------------------------------------

  function AddNew(found: seq<Class>, more: seq<Class>): (r: seq<Class>)
    ensures Distinct(found) ==> Distinct(r)
    ensures forall c :: c in r <==> c in found || c in more
    decreases |more|
  {
    if more == [] then found
    else AddNew(if more[0] in found then found else found + [more[0]], more[1..])
  }

  /** The nearest bridged class along each base path, through classes the bridge does not carry. */
  function BridgedBases(h: Hierarchy, ghost rank: map<Class, nat>, c: Class): (r: seq<Class>)
    requires Ranked(h, rank) && c in h.records
    ensures Distinct(r)
    decreases rank[c], |h.records[c]| + 1
  {
    Collect(h, rank, c, |h.records[c]|)
  }

  /** What the first `n` bases give. */
  function Collect(h: Hierarchy, ghost rank: map<Class, nat>, c: Class, n: nat): (r: seq<Class>)
    requires Ranked(h, rank) && c in h.records && n <= |h.records[c]|
    ensures Distinct(r)
    decreases rank[c], n
  {
    if n == 0 then []
    else
      var found := Collect(h, rank, c, n - 1);
      var base := h.records[c][n - 1];
      if base in h.classes then AddNew(found, [base])
      else if base in h.records then assert Base(h, c, base); AddNew(found, BridgedBases(h, rank, base))
      else found
  }

  /** A path to a bridged class that passes no other bridged class. */
  ghost predicate NearestPath(h: Hierarchy, c: Class, a: Class, p: seq<Class>) {
    PathTo(h, c, a, p) && a in h.classes && forall i | 0 < i < |p| - 1 :: p[i] !in h.classes
  }

  ghost predicate Nearest(h: Hierarchy, c: Class, a: Class) {
    exists p :: NearestPath(h, c, a, p)
  }

  /** `a` is the bridged class met first from `b` on. */
  ghost predicate Leads(h: Hierarchy, b: Class, a: Class) {
    if b in h.classes then a == b else Nearest(h, b, a)
  }

  /** Nearest bridged classes are bases, or nearest above an unbridged base. */
  lemma NearestUnfolds(h: Hierarchy, c: Class, a: Class)
    requires WellFormed(h)
    ensures Nearest(h, c, a) <==>
            exists b | Base(h, c, b) :: Leads(h, b, a)
  {
    if p :| NearestPath(h, c, a, p) {
      PathStart(h, c, a, p);
      if p[1] !in h.classes {
        var q := p[1..];
        forall i | 0 <= i < |q| - 1 ensures Base(h, q[i], q[i + 1]) {
          assert Base(h, p[i + 1], p[i + 1 + 1]);
        }
        assert NearestPath(h, p[1], a, q);
      }
    }
    if b :| Base(h, c, b) && Leads(h, b, a) {
      if b in h.classes {
        assert NearestPath(h, c, a, [c, b]);
      } else {
        var q :| NearestPath(h, b, a, q);
        PrependKeeps(h, c, b, a, q);
        assert NearestPath(h, c, a, [c] + q);
      }
    }
  }

  lemma PrependKeeps(h: Hierarchy, c: Class, b: Class, a: Class, q: seq<Class>)
    requires Base(h, c, b) && PathTo(h, b, a, q)
    ensures PathTo(h, c, a, [c] + q)
  {
    var p := [c] + q;
    forall i | 0 <= i < |p| - 1 ensures Base(h, p[i], p[i + 1]) {
      if i > 0 {
        assert Base(h, q[i - 1], q[i - 1 + 1]);
      }
    }
  }

  /** What one more base adds. */
  lemma CollectStep(h: Hierarchy, rank: map<Class, nat>, c: Class, n: nat, a: Class)
    requires WellFormed(h) && Ranked(h, rank) && c in h.records && 0 < n <= |h.records[c]|
    ensures var base := h.records[c][n - 1];
            a in Collect(h, rank, c, n) <==>
            || a in Collect(h, rank, c, n - 1)
            || (if base in h.classes then a == base else base in h.records && a in BridgedBases(h, rank, base))
  {
    hide BridgedBases, Distinct;
  }

  lemma {:induction false} NewComesLast(found: seq<Class>, more: seq<Class>)
    ensures found <= AddNew(found, more)
    decreases |more|
  {
    if more == [] {
    } else {
      NewComesLast(if more[0] in found then found else found + [more[0]], more[1..]);
    }
  }

  /** Bases declared earlier come first: what the first `n` bases give begins the whole list. */
  lemma {:induction false} BasesInOrder(h: Hierarchy, rank: map<Class, nat>, c: Class, n: nat, m: nat)
    requires Ranked(h, rank) && c in h.records && n <= m <= |h.records[c]|
    ensures Collect(h, rank, c, n) <= Collect(h, rank, c, m)
    ensures Collect(h, rank, c, |h.records[c]|) == BridgedBases(h, rank, c)
    decreases m
  {
    if n == m {
    } else {
      hide Distinct, AddNew;
      BasesInOrder(h, rank, c, n, m - 1);
      var found, base := Collect(h, rank, c, m - 1), h.records[c][m - 1];
      if base in h.classes {
        NewComesLast(found, [base]);
      } else if base in h.records {
        assert Base(h, c, base);
        NewComesLast(found, BridgedBases(h, rank, base));
      }
    }
  }

  /** One of the first `n` bases leads to `a`. */
  ghost predicate SomeLeads(h: Hierarchy, c: Class, n: nat, a: Class)
    requires c in h.records && n <= |h.records[c]|
  {
    exists i | 0 <= i < n :: Base(h, c, h.records[c][i]) && Leads(h, h.records[c][i], a)
  }

  lemma SomeLeadsStep(h: Hierarchy, c: Class, n: nat, a: Class)
    requires c in h.records && 0 < n <= |h.records[c]|
    ensures SomeLeads(h, c, n, a) <==>
            SomeLeads(h, c, n - 1, a) || (Base(h, c, h.records[c][n - 1]) && Leads(h, h.records[c][n - 1], a))
  {
    hide Leads, Base;
  }

  lemma {:induction false} CollectIsNearest(h: Hierarchy, rank: map<Class, nat>, c: Class, n: nat, a: Class)
    requires WellFormed(h) && Ranked(h, rank) && c in h.records && n <= |h.records[c]|
    ensures a in Collect(h, rank, c, n) <==> SomeLeads(h, c, n, a)
    decreases rank[c], n
  {
    if n == 0 {
    } else {
      hide Nearest, Collect, BridgedBases, SomeLeads;
      CollectIsNearest(h, rank, c, n - 1, a);
      CollectStep(h, rank, c, n, a);
      SomeLeadsStep(h, c, n, a);
      var base := h.records[c][n - 1];
      if base !in h.classes && base in h.records {
        assert Base(h, c, base);
        BridgedBasesAreNearest(h, rank, base, a);
      }
    }
  }

  /** `bridged_bases` finds exactly the nearest bridged classes. */
  lemma {:induction false} BridgedBasesAreNearest(h: Hierarchy, rank: map<Class, nat>, c: Class, a: Class)
    requires WellFormed(h) && Ranked(h, rank) && c in h.records
    ensures a in BridgedBases(h, rank, c) <==> Nearest(h, c, a)
    decreases rank[c], |h.records[c]| + 1
  {
    hide Nearest;
    CollectIsNearest(h, rank, c, |h.records[c]|, a);
    NearestUnfolds(h, c, a);
    if b :| Base(h, c, b) && Leads(h, b, a) {
      var i :| 0 <= i < |h.records[c]| && h.records[c][i] == b;
    }
  }

  lemma NearestRanksLower(h: Hierarchy, rank: map<Class, nat>, c: Class, a: Class, p: seq<Class>)
    requires Ranked(h, rank) && PathTo(h, c, a, p)
    ensures c in h.records && a in h.records && rank[a] < rank[c]
    decreases |p|
  {
    PathStart(h, c, a, p);
    if |p| > 2 {
      var q := p[1..];
      forall i | 0 <= i < |q| - 1 ensures Base(h, q[i], q[i + 1]) {
        assert Base(h, p[i + 1], p[i + 1 + 1]);
      }
      NearestRanksLower(h, rank, p[1], a, q);
    }
  }

  // ---- bases first -----------------------------------------------------------------------------------

  /** Bridged classes, each once, each after its nearest bridged bases. */
  ghost predicate BasesFirst(h: Hierarchy, order: seq<Class>) {
    && Distinct(order) && (forall c | c in order :: c in h.classes)
    && forall i, b | 0 <= i < |order| && Nearest(h, order[i], b) :: b in order[..i]
  }

  /** Then each comes after all its bridged ancestors, also those reached only through unbridged classes. */
  lemma {:induction false} AncestorsComeFirst(h: Hierarchy, order: seq<Class>, i: nat, a: Class, p: seq<Class>)
    requires BasesFirst(h, order) && i < |order|
    requires PathTo(h, order[i], a, p) && a in h.classes
    ensures a in order[..i]
    decreases |p|
  {
    var k := 1;
    while p[k] !in h.classes
      invariant 1 <= k < |p| && forall j | 0 < j < k :: p[j] !in h.classes
      decreases |p| - k
    {
      k := k + 1;
    }
    var q, r := p[..k + 1], p[k..];
    SplitPath(h, p, k);
    assert NearestPath(h, order[i], p[k], q);
    assert Nearest(h, order[i], p[k]);
    var j :| 0 <= j < i && order[j] == p[k];
    if k < |p| - 1 {
      AncestorsComeFirst(h, order, j, a, r);
      var m :| 0 <= m < j && order[m] == a;
      assert order[..i][m] == a;
    }
  }

  lemma SplitPath(h: Hierarchy, p: seq<Class>, k: nat)
    requires Path(h, p) && k < |p|
    ensures Path(h, p[..k + 1]) && Path(h, p[k..])
  {
    var q, r := p[..k + 1], p[k..];
    forall i | 0 <= i < |q| - 1 ensures Base(h, q[i], q[i + 1]) {
      assert Base(h, p[i], p[i + 1]);
    }
    forall i | 0 <= i < |r| - 1 ensures Base(h, r[i], r[i + 1]) {
      assert Base(h, p[k + i], p[k + i + 1]);
    }
  }

  lemma AppendKeeps(h: Hierarchy, order: seq<Class>, c: Class)
    requires BasesFirst(h, order) && c in h.classes && c !in order
    requires forall b | Nearest(h, c, b) :: b in order
    ensures BasesFirst(h, order + [c])
  {
    hide Nearest;
    var order' := order + [c];
    forall i, b | 0 <= i < |order'| && Nearest(h, order'[i], b) ensures b in order'[..i] {
      assert order'[..i] == order[..i];
      if i == |order| {
        assert order[..i] == order;
      }
    }
  }

  /** The growing list that `visit` appends to. */
  class Planner {
    var order: seq<Class>

    constructor ()
      ensures order == []
    {
      order := [];
    }

    method Visit(h: Hierarchy, ghost rank: map<Class, nat>, cls: Class)
      requires WellFormed(h) && Ranked(h, rank) && cls in h.classes && BasesFirst(h, order)
      modifies this
      ensures BasesFirst(h, order) && cls in order && old(order) <= order
      ensures forall c | c in order && c !in old(order) :: rank[c] <= rank[cls]
      decreases rank[cls]
    {
      hide BasesFirst, Nearest;
      if cls in order {
        return;
      }
      var bases := BridgedBases(h, rank, cls);
      for k := 0 to |bases|
        invariant BasesFirst(h, order) && old(order) <= order && cls !in order
        invariant forall j | 0 <= j < k :: bases[j] in order
        invariant forall c | c in order && c !in old(order) :: c in h.classes && rank[c] < rank[cls]
      {
        NearestIsLower(h, rank, cls, bases[k]);
        Visit(h, rank, bases[k]);
        OrderIsBridged(h, order);
      }
      forall b | Nearest(h, cls, b) ensures b in order {
        BridgedBasesAreNearest(h, rank, cls, b);
      }
      AppendKeeps(h, order, cls);
      order := order + [cls];
    }

    /** The loop over the configured classes: every one is emitted exactly once, after all its bridged ancestors. */
    method Plan(h: Hierarchy, ghost rank: map<Class, nat>)
      requires WellFormed(h) && Ranked(h, rank) && order == []
      modifies this
      ensures multiset(order) == multiset(h.classes)
      ensures forall i, a | 0 <= i < |order| && a in h.classes && Above(h, order[i], a) :: a in order[..i]
    {
      for k := 0 to |h.classes|
        invariant BasesFirst(h, order)
        invariant forall j | 0 <= j < k :: h.classes[j] in order
      {
        Visit(h, rank, h.classes[k]);
      }
      SameClasses(order, h.classes);
      forall i, a | 0 <= i < |order| && a in h.classes && Above(h, order[i], a) ensures a in order[..i] {
        var p :| PathTo(h, order[i], a, p);
        AncestorsComeFirst(h, order, i, a, p);
      }
    }
  }

  lemma NearestIsLower(h: Hierarchy, rank: map<Class, nat>, c: Class, b: Class)
    requires WellFormed(h) && Ranked(h, rank) && c in h.records && b in BridgedBases(h, rank, c)
    ensures b in h.classes && rank[b] < rank[c]
  {
    BridgedBasesAreNearest(h, rank, c, b);
    var p :| NearestPath(h, c, b, p);
    NearestRanksLower(h, rank, c, b, p);
  }

  lemma OrderIsBridged(h: Hierarchy, order: seq<Class>)
    requires BasesFirst(h, order)
    ensures forall c | c in order :: c in h.classes
  {
  }

  lemma DistinctCount(s: seq<Class>, c: Class)
    requires Distinct(s)
    ensures multiset(s)[c] == if c in s then 1 else 0
  {
    if s != [] {
      var n := |s| - 1;
      DistinctCount(s[..n], c);
      assert s == s[..n] + [s[n]];
    }
  }

  lemma SameClasses(s: seq<Class>, t: seq<Class>)
    requires Distinct(s) && Distinct(t)
    requires forall c :: c in s <==> c in t
    ensures multiset(s) == multiset(t)
  {
    forall c: Class ensures multiset(s)[c] == multiset(t)[c] {
      DistinctCount(s, c);
      DistinctCount(t, c);
    }
  }
}
