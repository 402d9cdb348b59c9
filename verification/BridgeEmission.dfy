/** The overload tables of all bridged classes, built base classes first. */
module BridgeEmission {
  import opened Overloads
  import opened ClassOrder
  import opened BridgeOrder

  function Merge(t: Table, u: Table): (r: Table)
    ensures forall name :: Of(r, name) == Of(t, name) + Of(u, name)
  {
    map name | name in t.Keys + u.Keys :: Of(t, name) + Of(u, name)
  }

  function TableOf(tables: map<Class, Table>, c: Class): (t: Table) {
    if c in tables then tables[c] else map[]
  }

  function CandidatesOf(methods: map<Class, seq<Candidate>>, c: Class): (cs: seq<Candidate>) {
    if c in methods then methods[c] else []
  }

  /** `found` holds what the tables of the listed bridged classes hold. */
  ghost predicate Gathered(h: Hierarchy, tables: map<Class, Table>, listed: seq<Class>, found: Table) {
    forall name, o :: o in Of(found, name) <==>
      exists a | a in listed && a in h.classes :: o in Of(TableOf(tables, a), name)
  }

  lemma GatherNext(h: Hierarchy, tables: map<Class, Table>, listed: seq<Class>, c: Class, found: Table)
    requires Gathered(h, tables, listed, found)
    ensures Gathered(h, tables, listed + [c], if c in h.classes then Merge(found, TableOf(tables, c)) else found)
  {
    var found' := if c in h.classes then Merge(found, TableOf(tables, c)) else found;
    forall name, o
      ensures o in Of(found', name) <==>
              exists a | a in listed + [c] && a in h.classes :: o in Of(TableOf(tables, a), name)
    {
      if a :| a in listed && a in h.classes && o in Of(TableOf(tables, a), name) {
        assert a in listed + [c];
      }
      assert c in listed + [c];
    }
  }

  lemma GatheredAbove(h: Hierarchy, tables: map<Class, Table>, c: Class, listed: seq<Class>, found: Table)
    requires Gathered(h, tables, listed, found)
    requires forall a :: a in listed <==> Above(h, c, a)
    ensures forall name, o :: o in Of(found, name) <==>
              exists a | a in h.classes && Above(h, c, a) :: o in Of(TableOf(tables, a), name)
  {
    hide Above, TableOf, Of;
  }

  /** `inherited_signatures`: an overload is inherited exactly when some bridged ancestor's table has it. */
  method InheritedSignatures(h: Hierarchy, c: Class, tables: map<Class, Table>) returns (found: Table)
    ensures forall name, o :: o in Of(found, name) <==>
              exists a | a in h.classes && Above(h, c, a) :: o in Of(TableOf(tables, a), name)
  {
    hide Above, NearestFirst;
    var ancestors := Ancestors(h, c);
    found := map[];
    for k := 0 to |ancestors|
      invariant Gathered(h, tables, ancestors[..k], found)
    {
      hide Gathered;
      GatherNext(h, tables, ancestors[..k], ancestors[k], found);
      assert ancestors[..k + 1] == ancestors[..k] + [ancestors[k]];
      if ancestors[k] in h.classes {
        found := Merge(found, TableOf(tables, ancestors[k]));
      }
    }
    assert ancestors[..|ancestors|] == ancestors;
    GatheredAbove(h, tables, c, ancestors, found);
  }

  /** The class itself and its bridged ancestors with traits; value classes have none. */
  ghost predicate Contributes(h: Hierarchy, values: set<Class>, c: Class, a: Class) {
    a in h.classes && a !in values && (a == c || Above(h, c, a))
  }

  /** The table of `c` holds exactly what it and its bridged ancestors keep in their traits. */
  ghost predicate Complete(h: Hierarchy, values: set<Class>, c: Class, table: Table, mine: map<Class, Table>) {
    forall name, o :: o in Of(table, name) <==>
      exists a | Contributes(h, values, c, a) :: o in Of(TableOf(mine, a), name)
  }

  /** No call matches an overload that `c` keeps and another that `c` or a bridged ancestor keeps. */
  ghost predicate Unambiguous(h: Hierarchy, values: set<Class>, c: Class, mine: map<Class, Table>) {
    forall name, j | 0 <= j < |Of(TableOf(mine, c), name)| :: ApartFrom(h, values, c, mine, name, j)
  }

  ghost predicate ApartFrom(h: Hierarchy, values: set<Class>, c: Class, mine: map<Class, Table>, name: string, j: nat)
    requires j < |Of(TableOf(mine, c), name)|
  {
    var kept := Of(TableOf(mine, c), name);
    && (forall k | 0 <= k < j :: !Clash(kept[j].sig, kept[k].sig))
    && (forall a, o | a != c && Contributes(h, values, c, a) && o in Of(TableOf(mine, a), name) ::
          !Clash(kept[j].sig, o.sig))
  }

  /** A call would match candidate `i` and an overload that `c` keeps from an earlier one, or that an ancestor keeps. */
  ghost predicate Blocked(h: Hierarchy, values: set<Class>, c: Class, cs: seq<Candidate>, out: seq<Outcome>,
                          mine: map<Class, Table>, i: nat)
    requires i < |cs| == |out|
  {
    || (exists j | 0 <= j < i :: out[j].InTrait? && cs[j].name == cs[i].name && Clash(cs[i].sig, cs[j].sig))
    || (exists a, o | a != c && Contributes(h, values, c, a) && o in Of(TableOf(mine, a), cs[i].name) ::
          Clash(cs[i].sig, o.sig))
  }

  /** What becomes of candidate `i`. */
  ghost function Fate(h: Hierarchy, values: set<Class>, c: Class, cs: seq<Candidate>, out: seq<Outcome>,
                      mine: map<Class, Table>, i: nat): (o: Outcome)
    requires i < |cs| == |out|
  {
    if Blocked(h, values, c, cs, out, mine, i) then Clashing
    else if !cs[i].emits then Unbridged
    else if cs[i].handsOver then HandedOver else InTrait
  }

  /**
    Every candidate of `c` has its fate, and the class keeps exactly the candidates that go into the trait, in their
    order.
   */
  ghost predicate Chosen(h: Hierarchy, values: set<Class>, c: Class, cs: seq<Candidate>, out: seq<Outcome>,
                         mine: map<Class, Table>) {
    && |out| == |cs|
    && (forall i | 0 <= i < |cs| :: out[i] == Fate(h, values, c, cs, out, mine, i))
    && (forall name :: Of(TableOf(mine, c), name) == Kept(c, cs, out, name))
  }

  function OutcomesOf(manifest: map<Class, seq<Outcome>>, c: Class): (out: seq<Outcome>) {
    if c in manifest then manifest[c] else []
  }

  /** The classes come after their bridged ancestors. */
  ghost predicate AncestorsFirst(h: Hierarchy, order: seq<Class>) {
    && Distinct(order) && (forall c | c in order :: c in h.classes)
    && forall i, a | 0 <= i < |order| && a in h.classes && Above(h, order[i], a) :: a in order[..i]
  }

  /** The tables after the first `k` classes. */
  ghost predicate Emitted(h: Hierarchy, values: set<Class>, order: seq<Class>, k: nat,
                          tables: map<Class, Table>, mine: map<Class, Table>)
    requires k <= |order|
  {
    && (forall c | c in tables || c in mine :: c in order[..k] && c !in values)
    && forall i | 0 <= i < k && order[i] !in values ::
         && Complete(h, values, order[i], TableOf(tables, order[i]), mine)
         && Unambiguous(h, values, order[i], mine)
  }

  /** The decisions about the candidates of the first `k` classes. */
  ghost predicate Decisions(h: Hierarchy, values: set<Class>, order: seq<Class>, k: nat,
                            methods: map<Class, seq<Candidate>>, mine: map<Class, Table>,
                            manifest: map<Class, seq<Outcome>>)
    requires k <= |order|
  {
    forall i | 0 <= i < k && order[i] !in values ::
      Chosen(h, values, order[i], CandidatesOf(methods, order[i]), OutcomesOf(manifest, order[i]), mine)
  }

  lemma AboveTransitive(h: Hierarchy, c: Class, b: Class, a: Class)
    requires Above(h, c, b) && Above(h, b, a)
    ensures Above(h, c, a)
  {
    var p :| PathTo(h, c, b, p);
    var q :| PathTo(h, b, a, q);
    var r := p + q[1..];
    forall i | 0 <= i < |r| - 1 ensures Base(h, r[i], r[i + 1]) {
      if i < |p| - 1 {
        assert Base(h, p[i], p[i + 1]);
      } else {
        assert Base(h, q[i - (|p| - 1)], q[i - (|p| - 1) + 1]);
      }
    }
    assert PathTo(h, c, a, r);
  }

  /** Contributors of an earlier class are earlier, or the class itself. */
  lemma ContributorsAreEarlier(h: Hierarchy, values: set<Class>, order: seq<Class>, i: nat, a: Class)
    requires AncestorsFirst(h, order) && i < |order| && Contributes(h, values, order[i], a)
    ensures a in order[..i + 1]
    ensures a != order[i] ==> a in order[..i]
  {
    hide Above;
    assert a != order[i] ==> Above(h, order[i], a);
    assert order[i] == order[..i + 1][i];
    if a != order[i] {
      var j :| 0 <= j < i && order[j] == a;
      assert order[..i + 1][j] == a;
    }
  }

  /** An overload is inherited from the tables exactly when some other contributor keeps it. */
  lemma InheritedIsComplete(h: Hierarchy, values: set<Class>, order: seq<Class>, k: nat,
                            tables: map<Class, Table>, mine: map<Class, Table>, name: string, o: Overload)
    requires AncestorsFirst(h, order) && k < |order| && Emitted(h, values, order, k, tables, mine)
    ensures (exists a | a in h.classes && Above(h, order[k], a) :: o in Of(TableOf(tables, a), name)) <==>
            (exists a | a != order[k] && Contributes(h, values, order[k], a) :: o in Of(TableOf(mine, a), name))
  {
    hide Above, Unambiguous;
    var c := order[k];
    if b :| b in h.classes && Above(h, c, b) && o in Of(TableOf(tables, b), name) {
      assert b in tables;
      var i :| 0 <= i < k && order[i] == b;
      assert Complete(h, values, order[i], TableOf(tables, order[i]), mine);
      var a :| Contributes(h, values, b, a) && o in Of(TableOf(mine, a), name);
      if a != b {
        AboveTransitive(h, c, b, a);
      }
      assert a in mine;
      var j :| 0 <= j < k && order[j] == a;
      assert Contributes(h, values, c, a) && a != c;
    }
    if a :| a != c && Contributes(h, values, c, a) && o in Of(TableOf(mine, a), name) {
      ContributorsAreEarlier(h, values, order, k, a);
      var i :| 0 <= i < k && order[i] == a;
      assert Complete(h, values, order[i], TableOf(tables, order[i]), mine);
      assert Contributes(h, values, a, a);
    }
  }

  /** Emitting a class leaves the tables of earlier classes, and what they say, alone. */
  lemma EarlierUntouched(h: Hierarchy, values: set<Class>, order: seq<Class>, k: nat, i: nat,
                         table: Table, mine: map<Class, Table>, m: Table)
    requires AncestorsFirst(h, order) && i < k < |order|
    requires Complete(h, values, order[i], table, mine) && Unambiguous(h, values, order[i], mine)
    ensures Complete(h, values, order[i], table, mine[order[k] := m])
    ensures Unambiguous(h, values, order[i], mine[order[k] := m])
  {
    hide Above, Clash;
    var c, mine' := order[i], mine[order[k] := m];
    forall a | Contributes(h, values, c, a) ensures TableOf(mine', a) == TableOf(mine, a) {
      ContributorsAreEarlier(h, values, order, i, a);
      var j :| 0 <= j < i + 1 && order[j] == a;
    }
    assert TableOf(mine', c) == TableOf(mine, c);
    forall name, j | 0 <= j < |Of(TableOf(mine', c), name)| ensures ApartFrom(h, values, c, mine', name, j) {
      assert ApartFrom(h, values, c, mine, name, j);
    }
  }

  /** Nor does it change the fate of their candidates. */
  lemma EarlierChosen(h: Hierarchy, values: set<Class>, order: seq<Class>, k: nat, i: nat,
                      cs: seq<Candidate>, out: seq<Outcome>, mine: map<Class, Table>, m: Table)
    requires AncestorsFirst(h, order) && i < k < |order| && order[i] in h.classes && order[i] !in values
    requires Chosen(h, values, order[i], cs, out, mine)
    ensures Chosen(h, values, order[i], cs, out, mine[order[k] := m])
  {
    hide Above, Clash, Kept;
    var c, mine' := order[i], mine[order[k] := m];
    forall a | Contributes(h, values, c, a) ensures TableOf(mine', a) == TableOf(mine, a) {
      ContributorsAreEarlier(h, values, order, i, a);
      var j :| 0 <= j < i + 1 && order[j] == a;
    }
    assert Contributes(h, values, c, c);
    hide TableOf, Contributes;
    forall n | 0 <= n < |cs| ensures out[n] == Fate(h, values, c, cs, out, mine', n) {
      assert Blocked(h, values, c, cs, out, mine', n) <==> Blocked(h, values, c, cs, out, mine, n);
    }
  }

  /** What the selection decided is the fate, told by ancestors instead of by the inherited table. */
  lemma SelectedIsChosen(h: Hierarchy, values: set<Class>, c: Class, inherited: Table, cs: seq<Candidate>,
                         out: seq<Outcome>, m: Table, mine: map<Class, Table>)
    requires Selected(c, inherited, cs, out, m) && TableOf(mine, c) == m
    requires forall name, o :: o in Of(inherited, name) <==>
               exists a | a != c && Contributes(h, values, c, a) :: o in Of(TableOf(mine, a), name)
    ensures Chosen(h, values, c, cs, out, mine)
  {
    hide Clash, Contributes, Kept;
    forall i | 0 <= i < |cs| ensures out[i] == Fate(h, values, c, cs, out, mine, i) {
      var sig, name := cs[i].sig, cs[i].name;
      assert Decided(c, inherited, cs, out, i);
      KeptClash(c, cs[..i], out[..i], name, sig);
      InheritedClash(h, values, c, inherited, name, sig, mine);
      assert forall j | 0 <= j < i :: cs[..i][j] == cs[j] && out[..i][j] == out[j];
    }
  }

  lemma InheritedClash(h: Hierarchy, values: set<Class>, c: Class, inherited: Table, name: string, sig: Signature,
                       mine: map<Class, Table>)
    requires forall o :: o in Of(inherited, name) <==>
               exists a | a != c && Contributes(h, values, c, a) :: o in Of(TableOf(mine, a), name)
    ensures ClashesWithAny(sig, Of(inherited, name)) <==>
            exists a, o | a != c && Contributes(h, values, c, a) && o in Of(TableOf(mine, a), name) :: Clash(sig, o.sig)
  {
    hide Clash, Contributes;
    var all := Of(inherited, name);
    if i :| 0 <= i < |all| && Clash(sig, all[i].sig) {
      assert all[i] in all;
      var a :| a != c && Contributes(h, values, c, a) && all[i] in Of(TableOf(mine, a), name);
    }
    if a, o :| a != c && Contributes(h, values, c, a) && o in Of(TableOf(mine, a), name) && Clash(sig, o.sig) {
      assert o in all;
      var i :| 0 <= i < |all| && all[i] == o;
      assert Clash(sig, all[i].sig);
    }
  }

  /** The new class's table is complete, and what it keeps is apart from everything it inherits. */
  lemma NewClass(h: Hierarchy, values: set<Class>, order: seq<Class>, k: nat, tables: map<Class, Table>,
                 mine: map<Class, Table>,
                 inherited: Table, m: Table, cs: seq<Candidate>, out: seq<Outcome>)
    requires AncestorsFirst(h, order) && k < |order| && Emitted(h, values, order, k, tables, mine)
    requires order[k] !in values
    requires forall name, o :: o in Of(inherited, name) <==>
               exists a | a in h.classes && Above(h, order[k], a) :: o in Of(TableOf(tables, a), name)
    requires Selected(order[k], inherited, cs, out, m)
    ensures var mine' := mine[order[k] := m];
            && Complete(h, values, order[k], Merge(inherited, m), mine')
            && Unambiguous(h, values, order[k], mine')
            && Chosen(h, values, order[k], cs, out, mine')
  {
    hide Above, Clash, Emitted, Chosen;
    var c, mine' := order[k], mine[order[k] := m];
    assert Contributes(h, values, c, c) && TableOf(mine', c) == m;
    forall name, o
      ensures o in Of(inherited, name) <==>
              exists a | a != c && Contributes(h, values, c, a) :: o in Of(TableOf(mine', a), name)
    {
      InheritedIsComplete(h, values, order, k, tables, mine, name, o);
      assert forall a | a != c :: TableOf(mine', a) == TableOf(mine, a);
    }
    forall name, j | 0 <= j < |Of(m, name)| ensures ApartFrom(h, values, c, mine', name, j) {
      KeptAreApart(c, inherited, cs, out, name, j);
      InheritedApart(h, values, c, mine', inherited, name, Of(m, name)[j].sig);
    }
    MergeIsComplete(h, values, c, inherited, m, mine');
    SelectedIsChosen(h, values, c, inherited, cs, out, m, mine');
  }

  lemma InheritedApart(h: Hierarchy, values: set<Class>, c: Class, mine: map<Class, Table>, inherited: Table,
                       name: string, sig: Signature)
    requires forall k | 0 <= k < |Of(inherited, name)| :: !Clash(sig, Of(inherited, name)[k].sig)
    requires forall o :: o in Of(inherited, name) <==>
               exists a | a != c && Contributes(h, values, c, a) :: o in Of(TableOf(mine, a), name)
    ensures forall a, o | a != c && Contributes(h, values, c, a) && o in Of(TableOf(mine, a), name) ::
              !Clash(sig, o.sig)
  {
    hide Clash, Above;
    forall a, o | a != c && Contributes(h, values, c, a) && o in Of(TableOf(mine, a), name) ensures !Clash(sig, o.sig) {
      assert o in Of(inherited, name);
    }
  }

  lemma MergeIsComplete(h: Hierarchy, values: set<Class>, c: Class, inherited: Table, m: Table, mine: map<Class, Table>)
    requires Contributes(h, values, c, c) && TableOf(mine, c) == m
    requires forall name, o :: o in Of(inherited, name) <==>
               exists a | a != c && Contributes(h, values, c, a) :: o in Of(TableOf(mine, a), name)
    ensures Complete(h, values, c, Merge(inherited, m), mine)
  {
    hide Above;
    var table := Merge(inherited, m);
    forall name, o
      ensures o in Of(table, name) <==> exists a | Contributes(h, values, c, a) :: o in Of(TableOf(mine, a), name)
    {
      assert o in Of(table, name) <==> o in Of(inherited, name) || o in Of(m, name);
      if a :| Contributes(h, values, c, a) && o in Of(TableOf(mine, a), name) {
        assert a == c || o in Of(inherited, name);
      }
    }
  }

  lemma EmitNext(h: Hierarchy, values: set<Class>, order: seq<Class>, k: nat, tables: map<Class, Table>,
                 mine: map<Class, Table>,
                 inherited: Table, m: Table, cs: seq<Candidate>, out: seq<Outcome>)
    requires AncestorsFirst(h, order) && k < |order| && Emitted(h, values, order, k, tables, mine)
    requires order[k] !in values
    requires forall name, o :: o in Of(inherited, name) <==>
               exists a | a in h.classes && Above(h, order[k], a) :: o in Of(TableOf(tables, a), name)
    requires Selected(order[k], inherited, cs, out, m)
    ensures Emitted(h, values, order, k + 1, tables[order[k] := Merge(inherited, m)], mine[order[k] := m])
  {
    hide Complete, Unambiguous, Selected, Above, Chosen;
    NewClass(h, values, order, k, tables, mine, inherited, m, cs, out);
    assert order[..k + 1] == order[..k] + [order[k]];
    var tables', mine' := tables[order[k] := Merge(inherited, m)], mine[order[k] := m];
    forall i | 0 <= i < k + 1 && order[i] !in values
      ensures Complete(h, values, order[i], TableOf(tables', order[i]), mine')
      ensures Unambiguous(h, values, order[i], mine')
    {
      if i < k {
        EarlierUntouched(h, values, order, k, i, TableOf(tables, order[i]), mine, m);
        assert TableOf(tables', order[i]) == TableOf(tables, order[i]);
      }
    }
  }

  lemma SkipValue(h: Hierarchy, values: set<Class>, order: seq<Class>, k: nat, tables: map<Class, Table>,
                  mine: map<Class, Table>)
    requires k < |order| && Emitted(h, values, order, k, tables, mine) && order[k] in values
    ensures Emitted(h, values, order, k + 1, tables, mine)
  {
    assert order[..k + 1] == order[..k] + [order[k]];
  }

  lemma DecideNext(h: Hierarchy, values: set<Class>, order: seq<Class>, k: nat, tables: map<Class, Table>,
                   mine: map<Class, Table>, inherited: Table, m: Table,
                   methods: map<Class, seq<Candidate>>, manifest: map<Class, seq<Outcome>>, out: seq<Outcome>)
    requires AncestorsFirst(h, order) && k < |order| && Emitted(h, values, order, k, tables, mine)
    requires Decisions(h, values, order, k, methods, mine, manifest) && order[k] !in values
    requires forall name, o :: o in Of(inherited, name) <==>
               exists a | a in h.classes && Above(h, order[k], a) :: o in Of(TableOf(tables, a), name)
    requires Selected(order[k], inherited, CandidatesOf(methods, order[k]), out, m)
    ensures Decisions(h, values, order, k + 1, methods, mine[order[k] := m], manifest[order[k] := out])
  {
    hide Selected, Above, Chosen, Complete, Unambiguous, CandidatesOf, Emitted;
    NewClass(h, values, order, k, tables, mine, inherited, m, CandidatesOf(methods, order[k]), out);
    var mine', manifest' := mine[order[k] := m], manifest[order[k] := out];
    forall i | 0 <= i < k + 1 && order[i] !in values
      ensures Chosen(h, values, order[i], CandidatesOf(methods, order[i]), OutcomesOf(manifest', order[i]), mine')
    {
      if i < k {
        assert order[i] in h.classes;
        EarlierChosen(h, values, order, k, i, CandidatesOf(methods, order[i]), OutcomesOf(manifest, order[i]), mine, m);
      }
    }
  }

  /** The emission loop: `tables` is `signatures`, `mine` what each class's own trait keeps. */
  method EmitAll(h: Hierarchy, values: set<Class>, order: seq<Class>, methods: map<Class, seq<Candidate>>)
    returns (tables: map<Class, Table>, mine: map<Class, Table>, manifest: map<Class, seq<Outcome>>)
    requires AncestorsFirst(h, order)
    ensures Emitted(h, values, order, |order|, tables, mine)
    ensures Decisions(h, values, order, |order|, methods, mine, manifest)
  {
    hide Above, Chosen;
    tables, mine, manifest := map[], map[], map[];
    for k := 0 to |order|
      invariant Emitted(h, values, order, k, tables, mine)
      invariant Decisions(h, values, order, k, methods, mine, manifest)
    {
      var c := order[k];
      if c in values {
        SkipValue(h, values, order, k, tables, mine);
      } else {
        hide Emitted, Selected, Decisions;
        var inherited := InheritedSignatures(h, c, tables);
        var m, out := Select(c, inherited, CandidatesOf(methods, c));
        EmitNext(h, values, order, k, tables, mine, inherited, m, CandidatesOf(methods, c), out);
        DecideNext(h, values, order, k, tables, mine, inherited, m, methods, manifest, out);
        tables, mine, manifest := tables[c := Merge(inherited, m)], mine[c := m], manifest[c := out];
      }
    }
  }

  /**
    The whole decision: for an acyclic hierarchy, every bridged class keeps exactly the candidates that emit, are not
    handed over and clash with none kept earlier by it or by any bridged ancestor; its table holds exactly what it
    and all its bridged ancestors keep; and no call matches both an overload it keeps and another of those.
   */
  method Generate(h: Hierarchy, ghost rank: map<Class, nat>, values: set<Class>, methods: map<Class, seq<Candidate>>)
    returns (tables: map<Class, Table>, mine: map<Class, Table>, manifest: map<Class, seq<Outcome>>)
    requires WellFormed(h) && Ranked(h, rank)
    ensures forall c | c in h.classes && c !in values ::
              && Chosen(h, values, c, CandidatesOf(methods, c), OutcomesOf(manifest, c), mine)
              && Complete(h, values, c, TableOf(tables, c), mine)
              && Unambiguous(h, values, c, mine)
  {
    hide Above, Complete, Unambiguous, Chosen;
    var planner := new Planner();
    planner.Plan(h, rank);
    var order := planner.order;
    PlanIsAncestorsFirst(h, order);
    tables, mine, manifest := EmitAll(h, values, order, methods);
    forall c | c in h.classes && c !in values
      ensures Chosen(h, values, c, CandidatesOf(methods, c), OutcomesOf(manifest, c), mine)
      ensures Complete(h, values, c, TableOf(tables, c), mine) && Unambiguous(h, values, c, mine)
    {
      assert c in multiset(order);
      var i :| 0 <= i < |order| && order[i] == c;
    }
  }

  lemma PlanIsAncestorsFirst(h: Hierarchy, order: seq<Class>)
    requires WellFormed(h) && multiset(order) == multiset(h.classes)
    requires forall i, a | 0 <= i < |order| && a in h.classes && Above(h, order[i], a) :: a in order[..i]
    ensures AncestorsFirst(h, order)
  {
    hide Above;
    forall i, j | 0 <= i < j < |order| ensures order[i] != order[j] {
      DistinctCount(h.classes, order[i]);
      TwiceCounts(order, i, j);
    }
    forall c | c in order ensures c in h.classes {
      assert c in multiset(order);
    }
  }

  /** A class at two places is counted at least twice. */
  lemma TwiceCounts(s: seq<Class>, i: nat, j: nat)
    requires i < j < |s|
    ensures s[i] == s[j] ==> multiset(s)[s[i]] >= 2
  {
    assert s == s[..j] + [s[j]] + s[j + 1..];
    assert s[..j] == s[..i] + [s[i]] + s[i + 1..j];
  }
}
