/** Which overloads of a class the bridge keeps, so that no call is ambiguous. */
module Overloads {
  datatype Shown = Shown(ty: string, hasDefault: bool)

  /** A parameter on the Mojo side; `Hidden` when the bridge supplies it itself. */
  datatype Param = Hidden | Param(shown: Shown)

  /** Parameter types, and how many of them a call must give. */
  datatype Signature = Signature(types: seq<string>, required: nat)

  /** The arguments of a call, by type, match an overload that takes so many, with the same types that far. */
  predicate Matches(sig: Signature, call: seq<string>) {
    sig.required <= |call| <= |sig.types| && sig.types[..|call|] == call
  }

  /** Some call could mean either overload. */
  ghost predicate Clash(one: Signature, other: Signature) {
    exists call :: Matches(one, call) && Matches(other, call)
  }

  function Visible(params: seq<Param>): (r: seq<Shown>) {
    if params == [] then []
    else
      var rest := Visible(params[..|params| - 1]);
      if params[|params| - 1].Hidden? then rest else rest + [params[|params| - 1].shown]
  }

  ghost predicate Increasing(at: seq<nat>) {
    forall i, j | 0 <= i < j < |at| :: at[i] < at[j]
  }

  lemma Appended(at: seq<nat>, n: nat) returns (r: seq<nat>)
    requires Increasing(at) && forall i | 0 <= i < |at| :: at[i] < n
    ensures Increasing(r) && |r| == |at| + 1 && r[|at|] == n
    ensures forall i | 0 <= i < |at| :: r[i] == at[i]
    ensures forall k :: k in r <==> k in at || k == n
  {
    r := at + [n];
    assert r[|at|] == n;
  }

  /** `shown` holds exactly the parameters that are not hidden, in their order: `at` says where each one stands. */
  ghost predicate Picked(params: seq<Param>, shown: seq<Shown>, at: seq<nat>) {
    && |at| == |shown| && Increasing(at)
    && (forall i | 0 <= i < |at| :: at[i] < |params| && params[at[i]] == Param(shown[i]))
    && (forall k | 0 <= k < |params| :: k in at <==> params[k].Param?)
  }

  lemma PickNone() returns (at: seq<nat>)
    ensures Picked([], [], at)
  {
    at := [];
  }

  lemma PickNext(params: seq<Param>, shown: seq<Shown>, at: seq<nat>, p: Param) returns (at': seq<nat>)
    requires Picked(params, shown, at)
    ensures Picked(params + [p], if p.Hidden? then shown else shown + [p.shown], at')
  {
    hide Increasing;
    if p.Hidden? {
      at' := at;
    } else {
      at' := Appended(at, |params|);
    }
  }

  lemma {:induction false} VisibleAt(params: seq<Param>) returns (at: seq<nat>)
    ensures Picked(params, Visible(params), at)
  {
    hide Picked;
    if params == [] {
      at := PickNone();
    } else {
      var n := |params| - 1;
      var init, last := params[..n], params[n];
      assert Visible(params) == if last.Hidden? then Visible(init) else Visible(init) + [last.shown];
      var before := VisibleAt(init);
      at := PickNext(init, Visible(init), before, last);
      assert params == init + [last];
    }
  }

  /** A call with `n` arguments leaves out only parameters that have defaults. */
  ghost predicate MayOmitFrom(params: seq<Shown>, n: nat) {
    forall i | n <= i < |params| :: params[i].hasDefault
  }

  /** The required count is exactly the fewest arguments a call can give. */
  method SignatureOf(params: seq<Param>) returns (sig: Signature)
    ensures |sig.types| == |Visible(params)|
    ensures forall i | 0 <= i < |sig.types| :: sig.types[i] == Visible(params)[i].ty
    ensures forall n: nat | n <= |sig.types| :: n >= sig.required <==> MayOmitFrom(Visible(params), n)
    ensures sig.required <= |sig.types|
  {
    var types, required: nat := [], 0;
    for k := 0 to |params|
      invariant |types| == |Visible(params[..k])| && required <= |types|
      invariant forall i | 0 <= i < |types| :: types[i] == Visible(params[..k])[i].ty
      invariant forall i | required <= i < |types| :: Visible(params[..k])[i].hasDefault
      invariant required > 0 ==> !Visible(params[..k])[required - 1].hasDefault
    {
      assert params[..k + 1][..k] == params[..k];
      match params[k] {
        case Hidden =>
        case Param(Shown(ty, hasDefault)) =>
          types := types + [ty];
          if !hasDefault {
            required := |types|;
          }
      }
    }
    assert params[..|params|] == params;
    sig := Signature(types, required);
  }

  /** Both overloads take `n` arguments, of the same types. */
  predicate SameAt(one: Signature, other: Signature, n: nat) {
    && one.required <= n <= |one.types| && other.required <= n <= |other.types|
    && one.types[..n] == other.types[..n]
  }

  /** A clash shows at one argument count that both take. */
  lemma ClashAtCount(one: Signature, other: Signature)
    ensures Clash(one, other) <==> exists n: nat :: SameAt(one, other, n)
  {
    if Clash(one, other) {
      var call :| Matches(one, call) && Matches(other, call);
      assert SameAt(one, other, |call|);
    }
    if n: nat :| SameAt(one, other, n) {
      assert Matches(one, one.types[..n]) && Matches(other, one.types[..n]);
    }
  }

  /** The generator's test finds a clash exactly when some call matches both overloads. */
  method Ambiguous(one: Signature, other: Signature) returns (clash: bool)
    ensures clash <==> Clash(one, other)
  {
    ClashAtCount(one, other);
    var count := if one.required > other.required then one.required else other.required;
    var last := if |one.types| < |other.types| then |one.types| else |other.types|;
    while count < last + 1
      invariant one.required <= count && other.required <= count
      invariant forall n: nat | n < count :: !SameAt(one, other, n)
    {
      if one.types[..count] == other.types[..count] {
        assert SameAt(one, other, count);
        return true;
      }
      count := count + 1;
    }
    return false;
  }

  // ---- selection -------------------------------------------------------------------------------

  /** An overload that a trait carries, and the class it comes from. */
  datatype Overload = Overload(sig: Signature, owner: string)

  type Table = map<string, seq<Overload>>

  /** A method the generator considers; `emits` is false where producing its entry raises `Unbridged`. */
  datatype Candidate = Candidate(name: string, sig: Signature, handsOver: bool, emits: bool)

  datatype Outcome = Clashing | Unbridged | HandedOver | InTrait

  function Of(t: Table, name: string): (r: seq<Overload>) {
    if name in t then t[name] else []
  }

  ghost predicate ClashesWithAny(sig: Signature, others: seq<Overload>) {
    exists i | 0 <= i < |others| :: Clash(sig, others[i].sig)
  }

  /** The overloads of `name` that the first candidates put in the trait, in order. */
  function Kept(cls: string, cs: seq<Candidate>, out: seq<Outcome>, name: string): (r: seq<Overload>)
    requires |cs| == |out|
  {
    if cs == [] then []
    else
      var n := |cs| - 1;
      var rest := Kept(cls, cs[..n], out[..n], name);
      if out[n].InTrait? && cs[n].name == name then rest + [Overload(cs[n].sig, cls)] else rest
  }

  /** What the generator decides about a candidate, given what came before it. */
  ghost predicate Decided(cls: string, inherited: Table, cs: seq<Candidate>, out: seq<Outcome>, i: nat)
    requires |cs| == |out| && i < |cs|
  {
    var c := cs[i];
    var before := Kept(cls, cs[..i], out[..i], c.name);
    && (out[i].Clashing? <==> ClashesWithAny(c.sig, Of(inherited, c.name)) || ClashesWithAny(c.sig, before))
    && (out[i].Unbridged? ==> !c.emits)
    && (out[i].HandedOver? ==> c.emits && c.handsOver)
    && (out[i].InTrait? ==> c.emits && !c.handsOver)
  }

  method ClashesIn(sig: Signature, others: seq<Overload>) returns (clash: bool)
    ensures clash <==> ClashesWithAny(sig, others)
  {
    clash := false;
    for i := 0 to |others|
      invariant clash <==> exists j | 0 <= j < i :: Clash(sig, others[j].sig)
    {
      if !clash {
        clash := Ambiguous(sig, others[i].sig);
      }
    }
  }

  /** Prefixes of the decisions do not change as later candidates are decided. */
  lemma DecidedEarlier(cls: string, inherited: Table, cs: seq<Candidate>, out: seq<Outcome>, o: Outcome, i: nat)
    requires |out| < |cs| && i < |out| && Decided(cls, inherited, cs[..|out|], out, i)
    ensures Decided(cls, inherited, cs[..|out| + 1], out + [o], i)
  {
    assert cs[..|out| + 1][..i] == cs[..|out|][..i] && (out + [o])[..i] == out[..i];
  }

  /** Every candidate is decided, and the class's own table holds what its trait keeps. */
  ghost predicate Selected(cls: string, inherited: Table, cs: seq<Candidate>, out: seq<Outcome>, mine: Table) {
    && |out| == |cs| && (forall i | 0 <= i < |cs| :: Decided(cls, inherited, cs, out, i))
    && (forall name :: Of(mine, name) == Kept(cls, cs, out, name))
  }

  /** One more candidate. */
  lemma SelectNext(cls: string, inherited: Table, cs: seq<Candidate>, out: seq<Outcome>, mine: Table, o: Outcome,
                   mine': Table)
    requires |out| < |cs| && Selected(cls, inherited, cs[..|out|], out, mine)
    requires var c := cs[|out|];
             && (o.Clashing? <==>
                   ClashesWithAny(c.sig, Of(inherited, c.name)) || ClashesWithAny(c.sig, Of(mine, c.name)))
             && (o.Unbridged? ==> !c.emits)
             && (o.HandedOver? ==> c.emits && c.handsOver)
             && (o.InTrait? ==> c.emits && !c.handsOver)
             && mine' == if o.InTrait? then mine[c.name := Of(mine, c.name) + [Overload(c.sig, cls)]] else mine
    ensures Selected(cls, inherited, cs[..|out| + 1], out + [o], mine')
  {
    hide ClashesWithAny;
    var k := |out|;
    var cs', out' := cs[..k + 1], out + [o];
    assert cs'[..k] == cs[..k] && out'[..k] == out;
    forall i | 0 <= i < k + 1 ensures Decided(cls, inherited, cs', out', i) {
      if i < k {
        DecidedEarlier(cls, inherited, cs, out, o, i);
      } else {
        assert out'[i] == o && cs'[i] == cs[k];
      }
    }
    forall name ensures Of(mine', name) == Kept(cls, cs', out', name) {
      assert Of(mine, name) == Kept(cls, cs[..k], out, name);
      assert cs'[|cs'| - 1] == cs[k] && out'[|cs'| - 1] == o;
    }
  }

  /** The selection loop of `emit_class`: `mine` is the class's own table, `out` the decision on each candidate. */
  method Select(cls: string, inherited: Table, cs: seq<Candidate>) returns (mine: Table, out: seq<Outcome>)
    ensures Selected(cls, inherited, cs, out, mine)
  {
    hide ClashesWithAny, Decided, Clash;
    mine, out := map[], [];
    for k := 0 to |cs|
      invariant |out| == k && Selected(cls, inherited, cs[..k], out, mine)
    {
      hide Selected;
      var c := cs[k];
      var clash := ClashesIn(c.sig, Of(inherited, c.name));
      if !clash {
        clash := ClashesIn(c.sig, Of(mine, c.name));
      }
      var o := if clash then Clashing else if !c.emits then Unbridged else if c.handsOver then HandedOver else InTrait;
      ghost var before := mine;
      if o.InTrait? {
        mine := mine[c.name := Of(mine, c.name) + [Overload(c.sig, cls)]];
      }
      SelectNext(cls, inherited, cs, out, before, o, mine);
      out := out + [o];
    }
    assert cs[..|cs|] == cs;
  }

  /** Every kept overload is one of the candidates' and belongs to the class. */
  lemma {:induction false} KeptFrom(cls: string, cs: seq<Candidate>, out: seq<Outcome>, name: string, j: nat)
    returns (i: nat)
    requires |cs| == |out| && j < |Kept(cls, cs, out, name)|
    ensures i < |cs| && out[i].InTrait? && cs[i].name == name
    ensures Kept(cls, cs, out, name)[j] == Overload(cs[i].sig, cls)
    ensures Kept(cls, cs[..i], out[..i], name) == Kept(cls, cs, out, name)[..j]
  {
    var n := |cs| - 1;
    var rest := Kept(cls, cs[..n], out[..n], name);
    if j < |rest| {
      i := KeptFrom(cls, cs[..n], out[..n], name, j);
      assert cs[..n][..i] == cs[..i] && out[..n][..i] == out[..i];
    } else {
      i := n;
    }
  }

  /** Exactly the candidates of this name that are in the trait, in their order: `at` says where each one stands. */
  lemma {:induction false} KeptAt(cls: string, cs: seq<Candidate>, out: seq<Outcome>, name: string)
    returns (at: seq<nat>)
    requires |cs| == |out|
    ensures |at| == |Kept(cls, cs, out, name)|
    ensures forall i | 0 <= i < |at| :: at[i] < |cs| && Kept(cls, cs, out, name)[i] == Overload(cs[at[i]].sig, cls)
    ensures Increasing(at)
    ensures forall k | 0 <= k < |cs| :: k in at <==> out[k].InTrait? && cs[k].name == name
  {
    if cs == [] {
      at := [];
    } else {
      var n := |cs| - 1;
      hide Increasing;
      var before := KeptAt(cls, cs[..n], out[..n], name);
      if out[n].InTrait? && cs[n].name == name {
        at := Appended(before, n);
      } else {
        at := before;
      }
    }
  }

  /** So a signature clashes with a kept overload exactly when it clashes with one of those candidates. */
  lemma KeptClash(cls: string, cs: seq<Candidate>, out: seq<Outcome>, name: string, sig: Signature)
    requires |cs| == |out|
    ensures ClashesWithAny(sig, Kept(cls, cs, out, name)) <==>
            exists j | 0 <= j < |cs| :: out[j].InTrait? && cs[j].name == name && Clash(sig, cs[j].sig)
  {
    hide Clash, Kept;
    var at := KeptAt(cls, cs, out, name);
    var kept := Kept(cls, cs, out, name);
    if i :| 0 <= i < |kept| && Clash(sig, kept[i].sig) {
      assert at[i] in at;
    }
    if j :| 0 <= j < |cs| && out[j].InTrait? && cs[j].name == name && Clash(sig, cs[j].sig) {
      assert j in at;
      var i :| 0 <= i < |at| && at[i] == j;
      assert Clash(sig, kept[i].sig);
    }
  }

  /** No call matches two overloads that the class keeps, nor one it keeps and one it inherits. */
  lemma KeptAreApart(cls: string, inherited: Table, cs: seq<Candidate>, out: seq<Outcome>, name: string, j: nat)
    requires |cs| == |out| && forall i | 0 <= i < |cs| :: Decided(cls, inherited, cs, out, i)
    requires j < |Kept(cls, cs, out, name)|
    ensures var kept := Kept(cls, cs, out, name);
            && (forall k | 0 <= k < j :: !Clash(kept[j].sig, kept[k].sig))
            && (forall k | 0 <= k < |Of(inherited, name)| :: !Clash(kept[j].sig, Of(inherited, name)[k].sig))
  {
    hide Clash;
    var i := KeptFrom(cls, cs, out, name, j);
    assert Decided(cls, inherited, cs, out, i);
    var before := Kept(cls, cs[..i], out[..i], name);
    forall k | 0 <= k < j ensures !Clash(cs[i].sig, Kept(cls, cs, out, name)[k].sig) {
      assert before[k] == Kept(cls, cs, out, name)[k];
    }
  }

  // ---- constructors ------------------------------------------------------------------------------

  /** A constructor; `reports` tells whether it reports its status through a parameter. */
  datatype Constructor = Constructor(sig: Signature, reports: bool)

  /** The constructors that report their status, or those that do not, in order. */
  function Only(cs: seq<Constructor>, reports: bool): (r: seq<Constructor>)
    ensures forall i | 0 <= i < |r| :: r[i].reports == reports
  {
    if cs == [] then []
    else
      var rest := Only(cs[..|cs| - 1], reports);
      if cs[|cs| - 1].reports == reports then rest + [cs[|cs| - 1]] else rest
  }

  /** Stable sort: the constructors that report their status come first, and both kinds keep their order. */
  method StatusFirst(cs: seq<Constructor>) returns (r: seq<Constructor>, reporting: nat)
    ensures r == Only(cs, true) + Only(cs, false) && reporting == |Only(cs, true)|
  {
    var first, second := [], [];
    for k := 0 to |cs|
      invariant first == Only(cs[..k], true) && second == Only(cs[..k], false)
    {
      assert cs[..k + 1][..k] == cs[..k];
      if cs[k].reports {
        first := first + [cs[k]];
      } else {
        second := second + [cs[k]];
      }
    }
    assert cs[..|cs|] == cs;
    r, reporting := first + second, |first|;
  }

  /** The sort loses and repeats nothing. */
  lemma {:induction false} SortKeepsAll(cs: seq<Constructor>)
    ensures multiset(Only(cs, true) + Only(cs, false)) == multiset(cs)
  {
    if cs == [] {
    } else {
      var n := |cs| - 1;
      SortKeepsAll(cs[..n]);
      assert cs == cs[..n] + [cs[n]];
    }
  }

  /** The constructors that are marked, in order. */
  function Marked(cs: seq<Constructor>, keep: seq<bool>): (r: seq<Constructor>)
    requires |cs| == |keep|
  {
    if cs == [] then []
    else
      var n := |cs| - 1;
      var rest := Marked(cs[..n], keep[..n]);
      if keep[n] then rest + [cs[n]] else rest
  }

  lemma MarkedNext(sorted: seq<Constructor>, keep: seq<bool>, last: bool)
    requires |keep| < |sorted|
    ensures var k, rest := |keep|, Marked(sorted[..|keep|], keep);
            Marked(sorted[..k + 1], keep + [last]) == if last then rest + [sorted[k]] else rest
  {
    var k := |keep|;
    assert sorted[..k + 1][..k] == sorted[..k] && (keep + [last])[..k] == keep;
  }

  ghost predicate AnyClash(sig: Signature, cs: seq<Constructor>) {
    exists i | 0 <= i < |cs| :: Clash(sig, cs[i].sig)
  }

  lemma AnyClashAppends(sig: Signature, cs: seq<Constructor>, c: Constructor)
    ensures AnyClash(sig, cs + [c]) <==> AnyClash(sig, cs) || Clash(sig, c.sig)
  {
    hide Clash;
    var all := cs + [c];
    assert all[|cs|] == c && forall i | 0 <= i < |cs| :: all[i] == cs[i];
  }

  /** Some constructor among the first `|keep|` is marked and clashes. */
  ghost predicate ClashesWithMarked(sorted: seq<Constructor>, keep: seq<bool>, sig: Signature)
    requires |keep| <= |sorted|
  {
    exists j | 0 <= j < |keep| :: keep[j] && Clash(sig, sorted[j].sig)
  }

  lemma ClashesWithMarkedNext(sorted: seq<Constructor>, keep: seq<bool>, last: bool, sig: Signature)
    requires |keep| < |sorted|
    ensures ClashesWithMarked(sorted, keep + [last], sig) <==>
            ClashesWithMarked(sorted, keep, sig) || (last && Clash(sig, sorted[|keep|].sig))
  {
    hide Clash;
    var keep' := keep + [last];
    assert keep'[|keep|] == last && forall j | 0 <= j < |keep| :: keep'[j] == keep[j];
  }

  /** A constructor clashes with one of the kept ones exactly when it clashes with a marked one. */
  lemma {:induction false} MarkedClash(sorted: seq<Constructor>, keep: seq<bool>, sig: Signature)
    requires |keep| <= |sorted|
    ensures AnyClash(sig, Marked(sorted[..|keep|], keep)) <==> ClashesWithMarked(sorted, keep, sig)
    decreases |keep|
  {
    if keep == [] {
      assert sorted[..0] == [];
    } else {
      hide Clash, AnyClash, ClashesWithMarked, Marked;
      var k := |keep| - 1;
      var init := keep[..k];
      assert keep == init + [keep[k]];
      MarkedClash(sorted, init, sig);
      MarkedNext(sorted, init, keep[k]);
      ClashesWithMarkedNext(sorted, init, keep[k], sig);
      AnyClashAppends(sig, Marked(sorted[..k], init), sorted[k]);
    }
  }

  /** `any(ambiguous(signature, other) for other in kept)`. */
  method ClashesWithKept(sig: Signature, kept: seq<Constructor>) returns (clash: bool)
    ensures clash <==> AnyClash(sig, kept)
  {
    clash := false;
    for i := 0 to |kept|
      invariant clash <==> exists j | 0 <= j < i :: Clash(sig, kept[j].sig)
    {
      if !clash {
        clash := Ambiguous(sig, kept[i].sig);
      }
    }
  }

  /** Each of the first constructors is marked exactly when it clashes with none marked before it. */
  ghost predicate Greedy(sorted: seq<Constructor>, keep: seq<bool>) {
    && |keep| <= |sorted|
    && forall i | 0 <= i < |keep| :: keep[i] <==> !ClashesWithMarked(sorted, keep[..i], sorted[i].sig)
  }

  lemma GreedyNext(sorted: seq<Constructor>, keep: seq<bool>, clash: bool)
    requires |keep| < |sorted| && Greedy(sorted, keep)
    requires clash <==> AnyClash(sorted[|keep|].sig, Marked(sorted[..|keep|], keep))
    ensures Greedy(sorted, keep + [!clash])
  {
    hide AnyClash, ClashesWithMarked, Marked;
    var k, keep' := |keep|, keep + [!clash];
    MarkedClash(sorted, keep, sorted[k].sig);
    forall i | 0 <= i < k + 1 ensures keep'[i] <==> !ClashesWithMarked(sorted, keep'[..i], sorted[i].sig) {
      assert keep'[..i] == keep[..i] && (i == k ==> keep[..i] == keep);
    }
  }

  /**
    Constructor selection: after the sort, each constructor is kept exactly when it clashes with none kept before
    it.
   */
  method SelectConstructors(cs: seq<Constructor>) returns (kept: seq<Constructor>, keep: seq<bool>)
    ensures var sorted := Only(cs, true) + Only(cs, false);
            |keep| == |sorted| && kept == Marked(sorted, keep) && Greedy(sorted, keep)
  {
    hide Clash, AnyClash, ClashesWithMarked, Only;
    var sorted, reporting := StatusFirst(cs);
    kept, keep := [], [];
    for k := 0 to |sorted|
      invariant |keep| == k && kept == Marked(sorted[..k], keep) && Greedy(sorted, keep)
    {
      hide Greedy, Marked;
      var clash := ClashesWithKept(sorted[k].sig, kept);
      GreedyNext(sorted, keep, clash);
      MarkedNext(sorted, keep, !clash);
      if !clash {
        kept := kept + [sorted[k]];
      }
      keep := keep + [!clash];
    }
    assert sorted[..|sorted|] == sorted;
  }

  /**
    So no call matches two kept constructors, each dropped one clashes with a kept one, and one that reports its status
    is dropped only for another that does.
   */
  lemma ConstructorsAreApart(cs: seq<Constructor>, keep: seq<bool>, i: nat)
    requires var sorted := Only(cs, true) + Only(cs, false); i < |keep| == |sorted| && Greedy(sorted, keep)
    ensures var sorted := Only(cs, true) + Only(cs, false);
            if keep[i] then forall j | 0 <= j < i && keep[j] :: !Clash(sorted[i].sig, sorted[j].sig)
            else exists j | 0 <= j < i ::
                   keep[j] && Clash(sorted[i].sig, sorted[j].sig) && (sorted[i].reports ==> sorted[j].reports)
  {
    hide Clash;
    var sorted := Only(cs, true) + Only(cs, false);
    if keep[i] {
      forall j | 0 <= j < i && keep[j] ensures !Clash(sorted[i].sig, sorted[j].sig) {
        assert keep[..i][j] == keep[j];
      }
    } else {
      var j :| 0 <= j < i && keep[..i][j] && Clash(sorted[i].sig, sorted[j].sig);
      assert sorted[i].reports ==> i < |Only(cs, true)|;
    }
  }
}
