/** Round trips of the feature text, and what a lookup in it means. */
module FeatureTheorems {
  import opened FeatureCodec
  import opened Wrappers

  predicate DistinctNames(names: seq<string>) {
    forall i, j | 0 <= i < j < |names| :: names[i] != names[j]
  }

  /** Lists that the text can carry: nonempty comma-free names, none twice. */
  predicate Proper(f: Features) {
    Clean(f.enabled) && Clean(f.disabled) && DistinctNames(f.enabled + f.disabled)
  }

  /** The entries that an encoding stands for. */
  function Meant(f: Features): (es: seq<Entry>)
    ensures |es| == |f.enabled| + |f.disabled|
    ensures forall i | 0 <= i < |es| :: es[i].name == (f.enabled + f.disabled)[i] && (es[i].on <==> i < |f.enabled|)
  {
    seq(|f.enabled| + |f.disabled|, i requires 0 <= i < |f.enabled| + |f.disabled| =>
      Entry((f.enabled + f.disabled)[i], i < |f.enabled|))
  }

  lemma TokensOfEncoding(f: Features)
    requires Clean(f.enabled) && Clean(f.disabled)
    ensures Tokens(Encode(f)) == Signed('+', f.enabled) + Signed('-', f.disabled)
  {
    hide Tokens, Join;
    var ts := Signed('+', f.enabled) + Signed('-', f.disabled);
    forall i | 0 <= i < |ts| ensures ts[i] != "" && ',' !in ts[i] {
      var name := if i < |f.enabled| then f.enabled[i] else f.disabled[i - |f.enabled|];
      assert ts[i][1..] == name && ts[i][0] != ',';
      assert ts[i] == [ts[i][0]] + name;
    }
    TokensOfJoin(ts);
  }

  lemma {:induction false} EntriesAre(ts: seq<string>, es: seq<Entry>)
    requires NoneEmpty(ts) && |ts| == |es| && forall i | 0 <= i < |ts| :: ParseToken(ts[i]) == Ok(es[i])
    ensures Entries(ts) == Ok(es)
  {
    assert Entries(ts).Ok?;
    assert Entries(ts).value == es;
  }

  lemma EntriesOfEncoding(f: Features)
    requires Clean(f.enabled) && Clean(f.disabled)
    ensures Entries(Tokens(Encode(f))) == Ok(Meant(f))
  {
    hide Tokens, Encode, Entries;
    TokensOfEncoding(f);
    var ts, es := Signed('+', f.enabled) + Signed('-', f.disabled), Meant(f);
    forall i | 0 <= i < |ts| ensures ParseToken(ts[i]) == Ok(es[i]) {
      var name := if i < |f.enabled| then f.enabled[i] else f.disabled[i - |f.enabled|];
      assert ts[i][1..] == name;
    }
    EntriesAre(ts, es);
  }

  predicate SameNames(es: seq<Entry>, names: seq<string>) {
    |es| == |names| && forall i | 0 <= i < |es| :: es[i].name == names[i]
  }

  lemma {:induction false} NamesAre(es: seq<Entry>, names: seq<string>)
    requires SameNames(es, names) && DistinctNames(names)
    ensures Names(es) == names
  {
    if es == [] {
    } else {
      var n := |es| - 1;
      NamesAre(es[..n], names[..n]);
      assert names == names[..n] + [names[n]];
    }
  }

  lemma {:induction false} FinalIs(es: seq<Entry>, names: seq<string>, i: nat)
    requires SameNames(es, names) && DistinctNames(names) && i < |es|
    ensures Final(es, names[i]) == es[i].on
  {
    var n := |es| - 1;
    if i == n {
    } else {
      FinalIs(es[..n], names[..n], i);
    }
  }

  lemma {:induction false} PickAll(a: seq<string>, b: seq<string>, es: seq<Entry>, on: bool)
    requires forall i | 0 <= i < |a| :: Final(es, a[i]) == on
    requires forall i | 0 <= i < |b| :: Final(es, b[i]) != on
    ensures Pick(a + b, es, on) == a && Pick(b, es, on) == []
    decreases |a| + |b|
  {
    if b != [] {
      var n := |b| - 1;
      PickAll(a, b[..n], es, on);
      assert (a + b)[..|a + b| - 1] == a + b[..n] && (a + b)[|a + b| - 1] == b[n];
    } else if a != [] {
      var n := |a| - 1;
      PickAll(a[..n], [], es, on);
      assert a[..n] + [] == a[..n] && a + [] == a && a == a[..n] + [a[n]];
    }
  }

  lemma {:induction false} PickSecond(a: seq<string>, b: seq<string>, es: seq<Entry>, on: bool)
    requires forall i | 0 <= i < |a| :: Final(es, a[i]) != on
    requires forall i | 0 <= i < |b| :: Final(es, b[i]) == on
    ensures Pick(a + b, es, on) == b
    decreases |b|
  {
    if b != [] {
      var n := |b| - 1;
      PickSecond(a, b[..n], es, on);
      assert (a + b)[..|a + b| - 1] == a + b[..n] && (a + b)[|a + b| - 1] == b[n] && b == b[..n] + [b[n]];
    } else {
      PickAll([], a, es, on);
      assert [] + a == a && a + b == a;
    }
  }

  /** Proper lists survive the text, both and in order. */
  lemma RoundTrip(f: Features)
    requires Proper(f)
    ensures Decode(Encode(f)) == Ok(f)
  {
    hide Tokens, Encode, Entries, Names, Final, Pick;
    EntriesOfEncoding(f);
    var es, names := Meant(f), f.enabled + f.disabled;
    NamesAre(es, names);
    forall i | 0 <= i < |names| ensures Final(es, names[i]) <==> i < |f.enabled| {
      FinalIs(es, names, i);
    }
    forall i | 0 <= i < |f.enabled| ensures Final(es, f.enabled[i]) {
      assert names[i] == f.enabled[i];
    }
    forall i | 0 <= i < |f.disabled| ensures !Final(es, f.disabled[i]) {
      assert names[|f.enabled| + i] == f.disabled[i];
    }
    PickAll(f.enabled, f.disabled, es, true);
    PickSecond(f.enabled, f.disabled, es, false);
  }

  // ---- what decodes is proper ------------------------------------------------------------------------

  lemma {:induction false} NamesDistinct(es: seq<Entry>)
    ensures DistinctNames(Names(es))
  {
    if es == [] {
    } else {
      NamesDistinct(es[..|es| - 1]);
    }
  }

  lemma {:induction false} NamesClean(es: seq<Entry>)
    requires forall i | 0 <= i < |es| :: es[i].name != "" && ',' !in es[i].name
    ensures Clean(Names(es))
  {
    if es == [] {
    } else {
      NamesClean(es[..|es| - 1]);
    }
  }

  /** Picking keeps order, so it keeps names clean and distinct; a picked name has that last word. */
  lemma {:induction false} PickKeeps(names: seq<string>, es: seq<Entry>, on: bool)
    requires Clean(names) && DistinctNames(names)
    ensures Clean(Pick(names, es, on)) && DistinctNames(Pick(names, es, on))
    ensures forall x | x in Pick(names, es, on) :: x in names && Final(es, x) == on
  {
    hide Final;
    if names == [] {
    } else {
      var n := |names| - 1;
      PickKeeps(names[..n], es, on);
      assert forall x | x in names[..n] :: x in names && x != names[n];
      assert names[n] in names;
    }
  }

  lemma EntriesClean(ts: seq<string>)
    requires Clean(ts) && Entries(ts).Ok?
    ensures var es := Entries(ts).value; forall i | 0 <= i < |es| :: es[i].name != "" && ',' !in es[i].name
  {
    var es := Entries(ts).value;
    forall i | 0 <= i < |es| ensures es[i].name != "" && ',' !in es[i].name {
      assert ParseToken(ts[i]) == Ok(es[i]);
      assert es[i].name == ts[i] || es[i].name == ts[i][1..];
    }
  }

  lemma DecodedIsProper(s: string)
    requires Decode(s).Ok?
    ensures Proper(Decode(s).value)
  {
    hide Tokens, Entries, Names, Final, Pick;
    EntriesClean(Tokens(s));
    var es := Entries(Tokens(s)).value;
    NamesClean(es);
    NamesDistinct(es);
    PickKeeps(Names(es), es, true);
    PickKeeps(Names(es), es, false);
    var a, b := Pick(Names(es), es, true), Pick(Names(es), es, false);
    forall i, j | 0 <= i < j < |a + b| ensures (a + b)[i] != (a + b)[j] {
      if i < |a| <= j {
        assert a[i] in a && b[j - |a|] in b;
      }
    }
  }

  /** Decoding, encoding and decoding again is decoding, for every text that decodes. */
  lemma DecodeNormalizes(s: string)
    requires Decode(s).Ok?
    ensures Decode(Encode(Decode(s).value)) == Decode(s)
  {
    hide Decode, Encode;
    DecodedIsProper(s);
    RoundTrip(Decode(s).value);
  }

  // ---- hasFeature ------------------------------------------------------------------------------------

  lemma TokenMatches(token: string, feature: string)
    ensures (|token| > 1 && token[0] == '+' && token[1..] == feature) <==> feature != "" && token == "+" + feature
  {
  }

  /** `hasFeature`: some token is a plus sign and the name. */
  method HasFeature(text: string, feature: string) returns (yes: bool)
    ensures yes <==> Plus(text, feature)
  {
    var remaining := text;
    while remaining != ""
      invariant Plus(text, feature) <==> Plus(remaining, feature)
      decreases |remaining|
    {
      var i := CommaAt(remaining);
      var token := remaining[..i];
      TokenMatches(token, feature);
      if |token| > 1 && token[0] == '+' && token[1..] == feature {
        return true;
      }
      remaining := if i < |remaining| then remaining[i + 1..] else "";
    }
    return false;
  }

  /** The text has a token that is a plus sign and this name. */
  predicate Plus(text: string, feature: string) {
    feature != "" && ("+" + feature) in Tokens(text)
  }

  /** On an encoding of clean names a lookup finds exactly the enabled ones. */
  lemma LookupInEncoding(f: Features, name: string)
    requires Clean(f.enabled) && Clean(f.disabled)
    ensures Plus(Encode(f), name) <==> name in f.enabled
  {
    hide Tokens, Encode;
    TokensOfEncoding(f);
    var ts := Signed('+', f.enabled) + Signed('-', f.disabled);
    if name in f.enabled {
      var i :| 0 <= i < |f.enabled| && f.enabled[i] == name;
      assert ts[i] == "+" + name;
    }
    if ("+" + name) in ts {
      var i :| 0 <= i < |ts| && ts[i] == "+" + name;
      assert ts[i][0] == '+';
      assert i < |f.enabled|;
      assert ts[i][1..] == f.enabled[i] && ("+" + name)[1..] == name;
    }
  }

  // ---- a lookup ignores later tokens -----------------------------------------------------------------

  /** The last token about a name. */
  function LastToken(ts: seq<string>, name: string): (t: string)
    requires NoneEmpty(ts)
  {
    if ts == [] then ""
    else
      var t := ts[|ts| - 1];
      match ParseToken(t)
      case Ok(e) => if e.name == name then t else LastToken(ts[..|ts| - 1], name)
      case Err => LastToken(ts[..|ts| - 1], name)
  }

  lemma {:induction false} EnabledIsLast(ts: seq<string>, name: string)
    requires NoneEmpty(ts) && Entries(ts).Ok?
    ensures Final(Entries(ts).value, name) <==> LastToken(ts, name) != "" && LastToken(ts, name)[0] != '-'
    ensures Final(Entries(ts).value, name) ==> name in Names(Entries(ts).value)
  {
    if ts == [] {
    } else {
      var n := |ts| - 1;
      EnabledIsLast(ts[..n], name);
      var es := Entries(ts).value;
      assert es[..n] == Entries(ts[..n]).value && ParseToken(ts[n]) == Ok(es[n]);
    }
  }

  lemma {:induction false} PickHas(names: seq<string>, es: seq<Entry>, on: bool, x: string)
    ensures x in Pick(names, es, on) <==> x in names && Final(es, x) == on
  {
    if names == [] {
    } else {
      PickHas(names[..|names| - 1], es, on, x);
      assert x in names <==> x in names[..|names| - 1] || x == names[|names| - 1];
    }
  }

  lemma EnabledMeansLast(s: string, name: string)
    requires Decode(s).Ok?
    ensures var last := LastToken(Tokens(s), name);
            name in Decode(s).value.enabled <==> last != "" && last[0] != '-'
  {
    hide Tokens, Pick, Names, Final, LastToken;
    var es := Entries(Tokens(s)).value;
    EnabledIsLast(Tokens(s), name);
    PickHas(Names(es), es, true, name);
  }

  /**
    A lookup in a text that decodes agrees with the decoded lists exactly when the last token about the name is not a
    minus after a plus, nor an unsigned one without any plus.
   */
  lemma LookupAgrees(s: string, name: string)
    requires Decode(s).Ok? && name != ""
    ensures var last := LastToken(Tokens(s), name);
            (Plus(s, name) <==> name in Decode(s).value.enabled) <==>
            (if last == "" || last[0] == '-' then "+" + name !in Tokens(s)
             else last[0] == '+' || "+" + name in Tokens(s))
  {
    hide Tokens, Decode;
    EnabledMeansLast(s, name);
    LastTokenIsOne(Tokens(s), name);
  }

  /** The last token about a name is one of the tokens, and if it has a plus it is plus and the name. */
  lemma {:induction false} LastTokenIsOne(ts: seq<string>, name: string)
    requires NoneEmpty(ts)
    ensures var last := LastToken(ts, name);
            last != "" ==> last in ts && (last[0] == '+' ==> last == "+" + name)
  {
    if ts == [] {
    } else {
      LastTokenIsOne(ts[..|ts| - 1], name);
      var t := ts[|ts| - 1];
      assert |t| > 1 && t[0] == '+' ==> t == "+" + t[1..];
    }
  }

  /** So a name switched on and later off is still found by a lookup, though the decoder lists it as disabled. */
  lemma LookupIgnoresLastWord(n: string)
    requires n != "" && ',' !in n
    ensures var s := ("+" + n) + "," + ("-" + n); Plus(s, n) && Decode(s) == Ok(Features([], [n]))
  {
    hide Tokens, Entries;
    var on, off := "+" + n, "-" + n;
    var s := on + "," + off;
    TokensStep(on, off);
    TokenAlone(off);
    assert Tokens(s) == [on, off];
    assert on[1..] == n && off[1..] == n;
    var es := [Entry(n, true), Entry(n, false)];
    EntriesAre([on, off], es);
    assert es[..1] == [es[0]] && es[..1][..0] == [];
    assert Names(es[..1]) == [n] && Names(es) == [n];
    assert [n][..0] == [] && !Final(es, n);
    assert on in [on, off];
    assert Plus(s, n);
    assert Pick([n], es, true) == [];
    assert Pick([n], es, false) == [n];
  }
}
