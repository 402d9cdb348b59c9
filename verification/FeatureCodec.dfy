/** The textual form of a target's feature lists: `+name` and `-name` tokens between commas. */
module FeatureCodec {
  import opened Wrappers

  /** Enabled and disabled names, in order. */
  datatype Features = Features(enabled: seq<string>, disabled: seq<string>)

  /** One token's meaning. */
  datatype Entry = Entry(name: string, on: bool)

  // ---- splitting at commas --------------------------------------------------------------------

  /** Index of the first comma, or the length. */
  function CommaAt(s: string): (i: nat)
    ensures i <= |s| && (i < |s| ==> s[i] == ',') && forall j | 0 <= j < i :: s[j] != ','
  {
    if s == "" || s[0] == ',' then 0 else 1 + CommaAt(s[1..])
  }

  /** The nonempty pieces between commas. */
  function Tokens(s: string): (r: seq<string>)
    ensures Clean(r)
    decreases |s|
  {
    if s == "" then []
    else
      var i := CommaAt(s);
      var rest := Tokens(if i < |s| then s[i + 1..] else "");
      if i == 0 then rest else [s[..i]] + rest
  }

  function Join(ts: seq<string>): (r: string) {
    if ts == [] then "" else if |ts| == 1 then ts[0] else Join(ts[..|ts| - 1]) + "," + ts[|ts| - 1]
  }

  predicate Clean(names: seq<string>) {
    forall i | 0 <= i < |names| :: names[i] != "" && ',' !in names[i]
  }

  lemma CommaAfter(t: string, rest: string)
    requires ',' !in t && (rest == "" || rest[0] == ',')
    ensures CommaAt(t + rest) == |t|
  {
    var s := t + rest;
    var i := CommaAt(s);
    assert forall j | 0 <= j < |t| :: s[j] == t[j] && t[j] in t;
    assert |t| < |s| ==> s[|t|] == ',';
  }

  lemma TokensStep(t: string, rest: string)
    requires ',' !in t
    ensures Tokens(t + "," + rest) == (if t == "" then [] else [t]) + Tokens(rest)
  {
    var s := t + "," + rest;
    CommaAfter(t, "," + rest);
    assert t + ("," + rest) == s;
    assert s[..|t|] == t && s[|t| + 1..] == rest;
  }

  lemma TokenAlone(t: string)
    requires ',' !in t
    ensures Tokens(t) == if t == "" then [] else [t]
  {
    CommaAfter(t, "");
    assert t + "" == t && t[..|t|] == t;
    assert Tokens("") == [];
  }

  /** Tokens of two texts put together with a comma. */
  lemma {:induction false} TokensAppend(a: string, b: string)
    ensures Tokens(a + "," + b) == Tokens(a) + Tokens(b)
    decreases |a|
  {
    hide Tokens;
    var i := CommaAt(a);
    var t := a[..i];
    if i < |a| {
      var rest := a[i + 1..];
      assert a == t + "," + rest;
      assert a + "," + b == t + "," + (rest + "," + b);
      TokensStep(t, rest);
      TokensStep(t, rest + "," + b);
      TokensAppend(rest, b);
    } else {
      assert t == a;
      TokensStep(a, b);
      TokenAlone(a);
    }
  }

  /** Joining clean tokens and splitting again gives them back. */
  lemma {:induction false} TokensOfJoin(ts: seq<string>)
    requires Clean(ts)
    ensures Tokens(Join(ts)) == ts
    decreases |ts|
  {
    hide Tokens;
    if |ts| == 0 {
      TokenAlone("");
    } else {
      var n := |ts| - 1;
      assert ts[n] in ts;
      TokenAlone(ts[n]);
      if n > 0 {
        assert Clean(ts[..n]);
        TokensOfJoin(ts[..n]);
        TokensAppend(Join(ts[..n]), ts[n]);
        assert ts == ts[..n] + [ts[n]];
      }
    }
  }

  // ---- encoding -----------------------------------------------------------------------------------

  function Signed(sign: char, names: seq<string>): (r: seq<string>)
    ensures |r| == |names| && forall i | 0 <= i < |names| :: r[i] == [sign] + names[i]
  {
    seq(|names|, i requires 0 <= i < |names| => [sign] + names[i])
  }

  function Encode(f: Features): (r: string) {
    Join(Signed('+', f.enabled) + Signed('-', f.disabled))
  }

  predicate NoneEmpty(ts: seq<string>) {
    forall i | 0 <= i < |ts| :: ts[i] != ""
  }

  lemma JoinOne(ts: seq<string>, t: string)
    requires NoneEmpty(ts)
    ensures Join(ts + [t]) == if Join(ts) == "" then t else Join(ts) + "," + t
  {
    assert (ts + [t])[..|ts|] == ts;
    assert Join(ts) == "" <==> ts == [];
  }

  /** One of the two loops of `encodeFeatures`: signed names are appended, with commas between. */
  method AppendSigned(start: string, sign: char, names: seq<string>, ghost ts: seq<string>) returns (result: string)
    requires NoneEmpty(ts) && start == Join(ts)
    ensures result == Join(ts + Signed(sign, names))
  {
    hide Join;
    result := start;
    ghost var more := Signed(sign, names);
    assert ts + more[..0] == ts;
    for i := 0 to |names|
      invariant result == Join(ts + more[..i])
    {
      assert ts + more[..i + 1] == (ts + more[..i]) + [more[i]];
      JoinOne(ts + more[..i], more[i]);
      if result != "" {
        result := result + ",";
      }
      result := result + [sign] + names[i];
    }
    assert more[..|names|] == more;
  }

  method EncodeFeatures(f: Features) returns (result: string)
    ensures result == Encode(f)
  {
    assert [] + Signed('+', f.enabled) == Signed('+', f.enabled);
    result := AppendSigned("", '+', f.enabled, []);
    result := AppendSigned(result, '-', f.disabled, Signed('+', f.enabled));
  }

  // ---- decoding -----------------------------------------------------------------------------------

  /** A lone sign is ill-formed; a name without a sign is enabled. */
  function ParseToken(t: string): (r: Result<Entry>)
    requires t != ""
  {
    if t[0] == '+' || t[0] == '-' then if |t| < 2 then Err else Ok(Entry(t[1..], t[0] == '+'))
    else Ok(Entry(t, true))
  }

  function Entries(ts: seq<string>): (r: Result<seq<Entry>>)
    requires NoneEmpty(ts)
    ensures r.Ok? ==> |r.value| == |ts| && forall i | 0 <= i < |ts| :: ParseToken(ts[i]) == Ok(r.value[i])
    ensures r.Err? ==> exists i | 0 <= i < |ts| :: ParseToken(ts[i]).Err?
  {
    if ts == [] then Ok([])
    else match (Entries(ts[..|ts| - 1]), ParseToken(ts[|ts| - 1])) {
      case (Ok(es), Ok(e)) => Ok(es + [e])
      case _ => Err
    }
  }

  /** The names, in the order they first appear. */
  function Names(es: seq<Entry>): (r: seq<string>) {
    if es == [] then []
    else
      var ns := Names(es[..|es| - 1]);
      var name := es[|es| - 1].name;
      if name in ns then ns else ns + [name]
  }

  /** The last word on a name. */
  function Final(es: seq<Entry>, name: string): (on: bool) {
    es != [] && (if es[|es| - 1].name == name then es[|es| - 1].on else Final(es[..|es| - 1], name))
  }

  /** The names whose last word is `on`, in order. */
  function Pick(names: seq<string>, es: seq<Entry>, on: bool): (r: seq<string>) {
    if names == [] then []
    else
      var rest := Pick(names[..|names| - 1], es, on);
      if Final(es, names[|names| - 1]) == on then rest + [names[|names| - 1]] else rest
  }

  function Decode(s: string): (r: Result<Features>) {
    match Entries(Tokens(s))
    case Err => Err
    case Ok(es) => Ok(Features(Pick(Names(es), es, true), Pick(Names(es), es, false)))
  }

  lemma EntriesPrefix(ts: seq<string>, k: nat)
    requires NoneEmpty(ts) && k <= |ts| && Entries(ts[..k]).Err?
    ensures Entries(ts).Err?
  {
    var i :| 0 <= i < k && ParseToken(ts[..k][i]).Err?;
    assert ts[..k][i] == ts[i];
  }

  /** What the first loop has: names in order, and for each its last sign so far. */
  ghost predicate Scanned(es: seq<Entry>, order: seq<string>, state: map<string, bool>) {
    && order == Names(es)
    && (forall n :: n in order <==> n in state)
    && (forall n | n in state :: state[n] == Final(es, n))
  }

  lemma ScanNext(es: seq<Entry>, order: seq<string>, state: map<string, bool>, e: Entry)
    requires Scanned(es, order, state)
    ensures Scanned(es + [e], if e.name in state then order else order + [e.name], state[e.name := e.on])
  {
    assert (es + [e])[..|es|] == es;
  }

  /** `decodeFeatures`. */
  method DecodeFeatures(s: string) returns (r: Result<Features>)
    ensures r == Decode(s)
  {
    hide Scanned, Pick, Tokens;
    var tokens := Tokens(s);
    var order: seq<string>, state: map<string, bool> := [], map[];
    ghost var es: seq<Entry> := [];
    ScanNothing();
    for k := 0 to |tokens|
      invariant Entries(tokens[..k]) == Ok(es) && Scanned(es, order, state)
    {
      assert tokens[..k + 1][..k] == tokens[..k] && tokens[..k + 1][k] == tokens[k];
      var token := tokens[k];
      var sign := token[0];
      var name, enabled;
      if sign == '+' || sign == '-' {
        if |token| < 2 {
          EntriesPrefix(tokens, k + 1);
          return Err;
        }
        name, enabled := token[1..], sign == '+';
      } else {
        name, enabled := token, true;
      }
      ScanNext(es, order, state, Entry(name, enabled));
      es := es + [Entry(name, enabled)];
      if name !in state {
        order := order + [name];
      }
      state := state[name := enabled];
    }
    assert tokens[..|tokens|] == tokens;
    var on, off := Divide(order, state, es);
    r := Ok(Features(on, off));
  }

  lemma ScanNothing()
    ensures Scanned([], [], map[])
  {
  }

  /** The second loop: the names in order, divided by their final sign. */
  method Divide(order: seq<string>, state: map<string, bool>, ghost es: seq<Entry>)
    returns (on: seq<string>, off: seq<string>)
    requires Scanned(es, order, state)
    ensures on == Pick(Names(es), es, true) && off == Pick(Names(es), es, false)
  {
    on, off := [], [];
    for k := 0 to |order|
      invariant on == Pick(order[..k], es, true) && off == Pick(order[..k], es, false)
    {
      assert order[..k + 1][..k] == order[..k] && order[k] in order;
      if state[order[k]] {
        on := on + [order[k]];
      } else {
        off := off + [order[k]];
      }
    }
    assert order[..|order|] == order;
  }
}
