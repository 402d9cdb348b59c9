/** When a provided target satisfies a required one. */
module TargetRequirements {
  import opened Wrappers

  // ---- versioned names ------------------------------------------------------------------------------

  const UINT64_LIMIT := 0x1_0000_0000_0000_0000

  predicate IsDigit(c: char) {
    '0' <= c <= '9'
  }

  function Digit(c: char): (n: nat)
    requires IsDigit(c)
  {
    c as int - '0' as int
  }

  /** The value of a run of decimal digits. */
  function Decimal(s: string): (n: nat)
    requires forall i | 0 <= i < |s| :: IsDigit(s[i])
  {
    if s == "" then 0 else 10 * Decimal(s[..|s| - 1]) + Digit(s[|s| - 1])
  }

  /** `getAsInteger(10, uint64_t)`: the whole text is digits, at least one, and the value fits. */
  function AsUint64(s: string): (r: Option<nat>) {
    if s != "" && (forall i | 0 <= i < |s| :: IsDigit(s[i])) && Decimal(s) < UINT64_LIMIT
    then Some(Decimal(s)) else None
  }

  datatype Versioned = Versioned(full: string, base: string, version: nat)

  /** `sm_N` is version N of `sm`; any other name is its own base, at version 0. */
  function Decode(name: string): (v: Versioned)
    ensures v.full == name && (v.base == "" <==> name == "")
  {
    if "sm_" <= name && AsUint64(name[3..]).Some? then Versioned(name, "sm", AsUint64(name[3..]).value)
    else Versioned(name, name, 0)
  }

  // ---- numbers as they are written ----

  const DIGITS := "0123456789"

  /** The number in decimal, without leading zeros. */
  function Numeral(n: nat): (s: string)
    ensures s != ""
  {
    if n < 10 then [DIGITS[n]] else Numeral(n / 10) + [DIGITS[n % 10]]
  }

  function Zeros(z: nat): (s: string) {
    seq(z, _ => '0')
  }

  predicate AllDigits(s: string) {
    forall i | 0 <= i < |s| :: IsDigit(s[i])
  }

  /** `s` is `n` in decimal, perhaps with leading zeros. */
  ghost predicate Spells(s: string, n: nat) {
    exists z: nat :: s == Zeros(z) + Numeral(n)
  }

  lemma DigitsAreDigits(d: nat)
    requires d < 10
    ensures IsDigit(DIGITS[d]) && Digit(DIGITS[d]) == d
  {
  }

  lemma {:induction false} DigitIsListed(c: char)
    requires IsDigit(c)
    ensures DIGITS[Digit(c)] == c
  {
    assert forall d: nat | d < 10 :: DIGITS[d] as int == '0' as int + d;
  }

  lemma DecimalAppends(s: string, c: char)
    requires AllDigits(s) && IsDigit(c)
    ensures AllDigits(s + [c]) && Decimal(s + [c]) == 10 * Decimal(s) + Digit(c)
  {
    assert (s + [c])[..|s|] == s;
  }

  lemma {:induction false} DecimalOfZeros(z: nat)
    ensures Decimal(Zeros(z)) == 0
  {
    if z == 0 {
    } else {
      DecimalOfZeros(z - 1);
      DecimalAppends(Zeros(z - 1), '0');
      assert Zeros(z) == Zeros(z - 1) + ['0'];
    }
  }

  lemma {:induction false} DecimalOfSpelled(z: nat, n: nat)
    ensures AllDigits(Zeros(z) + Numeral(n)) && Decimal(Zeros(z) + Numeral(n)) == n
  {
    hide Decimal, Digit, IsDigit;
    if n < 10 {
      DigitsAreDigits(n);
      ZerosAreDigits(z);
      DecimalOfZeros(z);
      DecimalAppends(Zeros(z), DIGITS[n]);
    } else {
      DecimalOfSpelled(z, n / 10);
      DigitsAreDigits(n % 10);
      DecimalAppends(Zeros(z) + Numeral(n / 10), DIGITS[n % 10]);
      assert Zeros(z) + Numeral(n) == Zeros(z) + Numeral(n / 10) + [DIGITS[n % 10]];
    }
  }

  lemma ZerosAreDigits(z: nat)
    ensures AllDigits(Zeros(z))
  {
  }

  lemma NumeralGrows(z: nat, m: nat, d: nat) returns (z': nat)
    requires d < 10
    ensures Zeros(z) + Numeral(m) + [DIGITS[d]] == Zeros(z') + Numeral(10 * m + d)
  {
    if m == 0 {
      z' := z + 1;
      assert Zeros(z + 1) == Zeros(z) + ['0'];
    } else {
      z' := z;
      assert Zeros(z) + Numeral(m) + [DIGITS[d]] == Zeros(z) + (Numeral(m) + [DIGITS[d]]);
    }
  }

  lemma {:induction false} SpelledByDigits(s: string) returns (z: nat)
    requires s != "" && AllDigits(s)
    ensures s == Zeros(z) + Numeral(Decimal(s))
  {
    var init, last := s[..|s| - 1], s[|s| - 1];
    DigitIsListed(last);
    assert Digit(last) < 10 && Decimal(s) == 10 * Decimal(init) + Digit(last);
    hide Digit, IsDigit, Zeros;
    assert s == init + [last];
    if init == "" {
      z := 0;
      assert Zeros(0) == "" by { NoZeros(); }
    } else {
      z := SpelledByDigits(init);
      z := NumeralGrows(z, Decimal(init), Digit(last));
    }
  }

  lemma NoZeros()
    ensures Zeros(0) == ""
  {
  }

  /** The parser reads exactly the decimal spellings of numbers below 2^64, and reads their value. */
  lemma ReadIffSpelled(s: string, n: nat)
    ensures AsUint64(s) == Some(n) <==> Spells(s, n) && n < 0x1_0000_0000_0000_0000
  {
    if AllDigits(s) && s != "" {
      var z := SpelledByDigits(s);
    }
    if z: nat :| s == Zeros(z) + Numeral(n) {
      DecimalOfSpelled(z, n);
    }
  }

  /** `name` is `sm_` and a number below 2^64. */
  ghost predicate SmName(name: string, n: nat) {
    "sm_" <= name && Spells(name[3..], n) && n < 0x1_0000_0000_0000_0000
  }

  /** What a name decodes to. */
  lemma DecodeIff(name: string, n: nat)
    ensures SmName(name, n) ==> Decode(name) == Versioned(name, "sm", n)
    ensures Decode(name) == Versioned(name, "sm", n) ==> SmName(name, n) || (name == "sm" && n == 0)
    ensures (exists m: nat :: SmName(name, m)) || Decode(name) == Versioned(name, name, 0)
  {
    hide Spells;
    if "sm_" <= name {
      ReadIffSpelled(name[3..], n);
      if AsUint64(name[3..]).Some? {
        ReadIffSpelled(name[3..], AsUint64(name[3..]).value);
        assert SmName(name, AsUint64(name[3..]).value);
      }
    }
  }

  predicate AtMost(a: Versioned, b: Versioned) {
    a.base == b.base && a.version <= b.version
  }

  // ---- triples --------------------------------------------------------------------------------------

  datatype OS = UnknownOS | Darwin | MacOSX | OtherOS(id: nat)

  /** LLVM's reading of a triple: the architecture's name, whether that name is a known architecture, and the OS. */
  datatype Llvm = Llvm(archName: string -> string, knownArch: string -> bool, os: string -> OS)

  /** What is used of it: nothing is known of an empty triple, and both spellings of arm64 are known. */
  ghost predicate Sane(l: Llvm) {
    && l.archName("") == "" && !l.knownArch("") && l.os("") == UnknownOS
    && l.knownArch("arm64") && l.knownArch("aarch64")
  }

  function CanonArch(name: string): (r: string) {
    if name == "aarch64" then "arm64" else name
  }

  function CanonOS(os: OS): (r: OS) {
    if os == Darwin then MacOSX else os
  }

  predicate SatisfiesTriple(l: Llvm, provided: string, required: string) {
    required == "" ||
    (&& (l.knownArch(l.archName(required)) ==> CanonArch(l.archName(provided)) == CanonArch(l.archName(required)))
     && (CanonOS(l.os(required)) != UnknownOS ==> CanonOS(l.os(provided)) == CanonOS(l.os(required))))
  }

  predicate SatisfiesArch(provided: string, required: string) {
    required == "" || AtMost(Decode(required), Decode(provided))
  }

  predicate SatisfiesABI(provided: string, required: string) {
    required == "" || provided == required
  }

  // ---- what the tests on names decide ----

  /** Either spelling of 64-bit ARM stands for the other; otherwise the names are equal. */
  predicate SameArch(a: string, b: string) {
    a == b || (a == "aarch64" && b == "arm64") || (a == "arm64" && b == "aarch64")
  }

  /** Darwin and macOS stand for each other. */
  predicate SameOS(a: OS, b: OS) {
    a == b || (a == Darwin && b == MacOSX) || (a == MacOSX && b == Darwin)
  }

  /** A known required architecture, and a known required OS, must be the provided one. */
  predicate TripleMet(l: Llvm, provided: string, required: string) {
    required == "" ||
    (&& (l.knownArch(l.archName(required)) ==> SameArch(l.archName(provided), l.archName(required)))
     && (l.os(required) != UnknownOS ==> SameOS(l.os(provided), l.os(required))))
  }

  lemma TripleIff(l: Llvm, provided: string, required: string)
    ensures SatisfiesTriple(l, provided, required) <==> TripleMet(l, provided, required)
  {
  }

  /**
    A required `sm_M` is met by `sm_N` exactly for `M <= N`, and any other name by itself. Since an unversioned name
    counts as version 0, the bare `sm` is also met by every `sm_N`, and itself meets `sm_0`.
   */
  ghost predicate ArchMet(provided: string, required: string) {
    || required == "" || provided == required
    || (exists m: nat, n: nat :: SmName(required, m) && SmName(provided, n) && m <= n)
    || (required == "sm" && exists n: nat :: SmName(provided, n))
    || (provided == "sm" && SmName(required, 0))
  }

  lemma ArchIff(provided: string, required: string)
    ensures SatisfiesArch(provided, required) <==> ArchMet(provided, required)
  {
    hide Decode, SmName;
    NameIff(provided);
    NameIff(required);
  }

  /** Exactly one reading of each name. */
  lemma NameIff(name: string)
    ensures forall n: nat :: SmName(name, n) ==> Decode(name) == Versioned(name, "sm", n) && name != "sm"
    ensures (exists n: nat :: SmName(name, n)) || Decode(name) == Versioned(name, name, 0)
  {
    hide Spells, Decode;
    forall n: nat ensures SmName(name, n) ==> Decode(name) == Versioned(name, "sm", n) && name != "sm" {
      DecodeIff(name, n);
    }
    DecodeIff(name, 0);
  }

  /** `sm_N` satisfies a required `sm_M` if and only if `M <= N`. */
  lemma SmArch(n: nat, m: nat)
    requires n < UINT64_LIMIT && m < UINT64_LIMIT
    ensures SatisfiesArch("sm_" + Numeral(n), "sm_" + Numeral(m)) <==> m <= n
  {
    hide Decode, Spells, Numeral;
    SmNumeral(n);
    SmNumeral(m);
    DecodeIff("sm_" + Numeral(n), n);
    DecodeIff("sm_" + Numeral(m), m);
  }

  lemma SmNumeral(n: nat)
    requires n < UINT64_LIMIT
    ensures SmName("sm_" + Numeral(n), n)
  {
    var s := Numeral(n);
    assert ("sm_" + s)[3..] == s && s == Zeros(0) + s;
  }

  // ---- features -------------------------------------------------------------------------------------

  predicate Ignored(feature: string) {
    feature == "64Bit" || feature == "shstk" || feature == "cmov"
  }

  /** The first feature with this base name that is not ignored. */
  function First(features: seq<string>, base: string): (r: Option<Versioned>)
    ensures r.Some? ==> r.value.base == base
  {
    if features == [] then None
    else if !Ignored(features[0]) && Decode(features[0]).base == base then Some(Decode(features[0]))
    else First(features[1..], base)
  }

  /** `parseFeatures`: the map from base names, in which the first of a base name wins. */
  method ParseFeatures(features: seq<string>) returns (m: map<string, Versioned>)
    ensures forall base :: base in m <==> First(features, base).Some?
    ensures forall base | base in m :: First(features, base) == Some(m[base])
  {
    m := map[];
    for k := 0 to |features|
      invariant forall base :: base in m <==> First(features[..k], base).Some?
      invariant forall base | base in m :: First(features[..k], base) == Some(m[base])
    {
      var f := features[k];
      if !Ignored(f) && Decode(f).base !in m {
        m := m[Decode(f).base := Decode(f)];
      }
      forall base
        ensures First(features[..k + 1], base) ==
                if First(features[..k], base).Some? then First(features[..k], base)
                else if !Ignored(f) && Decode(f).base == base then Some(Decode(f)) else None
      {
        assert features[..k + 1] == features[..k] + [f] && [f] + [] == [f];
        FirstAppend(features[..k], [f], base);
        FirstOne(f, [], base);
      }
    }
    assert features[..|features|] == features;
  }

  function FirstOf(r: Option<Versioned>, more: seq<string>, base: string): (r': Option<Versioned>) {
    if r.Some? then r else First(more, base)
  }

  lemma FirstOne(f: string, rest: seq<string>, base: string)
    ensures First([f] + rest, base) ==
            if !Ignored(f) && Decode(f).base == base then Some(Decode(f)) else First(rest, base)
  {
    assert ([f] + rest)[1..] == rest;
  }

  /** Features appended at the end count only for base names not there before. */
  lemma {:induction false} FirstAppend(a: seq<string>, b: seq<string>, base: string)
    ensures First(a + b, base) == FirstOf(First(a, base), b, base)
  {
    if a == [] {
      assert a + b == b;
    } else {
      FirstAppend(a[1..], b, base);
      assert (a + b)[1..] == a[1..] + b;
    }
  }

  /** What the required features ask of a target, base name by base name. */
  ghost predicate Met(provided: seq<string>, disabled: seq<string>, required: seq<string>, base: string) {
    First(required, base).Some? ==>
      && First(disabled, base).None?
      && First(provided, base).Some?
      && AtMost(First(required, base).value, First(provided, base).value)
  }

  ghost predicate SatisfiesFeatures(provided: seq<string>, disabled: seq<string>, required: seq<string>) {
    forall base :: Met(provided, disabled, required, base)
  }

  /** `satisfiesFeatures`: success exactly when every required base name is met, else the names that are not. */
  method CheckFeatures(provided: seq<string>, disabled: seq<string>, required: seq<string>)
    returns (missing: set<string>)
    ensures forall base :: base in missing <==> !Met(provided, disabled, required, base)
    ensures missing == {} <==> SatisfiesFeatures(provided, disabled, required)
  {
    if required == [] {
      return {};
    }
    var providedMap := ParseFeatures(provided);
    var disabledMap := ParseFeatures(disabled);
    var requiredMap := ParseFeatures(required);
    missing := {};
    var todo := requiredMap.Keys;
    while todo != {}
      invariant todo <= requiredMap.Keys
      invariant forall base | base !in todo :: base in missing <==> !Met(provided, disabled, required, base)
      invariant forall base | base in missing :: base !in todo
      decreases todo
    {
      var base :| base in todo;
      if base in disabledMap {
        missing := missing + {base};
      } else if base !in providedMap {
        missing := missing + {base};
      } else if !AtMost(requiredMap[base], providedMap[base]) {
        missing := missing + {base};
      }
      todo := todo - {base};
    }
  }

  // ---- what the test on features decides ----

  /** The feature asks for, or offers, `version` of `base`. Three names never count. */
  ghost predicate Gives(feature: string, base: string, version: nat) {
    && feature != "64Bit" && feature != "shstk" && feature != "cmov"
    && ((base == "sm" && SmName(feature, version)) ||
        (base == feature && version == 0 && forall n: nat :: !SmName(feature, n)))
  }

  lemma GivesIff(feature: string, base: string, version: nat)
    ensures Gives(feature, base, version) <==>
            !Ignored(feature) && Decode(feature).base == base && Decode(feature).version == version
  {
    hide Decode, SmName;
    NameIff(feature);
  }

  /** Feature `i` is the first one listed of its base name. */
  ghost predicate Leads(features: seq<string>, i: nat, base: string, version: nat) {
    && i < |features| && Gives(features[i], base, version)
    && forall j, w: nat | 0 <= j < i :: !Gives(features[j], base, w)
  }

  lemma {:induction false} FirstIff(features: seq<string>, base: string, version: nat)
    ensures (exists i: nat :: Leads(features, i, base, version)) <==>
            First(features, base).Some? && First(features, base).value.version == version
  {
    hide Gives, Decode, Ignored;
    if features == [] {
    } else {
      var f, rest := features[0], features[1..];
      GivesIff(f, base, version);
      forall w: nat
        ensures Gives(f, base, w) <==> !Ignored(f) && Decode(f).base == base && Decode(f).version == w
      {
        GivesIff(f, base, w);
      }
      if !Ignored(f) && Decode(f).base == base {
        assert Gives(f, base, Decode(f).version);
        if version == Decode(f).version {
          assert Leads(features, 0, base, version);
        }
      } else {
        FirstIff(rest, base, version);
        LeadsTail(features, base, version);
      }
    }
  }

  lemma LeadsTail(features: seq<string>, base: string, version: nat)
    requires features != [] && forall w: nat :: !Gives(features[0], base, w)
    ensures (exists i: nat :: Leads(features, i, base, version)) <==>
            (exists i: nat :: Leads(features[1..], i, base, version))
  {
    hide Gives;
    var rest := features[1..];
    assert forall j | 0 <= j < |rest| :: rest[j] == features[j + 1];
    if i: nat :| Leads(features, i, base, version) {
      assert i > 0;
      forall j, w: nat | 0 <= j < i - 1 ensures !Gives(rest[j], base, w) {
        assert !Gives(features[j + 1], base, w);
      }
      assert Leads(rest, i - 1, base, version);
    }
    if i: nat :| Leads(rest, i, base, version) {
      forall j, w: nat | 0 <= j < i + 1 ensures !Gives(features[j], base, w) {
        if j > 0 {
          assert !Gives(rest[j - 1], base, w);
        }
      }
      assert Leads(features, i + 1, base, version);
    }
  }

  /**
    For every base name, the version of the first required feature is at most that of the first provided one, and no
    disabled feature has that base name.
   */
  ghost predicate FeaturesMet(provided: seq<string>, disabled: seq<string>, required: seq<string>) {
    forall i: nat, base: string, v: nat | Leads(required, i, base, v) ::
      && (exists j: nat, w: nat :: Leads(provided, j, base, w) && v <= w)
      && (forall j: nat, w: nat :: !Leads(disabled, j, base, w))
  }

  lemma FeaturesIff(provided: seq<string>, disabled: seq<string>, required: seq<string>)
    ensures SatisfiesFeatures(provided, disabled, required) <==> FeaturesMet(provided, disabled, required)
  {
    hide First, Leads, Met;
    if FeaturesMet(provided, disabled, required) {
      forall base ensures Met(provided, disabled, required, base) {
        MetFromLeads(provided, disabled, required, base);
      }
    }
    if SatisfiesFeatures(provided, disabled, required) {
      forall i: nat, base: string, v: nat | Leads(required, i, base, v)
        ensures exists j: nat, w: nat :: Leads(provided, j, base, w) && v <= w
        ensures forall j: nat, w: nat :: !Leads(disabled, j, base, w)
      {
        LeadsFromMet(provided, disabled, required, i, base, v);
      }
    }
  }

  lemma LeadsFromMet(provided: seq<string>, disabled: seq<string>, required: seq<string>, i: nat, base: string, v: nat)
    requires Leads(required, i, base, v) && Met(provided, disabled, required, base)
    ensures exists j: nat, w: nat :: Leads(provided, j, base, w) && v <= w
    ensures forall j: nat, w: nat :: !Leads(disabled, j, base, w)
  {
    hide First, Leads;
    FirstIff(required, base, v);
    var w := First(provided, base).value.version;
    FirstIff(provided, base, w);
    forall j: nat, u: nat ensures !Leads(disabled, j, base, u) {
      FirstIff(disabled, base, u);
    }
  }

  lemma MetFromLeads(provided: seq<string>, disabled: seq<string>, required: seq<string>, base: string)
    requires FeaturesMet(provided, disabled, required)
    ensures Met(provided, disabled, required, base)
  {
    hide First, Leads;
    if First(required, base).Some? {
      var v := First(required, base).value.version;
      FirstIff(required, base, v);
      var i: nat :| Leads(required, i, base, v);
      var j: nat, w: nat :| Leads(provided, j, base, w) && v <= w;
      FirstIff(provided, base, w);
      if First(disabled, base).Some? {
        FirstIff(disabled, base, First(disabled, base).value.version);
      }
    }
  }

  // ---- targets --------------------------------------------------------------------------------------

  datatype Target = Target(triple: string, arch: string, features: seq<string>, disabled: seq<string>, abi: string)

  /** `checkSatisfiesRequirements`. */
  ghost predicate Satisfies(l: Llvm, provided: Target, required: Target) {
    && SatisfiesTriple(l, provided.triple, required.triple)
    && SatisfiesArch(provided.arch, required.arch)
    && SatisfiesFeatures(provided.features, provided.disabled, required.features)
    && SatisfiesABI(provided.abi, required.abi)
  }

  /** The four tests, from the texts alone. */
  ghost predicate Meets(l: Llvm, provided: Target, required: Target) {
    && TripleMet(l, provided.triple, required.triple)
    && ArchMet(provided.arch, required.arch)
    && FeaturesMet(provided.features, provided.disabled, required.features)
    && (required.abi == "" || provided.abi == required.abi)
  }

  lemma SatisfiesIff(l: Llvm, provided: Target, required: Target)
    ensures Satisfies(l, provided, required) <==> Meets(l, provided, required)
  {
    hide SatisfiesTriple, TripleMet, SatisfiesArch, ArchMet, SatisfiesFeatures, FeaturesMet;
    TripleIff(l, provided.triple, required.triple);
    ArchIff(provided.arch, required.arch);
    FeaturesIff(provided.features, provided.disabled, required.features);
  }

  method CheckSatisfiesRequirements(l: Llvm, provided: Target, required: Target) returns (ok: bool)
    ensures ok <==> Meets(l, provided, required)
    ensures ok <==> Satisfies(l, provided, required)
  {
    SatisfiesIff(l, provided, required);
    hide Meets;
    if !SatisfiesTriple(l, provided.triple, required.triple) {
      return false;
    }
    if !SatisfiesArch(provided.arch, required.arch) {
      return false;
    }
    var missing := CheckFeatures(provided.features, provided.disabled, required.features);
    if missing != {} {
      return false;
    }
    return SatisfiesABI(provided.abi, required.abi);
  }

  lemma TripleTransitive(l: Llvm, a: string, b: string, c: string)
    requires Sane(l) && SatisfiesTriple(l, a, b) && SatisfiesTriple(l, b, c)
    ensures SatisfiesTriple(l, a, c)
  {
  }

  lemma FeaturesTransitive(a: Target, b: Target, c: Target)
    requires SatisfiesFeatures(a.features, a.disabled, b.features)
    requires SatisfiesFeatures(b.features, b.disabled, c.features)
    ensures SatisfiesFeatures(a.features, a.disabled, c.features)
  {
    forall base ensures Met(a.features, a.disabled, c.features, base) {
      assert Met(b.features, b.disabled, c.features, base);
      assert Met(a.features, a.disabled, b.features, base);
    }
  }

  /** Satisfaction is transitive over all targets. */
  lemma Transitive(l: Llvm, a: Target, b: Target, c: Target)
    requires Sane(l) && Satisfies(l, a, b) && Satisfies(l, b, c)
    ensures Satisfies(l, a, c)
  {
    hide SatisfiesTriple, SatisfiesFeatures, Sane;
    TripleTransitive(l, a.triple, b.triple, c.triple);
    FeaturesTransitive(a, b, c);
  }

  /** A feature takes part in matching, under this base name. */
  predicate Names(feature: string, base: string) {
    !Ignored(feature) && Decode(feature).base == base
  }

  lemma {:induction false} FirstExists(features: seq<string>, base: string)
    ensures First(features, base).Some? <==> exists i | 0 <= i < |features| :: Names(features[i], base)
  {
    if features == [] {
    } else {
      FirstExists(features[1..], base);
      if i :| 0 <= i < |features| && Names(features[i], base) {
        assert i > 0 ==> features[1..][i - 1] == features[i];
      }
      if j :| 0 <= j < |features| - 1 && Names(features[1..][j], base) {
        assert features[j + 1] == features[1..][j];
      }
    }
  }

  /**
    A target satisfies itself exactly when no enabled feature shares a base name with a disabled one, ignored ones
    aside.
   */
  lemma Reflexive(l: Llvm, t: Target)
    ensures Satisfies(l, t, t) <==>
            forall i, j | && 0 <= i < |t.features| && 0 <= j < |t.disabled|
                          && !Ignored(t.features[i]) && !Ignored(t.disabled[j]) ::
              Decode(t.features[i]).base != Decode(t.disabled[j]).base
  {
    hide First, Decode, Ignored;
    forall base
      ensures Met(t.features, t.disabled, t.features, base) <==>
              !((exists i | 0 <= i < |t.features| :: Names(t.features[i], base)) &&
                (exists j | 0 <= j < |t.disabled| :: Names(t.disabled[j], base)))
    {
      FirstExists(t.features, base);
      FirstExists(t.disabled, base);
    }
    if Satisfies(l, t, t) {
      forall i, j | 0 <= i < |t.features| && 0 <= j < |t.disabled| && !Ignored(t.features[i]) && !Ignored(t.disabled[j])
        ensures Decode(t.features[i]).base != Decode(t.disabled[j]).base
      {
        var base := Decode(t.features[i]).base;
        assert Names(t.features[i], base);
        assert Met(t.features, t.disabled, t.features, base);
        assert !Names(t.disabled[j], base);
      }
    }
  }

  /** Appending features to the provided target never breaks satisfaction. */
  lemma AppendKeeps(l: Llvm, provided: Target, required: Target, more: seq<string>)
    requires Satisfies(l, provided, required)
    ensures Satisfies(l, provided.(features := provided.features + more), required)
  {
    forall base ensures Met(provided.features + more, provided.disabled, required.features, base) {
      assert Met(provided.features, provided.disabled, required.features, base);
      FirstAppend(provided.features, more, base);
    }
  }

  /**
    Putting a feature in front keeps satisfaction exactly when the feature is ignored, or of no required base name, or
    recent enough.
   */
  lemma PrependKeepsIff(l: Llvm, provided: Target, required: Target, f: string)
    requires Satisfies(l, provided, required)
    ensures Satisfies(l, provided.(features := [f] + provided.features), required) <==>
            || Ignored(f)
            || First(required.features, Decode(f).base).None?
            || First(required.features, Decode(f).base).value.version <= Decode(f).version
  {
    hide Decode, SatisfiesTriple, SatisfiesArch, SatisfiesABI;
    var fs := [f] + provided.features;
    assert fs[1..] == provided.features;
    forall base
      ensures Met(fs, provided.disabled, required.features, base) <==>
              (Ignored(f) || base != Decode(f).base || First(required.features, base).None?
               || First(required.features, base).value.version <= Decode(f).version)
    {
      assert Met(provided.features, provided.disabled, required.features, base);
    }
    if Satisfies(l, provided.(features := fs), required) {
      assert Met(fs, provided.disabled, required.features, Decode(f).base);
    }
  }

  /** Disabling fewer features never breaks satisfaction. */
  lemma DisableLessKeeps(l: Llvm, provided: Target, required: Target, fewer: seq<string>, more: seq<string>)
    requires provided.disabled == fewer + more && Satisfies(l, provided, required)
    ensures Satisfies(l, provided.(disabled := fewer), required)
  {
    forall base ensures Met(provided.features, fewer, required.features, base) {
      assert Met(provided.features, provided.disabled, required.features, base);
      FirstAppend(fewer, more, base);
    }
  }

  /** First wins: an older version put in front hides a newer one that satisfied the requirement. */
  lemma PrependCanBreak()
    ensures SatisfiesFeatures(["sm_90"], [], ["sm_80"])
    ensures !SatisfiesFeatures(["sm_70"] + ["sm_90"], [], ["sm_80"])
  {
    hide Decode, Ignored;
    var early, late, want := "sm_70", "sm_90", "sm_80";
    DecodeTwoDigits(early, 70);
    DecodeTwoDigits(want, 80);
    DecodeTwoDigits(late, 90);
    assert [late] + [] == [late] && [want] + [] == [want];
    forall base ensures Met([late], [], [want], base) {
      FirstOne(late, [], base);
      FirstOne(want, [], base);
    }
    FirstOne(early, [late], "sm");
    FirstOne(want, [], "sm");
    assert !Met([early] + [late], [], [want], "sm");
  }

  lemma DecodeTwoDigits(name: string, n: nat)
    requires |name| == 5 && "sm_" <= name && IsDigit(name[3]) && IsDigit(name[4])
    requires n == 10 * Digit(name[3]) + Digit(name[4])
    ensures Decode(name) == Versioned(name, "sm", n) && !Ignored(name)
  {
    var s := name[3..];
    assert s[..1] == [s[0]] && s[..1][..0] == "";
    assert Decimal(s[..1]) == Digit(s[0]);
  }
}
