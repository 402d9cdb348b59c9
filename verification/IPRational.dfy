/** Rationals over infinite-precision integers, kept in lowest terms with a positive denominator. */
module IPRational {
  import opened Arithmetic
  import opened FixedWidth
  import opened IPInt
  import opened Euclid

  datatype Rational = Rational(num: Int, den: Int)

  ghost predicate LowestTerms(n: int, d: int) {
    forall c | Divides(c, n) && Divides(c, d) :: Abs(c) == 1
  }

  ghost predicate Canonical(q: Rational) {
    Signed(q.den) > 0 && LowestTerms(Signed(q.num), Signed(q.den))
  }

  ghost function Ratio(n: int, d: int): (x: real)
    requires d != 0
  {
    n as real / d as real
  }

  /** The number a rational stands for. */
  ghost function Value(q: Rational): (x: real)
    requires Signed(q.den) != 0
  {
    Ratio(Signed(q.num), Signed(q.den))
  }

  /** Numerator and denominator divided by the gcd, the denominator made positive. */
  function Reduce(n: int, d: int): (r: (int, int))
    requires d != 0
  {
    GcdNonzero(n, d);
    var g := SignedGcd(n, d);
    if Quot(d, g) < 0 then (-Quot(n, g), -Quot(d, g)) else (Quot(n, g), Quot(d, g))
  }

  lemma TimesMinusOne(x: Int, m: Int)
    requires Signed(m) == -1
    ensures Signed(Times(x, m)) == -Signed(x)
  {
    hide Times, Signed, Fits;
  }

  /** The sign fix-up at the end of the constructor. */
  function Normalized(num: Int, den: Int): (q: Rational)
    ensures Signed(q.num) == if Signed(den) < 0 then -Signed(num) else Signed(num)
    ensures Signed(q.den) == Abs(Signed(den))
  {
    Literals();
    CmpIsValueOrder(den, ZERO);
    TimesMinusOne(num, MINUS_ONE);
    TimesMinusOne(den, MINUS_ONE);
    if Cmp(den, ZERO, Slt) then Rational(Times(num, MINUS_ONE), Times(den, MINUS_ONE)) else Rational(num, den)
  }

  /** The canonicalizing constructor. */
  function Make(n: Int, d: Int): (q: Rational)
    requires Signed(d) != 0
  {
    GcdNonzero(Signed(n), Signed(d));
    var g := FromInt(SignedGcd(Signed(n), Signed(d)));
    Normalized(Divide(n, g), Divide(d, g))
  }

  lemma MakeReduces(n: Int, d: Int)
    requires Signed(d) != 0
    ensures (Signed(Make(n, d).num), Signed(Make(n, d).den)) == Reduce(Signed(n), Signed(d))
  {
    hide Normalized, Divide, FromInt, Quot, SignedGcd, Signed, Fits;
    GcdNonzero(Signed(n), Signed(d));
  }

  /** The constructor as it runs, with the gcd loop. */
  method Construct(n: Int, d: Int) returns (q: Rational)
    requires Signed(d) != 0
    ensures q == Make(n, d)
  {
    GcdNonzero(Signed(n), Signed(d));
    var g := Gcd(n, d);
    EqualIsValueEquality(g, FromInt(SignedGcd(Signed(n), Signed(d))));
    var numerator, denominator := Divide(n, g), Divide(d, g);
    if Cmp(denominator, ZERO, Slt) {
      numerator := Times(numerator, MINUS_ONE);
      denominator := Times(denominator, MINUS_ONE);
    }
    q := Rational(numerator, denominator);
  }

  // ---- number theory ------------------------------------------------------------------

  lemma ExactQuotient(k: int, g: int)
    requires g != 0
    ensures Quot(k * g, g) == k
  {
    SignedProduct(g, k);
    SignedProduct(k, Abs(g));
    Distribute(k, 0, g);
    Distribute(k, 0, Abs(g));
    ModuloUnique(Abs(k) * Abs(g), Abs(k), 0, Abs(g));
    if k != 0 {
      MulKeepsOrder(1, Abs(k), Abs(g));
    }
  }

  /** A divisor of 1 is a unit. */
  lemma UnitDivisor(c: int, k: int)
    requires k * c == 1
    ensures Abs(c) == 1
  {
    SignedProduct(c, k);
    SignedProduct(k, Abs(c));
    Distribute(k, 0, c);
    if Abs(c) >= 2 && k != 0 {
      MulKeepsOrder(1, Abs(k), Abs(c));
    }
  }

  /** Two numbers with a combination equal to 1 have no common factor. */
  lemma CombinationOfOne(n: int, d: int, x: int, y: int)
    requires x * n + y * d == 1
    ensures LowestTerms(n, d)
  {
    forall c | Divides(c, n) && Divides(c, d) ensures Abs(c) == 1 {
      DividesCombination(c, n, d, x, y);
      var k :| 1 == Multiple(k, c);
      UnitDivisor(c, k);
    }
  }

  /** Factoring g out of g = x * (n * g) + y * (d * g). */
  lemma FactorOut(g: int, n: int, d: int, x: int, y: int)
    requires g != 0 && x * (n * g) + y * (d * g) == g
    ensures x * n + y * d == 1
  {
    Reassociate(x, n, g);
    Reassociate(y, d, g);
    Distribute(x * n, y * d, g);
    var t := x * n + y * d;
    Distribute(t, 1, g);
    CancelFactor(t - 1, g);
  }

  lemma CancelFactor(a: int, g: int)
    requires g != 0 && a * g == 0
    ensures a == 0
  {
    MultipleIsFar(a, Abs(g));
    SignedProduct(g, a);
    Distribute(a, 0, g);
  }

  /** What division by the gcd leaves. */
  lemma Reduced(n: int, d: int)
    requires d != 0
    ensures var g := SignedGcd(n, d);
            && g != 0 && n == Quot(n, g) * g && d == Quot(d, g) * g
            && Quot(d, g) != 0 && LowestTerms(Quot(n, g), Quot(d, g))
  {
    var g := SignedGcd(n, d);
    GcdIsGreatest(n, d, 1);
    GcdDivides(n, d);
    var j :| n == Multiple(j, g);
    var k :| d == Multiple(k, g);
    ExactQuotient(j, g);
    ExactQuotient(k, g);
    var x, y := Bezout(n, d);
    FactorOut(g, j, k, x, y);
    CombinationOfOne(j, k, x, y);
  }

  lemma NegatedLowestTerms(n: int, d: int)
    requires LowestTerms(n, d)
    ensures LowestTerms(-n, -d)
  {
    forall c | Divides(c, -n) && Divides(c, -d) ensures Abs(c) == 1 {
      DividesCombination(c, -n, -d, -1, 0);
      DividesCombination(c, -n, -d, 0, -1);
    }
  }

  lemma SwapFactors(n: int, d: int, a: int, b: int, g: int)
    requires n == a * g && d == b * g
    ensures a * d == n * b
  {
    Reassociate(a, b, g);
    Reassociate(b, a, g);
    Distribute(a, 0, b);
    Distribute(n, 0, b);
  }

  /**
    The reduced pair has a positive denominator, is in lowest terms and represents n/d, whatever the
    signs of n, d and their gcd.
   */
  lemma ReduceIsCanonical(n: int, d: int)
    requires d != 0
    ensures var (a, b) := Reduce(n, d); b > 0 && LowestTerms(a, b) && a * d == n * b
  {
    var g := SignedGcd(n, d);
    Reduced(n, d);
    var a, b := Quot(n, g), Quot(d, g);
    SwapFactors(n, d, a, b, g);
    NegatedLowestTerms(a, b);
    SignedProduct(d, a);
    SignedProduct(n, b);
    Distribute(-a, 0, d);
  }

  lemma MakeIsCanonical(n: Int, d: Int)
    requires Signed(d) != 0
    ensures Canonical(Make(n, d))
    ensures Signed(Make(n, d).num) * Signed(d) == Signed(n) * Signed(Make(n, d).den)
  {
    hide Make, Reduce, Signed, Fits, LowestTerms;
    MakeReduces(n, d);
    ReduceIsCanonical(Signed(n), Signed(d));
  }

  /** Coprime numbers have a combination equal to 1. */
  lemma CoprimeCombination(n: int, d: int) returns (x: int, y: int)
    requires LowestTerms(n, d)
    ensures x * n + y * d == 1
  {
    var g := SignedGcd(n, d);
    GcdDivides(n, d);
    x, y := Bezout(n, d);
    if g == -1 {
      Distribute(0, x, n);
      Distribute(0, y, d);
      x, y := -x, -y;
    }
  }

  /** Equal cross products and coprimality make one denominator divide the other. */
  lemma DenominatorDivides(n: int, d: int, n': int, d': int)
    requires LowestTerms(n, d) && n * d' == n' * d
    ensures Divides(d, d')
  {
    var x, y := CoprimeCombination(n, d);
    Distribute(x * n, 0 - y * d, d');
    Reassociate(x, n, d');
    Reassociate(x, n', d);
    Reassociate(y, d, d');
    Reassociate(y, d', d);
    Distribute(d, 0, d');
    Distribute(x * n', 0 - y * d', d);
    assert d' == Multiple(x * n' + y * d', d);
  }

  lemma MutualDivisors(d: int, d': int)
    requires d > 0 && d' > 0 && Divides(d, d') && Divides(d', d)
    ensures d == d'
  {
    var j :| d' == Multiple(j, d);
    var k :| d == Multiple(k, d');
    if j <= 0 {
      MulKeepsOrder(j, 0, d);
    } else {
      MulKeepsOrder(1, j, d);
    }
    if k <= 0 {
      MulKeepsOrder(k, 0, d');
    } else {
      MulKeepsOrder(1, k, d');
    }
  }

  predicate EqualRational(p: Rational, q: Rational) {
    Equal(p.num, q.num) && Equal(p.den, q.den)
  }

  /** Field-by-field equality of canonical rationals is equality of the cross products. */
  lemma EqualIffCrossProducts(p: Rational, q: Rational)
    requires Canonical(p) && Canonical(q)
    ensures EqualRational(p, q) <==> Signed(p.num) * Signed(q.den) == Signed(q.num) * Signed(p.den)
  {
    EqualIsValueEquality(p.num, q.num);
    EqualIsValueEquality(p.den, q.den);
    var n, d, n', d' := Signed(p.num), Signed(p.den), Signed(q.num), Signed(q.den);
    if n * d' == n' * d {
      DenominatorDivides(n, d, n', d');
      DenominatorDivides(n', d', n, d);
      MutualDivisors(d, d');
      Distribute(n, n', d);
      CancelFactor(n - n', d);
    }
  }

  // ---- arithmetic and order -------------------------------------------------------------

  function AddRational(p: Rational, q: Rational): (r: Rational)
    requires Signed(p.den) > 0 && Signed(q.den) > 0
  {
    MulKeepsOrder(1, Signed(p.den), Signed(q.den));
    Make(Plus(Times(p.num, q.den), Times(q.num, p.den)), Times(p.den, q.den))
  }

  function SubRational(p: Rational, q: Rational): (r: Rational)
    requires Signed(p.den) > 0 && Signed(q.den) > 0
  {
    MulKeepsOrder(1, Signed(p.den), Signed(q.den));
    Make(Minus(Times(p.num, q.den), Times(q.num, p.den)), Times(p.den, q.den))
  }

  function MulRational(p: Rational, q: Rational): (r: Rational)
    requires Signed(p.den) > 0 && Signed(q.den) > 0
  {
    MulKeepsOrder(1, Signed(p.den), Signed(q.den));
    Make(Times(p.num, q.num), Times(p.den, q.den))
  }

  function DivRational(p: Rational, q: Rational): (r: Rational)
    requires Signed(p.den) > 0 && Signed(q.num) != 0
  {
    NonzeroProduct(Signed(p.den), Signed(q.num));
    Make(Times(p.num, q.den), Times(p.den, q.num))
  }

  lemma NonzeroProduct(a: int, b: int)
    requires a != 0 && b != 0
    ensures a * b != 0
  {
    if a * b == 0 {
      CancelFactor(a, b);
    }
  }

  /** Equal cross products are equal quotients. */
  lemma SameQuotient(a: int, b: int, c: int, d: int)
    requires b != 0 && d != 0
    ensures a * d == c * b <==> Ratio(a, b) == Ratio(c, d)
  {
    var x, y, z, w := a as real, b as real, c as real, d as real;
    assert a * d == c * b <==> x * w == z * y;
    assert x / y * y == x && z / w * w == z;
    var s, t := x / y, z / w;
    assert x * w == (s * y) * w && z * y == (t * w) * y;
    RealCancel(s, t, y, w);
  }

  lemma RealCancel(s: real, t: real, y: real, w: real)
    requires y != 0.0 && w != 0.0
    ensures (s * y) * w == (t * w) * y <==> s == t
  {
    assert (s * y) * w - (t * w) * y == (s - t) * (y * w);
  }

  lemma MakeValue(n: Int, d: Int)
    requires Signed(d) != 0
    ensures Signed(Make(n, d).den) > 0
    ensures Value(Make(n, d)) == Ratio(Signed(n), Signed(d))
  {
    hide Signed, Make, LowestTerms, Ratio;
    MakeIsCanonical(n, d);
    SameQuotient(Signed(Make(n, d).num), Signed(Make(n, d).den), Signed(n), Signed(d));
  }

  lemma RealSum(a: real, b: real, c: real, d: real)
    requires b != 0.0 && d != 0.0
    ensures b * d != 0.0
    ensures (a * d + c * b) / (b * d) == a / b + c / d
    ensures (a * d - c * b) / (b * d) == a / b - c / d
  {
    var s, t := a / b, c / d;
    assert a == s * b && c == t * d;
    assert a * d + c * b == (s + t) * (b * d);
    assert a * d - c * b == (s - t) * (b * d);
  }

  lemma RealProduct(a: real, b: real, c: real, d: real)
    requires b != 0.0 && d != 0.0
    ensures b * d != 0.0
    ensures (a * c) / (b * d) == (a / b) * (c / d)
  {
    var s, t := a / b, c / d;
    assert a == s * b && c == t * d;
    assert a * c == (s * t) * (b * d);
  }

  lemma RealQuotient(a: real, b: real, c: real, d: real)
    requires b != 0.0 && c != 0.0 && d != 0.0
    ensures b * c != 0.0 && c / d != 0.0
    ensures (a * d) / (b * c) == (a / b) / (c / d)
  {
    var s, t := a / b, c / d;
    assert a == s * b && c == t * d;
    assert t != 0.0;
    assert a * d == (s * b) * d;
    assert b * c == t * (b * d);
    assert (s / t) * (b * c) == a * d by { assert (s / t) * t == s; assert (s / t) * (t * (b * d)) == s * (b * d); }
  }

  lemma CastProduct(a: int, b: int)
    ensures (a * b) as real == a as real * b as real
  {
  }

  lemma RatioSum(a: int, b: int, c: int, d: int)
    requires b != 0 && d != 0
    ensures b * d != 0
    ensures Ratio(a * d + c * b, b * d) == Ratio(a, b) + Ratio(c, d)
    ensures Ratio(a * d - c * b, b * d) == Ratio(a, b) - Ratio(c, d)
  {
    NonzeroProduct(b, d);
    RealSum(a as real, b as real, c as real, d as real);
    CastProduct(a, d);
    CastProduct(c, b);
    CastProduct(b, d);
  }

  ghost function Product(x: real, y: real): (z: real) {
    x * y
  }

  lemma RatioProduct(a: int, b: int, c: int, d: int)
    requires b != 0 && d != 0
    ensures b * d != 0
    ensures Ratio(a * c, b * d) == Product(Ratio(a, b), Ratio(c, d))
  {
    NonzeroProduct(b, d);
    RealProduct(a as real, b as real, c as real, d as real);
    CastProduct(a, c);
    CastProduct(b, d);
  }

  lemma RatioQuotient(a: int, b: int, c: int, d: int)
    requires b != 0 && c != 0 && d != 0
    ensures b * c != 0 && Ratio(c, d) != 0.0
    ensures Ratio(a * d, b * c) == Ratio(a, b) / Ratio(c, d)
  {
    NonzeroProduct(b, c);
    RealQuotient(a as real, b as real, c as real, d as real);
    CastProduct(a, d);
    CastProduct(b, c);
  }

  /** `+` on canonical rationals is addition, and stays canonical ... */
  lemma AddExact(p: Rational, q: Rational)
    requires Canonical(p) && Canonical(q)
    ensures Canonical(AddRational(p, q)) && Value(AddRational(p, q)) == Value(p) + Value(q)
  {
    hide Make, LowestTerms, Plus, Minus, Times, Signed, Fits, Ratio;
    var num, den := Plus(Times(p.num, q.den), Times(q.num, p.den)), Times(p.den, q.den);
    RatioSum(Signed(p.num), Signed(p.den), Signed(q.num), Signed(q.den));
    MakeIsCanonical(num, den);
    MakeValue(num, den);
  }

  /** ... and `-`, `*` and `/` are subtraction, multiplication and division. */
  lemma SubExact(p: Rational, q: Rational)
    requires Canonical(p) && Canonical(q)
    ensures Canonical(SubRational(p, q)) && Value(SubRational(p, q)) == Value(p) - Value(q)
  {
    hide Make, LowestTerms, Plus, Minus, Times, Signed, Fits, Ratio;
    var num, den := Minus(Times(p.num, q.den), Times(q.num, p.den)), Times(p.den, q.den);
    RatioSum(Signed(p.num), Signed(p.den), Signed(q.num), Signed(q.den));
    MakeIsCanonical(num, den);
    MakeValue(num, den);
  }

  lemma ProductOfValues(p: Rational, q: Rational, n: int, m: int)
    requires Signed(p.den) != 0 && Signed(q.den) != 0
    requires n == Signed(p.num) * Signed(q.num) && m == Signed(p.den) * Signed(q.den)
    ensures m != 0 && Ratio(n, m) == Product(Value(p), Value(q))
  {
    hide Signed, Ratio, Product;
    RatioProduct(Signed(p.num), Signed(p.den), Signed(q.num), Signed(q.den));
  }

  lemma MulExact(p: Rational, q: Rational)
    requires Canonical(p) && Canonical(q)
    ensures Canonical(MulRational(p, q)) && Value(MulRational(p, q)) == Value(p) * Value(q)
  {
    hide Make, LowestTerms, Plus, Minus, Times, Signed, Fits, Ratio, Value;
    var num, den := Times(p.num, q.num), Times(p.den, q.den);
    ProductOfValues(p, q, Signed(num), Signed(den));
    MakeIsCanonical(num, den);
    MakeValue(num, den);
  }

  lemma DivExact(p: Rational, q: Rational)
    requires Canonical(p) && Canonical(q) && Signed(q.num) != 0
    ensures Value(q) != 0.0
    ensures Canonical(DivRational(p, q)) && Value(DivRational(p, q)) == Value(p) / Value(q)
  {
    hide Make, LowestTerms, Plus, Minus, Times, Signed, Fits, Ratio;
    var num, den := Times(p.num, q.den), Times(p.den, q.num);
    RatioQuotient(Signed(p.num), Signed(p.den), Signed(q.num), Signed(q.den));
    MakeIsCanonical(num, den);
    MakeValue(num, den);
  }

  /** The four comparisons, built from one cross multiplication and structural equality. */
  function CmpRational(p: Rational, q: Rational, op: CmpOp): (b: bool)
    decreases match op case Sgt => 0 case Sge => 1 case Slt => 1 case Sle => 2
  {
    match op
    case Sgt => Cmp(Times(p.num, q.den), Times(p.den, q.num), Sgt)
    case Sge => EqualRational(p, q) || CmpRational(p, q, Sgt)
    case Slt => !CmpRational(p, q, Sgt) && !EqualRational(p, q)
    case Sle => EqualRational(p, q) || CmpRational(p, q, Slt)
  }

  lemma RealOrder(a: real, b: real, c: real, d: real)
    requires b > 0.0 && d > 0.0
    ensures a * d > b * c <==> a / b > c / d
  {
    var s, t := a / b, c / d;
    assert a == s * b && c == t * d;
    assert a * d - b * c == (s - t) * (b * d);
    assert b * d > 0.0;
  }

  lemma RatioOrder(a: int, b: int, c: int, d: int)
    requires b > 0 && d > 0
    ensures a * d > b * c <==> Ratio(a, b) > Ratio(c, d)
  {
    RealOrder(a as real, b as real, c as real, d as real);
    CastProduct(a, d);
    CastProduct(b, c);
  }

  lemma EqualIsValue(p: Rational, q: Rational)
    requires Canonical(p) && Canonical(q)
    ensures EqualRational(p, q) <==> Value(p) == Value(q)
  {
    hide Signed, LowestTerms, Ratio;
    EqualIffCrossProducts(p, q);
    SameQuotient(Signed(p.num), Signed(p.den), Signed(q.num), Signed(q.den));
  }

  /** They are the order of the numbers. */
  lemma CmpIsRationalOrder(p: Rational, q: Rational)
    requires Canonical(p) && Canonical(q)
    ensures CmpRational(p, q, Sgt) <==> Value(p) > Value(q)
    ensures CmpRational(p, q, Sge) <==> Value(p) >= Value(q)
    ensures CmpRational(p, q, Slt) <==> Value(p) < Value(q)
    ensures CmpRational(p, q, Sle) <==> Value(p) <= Value(q)
  {
    hide Signed, LowestTerms, Ratio, Times, Cmp, EqualRational;
    CmpIsValueOrder(Times(p.num, q.den), Times(p.den, q.num));
    RatioOrder(Signed(p.num), Signed(p.den), Signed(q.num), Signed(q.den));
    EqualIsValue(p, q);
  }

  /** Hence `<` is a strict total order whose equality is `==`. */
  lemma LessIsStrictTotalOrder(p: Rational, q: Rational, r: Rational)
    requires Canonical(p) && Canonical(q) && Canonical(r)
    ensures !CmpRational(p, p, Slt)
    ensures CmpRational(p, q, Slt) && CmpRational(q, r, Slt) ==> CmpRational(p, r, Slt)
    ensures CmpRational(p, q, Slt) || CmpRational(q, p, Slt) || EqualRational(p, q)
    ensures CmpRational(p, q, Slt) ==> !CmpRational(q, p, Slt)
  {
    hide CmpRational, EqualRational, Value, LowestTerms;
    CmpIsRationalOrder(p, p);
    CmpIsRationalOrder(p, q);
    CmpIsRationalOrder(q, p);
    CmpIsRationalOrder(q, r);
    CmpIsRationalOrder(p, r);
    EqualIsValue(p, p);
    EqualIsValue(p, q);
  }
}
