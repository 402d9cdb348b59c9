/** Rationals and powers over the integers as the code runs them, at widths that are cut to 32 bits. */
module CutWidthRational {
  import opened Arithmetic
  import opened FixedWidth
  import opened IPInt
  import opened CutWidth
  import opened Euclid
  import opened IPRational

  // ---- how wide results are ----------------------------------------------------------------------------

  lemma WidthAtMost(x: Int, w: nat)
    requires w >= 1 && Fits(Signed(x), w)
    ensures x.width <= w
  {
    if x.width > w {
      FitsWider(Signed(x), w, x.width - 1);
    }
  }

  lemma SumWidth(x: Int, y: Int)
    ensures Plus(x, y).width <= x.width + y.width && Minus(x, y).width <= x.width + y.width
  {
    hide Signed, Fits, Plus, Minus;
    SumFits(Signed(x), Signed(y), x.width, y.width);
    WidthAtMost(Plus(x, y), x.width + y.width);
    WidthAtMost(Minus(x, y), x.width + y.width);
  }

  lemma ProductWidth(x: Int, y: Int)
    ensures Times(x, y).width <= x.width + y.width
  {
    hide Signed, Fits, Times;
    ProductFits(Signed(x), Signed(y), x.width, y.width);
    WidthAtMost(Times(x, y), x.width + y.width);
  }

  /** A number no larger in magnitude is at most one bit wider. */
  lemma SmallerWidth(x: Int, y: Int)
    requires Abs(Signed(x)) <= Abs(Signed(y))
    ensures x.width <= y.width + 1
  {
    assert Fits(Signed(y), y.width) && Half(y.width + 1) == 2 * Half(y.width);
    WidthAtMost(x, y.width + 1);
  }

  lemma GcdIsSmaller(n: int, d: int)
    requires d != 0
    ensures Abs(SignedGcd(n, d)) <= Abs(d)
  {
    GcdDivides(n, d);
    var g := SignedGcd(n, d);
    var k :| d == Multiple(k, g);
    hide SignedGcd;
    FactorIsSmaller(d, k, g);
  }

  lemma FactorIsSmaller(d: int, k: int, g: int)
    requires d == k * g && d != 0
    ensures Abs(g) <= Abs(d)
  {
    if k == 0 {
      Distribute(k, 0, g);
    } else if g != 0 {
      FarMultiple(k, g);
    }
  }

  lemma QuotientIsSmaller(n: Int, g: Int)
    requires Signed(g) != 0
    ensures Divide(n, g).width <= n.width + 1
  {
    QuotRem(Signed(n), Signed(g));
    hide Signed, Quot, Divide;
    SmallerWidth(Divide(n, g), n);
  }

  // ---- rationals --------------------------------------------------------------------------------------

  /** Enough room for the constructor's divisions and sign fix-up. */
  predicate Room(n: Int, d: Int) {
    n.width + d.width + 2 < UNSIGNED_RANGE && 2 * d.width + 2 < UNSIGNED_RANGE
  }

  function GcdOf(n: Int, d: Int): (g: Int)
    requires Signed(d) != 0
    ensures Signed(g) == SignedGcd(Signed(n), Signed(d)) != 0 && g.width <= d.width + 1
  {
    GcdNonzero(Signed(n), Signed(d));
    GcdIsSmaller(Signed(n), Signed(d));
    SmallerWidth(FromInt(SignedGcd(Signed(n), Signed(d))), d);
    FromInt(SignedGcd(Signed(n), Signed(d)))
  }

  function CodeNormalized(num: Int, den: Int): (q: Rational)
    requires Defined(num, MINUS_ONE) && Defined(den, MINUS_ONE)
  {
    if Cmp(den, ZERO, Slt) then Rational(CodeTimes(num, MINUS_ONE), CodeTimes(den, MINUS_ONE)) else Rational(num, den)
  }

  /** What the constructor's divisions give, and that nothing is cut. */
  lemma ReducedInRange(n: Int, d: Int)
    requires Signed(d) != 0 && Room(n, d)
    ensures var g := GcdOf(n, d);
            && InRange(n, g) && InRange(d, g)
            && InRange(Divide(n, g), MINUS_ONE) && InRange(Divide(d, g), MINUS_ONE)
  {
    hide Signed, Divide, GcdOf;
    QuotientIsSmaller(n, GcdOf(n, d));
    QuotientIsSmaller(d, GcdOf(n, d));
  }

  /** The constructor over the code's operators. */
  function CodeMake(n: Int, d: Int): (q: Rational)
    requires Signed(d) != 0 && Room(n, d)
  {
    var g := GcdOf(n, d);
    ReducedInRange(n, d);
    InRangeIsExact(n, g);
    InRangeIsExact(d, g);
    InRangeIsExact(Divide(n, g), MINUS_ONE);
    InRangeIsExact(Divide(d, g), MINUS_ONE);
    CodeNormalized(CodeDivide(n, g), CodeDivide(d, g))
  }

  lemma CodeMakeIsMake(n: Int, d: Int)
    requires Signed(d) != 0 && Room(n, d)
    ensures CodeMake(n, d) == Make(n, d)
  {
    hide Signed, Divide, CodeDivide, Times, CodeTimes, Cmp, FromInt, Fits;
    var g := GcdOf(n, d);
    ReducedInRange(n, d);
    InRangeIsExact(n, g);
    InRangeIsExact(d, g);
    InRangeIsExact(Divide(n, g), MINUS_ONE);
    InRangeIsExact(Divide(d, g), MINUS_ONE);
  }

  /** The one bound: twice the operands' widths together, and two bits, stay in the range of `unsigned`. */
  predicate Small(p: Rational, q: Rational) {
    2 * (p.num.width + p.den.width + q.num.width + q.den.width) + 2 < UNSIGNED_RANGE
  }

  lemma CodeTimesIsTimes(x: Int, y: Int)
    requires InRange(x, y)
    ensures Defined(x, y) && CodeTimes(x, y) == Times(x, y) && Times(x, y).width <= x.width + y.width
  {
    hide Times, CodeTimes;
    InRangeIsExact(x, y);
    ProductWidth(x, y);
  }

  lemma CodeSumIsSum(x: Int, y: Int)
    requires InRange(x, y)
    ensures Defined(x, y) && CodePlus(x, y) == Plus(x, y) && CodeMinus(x, y) == Minus(x, y)
    ensures Plus(x, y).width <= x.width + y.width && Minus(x, y).width <= x.width + y.width
  {
    hide Plus, Minus, CodePlus, CodeMinus;
    InRangeIsExact(x, y);
    SumWidth(x, y);
  }

  /** `lN * rD`, `rN * lD` and `lD * rD` are exact, and so are their sum and difference. */
  lemma CrossProducts(p: Rational, q: Rational)
    requires Small(p, q)
    ensures InRange(p.num, q.den) && InRange(q.num, p.den) && InRange(p.den, q.den)
    ensures InRange(Times(p.num, q.den), Times(q.num, p.den))
    ensures Room(Plus(Times(p.num, q.den), Times(q.num, p.den)), Times(p.den, q.den))
    ensures Room(Minus(Times(p.num, q.den), Times(q.num, p.den)), Times(p.den, q.den))
  {
    hide Times, Plus, Minus;
    ProductWidth(p.num, q.den);
    ProductWidth(q.num, p.den);
    ProductWidth(p.den, q.den);
    SumWidth(Times(p.num, q.den), Times(q.num, p.den));
  }

  lemma NonzeroTimes(x: Int, y: Int)
    requires Signed(x) != 0 && Signed(y) != 0
    ensures Signed(Times(x, y)) != 0
  {
    hide Signed, Times;
    NonzeroProduct(Signed(x), Signed(y));
  }

  /** `+` and `-` of rationals as the code runs them are the exact ones. */
  lemma CodeAddIsAdd(p: Rational, q: Rational)
    requires Signed(p.den) > 0 && Signed(q.den) > 0 && Small(p, q)
    ensures Defined(p.num, q.den) && Defined(q.num, p.den) && Defined(p.den, q.den)
    ensures var l, r, d := CodeTimes(p.num, q.den), CodeTimes(q.num, p.den), CodeTimes(p.den, q.den);
            && Defined(l, r) && Signed(d) != 0 && Room(CodePlus(l, r), d) && Room(CodeMinus(l, r), d)
            && CodeMake(CodePlus(l, r), d) == AddRational(p, q)
            && CodeMake(CodeMinus(l, r), d) == SubRational(p, q)
  {
    hide Signed, Times, CodeTimes, Plus, CodePlus, Minus, CodeMinus, Make, CodeMake;
    CrossProducts(p, q);
    CodeTimesIsTimes(p.num, q.den);
    CodeTimesIsTimes(q.num, p.den);
    CodeTimesIsTimes(p.den, q.den);
    CodeSumIsSum(Times(p.num, q.den), Times(q.num, p.den));
    NonzeroTimes(p.den, q.den);
    CodeMakeIsMake(Plus(Times(p.num, q.den), Times(q.num, p.den)), Times(p.den, q.den));
    CodeMakeIsMake(Minus(Times(p.num, q.den), Times(q.num, p.den)), Times(p.den, q.den));
  }

  /** And so is `*`. */
  lemma CodeMulIsMul(p: Rational, q: Rational)
    requires Signed(p.den) > 0 && Signed(q.den) > 0 && Small(p, q)
    ensures Defined(p.num, q.num) && Defined(p.den, q.den)
    ensures var n, d := CodeTimes(p.num, q.num), CodeTimes(p.den, q.den);
            Signed(d) != 0 && Room(n, d) && CodeMake(n, d) == MulRational(p, q)
  {
    hide Signed, Times, CodeTimes, Make, CodeMake;
    CodeTimesIsTimes(p.num, q.num);
    CodeTimesIsTimes(p.den, q.den);
    NonzeroTimes(p.den, q.den);
    CodeMakeIsMake(Times(p.num, q.num), Times(p.den, q.den));
  }

  /** And `/`. */
  lemma CodeDivIsDiv(p: Rational, q: Rational)
    requires Signed(p.den) > 0 && Signed(q.num) != 0 && Small(p, q)
    ensures Defined(p.num, q.den) && Defined(p.den, q.num)
    ensures var n, d := CodeTimes(p.num, q.den), CodeTimes(p.den, q.num);
            Signed(d) != 0 && Room(n, d) && CodeMake(n, d) == DivRational(p, q)
  {
    hide Signed, Times, CodeTimes, Make, CodeMake;
    CodeTimesIsTimes(p.num, q.den);
    CodeTimesIsTimes(p.den, q.num);
    NonzeroTimes(p.den, q.num);
    CodeMakeIsMake(Times(p.num, q.den), Times(p.den, q.num));
  }

  /** And the cross multiplication that all four comparisons are built from. */
  lemma CodeGreaterIsGreater(p: Rational, q: Rational)
    requires Small(p, q)
    ensures Defined(p.num, q.den) && Defined(p.den, q.num)
    ensures Cmp(CodeTimes(p.num, q.den), CodeTimes(p.den, q.num), Sgt) <==> CmpRational(p, q, Sgt)
  {
    hide Times, CodeTimes, Cmp;
    CodeTimesIsTimes(p.num, q.den);
    CodeTimesIsTimes(p.den, q.num);
  }

  // ---- powers ------------------------------------------------------------------------------------------

  lemma HalvedWidth(x: Int)
    requires Signed(x) >= 0
    ensures Signed(TWO) == 2 && TWO.width == 3 && Divide(x, TWO).width <= x.width
  {
    Literals();
    assert Fits(Signed(Divide(x, TWO)), x.width);
    WidthAtMost(Divide(x, TWO), x.width);
  }

  /** One round spends no more width than the exponent gives. */
  lemma RoundBudget(base: nat, exp: nat, result: nat, budget: nat, base': nat, result': nat)
    requires exp > 0 && result + base * exp <= budget && base' <= 2 * base
    requires result' <= result + (if exp % 2 == 1 then base else 0)
    ensures result' + base' * (exp / 2) <= budget && result + base <= budget
  {
    var m, b := exp / 2, exp % 2;
    assert exp == 2 * m + b;
    MulKeepsOrder(base', 2 * base, m);
    Reassociate(m, 2, base);
    Distribute(2 * m, -b, base);
    Distribute(2 * base, 0, m);
    assert (2 * base) * m == (2 * m) * base;
    MulKeepsOrder(1, exp, base);
    Distribute(exp, 0, base);
    if b == 1 {
      assert b * base == base;
    } else {
      assert b * base == 0;
    }
  }

  /** The loop's variables hold the power `target`, and their widths are within the budget. */
  ghost predicate Holding(result: Int, base: Int, exp: Int, budget: nat, target: int) {
    && Signed(exp) >= 0 && result.width + base.width * Signed(exp) <= budget
    && Signed(result) * Power(Signed(base), Signed(exp)) == target
  }

  lemma HoldingWidths(result: Int, base: Int, exp: Int, budget: nat, target: int)
    requires Holding(result, base, exp, budget, target) && Signed(exp) > 0
    ensures result.width + base.width <= budget
  {
    hide Signed, Power;
    RoundBudget(base.width, Signed(exp), result.width, budget, base.width, result.width);
  }

  lemma RoundHolds(result: Int, base: Int, exp: Int, budget: nat, target: int)
    requires Holding(result, base, exp, budget, target) && Signed(exp) > 0 && Signed(TWO) == 2 && Signed(ONE) == 1
    ensures var result' := if Equal(Modulo(exp, TWO), ONE) then Times(result, base) else result;
            Holding(result', Times(base, base), Divide(exp, TWO), budget, target)
    ensures 0 <= Signed(Divide(exp, TWO)) < Signed(exp)
  {
    hide Signed, Power, Times, Divide, Modulo, Equal;
    SquaringRound(result, base, exp);
    ProductWidth(result, base);
    ProductWidth(base, base);
    var result' := if Equal(Modulo(exp, TWO), ONE) then Times(result, base) else result;
    RoundBudget(base.width, Signed(exp), result.width, budget, Times(base, base).width, result'.width);
  }

  /** One round of the loop. */
  method CodeRound(result: Int, base: Int, exp: Int, ghost budget: nat, ghost target: int)
    returns (result': Int, base': Int, exp': Int)
    requires Holding(result, base, exp, budget, target) && Signed(exp) > 0 && Signed(TWO) == 2 && Signed(ONE) == 1
    requires 2 * budget < UNSIGNED_RANGE && exp.width + 3 < UNSIGNED_RANGE
    ensures Holding(result', base', exp', budget, target)
    ensures 0 <= Signed(exp') < Signed(exp) && exp'.width <= exp.width
  {
    hide Signed, Times, CodeTimes, Divide, CodeDivide, Modulo, Equal;
    RoundHolds(result, base, exp, budget, target);
    HoldingWidths(result, base, exp, budget, target);
    hide Holding;
    HalvedWidth(exp);
    result' := result;
    if Equal(Modulo(exp, TWO), ONE) {
      CodeTimesIsTimes(result, base);
      result' := CodeTimes(result, base);
    }
    InRangeIsExact(exp, TWO);
    exp' := CodeDivide(exp, TWO);
    CodeTimesIsTimes(base, base);
    base' := CodeTimes(base, base);
  }

  /** The widths the loop may spend. */
  function Budget(self: Int, n: nat): (b: nat) {
    self.width * n + 2
  }

  lemma HoldingStarts(self: Int, rhs: Int)
    requires Signed(rhs) >= 0
    ensures Holding(ONE, self, rhs, Budget(self, Signed(rhs)), Power(Signed(self), Signed(rhs)))
  {
    Literals();
    hide Signed, Power;
    PowerStarts(Signed(self), Signed(rhs));
  }

  lemma HoldingEnds(result: Int, base: Int, exp: Int, budget: nat, target: int)
    requires Holding(result, base, exp, budget, target) && Signed(exp) == 0
    ensures Signed(result) == target
  {
    hide Signed;
    PowerStarts(Signed(base), Signed(exp));
  }

  /**
    The squaring loop over the code's operators computes the power while the base's width times the exponent stays in
    range.
   */
  method CodeSquareAndMultiply(self: Int, rhs: Int) returns (result: Int)
    requires Signed(rhs) >= 0 && 2 * Budget(self, Signed(rhs)) < UNSIGNED_RANGE && rhs.width + 3 < UNSIGNED_RANGE
    ensures Signed(result) == Power(Signed(self), Signed(rhs))
  {
    hide *;
    Literals();
    ghost var budget, target := Budget(self, Signed(rhs)), Power(Signed(self), Signed(rhs));
    result := ONE;
    var exp, base := rhs, self;
    HoldingStarts(self, rhs);
    while !Equal(exp, ZERO)
      invariant Holding(result, base, exp, budget, target) && exp.width <= rhs.width && Signed(exp) >= 0
      decreases Signed(exp)
    {
      EqualIsValueEquality(exp, ZERO);
      result, base, exp := CodeRound(result, base, exp, budget, target);
    }
    EqualIsValueEquality(exp, ZERO);
    HoldingEnds(result, base, exp, budget, target);
  }

  lemma PowerStarts(b: int, n: nat)
    ensures 1 * Power(b, n) == Power(b, n) && (n == 0 ==> Power(b, n) == 1)
  {
  }

  /** What one round of the squaring loop does to the values. */
  lemma SquaringRound(result: Int, base: Int, exp: Int)
    requires Signed(exp) > 0 && Signed(TWO) == 2 && Signed(ONE) == 1
    ensures Equal(Modulo(exp, TWO), ONE) <==> Signed(exp) % 2 == 1
    ensures Signed(Divide(exp, TWO)) == Signed(exp) / 2 < Signed(exp)
    ensures var odd := Signed(exp) % 2 == 1;
            Signed(if odd then Times(result, base) else result) * Power(Signed(Times(base, base)), Signed(exp) / 2) ==
            Signed(result) * Power(Signed(base), Signed(exp))
  {
    EqualIsValueEquality(Modulo(exp, TWO), ONE);
    ghost var b, n, r := Signed(base), Signed(exp), Signed(result);
    assert Rem(n, 2) == n % 2 && Quot(n, 2) == n / 2;
    hide Signed, Times, Power;
    PowerRound(b, n);
    Reassociate(r, b, Power(b * b, n / 2));
  }

  /** `exponentiate` over the code's operators. */
  method CodeExponentiate(self: Int, rhs: Int) returns (result: Int)
    requires Signed(self) != 0 || Signed(rhs) >= 0
    requires 2 * Budget(self, Abs(Signed(rhs))) < UNSIGNED_RANGE && rhs.width + 3 < UNSIGNED_RANGE
    ensures Signed(rhs) >= 0 ==> Signed(result) == Power(Signed(self), Signed(rhs))
    ensures Signed(rhs) < 0 ==> var p := Power(Signed(self), -Signed(rhs)); p != 0 && Signed(result) == Quot(1, p)
  {
    Literals();
    CmpIsValueOrder(rhs, ZERO);
    hide Signed, Cmp, Power, Quot, CodeMinus, Minus, Budget;
    if Cmp(rhs, ZERO, Slt) {
      CodeSumIsSum(ZERO, rhs);
      result := NegativePowerOf(self, rhs, CodeMinus(ZERO, rhs));
    } else {
      result := CodeSquareAndMultiply(self, rhs);
    }
  }

  /** The negative case, given the exponent's magnitude. */
  method NegativePowerOf(self: Int, rhs: Int, magnitude: Int) returns (result: Int)
    requires Signed(self) != 0 && Signed(rhs) < 0 && Signed(magnitude) == -Signed(rhs)
    ensures var p := Power(Signed(self), -Signed(rhs)); p != 0 && Signed(result) == Quot(1, p)
  {
    hide Signed, Power, Quot, Logic, Equal;
    Literals();
    ReciprocalOfPower(Signed(self), -Signed(rhs));
    EqualIsValueEquality(self, ONE);
    EqualIsValueEquality(self, MINUS_ONE);
    if Equal(self, ONE) {
      return ONE;
    }
    if Equal(self, MINUS_ONE) {
      ParityIsEven(magnitude);
      return if Equal(Logic(magnitude, ONE, And), ZERO) then ONE else MINUS_ONE;
    }
    return ZERO;
  }
}
