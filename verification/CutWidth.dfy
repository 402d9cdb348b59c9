/** Sum, difference, product and quotient as the code runs them: at a width that is cut to 32 bits. */
module CutWidth {
  import opened Arithmetic
  import opened FixedWidth
  import opened IPInt

  /** The word operations need a width. */
  predicate Defined(l: Int, r: Int) {
    WidthUse(l, r, Add) > 0
  }

  predicate InRange(l: Int, r: Int) {
    l.width + r.width < UNSIGNED_RANGE
  }

  /** What is left of an operand at the working width. */
  function Left(a: Int, l: Int, r: Int): (w: APInt)
    requires Defined(l, r)
    ensures w.width == WidthUse(l, r, Add)
  {
    Extended(a, WidthUse(l, r, Add))
  }

  function CodePlus(l: Int, r: Int): (res: Int)
    requires Defined(l, r)
  {
    Trim(AddSat(Left(l, l, r), Left(r, l, r)))
  }

  function CodeMinus(l: Int, r: Int): (res: Int)
    requires Defined(l, r)
  {
    Trim(SubSat(Left(l, l, r), Left(r, l, r)))
  }

  function CodeTimes(l: Int, r: Int): (res: Int)
    requires Defined(l, r)
  {
    Trim(MulSat(Left(l, l, r), Left(r, l, r)))
  }

  /** Division is defined if something is left of the divisor. */
  function CodeDivide(l: Int, r: Int): (res: Int)
    requires Defined(l, r) && Signed(Left(r, l, r)) != 0
  {
    Trim(SDiv(Left(l, l, r), Left(r, l, r)))
  }

  /** In the range of `unsigned` the code computes the exact operators. */
  lemma InRangeIsExact(l: Int, r: Int)
    requires InRange(l, r)
    ensures Defined(l, r)
    ensures CodePlus(l, r) == Plus(l, r) && CodeMinus(l, r) == Minus(l, r) && CodeTimes(l, r) == Times(l, r)
    ensures Signed(r) != 0 ==> Signed(Left(r, l, r)) != 0 && CodeDivide(l, r) == Divide(l, r)
  {
    hide Signed, AddSat, SubSat, MulSat, SDiv, Trim, Extended;
    assert WidthUse(l, r, Add) == l.width + r.width;
  }

  // ---- beyond the range --------------------------------------------------------------------------

  lemma WrapIsCongruent(v: int, w: nat) returns (k: int)
    requires w >= 1
    ensures Signed(Wrap(v, w)) == v + k * Pow2(w)
  {
    var m, q, b := Pow2(w), v / Pow2(w), v % Pow2(w);
    assert v == q * m + b;
    k := if b < Half(w) then -q else -q - 1;
    Negated(q, m);
    Distribute(-q, 1, m);
  }

  lemma Negated(q: int, m: int)
    ensures -q * m == -(q * m)
  {
  }

  /** Cutting a number to a width keeps it modulo that power of two. */
  lemma LeftIsCongruent(a: Int, w: nat) returns (k: int)
    requires w >= 1
    ensures Signed(Extended(a, w)) == Signed(a) + k * Pow2(w)
  {
    hide Signed, Wrap;
    if w < a.width {
      TruncateIsWrap(a, w);
      k := WrapIsCongruent(Signed(a), w);
    } else {
      k := 0;
    }
  }

  /** A saturated sum of what is left is the true sum if and only if both fit. */
  lemma SaturatedIsTrue(sum: int, truth: int, w: nat, k: int)
    requires w >= 1 && sum == truth + k * Pow2(w) && -(Pow2(w) as int) <= sum < Pow2(w)
    ensures Clamp(sum, w) == truth <==> Fits(truth, w) && Fits(sum, w)
  {
    MultipleIsFar(k, Pow2(w));
  }

  lemma ClampedWord(v: int, w: nat)
    requires w >= 1
    ensures Signed(Wrap(Clamp(v, w), w)) == Clamp(v, w)
  {
    WrapExact(Clamp(v, w), w);
  }

  lemma LeftBounds(a: APInt)
    ensures -(Half(a.width) as int) <= Signed(a) < Half(a.width) && Pow2(a.width) == 2 * Half(a.width)
  {
  }

  /** Sums are exact if and only if the true sum, and the sum of what is left of the operands, fit in the cut width. */
  lemma CodePlusExactIff(l: Int, r: Int)
    requires Defined(l, r)
    ensures var w := WidthUse(l, r, Add);
            Signed(CodePlus(l, r)) == Signed(l) + Signed(r) <==>
            Fits(Signed(l) + Signed(r), w) && Fits(Signed(Left(l, l, r)) + Signed(Left(r, l, r)), w)
  {
    hide Signed, Fits, Clamp, Wrap;
    var w, a, b := WidthUse(l, r, Add), Left(l, l, r), Left(r, l, r);
    var j := LeftIsCongruent(l, w);
    var k := LeftIsCongruent(r, w);
    Distribute(j, k, Pow2(w));
    LeftBounds(a);
    LeftBounds(b);
    SaturatedIsTrue(Signed(a) + Signed(b), Signed(l) + Signed(r), w, j + k);
    ClampedWord(Signed(a) + Signed(b), w);
  }

  /** The same for differences. */
  lemma CodeMinusExactIff(l: Int, r: Int)
    requires Defined(l, r)
    ensures var w := WidthUse(l, r, Add);
            Signed(CodeMinus(l, r)) == Signed(l) - Signed(r) <==>
            Fits(Signed(l) - Signed(r), w) && Fits(Signed(Left(l, l, r)) - Signed(Left(r, l, r)), w)
  {
    hide Signed, Fits, Clamp, Wrap;
    var w, a, b := WidthUse(l, r, Add), Left(l, l, r), Left(r, l, r);
    var j := LeftIsCongruent(l, w);
    var k := LeftIsCongruent(r, w);
    Distribute(j, k, Pow2(w));
    LeftBounds(a);
    LeftBounds(b);
    SaturatedIsTrue(Signed(a) - Signed(b), Signed(l) - Signed(r), w, j - k);
    ClampedWord(Signed(a) - Signed(b), w);
  }

  // ---- products ---------------------------------------------------------------------------------

  /** A nonzero number of minimum width is at least this large. */
  function Least(width: nat): (n: nat) {
    if width >= 2 then width - 2 else 0
  }

  lemma AtLeast(a: Int)
    requires Signed(a) != 0
    ensures Abs(Signed(a)) >= Pow2(Least(a.width))
  {
    if a.width >= 2 {
      assert !Fits(Signed(a), a.width - 1);
    }
  }

  lemma LargeProduct(a: int, b: int, p: nat, q: nat)
    requires Abs(a) >= p && Abs(b) >= q
    ensures Abs(a * b) >= p * q
  {
    SignedProduct(b, a);
    SignedProduct(a, Abs(b));
    MulKeepsOrder(p, Abs(a), Abs(b));
    MulKeepsOrder(q, Abs(b), p);
    Distribute(Abs(a), 0, Abs(b));
    Distribute(p, 0, Abs(b));
    Distribute(p, 0, q);
  }

  /** A product of nonzero numbers needs nearly the sum of the widths. */
  lemma ProductNeeds(l: Int, r: Int, w: nat)
    requires Signed(l) != 0 && Signed(r) != 0 && w >= 1 && w + 4 <= l.width + r.width
    ensures !Fits(Signed(l) * Signed(r), w)
  {
    hide Signed;
    var n, m := Least(l.width), Least(r.width);
    AtLeast(l);
    AtLeast(r);
    LargeProduct(Signed(l), Signed(r), Pow2(n), Pow2(m));
    Pow2Adds(n, m);
    Pow2Grows(w - 1, n + m - 1);
  }

  lemma ZeroLeft(a: Int, w: nat)
    requires w >= 1 && Signed(a) == 0
    ensures Signed(Extended(a, w)) == 0
  {
    if w < a.width {
      TruncateIsWrap(a, w);
      WrapExact(0, w);
    }
  }

  /** Products are exact if and only if the widths stay in range or a factor is zero. */
  lemma CodeTimesExactIff(l: Int, r: Int)
    requires Defined(l, r)
    ensures Signed(CodeTimes(l, r)) == Signed(l) * Signed(r) <==> InRange(l, r) || Signed(l) == 0 || Signed(r) == 0
  {
    hide Signed, Fits;
    var w := WidthUse(l, r, Add);
    if InRange(l, r) {
      InRangeIsExact(l, r);
    } else if Signed(l) == 0 || Signed(r) == 0 {
      ZeroProduct(l, r);
    } else {
      ProductNeeds(l, r, w);
    }
  }

  lemma ZeroProduct(l: Int, r: Int)
    requires Defined(l, r) && (Signed(l) == 0 || Signed(r) == 0)
    ensures Signed(CodeTimes(l, r)) == 0 == Signed(l) * Signed(r)
  {
    hide Signed;
    var w := WidthUse(l, r, Add);
    if Signed(l) == 0 {
      ZeroLeft(l, w);
    } else {
      ZeroLeft(r, w);
    }
    assert Signed(Left(l, l, r)) * Signed(Left(r, l, r)) == 0;
    WrapExact(0, w);
  }

  // ---- quotients --------------------------------------------------------------------------------

  /** `q` is `a / b` rounded toward zero, said by the remainder it leaves: smaller than `b`, and of the sign of `a`. */
  predicate IsQuotient(a: int, b: int, q: int) {
    var r := a - b * q;
    Abs(r) < Abs(b) && (r == 0 || (r < 0 <==> a < 0))
  }

  lemma QuotientIsUnique(a: int, b: int, q: int)
    requires b != 0
    ensures IsQuotient(a, b, q) <==> q == Quot(a, b)
  {
    var r, r' := a - b * q, Rem(a, b);
    QuotRem(a, b);
    RemSign(a, b);
    hide Quot;
    var p := Quot(a, b);
    Distribute(q, p, b);
    assert r' - r == (q - p) * b;
    FarMultiple(q - p, b);
  }

  lemma FarMultiple(k: int, b: int)
    requires b != 0
    ensures k != 0 ==> Abs(k * b) >= Abs(b)
  {
    SignedProduct(b, k);
    MultipleIsFar(k, Abs(b));
    Distribute(k, 0, b);
  }

  /** The one quotient that does not fit: the least number of the width by minus one. */
  lemma OnlyOverflow(a: int, b: int, w: nat)
    requires w >= 1 && b != 0 && Fits(a, w)
    ensures !Fits(Quot(a, b), w) <==> a == -(Half(w) as int) && b == -1
    ensures !Fits(Quot(a, b), w) ==> Quot(a, b) == Half(w)
  {
    QuotRem(a, b);
  }

  lemma WrappedHalf(w: nat)
    requires w >= 1
    ensures Signed(Wrap(Half(w), w)) == -(Half(w) as int)
  {
    ModuloUnique(Half(w), 0, Half(w), Pow2(w));
  }

  /**
    Quotients are exact if and only if the true quotient also divides what is left of the operands, and fits; or it is
    the least number of the cut width and what is left overflows to that.
   */
  lemma CodeDivideExactIff(l: Int, r: Int)
    requires Defined(l, r) && Signed(r) != 0 && Signed(Left(r, l, r)) != 0
    ensures var w, a, b := WidthUse(l, r, Add), Signed(Left(l, l, r)), Signed(Left(r, l, r));
            var q, least := Quot(Signed(l), Signed(r)), -(Half(w) as int);
            Signed(CodeDivide(l, r)) == q <==>
            (IsQuotient(a, b, q) && Fits(q, w)) || (a == q == least && b == -1)
  {
    var w, a, b := WidthUse(l, r, Add), Signed(Left(l, l, r)), Signed(Left(r, l, r));
    var q := Quot(Signed(l), Signed(r));
    assert Fits(a, w);
    hide Signed, Quot, IsQuotient, Fits;
    QuotientIsUnique(a, b, q);
    OnlyOverflow(a, b, w);
    if Fits(Quot(a, b), w) {
      WrapExact(Quot(a, b), w);
    } else {
      WrappedHalf(w);
    }
  }

  lemma ZeroIsQuotient(a: int, b: int)
    ensures IsQuotient(a, b, 0) <==> Abs(a) < Abs(b)
  {
    Distribute(b, 0, 0);
  }

  lemma ZeroFits(w: nat)
    requires w >= 1
    ensures Fits(0, w) && -(Half(w) as int) != 0
  {
  }

  /**
    So a quotient that should be zero is exact if and only if what is left of the dividend is still smaller than what is
    left of the divisor.
   */
  lemma ZeroQuotientExactIff(l: Int, r: Int)
    requires Defined(l, r) && Signed(Left(r, l, r)) != 0 && Abs(Signed(l)) < Abs(Signed(r))
    ensures Signed(CodeDivide(l, r)) == Quot(Signed(l), Signed(r)) <==>
            Abs(Signed(Left(l, l, r))) < Abs(Signed(Left(r, l, r)))
  {
    assert WidthUse(l, r, Add) >= 1 && Signed(r) != 0;
    hide Signed, CodeDivide, Left, Quot, IsQuotient, Fits, Half, WidthUse;
    CodeDivideExactIff(l, r);
    QuotientIsUnique(Signed(l), Signed(r), 0);
    ZeroIsQuotient(Signed(l), Signed(r));
    ZeroIsQuotient(Signed(Left(l, l, r)), Signed(Left(r, l, r)));
    ZeroFits(WidthUse(l, r, Add));
  }

  // ---- operands of 2^31 bits -----------------------------------------------------------------------

  /** The integer 2^n + c, whose width is n + 2; only c is left of it at width 4. */
  lemma BigNumber(n: nat, c: nat) returns (x: Int)
    requires n >= 4 && c < 8
    ensures Signed(x) == Pow2(n) + c && x.width == n + 2
    ensures Signed(Extended(x, 4)) == c
  {
    hide Signed;
    BigWidth(n, c);
    x := FromInt(Pow2(n) + c);
    WidthIs(x, n + 2);
    LeftAtFour(x, n, c);
  }

  lemma BigWidth(n: nat, c: nat)
    requires n >= 4 && c < 8
    ensures Fits(Pow2(n) + c, n + 2) && !Fits(Pow2(n) + c, n + 1)
  {
    Pow2Grows(4, n);
    assert Pow2(4) == 16;
    assert Half(n + 1) == Pow2(n) && Half(n + 2) == 2 * Pow2(n);
  }

  lemma LeftAtFour(x: Int, n: nat, c: nat)
    requires n >= 4 && c < 8 && Signed(x) == Pow2(n) + c && x.width == n + 2
    ensures Signed(Extended(x, 4)) == c
  {
    hide Signed;
    TruncateIsWrap(x, 4);
    LowPart(n, c);
    SmallWrap(Pow2(n) + c, c);
  }

  lemma SmallWrap(v: int, c: nat)
    requires v % 16 == c < 8
    ensures Signed(Wrap(v, 4)) == c
  {
    assert Pow2(4) == 16 && Half(4) == 8;
  }

  lemma WidthIs(x: Int, w: nat)
    requires w >= 2 && Fits(Signed(x), w) && !Fits(Signed(x), w - 1)
    ensures x.width == w
  {
    if x.width < w {
      FitsWider(Signed(x), x.width, w - 1);
    } else if x.width > w {
      FitsWider(Signed(x), w, x.width - 1);
    }
  }

  lemma LowPart(n: nat, c: nat)
    requires n >= 4 && c < 16
    ensures (Pow2(n) + c) % 16 == c
  {
    Pow2Adds(4, n - 4);
    assert Pow2(4) == 16;
    ModuloUnique(Pow2(n) + c, Pow2(n - 4), c, 16);
  }

  /** The sum of 2^n and itself comes out as 0 when n is 2^31: the width sum wraps around to 4. */
  lemma LargeSumIsWrong(n: nat) returns (x: Int)
    requires 2 * n == UNSIGNED_RANGE
    ensures Signed(x) == Pow2(n) && Defined(x, x) && Signed(CodePlus(x, x)) == 0 != Signed(x) + Signed(x)
  {
    x := BigNumber(n, 0);
    CutToFour(x, x);
    hide Signed;
    WrapExact(0, 4);
    assert Clamp(0, 4) == 0;
  }

  lemma CutToFour(l: Int, r: Int)
    requires l.width + r.width == UNSIGNED_RANGE + 4
    ensures Defined(l, r) && WidthUse(l, r, Add) == 4
  {
    ModuloUnique(l.width + r.width, 1, 4, UNSIGNED_RANGE);
  }

  /** Division goes wrong too: by 2^n nothing is left to divide by, and (2^n + 4) / (2^n + 1) comes out as 4. */
  lemma LargeQuotientIsWrong(n: nat) returns (x: Int, y: Int, z: Int)
    requires 2 * n == UNSIGNED_RANGE
    ensures Signed(x) == Pow2(n) && Defined(x, x) && Signed(Left(x, x, x)) == 0
    ensures Signed(y) == Pow2(n) + 4 && Signed(z) == Pow2(n) + 1 && Defined(y, z) && Signed(Left(z, y, z)) != 0
    ensures Signed(CodeDivide(y, z)) == 4 && Quot(Signed(y), Signed(z)) == 1
  {
    x := BigNumber(n, 0);
    y := BigNumber(n, 4);
    z := BigNumber(n, 1);
    CutToFour(x, x);
    CutToFour(y, z);
    Pow2Grows(4, n);
    hide Signed;
    assert Pow2(4) == 16 && Quot(4, 1) == 4;
    WrapExact(4, 4);
    QuotientIsOne(Pow2(n) + 4, Pow2(n) + 1);
  }

  lemma QuotientIsOne(a: nat, b: nat)
    requires b <= a < 2 * b
    ensures Quot(a, b) == 1
  {
    ModuloUnique(a, 1, a - b, b);
  }
}
