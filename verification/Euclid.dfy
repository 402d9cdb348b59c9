/** The loops of the integers: Euclid's algorithm and exponentiation by squaring. */
module Euclid {
  import opened Arithmetic
  import opened FixedWidth
  import opened IPInt

  ghost function Multiple(a: int, b: int): (c: int) {
    a * b
  }

  ghost predicate Divides(d: int, n: int) {
    exists k :: n == Multiple(k, d)
  }

  /** Euclid's algorithm with the truncating remainder; the result can have either sign. */
  function SignedGcd(a: int, b: int): (g: int)
    decreases Abs(b)
  {
    if b == 0 then a else QuotRem(a, b); SignedGcd(b, Rem(a, b))
  }

  /** Euclid's algorithm on magnitudes, and how many rounds it takes. */
  function PlainGcd(m: nat, n: nat): (g: nat)
    decreases n
  {
    if n == 0 then m else PlainGcd(n, m % n)
  }

  function Rounds(m: nat, n: nat): (k: nat)
    decreases n
  {
    if n == 0 then 0 else 1 + Rounds(n, m % n)
  }

  /**
    The result has the magnitude of the gcd of the magnitudes. It is negative exactly when the first argument is, if the
    magnitudes take an even number of rounds, and exactly when the second is, if they take an odd number.
   */
  lemma {:induction false} GcdSign(a: int, b: int)
    ensures Abs(SignedGcd(a, b)) == PlainGcd(Abs(a), Abs(b))
    ensures SignedGcd(a, b) < 0 <==> if Rounds(Abs(a), Abs(b)) % 2 == 0 then a < 0 else b < 0
    decreases Abs(b)
  {
    if b == 0 {
    } else {
      var r := Rem(a, b);
      QuotRem(a, b);
      RemSign(a, b);
      assert Abs(r) == Abs(a) % Abs(b);
      GcdSign(b, r);
    }
  }

  /** For one, the gcd of -2 and -4 comes out as -2. */
  lemma GcdCanBeNegative()
    ensures SignedGcd(-2, -4) == -2
  {
    assert Quot(-2, -4) == 0 && Quot(-4, -2) == 2;
    assert SignedGcd(-2, 0) == -2;
    assert SignedGcd(-4, -2) == -2;
  }

  lemma CombinationStep(a: int, b: int, q: int, x: int, y: int)
    ensures x * b + y * (a - b * q) == y * a + (x - y * q) * b
  {
    Distribute(x, y * q, b);
    Distribute(a, b * q, y);
    Reassociate(y, b, q);
    Reassociate(y, q, b);
    assert b * q == q * b;
  }

  /** The gcd is a combination of its arguments ... */
  lemma {:induction false} Bezout(a: int, b: int) returns (x: int, y: int)
    ensures x * a + y * b == SignedGcd(a, b)
    decreases Abs(b)
  {
    if b == 0 {
      x, y := 1, 0;
    } else {
      QuotRem(a, b);
      var u, v := Bezout(b, Rem(a, b));
      CombinationStep(a, b, Quot(a, b), u, v);
      x, y := v, u - v * Quot(a, b);
    }
  }

  lemma DividesCombination(d: int, a: int, b: int, x: int, y: int)
    requires Divides(d, a) && Divides(d, b)
    ensures Divides(d, x * a + y * b)
  {
    var j :| a == Multiple(j, d);
    var k :| b == Multiple(k, d);
    Reassociate(x, j, d);
    Reassociate(y, k, d);
    Distribute(x * j, y * k, d);
    assert x * a + y * b == Multiple(x * j + y * k, d);
  }

  /** ... and divides them both. */
  lemma {:induction false} GcdDivides(a: int, b: int)
    ensures Divides(SignedGcd(a, b), a) && Divides(SignedGcd(a, b), b)
    decreases Abs(b)
  {
    var g := SignedGcd(a, b);
    if b == 0 {
      assert a == Multiple(1, g) && b == Multiple(0, g);
    } else {
      QuotRem(a, b);
      var q, r := Quot(a, b), Rem(a, b);
      GcdDivides(b, r);
      DividesCombination(g, b, r, q, 1);
      Distribute(q, 0, b);
    }
  }

  /** So every common divisor divides it, and it is zero only when both arguments are. */
  lemma GcdIsGreatest(a: int, b: int, d: int)
    ensures Divides(d, a) && Divides(d, b) ==> Divides(d, SignedGcd(a, b))
    ensures SignedGcd(a, b) == 0 ==> a == 0 && b == 0
  {
    if Divides(d, a) && Divides(d, b) {
      var x, y := Bezout(a, b);
      DividesCombination(d, a, b, x, y);
    }
    GcdDivides(a, b);
  }

  lemma GcdNonzero(a: int, b: int)
    requires b != 0
    ensures SignedGcd(a, b) != 0
  {
    GcdIsGreatest(a, b, 1);
  }

  /** `IPInt::gcd`. */
  method Gcd(a: Int, b: Int) returns (g: Int)
    ensures Signed(g) == SignedGcd(Signed(a), Signed(b))
  {
    var l, r := a, b;
    Literals();
    while !Equal(r, ZERO)
      invariant SignedGcd(Signed(l), Signed(r)) == SignedGcd(Signed(a), Signed(b))
      decreases Abs(Signed(r))
    {
      EqualIsValueEquality(r, ZERO);
      QuotRem(Signed(l), Signed(r));
      l, r := r, Modulo(l, r);
    }
    EqualIsValueEquality(r, ZERO);
    g := l;
  }

  // ---- exponentiation -----------------------------------------------------------------

  function Power(b: int, n: nat): (p: int) {
    if n == 0 then 1 else b * Power(b, n - 1)
  }

  lemma {:induction false} PowerOfSquare(b: int, n: nat)
    ensures Power(b * b, n) == Power(b, 2 * n)
  {
    if n == 0 {
    } else {
      PowerOfSquare(b, n - 1);
      assert Power(b, 2 * n) == b * Power(b, 2 * n - 1) == b * (b * Power(b, 2 * n - 2));
      Reassociate(b, b, Power(b, 2 * n - 2));
    }
  }

  /** One round of squaring. */
  lemma PowerRound(b: int, n: nat)
    ensures Power(b, n) == (if n % 2 == 1 then b else 1) * Power(b * b, n / 2)
  {
    PowerOfSquare(b, n / 2);
  }

  /** A power is 1, alternates, or grows out of reach. */
  lemma {:induction false} PowerMagnitude(b: int, n: nat)
    ensures b == 1 ==> Power(b, n) == 1
    ensures b == -1 ==> Power(b, n) == if n % 2 == 0 then 1 else -1
    ensures Abs(b) >= 2 && n > 0 ==> Abs(Power(b, n)) >= 2
  {
    if n == 0 {
    } else {
      PowerMagnitude(b, n - 1);
      if Abs(b) >= 2 {
        var p := Power(b, n - 1);
        SignedProduct(b, p);
        SignedProduct(p, Abs(b));
        MulKeepsOrder(1, Abs(p), Abs(b));
      }
    }
  }

  lemma QuotientOfOne(p: int)
    requires p != 0
    ensures Quot(1, p) == if p == 1 then 1 else if p == -1 then -1 else 0
  {
  }

  lemma {:induction false} AndOne(a: nat, w: nat)
    ensures Bitwise(LogicOp(And), a, 0, w) == 0
    ensures w >= 1 ==> Bitwise(LogicOp(And), a, 1, w) == a % 2
  {
    if w == 0 {
    } else {
      AndOne(a / 2, w - 1);
    }
  }

  lemma NonnegativeExtends(v: Int, w: nat)
    requires Signed(v) >= 0 && w >= v.width
    ensures Extended(v, w).bits == Signed(v)
  {
  }

  lemma SmallWord(b: nat, w: nat)
    requires b < 2 <= w
    ensures IsWord(Word(w, b)) && Signed(Word(w, b)) == b
  {
    Pow2Grows(1, w - 1);
  }

  /** The parity test `(v & 1) == 0`. */
  lemma ParityTest(v: Int)
    requires Signed(v) >= 0
    ensures Signed(Logic(v, ONE, And)) == Signed(v) % 2
  {
    var w := Max(v.width, 2);
    Literals();
    NonnegativeExtends(v, w);
    NonnegativeExtends(ONE, w);
    AndOne(Signed(v), w);
    SmallWord(Signed(v) % 2, w);
  }

  /** What the three cases of a negative exponent must give. */
  lemma ReciprocalOfPower(b: int, n: nat)
    requires b != 0 && n > 0
    ensures Power(b, n) != 0
    ensures Quot(1, Power(b, n)) == if b == 1 then 1 else if b == -1 then if n % 2 == 0 then 1 else -1 else 0
  {
    hide Power, Quot;
    PowerMagnitude(b, n);
    QuotientOfOne(Power(b, n));
  }

  lemma ParityIsEven(v: Int)
    requires Signed(v) >= 0
    ensures Equal(Logic(v, ONE, And), ZERO) <==> Signed(v) % 2 == 0
  {
    hide Signed, Logic, Equal;
    Literals();
    ParityTest(v);
    EqualIsValueEquality(Logic(v, ONE, And), ZERO);
  }

  /** A negative exponent: 1, an alternating sign, or 0. */
  method NegativePower(self: Int, rhs: Int) returns (result: Int)
    requires Signed(self) != 0 && Signed(rhs) < 0
    ensures var p := Power(Signed(self), -Signed(rhs)); p != 0 && Signed(result) == Quot(1, p)
  {
    hide Signed, Power, Quot, Logic, Equal;
    Literals();
    ReciprocalOfPower(Signed(self), -Signed(rhs));
    EqualIsValueEquality(self, ONE);
    EqualIsValueEquality(self, MINUS_ONE);
    if Equal(self, ONE) {
      return ONE;
    }
    if Equal(self, MINUS_ONE) {
      var magnitude := Minus(ZERO, rhs);
      ParityIsEven(magnitude);
      return if Equal(Logic(magnitude, ONE, And), ZERO) then ONE else MINUS_ONE;
    }
    return ZERO;
  }

  method SquareAndMultiply(self: Int, rhs: Int) returns (result: Int)
    requires Signed(rhs) >= 0
    ensures Signed(result) == Power(Signed(self), Signed(rhs))
  {
    Literals();
    result := ONE;
    var exp, base := rhs, self;
    while !Equal(exp, ZERO)
      invariant Signed(exp) >= 0
      invariant Signed(result) * Power(Signed(base), Signed(exp)) == Power(Signed(self), Signed(rhs))
      decreases Signed(exp)
    {
      EqualIsValueEquality(exp, ZERO);
      EqualIsValueEquality(Modulo(exp, TWO), ONE);
      PowerRound(Signed(base), Signed(exp));
      Reassociate(Signed(result), Signed(base), Power(Signed(base) * Signed(base), Signed(exp) / 2));
      if Equal(Modulo(exp, TWO), ONE) {
        result := Times(result, base);
      }
      exp := Divide(exp, TWO);
      base := Times(base, base);
    }
    EqualIsValueEquality(exp, ZERO);
  }

  /**
    `IPInt::exponentiate`: the power for a nonnegative exponent, and for a negative one the
    reciprocal of the power rounded toward zero.
   */
  method Exponentiate(self: Int, rhs: Int) returns (result: Int)
    requires Signed(self) != 0 || Signed(rhs) >= 0
    ensures Signed(rhs) >= 0 ==> Signed(result) == Power(Signed(self), Signed(rhs))
    ensures Signed(rhs) < 0 ==> var p := Power(Signed(self), -Signed(rhs)); p != 0 && Signed(result) == Quot(1, p)
  {
    Literals();
    CmpIsValueOrder(rhs, ZERO);
    if Cmp(rhs, ZERO, Slt) {
      result := NegativePower(self, rhs);
    } else {
      result := SquareAndMultiply(self, rhs);
    }
  }
}
