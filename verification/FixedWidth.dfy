/** Two's complement words of any width: the parts of `llvm::APInt` that the integers are built on. */
module FixedWidth {
  import opened Arithmetic

  /** `bits` is the unsigned reading of a word of `width` bits. */
  datatype Word = Word(width: nat, bits: nat)

  ghost predicate IsWord(a: Word) {
    a.width >= 1 && a.bits < Pow2(a.width)
  }

  type APInt = a: Word | IsWord(a) ghost witness Word(1, 0)

  function Half(width: nat): (p: nat)
    requires width >= 1
    ensures p >= 1 && 2 * p == Pow2(width)
  {
    Pow2(width - 1)
  }

  predicate Fits(v: int, width: nat)
    requires width >= 1
  {
    -(Half(width) as int) <= v < Half(width)
  }

  function Signed(a: APInt): (v: int)
    ensures Fits(v, a.width)
  {
    if a.bits < Half(a.width) then a.bits else a.bits - Pow2(a.width)
  }

  /** The word congruent to `v`. */
  function Wrap(v: int, width: nat): (a: APInt)
    requires width >= 1
    ensures a.width == width
  {
    Word(width, v % Pow2(width))
  }

  lemma FitsWider(v: int, w: nat, w': nat)
    requires 1 <= w <= w' && Fits(v, w)
    ensures Fits(v, w')
  {
    Pow2Grows(w - 1, w' - 1);
  }

  lemma WrapExact(v: int, width: nat)
    requires width >= 1 && Fits(v, width)
    ensures Signed(Wrap(v, width)) == v
  {
    var m := Pow2(width);
    if v >= 0 {
      ModuloUnique(v, 0, v, m);
    } else {
      ModuloUnique(v, -1, v + m, m);
    }
  }

  lemma WordUnique(a: APInt, b: APInt)
    requires a.width == b.width && Signed(a) == Signed(b)
    ensures a == b
  {
  }

  function SignExtend(a: APInt, width: nat): (r: APInt)
    requires width >= a.width
  {
    Pow2Grows(a.width, width);
    Word(width, if a.bits < Half(a.width) then a.bits else a.bits + (Pow2(width) - Pow2(a.width)))
  }

  lemma SignExtendExact(a: APInt, width: nat)
    requires width >= a.width
    ensures Signed(SignExtend(a, width)) == Signed(a)
  {
    Pow2Grows(a.width - 1, width - 1);
  }

  function Truncate(a: APInt, width: nat): (r: APInt)
    requires 1 <= width <= a.width
  {
    Word(width, a.bits % Pow2(width))
  }

  lemma TruncateIsWrap(a: APInt, width: nat)
    requires 1 <= width <= a.width
    ensures Truncate(a, width) == Wrap(Signed(a), width)
  {
    var m, k := Pow2(width), Pow2(a.width - width);
    Pow2Adds(width, a.width - width);
    Distribute(a.bits / m, k, m);
    ModuloUnique(a.bits - Pow2(a.width), a.bits / m - k, a.bits % m, m);
  }

  function SextOrTrunc(a: APInt, width: nat): (r: APInt)
    requires width >= 1
    ensures r.width == width
  {
    if width >= a.width then SignExtend(a, width) else Truncate(a, width)
  }

  /** Fewest bits that represent `v`, given that `width` bits do. */
  function SignificantBits(v: int, width: nat): (w: nat)
    requires width >= 1 && Fits(v, width)
    ensures 1 <= w <= width && Fits(v, w)
    ensures forall u | 1 <= u < w :: !Fits(v, u)
  {
    if width > 1 && Fits(v, width - 1) then SignificantBits(v, width - 1)
    else
      assert forall u | 1 <= u < width :: !Fits(v, u) by {
        forall u | 1 <= u < width ensures !Fits(v, u) {
          if Fits(v, u) { FitsWider(v, u, width - 1); }
        }
      }
      width
  }

  // ---- arithmetic at a fixed width ---------------------------------------------------

  function Clamp(v: int, width: nat): (r: int)
    requires width >= 1
    ensures Fits(r, width)
  {
    if v < -(Half(width) as int) then -(Half(width) as int) else if v >= Half(width) then Half(width) - 1 else v
  }

  /** Division rounding toward zero, and its remainder. */
  function Quot(a: int, b: int): (q: int)
    requires b != 0
  {
    if (a < 0) == (b < 0) then Abs(a) / Abs(b) else -(Abs(a) / Abs(b))
  }

  function Rem(a: int, b: int): (r: int)
    requires b != 0
  {
    a - b * Quot(a, b)
  }

  lemma Scaled(q: nat, n: nat)
    requires n > 0
    ensures q <= q * n && (n >= 2 ==> 2 * q <= q * n)
  {
    MulKeepsOrder(1, n, q);
    if n >= 2 {
      MulKeepsOrder(2, n, q);
    }
  }

  lemma Magnitudes(m: nat, n: nat)
    requires n > 0
    ensures m / n * n + m % n == m && m / n <= m && m % n <= m
    ensures n >= 2 ==> 2 * (m / n) <= m
  {
    Scaled(m / n, n);
  }

  lemma SignedProduct(b: int, q: int)
    ensures b * -q == -(b * q)
    ensures b * q == if b < 0 then -(q * Abs(b)) else q * Abs(b)
  {
  }

  /** The remainder is that of the magnitudes, with the sign of the dividend. */
  lemma RemSign(a: int, b: int)
    requires b != 0
    ensures Rem(a, b) == if a < 0 then -(Abs(a) % Abs(b)) else Abs(a) % Abs(b)
  {
    Magnitudes(Abs(a), Abs(b));
    SignedProduct(b, Abs(a) / Abs(b));
  }

  lemma QuotRem(a: int, b: int)
    requires b != 0
    ensures Abs(Rem(a, b)) < Abs(b) && Abs(Rem(a, b)) <= Abs(a)
    ensures Abs(Quot(a, b)) <= Abs(a)
    ensures Abs(b) >= 2 ==> 2 * Abs(Quot(a, b)) <= Abs(a)
  {
    hide Rem;
    Magnitudes(Abs(a), Abs(b));
    RemSign(a, b);
  }

  function AddSat(a: APInt, b: APInt): (r: APInt)
    requires a.width == b.width
  {
    Wrap(Clamp(Signed(a) + Signed(b), a.width), a.width)
  }

  function SubSat(a: APInt, b: APInt): (r: APInt)
    requires a.width == b.width
  {
    Wrap(Clamp(Signed(a) - Signed(b), a.width), a.width)
  }

  function MulSat(a: APInt, b: APInt): (r: APInt)
    requires a.width == b.width
  {
    Wrap(Clamp(Signed(a) * Signed(b), a.width), a.width)
  }

  /** Saturating operations are exact when the true result fits. */
  lemma SaturationIdle(a: APInt, b: APInt)
    requires a.width == b.width
    ensures Fits(Signed(a) + Signed(b), a.width) ==> Signed(AddSat(a, b)) == Signed(a) + Signed(b)
    ensures Fits(Signed(a) - Signed(b), a.width) ==> Signed(SubSat(a, b)) == Signed(a) - Signed(b)
  {
    WrapExact(Clamp(Signed(a) + Signed(b), a.width), a.width);
    WrapExact(Clamp(Signed(a) - Signed(b), a.width), a.width);
  }

  lemma SaturationIdleMul(a: APInt, b: APInt)
    requires a.width == b.width && Fits(Signed(a) * Signed(b), a.width)
    ensures Signed(MulSat(a, b)) == Signed(a) * Signed(b)
  {
    WrapExact(Signed(a) * Signed(b), a.width);
  }

  function SDiv(a: APInt, b: APInt): (r: APInt)
    requires a.width == b.width && Signed(b) != 0
  {
    Wrap(Quot(Signed(a), Signed(b)), a.width)
  }

  function SRem(a: APInt, b: APInt): (r: APInt)
    requires a.width == b.width && Signed(b) != 0
  {
    Wrap(Rem(Signed(a), Signed(b)), a.width)
  }

  /** Shifts read the amount unsigned and stop at the width. */
  function Shl(a: APInt, amount: APInt): (r: APInt)
    requires a.width == amount.width
  {
    Wrap(a.bits * Pow2(Min(amount.bits, a.width)), a.width)
  }

  function AShr(a: APInt, amount: APInt): (r: APInt)
    requires a.width == amount.width
  {
    Wrap(Signed(a) / Pow2(Min(amount.bits, a.width)), a.width)
  }

  // ---- bits ---------------------------------------------------------------------------

  /** Bit `k` of an integer in infinite two's complement. */
  predicate BitOf(v: int, k: nat)
    decreases k
  {
    if k == 0 then v % 2 == 1 else BitOf(v / 2, k - 1)
  }

  function Bitwise(f: (bool, bool) -> bool, a: nat, b: nat, width: nat): (r: nat)
    ensures r < Pow2(width)
  {
    if width == 0 then 0
    else (if f(a % 2 == 1, b % 2 == 1) then 1 else 0) + 2 * Bitwise(f, a / 2, b / 2, width - 1)
  }

  lemma {:induction false} BitwiseBit(f: (bool, bool) -> bool, a: nat, b: nat, width: nat, k: nat)
    requires k < width
    ensures BitOf(Bitwise(f, a, b, width), k) == f(BitOf(a, k), BitOf(b, k))
  {
    if k == 0 {
    } else {
      BitwiseBit(f, a / 2, b / 2, width - 1, k - 1);
    }
  }

  /** Subtracting a higher power of two leaves the lower bits alone. */
  lemma {:induction false} LowBits(v: int, width: nat, k: nat)
    requires k < width
    ensures BitOf(v - Pow2(width), k) == BitOf(v, k)
    decreases k
  {
    if k == 0 {
    } else {
      assert (v - Pow2(width)) / 2 == v / 2 - Pow2(width - 1);
      LowBits(v / 2, width - 1, k - 1);
    }
  }

  /** Beyond its magnitude a number only repeats its sign. */
  lemma {:induction false} HighBits(v: int, k: nat)
    requires -(Pow2(k) as int) <= v < Pow2(k)
    ensures BitOf(v, k) <==> v < 0
    decreases k
  {
    if k == 0 {
    } else {
      HighBits(v / 2, k - 1);
    }
  }

  /** The bits of a word are the low bits of its signed value, which repeats its top bit forever. */
  lemma SignedBit(a: APInt, k: nat)
    ensures k < a.width ==> BitOf(Signed(a), k) == BitOf(a.bits, k)
    ensures k >= a.width ==> BitOf(Signed(a), k) == BitOf(a.bits, a.width - 1)
  {
    if k < a.width {
      LowBits(a.bits, a.width, k);
    } else {
      Pow2Grows(a.width, k);
      HighBits(Signed(a), k);
      HighBits(Signed(a), a.width - 1);
      LowBits(a.bits, a.width, a.width - 1);
    }
  }

  lemma BothHalves(y: nat, low: nat, high: nat)
    requires y == low + 2 * high && low < 2
    ensures y / 2 == high && y % 2 == low
  {
  }

  /** Reducing modulo a power of two keeps the lower bits. */
  lemma {:induction false} ModuloBits(x: nat, width: nat, k: nat)
    requires k < width
    ensures BitOf(x % Pow2(width), k) == BitOf(x, k)
    decreases k
  {
    var half := Pow2(width - 1);
    HalvedModulo(x, half);
    BothHalves(x % Pow2(width), x % 2, (x / 2) % half);
    if k == 0 {
    } else {
      ModuloBits(x / 2, width - 1, k - 1);
    }
  }

  lemma DivideTwice(v: int, p: nat)
    requires p > 0
    ensures v / (2 * p) == (v / 2) / p
  {
    var q, r := (v / 2) / p, (v / 2) % p;
    assert v == (v % 2 + 2 * r) + q * (2 * p);
    ModuloUnique(v, q, v % 2 + 2 * r, 2 * p);
  }

  /** Floor division by a power of two drops the lower bits. */
  lemma {:induction false} QuotientBits(v: int, n: nat, i: nat)
    ensures BitOf(v / Pow2(n), i) == BitOf(v, n + i)
    decreases n
  {
    if n == 0 {
      assert Pow2(n) == 1;
    } else {
      DivideTwice(v, Pow2(n - 1));
      QuotientBits(v / 2, n - 1, i);
    }
  }

  /** Different integers differ in some bit. */
  lemma {:induction false} SomeBitDiffers(u: int, v: int) returns (k: nat)
    requires u != v
    ensures BitOf(u, k) != BitOf(v, k)
    decreases Abs(u) + Abs(v)
  {
    if u % 2 != v % 2 {
      k := 0;
    } else {
      k := SomeBitDiffers(u / 2, v / 2);
      k := k + 1;
    }
  }
}
