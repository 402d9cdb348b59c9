/** Infinite-precision integers: words kept at their minimum width. */
module IPInt {
  import opened Arithmetic
  import opened FixedWidth

  ghost predicate Minimal(a: APInt) {
    a.width == 1 || !Fits(Signed(a), a.width - 1)
  }

  type Int = a: APInt | Minimal(a) ghost witness Word(1, 0)

  datatype BinOp = Add | Sub | Mul | Div | Mod | Lshift | Rshift | And | Or | Xor
  datatype CmpOp = Sgt | Sge | Slt | Sle

  /** The constructor from a word: trim to the significant bits. */
  function Trim(a: APInt): (r: Int)
    ensures Signed(r) == Signed(a)
  {
    var w := SignificantBits(Signed(a), a.width);
    TruncateIsWrap(a, w);
    WrapExact(Signed(a), w);
    Truncate(a, w)
  }

  lemma FitsSomeWidth(v: int)
    ensures Fits(v, Abs(v) + 1)
  {
    Pow2Exceeds(Abs(v));
  }

  /** The integer with value `v`. */
  function FromInt(v: int): (r: Int)
    ensures Signed(r) == v
  {
    FitsSomeWidth(v);
    WrapExact(v, Abs(v) + 1);
    Trim(Wrap(v, Abs(v) + 1))
  }

  const ZERO: Int := Word(1, 0)
  const ONE: Int := Word(2, 1)
  const TWO: Int := Word(3, 2)
  const MINUS_ONE: Int := Word(1, 1)

  lemma Literals()
    ensures Signed(ZERO) == 0 && Signed(ONE) == 1 && Signed(TWO) == 2 && Signed(MINUS_ONE) == -1
  {
  }

  /** The constructor from `uint64_t` goes through a signed 64-bit reading. */
  function FromUint64(u: nat): (r: Int)
    requires u < Pow2(64)
  {
    Trim(Word(64, u))
  }

  /** So it keeps the value exactly up to 2^63 - 1. */
  lemma FromUint64Exact(u: nat)
    requires u < Pow2(64)
    ensures Signed(FromUint64(u)) == u <==> u < Pow2(63)
  {
  }

  /** `operator==`: same width and same bits. */
  predicate Equal(l: Int, r: Int) {
    l.width == r.width && l.bits == r.bits
  }

  /** Structural equality is equality of values, because there is one minimum width per value. */
  lemma EqualIsValueEquality(l: Int, r: Int)
    ensures Equal(l, r) <==> Signed(l) == Signed(r)
    ensures Equal(l, r) <==> l == r
  {
    if Signed(l) == Signed(r) {
      if l.width < r.width {
        FitsWider(Signed(l), l.width, r.width - 1);
      } else if r.width < l.width {
        FitsWider(Signed(r), r.width, l.width - 1);
      } else {
        WordUnique(l, r);
      }
    }
  }

  function Cmp(l: Int, r: Int, op: CmpOp): (b: bool) {
    var w := Max(l.width, r.width);
    var lExt, rExt := SignExtend(l, w), SignExtend(r, w);
    match op
    case Sgt => Signed(lExt) > Signed(rExt)
    case Sge => Signed(lExt) >= Signed(rExt)
    case Slt => Signed(lExt) < Signed(rExt)
    case Sle => Signed(lExt) <= Signed(rExt)
  }

  lemma CmpIsValueOrder(l: Int, r: Int)
    ensures Cmp(l, r, Sgt) <==> Signed(l) > Signed(r)
    ensures Cmp(l, r, Sge) <==> Signed(l) >= Signed(r)
    ensures Cmp(l, r, Slt) <==> Signed(l) < Signed(r)
    ensures Cmp(l, r, Sle) <==> Signed(l) <= Signed(r)
  {
    SignExtendExact(l, Max(l.width, r.width));
    SignExtendExact(r, Max(l.width, r.width));
  }

  // ---- binary operators -----------------------------------------------------------------

  /** `unsigned` is 32 bits wide; the shift amount reaches `widthUse` through a 64-bit sum. */
  const UNSIGNED_RANGE: nat := 0x1_0000_0000
  const UINT64_RANGE: nat := 0x1_0000_0000_0000_0000

  /** A sum stored in an `unsigned`. */
  function AsUnsigned(n: nat): (r: nat)
    ensures n < UNSIGNED_RANGE ==> r == n
    ensures n >= UNSIGNED_RANGE ==> r + UNSIGNED_RANGE <= n
  {
    n % 0x1_0000_0000
  }

  /** `widthUse`. The sum of two `unsigned` widths wraps around; the larger of them does not. */
  function WidthUse(l: Int, r: Int, op: BinOp): (w: nat) {
    match op
    case Add => AsUnsigned(l.width + r.width)
    case Sub => AsUnsigned(l.width + r.width)
    case Mul => AsUnsigned(l.width + r.width)
    case Div => AsUnsigned(l.width + r.width)
    case Lshift => AsUnsigned(l.width + Abs(Signed(r)))
    case Rshift => AsUnsigned(l.width + Abs(Signed(r)))
    case _ => Max(l.width, r.width)
  }

  /** An operand at the working width. */
  function Extended(a: Int, w: nat): (r: APInt)
    requires w >= 1
    ensures r.width == w && (w >= a.width ==> Signed(r) == Signed(a))
  {
    if w >= a.width then SignExtendExact(a, w); SextOrTrunc(a, w) else SextOrTrunc(a, w)
  }

  lemma SumBelowProduct(p: int, q: int)
    requires p >= 1 && q >= 1
    ensures p + q - 1 <= p * q
  {
    MulKeepsOrder(1, p, q - 1);
    Distribute(q, 1, p);
  }

  lemma SumBound(a: int, b: int, p: int, q: int)
    requires p >= 1 && q >= 1 && -p <= a < p && -q <= b < q
    ensures -(2 * (p * q)) <= a + b < 2 * (p * q)
    ensures -(2 * (p * q)) <= a - b < 2 * (p * q)
  {
    SumBelowProduct(p, q);
  }

  lemma ProductBound(a: int, b: int, p: nat, q: nat)
    requires Abs(a) <= p && Abs(b) <= q
    ensures Abs(a * b) <= p * q
  {
    SignedProduct(b, a);
    SignedProduct(a, Abs(b));
    MulKeepsOrder(Abs(a), p, Abs(b));
    MulKeepsOrder(Abs(b), q, p);
    Distribute(Abs(a), 0, Abs(b));
    Distribute(p, 0, Abs(b));
    Distribute(p, 0, q);
  }

  lemma WidthsAdd(wl: nat, wr: nat)
    requires wl >= 1 && wr >= 1
    ensures Half(wl + wr) == 2 * (Half(wl) * Half(wr))
  {
    Pow2Adds(wl - 1, wr - 1);
  }

  /** Sums and differences of a `wl`-bit and a `wr`-bit number fit in `wl + wr` bits ... */
  lemma SumFits(a: int, b: int, wl: nat, wr: nat)
    requires wl >= 1 && wr >= 1 && Fits(a, wl) && Fits(b, wr)
    ensures Fits(a + b, wl + wr) && Fits(a - b, wl + wr)
  {
    WidthsAdd(wl, wr);
    SumBound(a, b, Half(wl), Half(wr));
  }

  /** ... and so do products. */
  lemma ProductFits(a: int, b: int, wl: nat, wr: nat)
    requires wl >= 1 && wr >= 1 && Fits(a, wl) && Fits(b, wr)
    ensures Fits(a * b, wl + wr)
  {
    WidthsAdd(wl, wr);
    ProductBound(a, b, Half(wl), Half(wr));
    MulKeepsOrder(1, Half(wl), Half(wr));
  }

  // The four operators at the full sum of the widths. `CutWidth` shows that this is what the code computes as long as
  // the sum is in the range of `unsigned`, and what happens beyond.

  function WordSum(l: Int, r: Int): (a: APInt) {
    AddSat(Extended(l, l.width + r.width), Extended(r, l.width + r.width))
  }

  function WordDifference(l: Int, r: Int): (a: APInt) {
    SubSat(Extended(l, l.width + r.width), Extended(r, l.width + r.width))
  }

  lemma SumsExact(l: Int, r: Int)
    ensures Signed(WordSum(l, r)) == Signed(l) + Signed(r)
    ensures Signed(WordDifference(l, r)) == Signed(l) - Signed(r)
  {
    hide Signed, Fits, AddSat, SubSat;
    var w := l.width + r.width;
    SumFits(Signed(l), Signed(r), l.width, r.width);
    SaturationIdle(Extended(l, w), Extended(r, w));
  }

  function Plus(l: Int, r: Int): (res: Int)
    ensures Signed(res) == Signed(l) + Signed(r)
  {
    SumsExact(l, r);
    Trim(WordSum(l, r))
  }

  function Minus(l: Int, r: Int): (res: Int)
    ensures Signed(res) == Signed(l) - Signed(r)
  {
    SumsExact(l, r);
    Trim(WordDifference(l, r))
  }

  function Times(l: Int, r: Int): (res: Int)
    ensures Signed(res) == Signed(l) * Signed(r)
  {
    var w := l.width + r.width;
    ProductFits(Signed(l), Signed(r), l.width, r.width);
    SaturationIdleMul(Extended(l, w), Extended(r, w));
    Trim(MulSat(Extended(l, w), Extended(r, w)))
  }

  /** The one quotient larger than its dividend's width, minimum / -1, has a bit to spare. */
  lemma QuotientFits(a: int, b: int, wl: nat, wr: nat)
    requires wl >= 1 && wr >= 1 && Fits(a, wl) && b != 0
    ensures Fits(Quot(a, b), wl + wr)
  {
    QuotRem(a, b);
    assert Half(wl + 1) == 2 * Half(wl);
    FitsWider(Quot(a, b), wl + 1, wl + wr);
  }

  lemma RemainderFits(a: int, b: int, w: nat)
    requires w >= 1 && Fits(b, w) && b != 0
    ensures Fits(Rem(a, b), w)
  {
    QuotRem(a, b);
  }

  /** Division rounds toward zero and never overflows, whatever the signs. */
  function Divide(l: Int, r: Int): (res: Int)
    requires Signed(r) != 0
    ensures Signed(res) == Quot(Signed(l), Signed(r))
  {
    var w := l.width + r.width;
    QuotientFits(Signed(l), Signed(r), l.width, r.width);
    WrapExact(Quot(Signed(l), Signed(r)), w);
    Trim(SDiv(Extended(l, w), Extended(r, w)))
  }

  function Modulo(l: Int, r: Int): (res: Int)
    requires Signed(r) != 0
    ensures Signed(res) == Rem(Signed(l), Signed(r))
  {
    var w := WidthUse(l, r, Mod);
    FitsWider(Signed(r), r.width, w);
    RemainderFits(Signed(l), Signed(r), w);
    WrapExact(Rem(Signed(l), Signed(r)), w);
    Trim(SRem(Extended(l, w), Extended(r, w)))
  }

  // ---- shifts ---------------------------------------------------------------------------

  /** What the word operations demand of a shift: a 64-bit amount and a nonzero width. */
  ghost predicate ShiftDefined(l: Int, r: Int) {
    Abs(Signed(r)) < UINT64_RANGE && WidthUse(l, r, Lshift) > 0
  }

  function ShiftLeft(l: Int, r: Int): (res: Int)
    requires ShiftDefined(l, r)
    ensures res.width <= WidthUse(l, r, Lshift)
  {
    var w := WidthUse(l, r, Lshift);
    Trim(Shl(Extended(l, w), Extended(r, w)))
  }

  function ShiftRight(l: Int, r: Int): (res: Int)
    requires ShiftDefined(l, r)
  {
    var w := WidthUse(l, r, Rshift);
    Trim(AShr(Extended(l, w), Extended(r, w)))
  }

  /** A nonnegative amount survives the change of width if it is below two to that width. */
  lemma AmountKept(r: Int, w: nat)
    requires w >= 1 && 0 <= Signed(r) < Pow2(w)
    ensures Extended(r, w).bits == Signed(r)
  {
    if w < r.width {
      ModuloUnique(r.bits, 0, r.bits, Pow2(w));
    }
  }

  lemma CongruentProduct(x: int, m: nat, p: int)
    requires m > 0
    ensures ((x - m) * p) % m == (x * p) % m
  {
    Distribute(x, m, p);
    assert m * p == p * m;
    CongruentShift(x * p, p, m);
  }

  /** Shifting the bits and shifting the signed value are congruent. */
  lemma WrapTimes(a: APInt, p: int)
    ensures Wrap(a.bits * p, a.width) == Wrap(Signed(a) * p, a.width)
  {
    CongruentProduct(a.bits, Pow2(a.width), p);
  }

  lemma CongruentShift(x: int, p: int, m: nat)
    requires m > 0
    ensures (x - p * m) % m == x % m
  {
    Distribute(x / m, p, m);
    ModuloUnique(x - p * m, x / m - p, x % m, m);
  }

  lemma ScaledBound(v: int, h: int, p: int)
    requires -h <= v < h && p >= 1
    ensures -(h * p) <= v * p < h * p
  {
    MulKeepsOrder(-h, v, p);
    MulKeepsOrder(v, h - 1, p);
    Distribute(h, 1, p);
    Distribute(0, h, p);
  }

  lemma ShiftedFits(v: int, w: nat, n: nat)
    requires w >= 1 && Fits(v, w)
    ensures Fits(v * Pow2(n), w + n)
  {
    Pow2Adds(w - 1, n);
    ScaledBound(v, Half(w), Pow2(n));
  }

  lemma FloorFits(v: int, w: nat, p: nat)
    requires w >= 1 && p >= 1 && Fits(v, w)
    ensures Fits(v / p, w)
  {
    var q, h := v / p, Half(w);
    assert v == q * p + v % p;
    if q >= h {
      MulKeepsOrder(h, q, p);
      MulKeepsOrder(1, p, h);
      Distribute(h, 0, p);
    } else if q < -(h as int) {
      MulKeepsOrder(q, -(h as int) - 1, p);
      Distribute(-(h as int), 1, p);
      MulKeepsOrder(1, p, h);
      Distribute(0, h, p);
      Distribute(h, 0, p);
    }
  }

  /** Within the range of `unsigned`, width and amount are what they should be. */
  lemma WithinRange(l: Int, r: Int)
    requires 0 <= Signed(r) && l.width + Signed(r) < UNSIGNED_RANGE
    ensures ShiftDefined(l, r) && WidthUse(l, r, Lshift) == WidthUse(l, r, Rshift) == l.width + Signed(r)
    ensures Extended(r, l.width + Signed(r)).bits == Signed(r)
  {
    AmountFits(r, l.width + Signed(r));
  }

  lemma AmountFits(r: Int, w: nat)
    requires 0 <= Signed(r) < w
    ensures Extended(r, w).bits == Signed(r)
  {
    Pow2Exceeds(Signed(r));
    Pow2Grows(Signed(r), w);
    AmountKept(r, w);
  }

  /** A left shift by a nonnegative amount multiplies by a power of two ... */
  lemma ShiftLeftExact(l: Int, r: Int)
    requires 0 <= Signed(r) && l.width + Signed(r) < UNSIGNED_RANGE
    ensures ShiftDefined(l, r)
    ensures Signed(ShiftLeft(l, r)) == Signed(l) * Pow2(Signed(r))
  {
    WithinRange(l, r);
    var n, w := Signed(r), l.width + Signed(r);
    ShiftedFits(Signed(l), l.width, n);
    WrapTimes(Extended(l, w), Pow2(n));
    WrapExact(Signed(l) * Pow2(n), w);
  }

  /** ... and a right shift divides by one, rounding down. */
  lemma ShiftRightExact(l: Int, r: Int)
    requires 0 <= Signed(r) && l.width + Signed(r) < UNSIGNED_RANGE
    ensures ShiftDefined(l, r)
    ensures Signed(ShiftRight(l, r)) == Signed(l) / Pow2(Signed(r))
  {
    WithinRange(l, r);
    var n, w := Signed(r), l.width + Signed(r);
    FloorFits(Signed(l), l.width, Pow2(n));
    FitsWider(Signed(l) / Pow2(n), l.width, w);
    WrapExact(Signed(l) / Pow2(n), w);
  }

  /** A shifted nonzero number needs all of its width plus the amount. */
  lemma ShiftNeeds(v: int, w: nat, n: nat)
    requires w >= 1 && n >= 1 && v != 0 && Fits(v, w) && (w == 1 || !Fits(v, w - 1))
    ensures !Fits(v * Pow2(n), w + n - 1)
  {
    var p := Pow2(n);
    if w > 1 {
      Pow2Adds(w - 2, n);
      var h := Half(w - 1);
      if v >= h {
        MulKeepsOrder(h, v, p);
      } else {
        MulKeepsOrder(v, -(h as int) - 1, p);
        Distribute(-(h as int), 1, p);
        Distribute(0, h, p);
      }
    }
  }

  /** Beyond the range of `unsigned` a left shift is wrong for every nonzero number: the result cannot even fit. */
  lemma ShiftLeftExactIff(l: Int, r: Int)
    requires 0 <= Signed(r) && ShiftDefined(l, r)
    ensures Signed(ShiftLeft(l, r)) == Signed(l) * Pow2(Signed(r)) <==>
            Signed(l) == 0 || l.width + Signed(r) < UNSIGNED_RANGE
  {
    if l.width + Signed(r) < UNSIGNED_RANGE {
      ShiftLeftExact(l, r);
    } else if Signed(l) == 0 {
      ZeroShifts(l, r);
    } else {
      TooNarrow(ShiftLeft(l, r), l, Signed(r));
    }
  }

  lemma TooNarrow(res: Int, l: Int, n: nat)
    requires Signed(l) != 0 && res.width < l.width + n
    ensures Signed(res) != Signed(l) * Pow2(n)
  {
    FitsWider(Signed(res), res.width, l.width + n - 1);
    if n == 0 {
      assert Signed(l) * Pow2(n) == Signed(l) * 1;
    } else {
      ShiftNeeds(Signed(l), l.width, n);
    }
  }

  lemma ZeroShifts(l: Int, r: Int)
    requires Signed(l) == 0 && ShiftDefined(l, r)
    ensures Signed(ShiftLeft(l, r)) == 0
  {
    var w := WidthUse(l, r, Lshift);
    EqualIsValueEquality(l, Word(1, 0));
    WrapTimes(Extended(l, w), Pow2(Min(Extended(r, w).bits, w)));
    WrapExact(0, w);
  }

  /** A shift by nothing. */
  lemma UnshiftedWord(a: APInt, amount: APInt)
    requires a.width == amount.width && amount.bits == 0
    ensures Signed(AShr(a, amount)) == Signed(a)
  {
    hide Signed, Fits;
    assert Pow2(Min(amount.bits, a.width)) == 1;
    assert Signed(a) / 1 == Signed(a);
    WrapExact(Signed(a), a.width);
  }

  lemma TruncatedToZero(l: Int, r: Int)
    requires ShiftDefined(l, r) && WidthUse(l, r, Rshift) == l.width && Extended(r, l.width).bits == 0
    ensures Signed(ShiftRight(l, r)) == Signed(l)
  {
    hide Signed, AShr;
    UnshiftedWord(Extended(l, l.width), Extended(r, l.width));
  }

  /**
    A right shift loses the amount instead: by any multiple of 2^32, a number of at most 32 bits comes
    back unshifted, which is right only for 0 and -1.
   */
  lemma ShiftRightLosesAmount(l: Int, r: Int, k: nat)
    requires l.width <= 32 && Signed(r) == k * UNSIGNED_RANGE && 0 < k && Signed(r) < UINT64_RANGE
    ensures ShiftDefined(l, r) && Signed(ShiftRight(l, r)) == Signed(l)
    ensures Signed(l) / Pow2(Signed(r)) == Signed(ShiftRight(l, r)) <==> Signed(l) == 0 || Signed(l) == -1
  {
    WidthWrapsAround(l.width, k);
    AmountVanishes(r, k, l.width);
    TruncatedToZero(l, r);
    AllShiftedOut(Signed(l), l.width, Signed(r));
  }

  lemma WidthWrapsAround(w: nat, k: nat)
    requires w <= 32
    ensures AsUnsigned(w + k * UNSIGNED_RANGE) == w
  {
    ModuloUnique(w + k * UNSIGNED_RANGE, k, w, UNSIGNED_RANGE);
  }

  lemma AmountVanishes(r: Int, k: nat, w: nat)
    requires 1 <= w <= 32 && k > 0 && Signed(r) == k * UNSIGNED_RANGE
    ensures Extended(r, w).bits == 0
  {
    RangeIsPow2();
    MultipleOfPow2(k, w, 32);
    if r.width <= w {
      FitsWider(Signed(r), r.width, w);
    }
  }

  lemma MultipleOfPow2(k: nat, w: nat, n: nat)
    requires k > 0 && w <= n
    ensures k * Pow2(n) >= Pow2(w) && (k * Pow2(n)) % Pow2(w) == 0
  {
    var m, h := Pow2(w), Pow2(n - w);
    Pow2Adds(n - w, w);
    Reassociate(k, h, m);
    MulKeepsOrder(1, k, h);
    MulKeepsOrder(1, k * h, m);
    ModuloUnique((k * h) * m, k * h, 0, m);
  }

  lemma RangeIsPow2()
    ensures Pow2(32) == UNSIGNED_RANGE
  {
    Pow2Squared(8, 256, 16);
    Pow2Squared(16, 65536, 32);
  }

  lemma Pow2Squared(n: nat, v: nat, m: nat)
    requires Pow2(n) == v && m == n + n
    ensures Pow2(m) == v * v
  {
    Pow2Adds(n, n);
  }

  lemma AllShiftedOut(v: int, w: nat, n: nat)
    requires 1 <= w <= n && Fits(v, w)
    ensures v / Pow2(n) == if v < 0 then -1 else 0
  {
    Pow2Grows(w, n);
    if v < 0 {
      ModuloUnique(v, -1, v + Pow2(n), Pow2(n));
    } else {
      ModuloUnique(v, 0, v, Pow2(n));
    }
  }

  /** The bits of an operand at the working width: its own up to that width, then the last of them. */
  lemma ExtendedBit(l: Int, w: nat, i: nat)
    requires w >= 1
    ensures BitOf(Signed(Extended(l, w)), i) == BitOf(Signed(l), Min(i, w - 1))
  {
    hide BitOf, Signed;
    if w >= l.width {
      if i >= w {
        SignedBit(l, i);
        SignedBit(l, w - 1);
        SignedBit(l, l.width - 1);
      }
    } else {
      var e, j := Extended(l, w), Min(i, w - 1);
      SignedBit(e, i);
      ModuloBits(l.bits, w, j);
      SignedBit(l, j);
    }
  }

  lemma ShiftedWord(a: APInt, amount: APInt)
    requires a.width == amount.width
    ensures Signed(AShr(a, amount)) == Signed(a) / Pow2(Min(amount.bits, a.width))
  {
    hide Signed;
    var p := Pow2(Min(amount.bits, a.width));
    FloorFits(Signed(a), a.width, p);
    WrapExact(Signed(a) / p, a.width);
  }

  /** At the working width: the bit of the number that bit `i` of the result is read from. */
  function ReadFrom(amount: APInt, i: nat): (k: nat) {
    Min(amount.bits + i, amount.width - 1)
  }

  /** The amount at the working width. */
  function Amount(l: Int, r: Int): (a: APInt)
    requires ShiftDefined(l, r)
    ensures a.width == WidthUse(l, r, Rshift)
  {
    Extended(r, WidthUse(l, r, Rshift))
  }

  lemma ShiftedBit(a: APInt, amount: APInt, i: nat)
    requires a.width == amount.width
    ensures BitOf(Signed(AShr(a, amount)), i) == BitOf(Signed(a), Min(amount.bits, a.width) + i)
  {
    hide BitOf, Signed, AShr, Pow2;
    ShiftedWord(a, amount);
    QuotientBits(Signed(a), Min(amount.bits, a.width), i);
  }

  lemma ReadFromIs(amount: APInt, i: nat)
    ensures Min(Min(amount.bits, amount.width) + i, amount.width - 1) == ReadFrom(amount, i)
  {
  }

  lemma ShiftRightIs(l: Int, r: Int)
    requires ShiftDefined(l, r)
    ensures Signed(ShiftRight(l, r)) == Signed(AShr(Extended(l, WidthUse(l, r, Rshift)), Amount(l, r)))
  {
    hide Signed, AShr, Extended, WidthUse;
  }

  lemma ShiftRightReads(l: Int, r: Int, i: nat)
    requires ShiftDefined(l, r)
    ensures BitOf(Signed(ShiftRight(l, r)), i) == BitOf(Signed(l), ReadFrom(Amount(l, r), i))
  {
    var w, amount := WidthUse(l, r, Rshift), Amount(l, r);
    var e := Extended(l, w);
    hide *;
    ShiftRightIs(l, r);
    ShiftedBit(e, amount, i);
    ExtendedBit(l, w, Min(amount.bits, w) + i);
    ReadFromIs(amount, i);
  }

  function FloorShift(v: int, n: nat): (q: int) {
    v / Pow2(n)
  }

  lemma FloorShiftBits(v: int, n: nat, i: nat)
    ensures BitOf(FloorShift(v, n), i) == BitOf(v, n + i)
  {
    QuotientBits(v, n, i);
  }

  /** Two integers are equal if and only if their bits are. */
  lemma SameBits(u: int, v: int)
    ensures u == v <==> forall i: nat :: BitOf(u, i) == BitOf(v, i)
  {
    hide BitOf;
    if u != v {
      var k := SomeBitDiffers(u, v);
    }
  }

  /** A right shift is floor division if and only if every bit of the result is read from a bit of the right value. */
  lemma ShiftRightExactIff(l: Int, r: Int)
    requires 0 <= Signed(r) && ShiftDefined(l, r)
    ensures Signed(ShiftRight(l, r)) == FloorShift(Signed(l), Signed(r)) <==>
            forall i: nat :: BitOf(Signed(l), ReadFrom(Amount(l, r), i)) == BitOf(Signed(l), Signed(r) + i)
  {
    hide *;
    var amount := Amount(l, r);
    var q, res := FloorShift(Signed(l), Signed(r)), Signed(ShiftRight(l, r));
    SameBits(res, q);
    forall i: nat
      ensures BitOf(res, i) == BitOf(Signed(l), ReadFrom(amount, i)) && BitOf(q, i) == BitOf(Signed(l), Signed(r) + i)
    {
      ShiftRightReads(l, r, i);
      FloorShiftBits(Signed(l), Signed(r), i);
    }
  }

  lemma QuotientIsSign(v: int, p: nat, negative: bool)
    requires p > 0
    ensures v / p == (if negative then -1 else 0) <==> (v < 0 <==> negative) && -(p as int) <= v < p
  {
    if 0 <= v < p {
      ModuloUnique(v, 0, v, p);
    } else if -(p as int) <= v < 0 {
      ModuloUnique(v, -1, v + p, p);
    }
  }

  /**
    A shift by at least the number's width is exact if and only if what is left of the number at the working width has
    its sign and is shifted out by what is left of the amount.
   */
  lemma LongShiftRightExactIff(l: Int, r: Int)
    requires ShiftDefined(l, r) && l.width <= Signed(r)
    ensures var w := WidthUse(l, r, Rshift);
            var e, n := Signed(Extended(l, w)), Min(Extended(r, w).bits, w);
            Signed(ShiftRight(l, r)) == Signed(l) / Pow2(Signed(r)) <==>
            (e < 0 <==> Signed(l) < 0) && Fits(e, n + 1)
  {
    AllShiftedOut(Signed(l), l.width, Signed(r));
    hide Signed, AShr, Extended, WidthUse;
    var w := WidthUse(l, r, Rshift);
    var e, n := Extended(l, w), Min(Extended(r, w).bits, w);
    ShiftedWord(e, Extended(r, w));
    QuotientIsSign(Signed(e), Pow2(n), Signed(l) < 0);
  }

  // ---- bitwise logic ------------------------------------------------------------------------

  function LogicOp(op: BinOp): (f: (bool, bool) -> bool)
    requires op.And? || op.Or? || op.Xor?
  {
    match op
    case And => (a, b) => a && b
    case Or => (a, b) => a || b
    case Xor => (a, b) => a != b
  }

  function Logic(l: Int, r: Int, op: BinOp): (res: Int)
    requires op.And? || op.Or? || op.Xor?
  {
    var w := WidthUse(l, r, op);
    Trim(Word(w, Bitwise(LogicOp(op), Extended(l, w).bits, Extended(r, w).bits, w)))
  }

  /** `& | ^` act bit by bit on the infinite two's complement forms: both bits, at least one, exactly one. */
  lemma LogicIsBitwise(l: Int, r: Int, k: nat)
    ensures BitOf(Signed(Logic(l, r, And)), k) <==> BitOf(Signed(l), k) && BitOf(Signed(r), k)
    ensures BitOf(Signed(Logic(l, r, Or)), k) <==> BitOf(Signed(l), k) || BitOf(Signed(r), k)
    ensures BitOf(Signed(Logic(l, r, Xor)), k) <==> BitOf(Signed(l), k) != BitOf(Signed(r), k)
  {
    LogicActsOnBits(l, r, And, k);
    LogicActsOnBits(l, r, Or, k);
    LogicActsOnBits(l, r, Xor, k);
    hide BitOf, Signed, Logic;
  }

  lemma LogicActsOnBits(l: Int, r: Int, op: BinOp, k: nat)
    requires op.And? || op.Or? || op.Xor?
    ensures BitOf(Signed(Logic(l, r, op)), k) == LogicOp(op)(BitOf(Signed(l), k), BitOf(Signed(r), k))
  {
    var w := WidthUse(l, r, op);
    var lExt, rExt := Extended(l, w), Extended(r, w);
    WordLogic(LogicOp(op), lExt, rExt, k);
  }

  lemma WordLogic(f: (bool, bool) -> bool, a: APInt, b: APInt, k: nat)
    requires a.width == b.width
    ensures var c := Word(a.width, Bitwise(f, a.bits, b.bits, a.width));
            BitOf(Signed(c), k) == f(BitOf(Signed(a), k), BitOf(Signed(b), k))
  {
    SignedBit(a, k);
    SignedBit(b, k);
    SignedBit(Word(a.width, Bitwise(f, a.bits, b.bits, a.width)), k);
    BitwiseBit(f, a.bits, b.bits, a.width, if k < a.width then k else a.width - 1);
  }
}
