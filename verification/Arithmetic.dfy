/** Powers of two, residues and bit masks, shared by the ring buffer and the integers. */
module Arithmetic {

  type Byte = b: int | 0 <= b < 256

  function Min(a: int, b: int): (m: int) {
    if a <= b then a else b
  }

  function Max(a: int, b: int): (m: int) {
    if a <= b then b else a
  }

  function Abs(a: int): (m: nat) {
    if a < 0 then -a else a
  }

  function Pow2(n: nat): (p: nat)
    ensures p >= 1
  {
    if n == 0 then 1 else 2 * Pow2(n - 1)
  }

  lemma {:induction false} Pow2Adds(a: nat, b: nat)
    ensures Pow2(a + b) == Pow2(a) * Pow2(b)
  {
    if a == 0 {
    } else {
      Pow2Adds(a - 1, b);
    }
  }

  lemma {:induction false} Pow2Grows(a: nat, b: nat)
    requires a <= b
    ensures Pow2(a) <= Pow2(b)
  {
    if a == b {
    } else {
      Pow2Grows(a, b - 1);
    }
  }

  lemma {:induction false} Pow2Exceeds(n: nat)
    ensures n < Pow2(n)
  {
    if n == 0 {
    } else {
      Pow2Exceeds(n - 1);
    }
  }

  lemma Distribute(a: int, b: int, c: int)
    ensures (a - b) * c == a * c - b * c && (a + b) * c == a * c + b * c && a * c == c * a
  {
  }

  lemma Reassociate(a: int, b: int, c: int)
    ensures a * (b * c) == (a * b) * c
  {
  }

  lemma MulKeepsOrder(a: int, b: int, c: int)
    requires a <= b && c >= 0
    ensures a * c <= b * c
  {
    Distribute(b, a, c);
    assert (b - a) * c >= 0;
  }

  /** A nonzero multiple of `c` is at least `c` away from zero. */
  lemma MultipleIsFar(k: int, c: nat)
    ensures k != 0 ==> k * c >= c || k * c <= 0 - c
  {
    if k >= 1 {
      assert k * c == c + (k - 1) * c;
    } else if k <= -1 {
      assert k * c == 0 - c + (k + 1) * c;
    }
  }

  /** Positions less than one lap apart use different slots. */
  lemma SlotsDiffer(p: nat, q: nat, c: nat)
    requires p < q < p + c
    ensures p % c != q % c
  {
    assert q - p == (q / c - p / c) * c + (q % c - p % c);
    MultipleIsFar(q / c - p / c, c);
  }

  /** One lap later is the same slot. */
  lemma NextLap(p: nat, c: nat)
    requires c > 0
    ensures (p + c) % c == p % c
  {
    assert (p + c) - p == 1 * c;
    var k := (p + c) / c - p / c;
    assert (p + c) % c - p % c == (1 - k) * c;
    MultipleIsFar(1 - k, c);
  }

  /** Bitwise and of two naturals. */
  function BitAnd(a: nat, b: nat): (r: nat) {
    if a == 0 || b == 0 then 0
    else (if a % 2 == 1 && b % 2 == 1 then 1 else 0) + 2 * BitAnd(a / 2, b / 2)
  }

  /** An odd mask keeps the lowest bit, and the rest of the mask acts on the rest of the number. */
  lemma MaskStep(pos: nat, half: nat)
    requires half > 0
    ensures BitAnd(pos, 2 * half - 1) == pos % 2 + 2 * BitAnd(pos / 2, half - 1)
  {
    assert (2 * half - 1) / 2 == half - 1 && (2 * half - 1) % 2 == 1;
  }

  lemma MaskDoubles(pos: nat, half: nat, whole: nat)
    requires half > 0 && whole == 2 * half && BitAnd(pos / 2, half - 1) == (pos / 2) % half
    ensures BitAnd(pos, whole - 1) == pos % whole
  {
    hide BitAnd;
    MaskStep(pos, half);
    HalvedModulo(pos, half);
  }

  /** Indexing with `pos & (capacity - 1)` is indexing modulo a power-of-two capacity. */
  lemma {:induction false} MaskIsModulo(pos: nat, k: nat)
    ensures BitAnd(pos, Pow2(k) - 1) == pos % Pow2(k)
    decreases k
  {
    if k == 0 {
      assert Pow2(k) == 1;
      assert BitAnd(pos, 0) == 0;
      ModuloUnique(pos, pos, 0, 1);
    } else {
      MaskIsModulo(pos / 2, k - 1);
      MaskDoubles(pos, Pow2(k - 1), Pow2(k));
    }
  }

  lemma HalvedModulo(x: nat, half: nat)
    requires half > 0
    ensures x % (2 * half) == x % 2 + 2 * ((x / 2) % half)
  {
    var q, r := (x / 2) / half, (x / 2) % half;
    assert x == (x % 2 + 2 * r) + q * (2 * half);
    ModuloUnique(x, q, x % 2 + 2 * r, 2 * half);
  }

  /** Quotient and remainder by a positive divisor are unique. */
  lemma ModuloUnique(x: int, q: int, r: int, d: nat)
    requires x == r + q * d && 0 <= r < d
    ensures x / d == q && x % d == r
  {
    assert r - x % d == (x / d - q) * d;
    MultipleIsFar(x / d - q, d);
  }
}
