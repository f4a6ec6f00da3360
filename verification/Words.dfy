/** Unsigned machine words as numbers, bit by bit. */
module Words {
  function Pow2(n: nat): (p: nat)
    ensures p > 0
  {
    if n == 0 then 1 else 2 * Pow2(n - 1)
  }

  /** A number in 16 bits. */
  function Word16(n: nat): (w: nat)
    ensures w < 65536
  {
    n % 65536
  }

  /** Bit i of a. */
  predicate Bit(a: nat, i: nat) {
    if i == 0 then a % 2 == 1 else Bit(a / 2, i - 1)
  }

  /** a | (1 << k) */
  function OrBit(a: nat, k: nat): nat {
    if k == 0 then a / 2 * 2 + 1 else 2 * OrBit(a / 2, k - 1) + a % 2
  }

  /** The low w bits of a. */
  function Low(a: nat, w: nat): nat {
    if w == 0 then 0 else 2 * Low(a / 2, w - 1) + a % 2
  }

  function Double(a: nat, d: nat): nat {
    if d == 0 then a else 2 * Double(a, d - 1)
  }

  /** a << d in a word of w bits. */
  function ShiftLeft(a: nat, d: nat, w: nat): nat {
    Low(Double(a, d), w)
  }

  /** a >> d */
  function ShiftRight(a: nat, d: nat): nat {
    if d == 0 then a else ShiftRight(a / 2, d - 1)
  }

  lemma {:induction false} ShiftBounds(a: nat, d: nat)
    ensures Double(ShiftRight(a, d), d) <= a < Double(ShiftRight(a, d) + 1, d)
  {
    if d > 0 {
      ShiftBounds(a / 2, d - 1);
    }
  }

  lemma {:induction false} OrBitBits(a: nat, k: nat, i: nat)
    ensures Bit(OrBit(a, k), i) <==> i == k || Bit(a, i)
  {
    if k > 0 && i > 0 {
      OrBitBits(a / 2, k - 1, i - 1);
    }
  }

  lemma {:induction false} LowBits(a: nat, w: nat, i: nat)
    ensures Bit(Low(a, w), i) <==> i < w && Bit(a, i)
    decreases i
  {
    if w == 0 {
      if i > 0 { LowBits(0, 0, i - 1); }
    } else if i > 0 {
      LowBits(a / 2, w - 1, i - 1);
    }
  }

  lemma {:induction false} DoubleBits(a: nat, d: nat, i: nat)
    ensures Bit(Double(a, d), i) <==> i >= d && Bit(a, i - d)
  {
    if d > 0 && i > 0 {
      DoubleBits(a, d - 1, i - 1);
    }
  }

  lemma ShiftLeftBits(a: nat, d: nat, w: nat, i: nat)
    ensures Bit(ShiftLeft(a, d, w), i) <==> d <= i < w && Bit(a, i - d)
  {
    LowBits(Double(a, d), w, i);
    DoubleBits(a, d, i);
  }

  lemma {:induction false} ZeroBits(i: nat)
    ensures !Bit(0, i)
  {
    if i > 0 {
      ZeroBits(i - 1);
    }
  }

  /** The bit-level operations are the arithmetic ones. */
  lemma {:induction false} LowIsRemainder(a: nat, w: nat)
    ensures Low(a, w) == a % Pow2(w)
  {
    if w > 0 {
      LowIsRemainder(a / 2, w - 1);
      HalfRemainder(a, Pow2(w - 1));
    }
  }

  lemma HalfRemainder(a: nat, p: nat)
    requires p > 0
    ensures a % (2 * p) == 2 * ((a / 2) % p) + a % 2
  {
    var h := a / 2;
    var q, r := h / p, h % p;
    assert a == (2 * p) * q + (2 * r + a % 2);
    RemainderIs(a, 2 * p, q, 2 * r + a % 2);
  }

  lemma RemainderIs(a: nat, m: nat, q: nat, r: nat)
    requires m > 0 && a == m * q + r && r < m
    ensures a % m == r && a / m == q
  {
    var d := a / m - q;
    assert m * d == r - a % m;
    SmallMultiple(m, d);
  }

  lemma SmallMultiple(m: int, d: int)
    requires m >= 0
    ensures d >= 1 ==> m * d >= m
    ensures d <= -1 ==> m * d <= -m
  {
  }

  lemma {:induction false} DoubleIsProduct(a: nat, d: nat)
    ensures Double(a, d) == a * Pow2(d)
  {
    if d > 0 {
      DoubleIsProduct(a, d - 1);
    }
  }

  lemma ShiftLeftIsProduct(a: nat, d: nat, w: nat)
    ensures ShiftLeft(a, d, w) == (a * Pow2(d)) % Pow2(w)
  {
    LowIsRemainder(Double(a, d), w);
    DoubleIsProduct(a, d);
  }

  // ----- Doubling

  lemma {:induction false} DoubleGrows(x: nat, y: nat, d: nat)
    requires x <= y
    ensures Double(x, d) <= Double(y, d)
    ensures x < y ==> Double(x, d) < Double(y, d)
  {
    if d > 0 {
      DoubleGrows(x, y, d - 1);
    }
  }

  lemma {:induction false} DoubleAdds(x: nat, y: nat, d: nat)
    ensures Double(x + y, d) == Double(x, d) + Double(y, d)
  {
    if d > 0 {
      DoubleAdds(x, y, d - 1);
    }
  }

  lemma {:induction false} DoubleTwice(x: nat, d: nat, e: nat)
    ensures Double(x, d + e) == Double(Double(x, e), d)
  {
    if d > 0 {
      DoubleTwice(x, d - 1, e);
    }
  }

  lemma {:induction false} DoubleScales(k: nat, x: nat, d: nat)
    ensures Double(k * x, d) == k * Double(x, d)
  {
    if d > 0 {
      DoubleScales(k, x, d - 1);
    }
  }

  lemma {:induction false} DoubleIsMore(x: nat, d: nat)
    ensures Double(x, d) >= x
  {
    if d > 0 {
      DoubleIsMore(x, d - 1);
    }
  }

  // ----- Products and quotients

  lemma ProductsGrow(a: nat, b: nat, d: nat)
    requires a <= b
    ensures a * d <= b * d
  {
    assert (b - a) * d >= 0;
  }

  lemma QuotientBounds(n: nat, d: nat)
    requires 0 < d
    ensures n / d * d <= n < n / d * d + d
  {
  }

  /** A product that is small enough has a small factor. */
  lemma FactorBound(a: nat, b: nat, d: nat)
    requires a * d < b * d + d
    ensures a <= b
  {
    if a > b {
      ProductsGrow(b + 1, a, d);
    }
  }

  /** Dividing by more gives no more. */
  lemma QuotientShrinks(n: nat, d: nat, e: nat)
    requires 0 < d <= e
    ensures n / e <= n / d
  {
    var q, r := n / e, n / d;
    QuotientBounds(n, e);
    QuotientBounds(n, d);
    ProductsGrow(d, e, q);
    assert q * d == d * q && q * e == e * q;
    FactorBound(q, r, d);
  }

  lemma Scaled(n: nat, k: nat, d: nat)
    requires k <= d && 0 < d
    ensures n * k / d <= n
    ensures k < d && 0 < n ==> n * k / d < n
    ensures k == d ==> n * k / d == n
  {
    var q := n * k / d;
    QuotientBounds(n * k, d);
    ProductsGrow(k, d, n);
    FactorBound(q, n, d);
    if k == d {
      FactorBound(n, q, d);
    } else if 0 < n {
      ProductsGrow(k + 1, d, n);
      FactorBound(q, n - 1, d);
    }
  }
}
