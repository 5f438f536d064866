/** The few facts about products, quotients and powers that the models rely on. */
module Numbers {

  lemma MulLe(a: nat, x: int, y: int)
    requires x <= y
    ensures a * x <= a * y
  {
  }

  lemma MulLt(a: int, x: int, y: int)
    requires a > 0 && x < y
    ensures a * x < a * y
  {
  }

  lemma DivBounds(n: int, d: int)
    requires d > 0
    ensures d * (n / d) <= n < d * (n / d) + d
  {
  }

  lemma DivMod(n: nat, d: nat)
    requires d > 0
    ensures n == (n / d) * d + n % d && 0 <= n / d && 0 <= n % d < d
  {
  }

  /** The quotient and remainder are the only numbers that add up. */
  lemma DivUnique(n: int, d: int, q: int, r: int)
    requires d > 0 && n == d * q + r && 0 <= r < d
    ensures n / d == q && n % d == r
  {
    DivBounds(n, d);
    var q' := n / d;
    if q' < q {
      MulLe(d, q' + 1, q);
    } else if q < q' {
      MulLe(d, q + 1, q');
    }
  }

  /** Rounding up: what is below the quotient is below the dividend. */
  lemma CeilDiv(n: nat, d: nat, x: nat)
    requires d > 0
    ensures x < (n + d - 1) / d <==> x * d < n
  {
    var w := (n + d - 1) / d;
    DivBounds(n + d - 1, d);
    if x < w {
      MulLe(d, x + 1, w);
    } else {
      MulLe(d, w, x);
    }
  }

  function Pow2(n: nat): (r: nat)
    ensures r >= 1
  {
    if n == 0 then 1 else 2 * Pow2(n - 1)
  }

  lemma {:induction false} Pow2Add(m: nat, n: nat)
    ensures Pow2(m + n) == Pow2(m) * Pow2(n)
  {
    if m > 0 {
      Pow2Add(m - 1, n);
      assert 2 * (Pow2(m - 1) * Pow2(n)) == 2 * Pow2(m - 1) * Pow2(n);
    }
  }

  lemma Pow2Mono(m: nat, n: nat)
    requires m <= n
    ensures Pow2(m) <= Pow2(n)
  {
    Pow2Add(m, n - m);
    MulLe(Pow2(m), 1, Pow2(n - m));
  }

  lemma Pow2Reflect(m: nat, n: nat)
    requires Pow2(m) < Pow2(n)
    ensures m < n
  {
    if n <= m {
      Pow2Mono(n, m);
    }
  }

  lemma Pow2Values()
    ensures Pow2(8) == 0x100 && Pow2(16) == 0x1_0000 && Pow2(24) == 0x100_0000 && Pow2(32) == 0x1_0000_0000
    ensures Pow2(7) == 0x80 && Pow2(15) == 0x8000 && Pow2(23) == 0x80_0000
    ensures Pow2(64) == 0x1_0000_0000_0000_0000
  {
    assert Pow2(4) == 16;
    Pow2Add(4, 4);
    Pow2Add(8, 8);
    Pow2Add(8, 16);
    Pow2Add(16, 16);
    Pow2Add(32, 32);
    assert Pow2(8) == 2 * Pow2(7) && Pow2(16) == 2 * Pow2(15) && Pow2(24) == 2 * Pow2(23);
  }

  lemma MulAssoc(a: int, b: int, c: int)
    ensures a * (b * c) == (a * b) * c
  {
  }

  lemma MulSwap(a: int, b: int, c: int)
    ensures a * (b * c) == b * (a * c)
  {
  }

  lemma MulDistr(a: int, b: int, c: int)
    ensures a * (b + c) == a * b + a * c
    ensures (b + c) * a == b * a + c * a
  {
  }

  /** Multiples of the divisor pass through a division. */
  lemma DivShift(x: int, q: int, d: int)
    requires d > 0
    ensures (x + q * d) / d == x / d + q && (x + q * d) % d == x % d
  {
    DivBounds(x, d);
    MulDistr(d, x / d, q);
    DivUnique(x + q * d, d, x / d + q, x % d);
  }

  /** Dividing twice divides by the product. */
  lemma DivDiv(x: nat, a: nat, b: nat)
    requires a > 0 && b > 0
    ensures a * b > 0 && x / (a * b) == (x / a) / b
  {
    MulLe(a, 1, b);
    DivBounds(x, a);
    DivBounds(x / a, b);
    var q, r := (x / a) / b, (x / a) % b;
    var s := x % a;
    MulDistr(a, b * q, r);
    MulAssoc(a, b, q);
    assert x == (a * b) * q + (a * r + s);
    MulLe(a, r, b - 1);
    assert a * (b - 1) == a * b - a;
    DivUnique(x, a * b, q, a * r + s);
  }

  /** A multiple of d below another one is at least d below it. */
  lemma MultipleBelow(x: nat, d: nat, e: nat)
    requires d > 0 && x % d == 0 && x < d * e
    ensures x + d <= d * e
  {
    var q := x / d;
    DivBounds(x, d);
    if q < e {
      MulLe(d, q + 1, e);
    } else {
      MulLe(d, e, q);
    }
  }

  lemma DivBelow(x: nat, d: nat, e: nat)
    requires d > 0 && x < d * e
    ensures 0 <= x / d < e
  {
    DivBounds(x, d);
    var q := x / d;
    if q >= e {
      MulLe(d, e, q);
    }
  }

  lemma SmallMod(x: int, m: int)
    requires 0 <= x < m
    ensures x % m == x && x / m == 0
  {
    DivUnique(x, m, 0, x);
  }

  lemma DivMono(x: nat, y: nat, d: nat)
    requires x <= y && d > 0
    ensures x / d <= y / d
  {
    DivBounds(x, d);
    DivBounds(y, d);
    var p, q := x / d, y / d;
    if p > q {
      MulLe(d, q + 1, p);
    }
  }

  lemma DivSmaller(x: nat, d: nat)
    requires x > 0 && d >= 2
    ensures 0 <= x / d < x
  {
    MulLe(x, 2, d);
    DivBelow(x, d, x);
  }
}
