/** Numbers in positional notation, most significant digit first, in any base. */
module Positional {
  import opened Numbers

  function Pow(b: nat, n: nat): nat {
    if n == 0 then 1 else b * Pow(b, n - 1)
  }

  lemma {:induction false} PowAdd(b: nat, m: nat, n: nat)
    ensures Pow(b, m + n) == Pow(b, m) * Pow(b, n)
  {
    if m > 0 {
      PowAdd(b, m - 1, n);
      MulAssoc(b, Pow(b, m - 1), Pow(b, n));
    }
  }

  lemma {:induction false} PowMul(b: nat, m: nat, n: nat)
    ensures Pow(b, m * n) == Pow(Pow(b, m), n)
  {
    if n > 0 {
      PowMul(b, m, n - 1);
      MulDistr(m, n - 1, 1);
      PowAdd(b, m, m * (n - 1));
    }
  }

  lemma {:induction false} PowPositive(b: nat, n: nat)
    requires b > 0
    ensures Pow(b, n) > 0
  {
    if n > 0 {
      PowPositive(b, n - 1);
      MulLe(b, 1, Pow(b, n - 1));
    }
  }

  lemma {:induction false} PowMono(a: nat, b: nat, n: nat)
    requires a <= b
    ensures Pow(a, n) <= Pow(b, n)
  {
    if n > 0 {
      PowMono(a, b, n - 1);
      MulLe(a, Pow(a, n - 1), Pow(b, n - 1));
      MulLe(Pow(b, n - 1), a, b);
    }
  }

  lemma {:induction false} PowStrict(a: nat, b: nat, n: nat)
    requires a < b && n > 0
    ensures Pow(a, n) < Pow(b, n)
  {
    PowMono(a, b, n - 1);
    PowPositive(b, n - 1);
    MulLe(a, Pow(a, n - 1), Pow(b, n - 1));
    MulLt(Pow(b, n - 1), a, b);
  }

  lemma PowLonger(b: nat, m: nat, n: nat)
    requires b > 0 && m <= n
    ensures Pow(b, m) <= Pow(b, n)
  {
    PowAdd(b, m, n - m);
    PowPositive(b, n - m);
    MulLe(Pow(b, m), 1, Pow(b, n - m));
  }

  lemma PowSwap(b: nat, m: nat, n: nat)
    ensures Pow(Pow(b, m), n) == Pow(Pow(b, n), m)
  {
    PowMul(b, m, n);
    PowMul(b, n, m);
    assert m * n == n * m;
  }

  lemma PowReflect(x: nat, y: nat, k: nat)
    requires k > 0 && Pow(x, k) <= Pow(y, k)
    ensures x <= y
  {
    if y < x {
      PowStrict(y, x, k);
    }
  }

  lemma PowersCompare(a: nat, b: nat, p: nat, q: nat, m: nat, digits: nat)
    requires Pow(a, q) <= Pow(b, p) && digits == p * m
    ensures Pow(Pow(a, m), q) <= Pow(b, digits)
  {
    PowSwap(a, m, q);
    PowMono(Pow(a, q), Pow(b, p), m);
    PowMul(b, p, m);
  }

  lemma PowersReflect(x: nat, b: nat, q: nat, n: nat, digits: nat)
    requires q > 0 && digits == n * q && Pow(x, q) <= Pow(b, digits)
    ensures x <= Pow(b, n)
  {
    PowMul(b, n, q);
    PowReflect(x, Pow(b, n), q);
  }

  /** If p digits of one base hold as much as q digits of another, then so do proportionally many. */
  lemma Proportion(a: nat, b: nat, p: nat, q: nat, m: nat, n: nat, few: nat, many: nat)
    requires b > 0 && q > 0 && Pow(a, q) <= Pow(b, p) && few == p * m && many == n * q && few <= many
    ensures Pow(a, m) <= Pow(b, n)
  {
    PowersCompare(a, b, p, q, m, few);
    PowLonger(b, few, many);
    PowersReflect(Pow(a, m), b, q, n, many);
  }

  // ----- Digits -----

  ghost predicate AreDigits(d: seq<nat>, base: nat) {
    forall i | 0 <= i < |d| :: d[i] < base
  }

  /** A number that starts with a given value and goes on with some digits. */
  function ValueFrom(high: nat, d: seq<nat>, base: nat): nat {
    if d == [] then high else ValueFrom(high, d[..|d| - 1], base) * base + d[|d| - 1]
  }

  function Value(d: seq<nat>, base: nat): nat {
    ValueFrom(0, d, base)
  }

  lemma {:induction false} ValuePrepend(high: nat, x: nat, d: seq<nat>, base: nat)
    ensures ValueFrom(high, [x] + d, base) == ValueFrom(high * base + x, d, base)
  {
    if d == [] {
      assert [x] + d == [x] && [x][..0] == [];
    } else {
      ValuePrepend(high, x, d[..|d| - 1], base);
      assert ([x] + d)[..|d|] == [x] + d[..|d| - 1];
    }
  }

  lemma {:induction false} ValueConcat(high: nat, a: seq<nat>, b: seq<nat>, base: nat)
    ensures ValueFrom(high, a + b, base) == ValueFrom(ValueFrom(high, a, base), b, base)
  {
    if b == [] {
      assert a + b == a;
    } else {
      ValueConcat(high, a, b[..|b| - 1], base);
      assert (a + b)[..|a + b| - 1] == a + b[..|b| - 1];
    }
  }

  lemma {:induction false} ValueZeros(d: seq<nat>, base: nat)
    requires forall i | 0 <= i < |d| :: d[i] == 0
    ensures Value(d, base) == 0
  {
    if d != [] {
      ValueZeros(d[..|d| - 1], base);
    }
  }

  lemma {:induction false} ValueBelow(d: seq<nat>, base: nat)
    requires base > 0 && AreDigits(d, base)
    ensures Value(d, base) < Pow(base, |d|)
  {
    if d != [] {
      ValueBelow(d[..|d| - 1], base);
      MulLe(base, Value(d[..|d| - 1], base) + 1, Pow(base, |d| - 1));
      MulDistr(base, Value(d[..|d| - 1], base), 1);
    }
  }

  lemma {:induction false} ValueAtLeast(high: nat, d: seq<nat>, base: nat)
    ensures ValueFrom(high, d, base) >= high * Pow(base, |d|)
  {
    if d != [] {
      ValueAtLeast(high, d[..|d| - 1], base);
      MulLe(base, high * Pow(base, |d| - 1), ValueFrom(high, d[..|d| - 1], base));
      MulSwap(base, high, Pow(base, |d| - 1));
    }
  }

  /** The digits of a number, without leading zeros. */
  function Digits(v: nat, base: nat): (d: seq<nat>)
    requires base >= 2
    ensures AreDigits(d, base)
  {
    if v == 0 then []
    else
      DivSmaller(v, base);
      Digits(v / base, base) + [v % base]
  }

  lemma ValueAppend(d: seq<nat>, x: nat, base: nat)
    ensures Value(d + [x], base) == Value(d, base) * base + x
  {
    assert (d + [x])[..|d|] == d;
  }

  lemma {:induction false} DigitsValue(v: nat, base: nat)
    requires base >= 2
    ensures Value(Digits(v, base), base) == v
  {
    if v > 0 {
      DivMod(v, base);
      DivSmaller(v, base);
      var q, x := v / base, v % base;
      DigitsValue(q, base);
      ValueAppend(Digits(q, base), x, base);
      assert Digits(v, base) == Digits(q, base) + [x];
    }
  }

  lemma {:induction false} DigitsLead(v: nat, base: nat)
    requires base >= 2 && v > 0
    ensures Digits(v, base) != [] && Digits(v, base)[0] != 0
  {
    DivSmaller(v, base);
    if v / base > 0 {
      DigitsLead(v / base, base);
    }
  }

  lemma LeadingPositive(d: seq<nat>, base: nat)
    requires base >= 2 && d != [] && d[0] != 0
    ensures Value(d, base) > 0
  {
    ValueAtLeast(d[0], d[1..], base);
    assert [d[0]] + d[1..] == d;
    ValuePrepend(0, d[0], d[1..], base);
    PowPositive(base, |d| - 1);
    MulLe(Pow(base, |d| - 1), 1, d[0]);
  }

  lemma DigitsAppend(v: nat, last: nat, base: nat)
    requires base >= 2 && last < base && v * base + last > 0
    ensures Digits(v * base + last, base) == Digits(v, base) + [last]
  {
    DivUnique(v * base + last, base, v, last);
  }

  /** Digits without leading zeros are the only ones for their value. */
  lemma {:induction false} DigitsUnique(d: seq<nat>, base: nat)
    requires base >= 2 && AreDigits(d, base) && (d != [] ==> d[0] != 0)
    ensures Digits(Value(d, base), base) == d
  {
    if d != [] {
      var front, last := d[..|d| - 1], d[|d| - 1];
      DigitsUnique(front, base);
      assert d == front + [last];
      ValueAppend(front, last, base);
      LeadingPositive(d, base);
      DigitsAppend(Value(front, base), last, base);
    }
  }
}
