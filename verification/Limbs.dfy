/** Numbers as sequences of 32-bit limbs, least significant first, and their bits. */
module Limbs {
  import opened Numbers

  const BASE: nat := 0x1_0000_0000

  type Limb = x: int | 0 <= x < BASE

  /** The two parts into which a shift cuts a limb. */
  lemma Halves(s: nat)
    requires s <= 32
    ensures Pow2(s) * Pow2(32 - s) == BASE && Pow2(s) <= BASE
  {
    Pow2Values();
    Pow2Add(s, 32 - s);
    MulLe(Pow2(s), 1, Pow2(32 - s));
  }

  /** A number moved up by i limbs. */
  ghost function Scale(x: int, i: nat): int {
    if i == 0 then x else BASE * Scale(x, i - 1)
  }

  lemma {:induction false} ScaleAdd(x: int, y: int, i: nat)
    ensures Scale(x + y, i) == Scale(x, i) + Scale(y, i)
  {
    if i > 0 {
      ScaleAdd(x, y, i - 1);
    }
  }

  lemma {:induction false} ScaleCarry(x: int, c: int, i: nat)
    ensures Scale(x + BASE * c, i) == Scale(x, i) + Scale(c, i + 1)
  {
    if i > 0 {
      ScaleCarry(x, c, i - 1);
    }
  }

  lemma {:induction false} ScaleMono(x: int, y: int, i: nat)
    requires x <= y
    ensures Scale(x, i) <= Scale(y, i) && (x < y ==> Scale(x, i) < Scale(y, i))
  {
    if i > 0 {
      ScaleMono(x, y, i - 1);
    }
  }

  lemma {:induction false} ScaleZero(i: nat)
    ensures Scale(0, i) == 0
  {
    if i > 0 {
      ScaleZero(i - 1);
    }
  }

  lemma {:induction false} ScaleMul(x: int, y: int, i: nat)
    ensures Scale(x * y, i) == x * Scale(y, i)
  {
    if i > 0 {
      ScaleMul(x, y, i - 1);
      MulSwap(x, BASE, Scale(y, i - 1));
    }
  }

  lemma {:induction false} ScaleTwice(x: int, i: nat, j: nat)
    ensures Scale(Scale(x, i), j) == Scale(x, i + j)
  {
    if j > 0 {
      ScaleTwice(x, i, j - 1);
    }
  }

  lemma {:induction false} ScaleIsPower(i: nat)
    ensures Scale(1, i) == Pow2(32 * i)
  {
    if i > 0 {
      ScaleIsPower(i - 1);
      Pow2Values();
      Pow2Add(32, 32 * (i - 1));
    }
  }

  lemma ScaleIsProduct(x: int, i: nat)
    ensures Scale(x, i) == x * Pow2(32 * i)
  {
    ScaleIsPower(i);
    ScaleMul(x, 1, i);
  }

  /** The value of the first n limbs. */
  ghost function Value(s: seq<Limb>, n: nat): int
    requires n <= |s|
  {
    if n == 0 then 0 else Value(s, n - 1) + Scale(s[n - 1], n - 1)
  }

  lemma {:induction false} ValueSame(s: seq<Limb>, t: seq<Limb>, n: nat)
    requires n <= |s| && n <= |t| && forall i | 0 <= i < n :: s[i] == t[i]
    ensures Value(s, n) == Value(t, n)
  {
    if n > 0 {
      ValueSame(s, t, n - 1);
    }
  }

  /** Changing one limb changes the value by its weight. */
  lemma {:induction false} ValueUpdate(s: seq<Limb>, i: nat, x: Limb, n: nat)
    requires i < n <= |s|
    ensures Value(s[i := x], n) == Value(s, n) + Scale(x - s[i], i)
  {
    if i == n - 1 {
      ValueSame(s, s[i := x], n - 1);
      var now: int, was: int := x, s[i];
      ScaleAdd(now - was, was, i);
    } else {
      ValueUpdate(s, i, x, n - 1);
    }
  }

  lemma {:induction false} ValueBound(s: seq<Limb>, n: nat)
    requires n <= |s|
    ensures 0 <= Value(s, n) < Scale(1, n)
  {
    if n > 0 {
      ValueBound(s, n - 1);
      ScaleZero(n - 1);
      ScaleMono(0, s[n - 1], n - 1);
      ScaleMono(s[n - 1], BASE - 1, n - 1);
      ScaleAdd(BASE - 1, 1, n - 1);
      ScaleCarry(0, 1, n - 1);
    }
  }

  lemma {:induction false} ValueZero(s: seq<Limb>, n: nat)
    requires n <= |s|
    ensures Value(s, n) == 0 <==> forall i | 0 <= i < n :: s[i] == 0
  {
    if n > 0 {
      ValueZero(s, n - 1);
      ValueBound(s, n - 1);
      ScaleZero(n - 1);
      ScaleMono(0, s[n - 1], n - 1);
    }
  }

  /** Limbs from m on form a number of their own, moved up by m limbs. */
  lemma {:induction false} ValueSplit(s: seq<Limb>, m: nat, n: nat) returns (high: nat)
    requires m <= n <= |s|
    ensures Value(s, n) == Value(s, m) + Scale(high, m)
  {
    if m == n {
      high := 0;
      ScaleZero(m);
    } else {
      var h := ValueSplit(s, m, n - 1);
      ScaleZero(n - 1 - m);
      ScaleMono(0, s[n - 1], n - 1 - m);
      ScaleTwice(s[n - 1], n - 1 - m, m);
      high := h + Scale(s[n - 1], n - 1 - m);
      ScaleAdd(h, Scale(s[n - 1], n - 1 - m), m);
    }
  }

  lemma {:induction false} ValueTop(s: seq<Limb>, m: nat, n: nat)
    requires m <= n <= |s| && forall i | m <= i < n :: s[i] == 0
    ensures Value(s, n) == Value(s, m)
  {
    if m < n {
      ValueTop(s, m, n - 1);
      ScaleZero(n - 1);
    }
  }

  /** The highest limb that differs decides. */
  lemma {:induction false} ValueCompare(s: seq<Limb>, t: seq<Limb>, i: nat, n: nat)
    requires i < n <= |s| && n <= |t|
    requires s[i] < t[i] && forall j | i < j < n :: s[j] == t[j]
    ensures Value(s, n) < Value(t, n)
  {
    if i == n - 1 {
      var limb: int := s[i];
      ValueBound(s, i);
      ValueBound(t, i);
      ScaleMono(limb + 1, t[i], i);
      ScaleAdd(limb, 1, i);
    } else {
      ValueCompare(s, t, i, n - 1);
    }
  }

  // ----- Bits -----

  /** Bitwise or of natural numbers. */
  function Or(x: nat, y: nat): nat
    decreases x + y
  {
    if x == 0 && y == 0 then 0
    else 2 * Or(x / 2, y / 2) + if x % 2 == 1 || y % 2 == 1 then 1 else 0
  }

  lemma {:induction false} OrZero(x: nat)
    ensures Or(x, 0) == x == Or(0, x)
  {
    if x > 0 {
      OrZero(x / 2);
    }
  }

  /** Numbers without a common bit are added. */
  lemma {:induction false} OrDisjoint(x: nat, y: nat, m: nat)
    requires x % Pow2(m) == 0 && y < Pow2(m)
    ensures Or(x, y) == x + y == Or(y, x)
    decreases m
  {
    if m == 0 {
      OrZero(x);
    } else {
      var d := Pow2(m - 1);
      var q := x / Pow2(m);
      DivBounds(x, Pow2(m));
      assert x == 2 * (d * q) by {
        MulAssoc(2, d, q);
      }
      assert x / 2 == d * q && x % 2 == 0;
      DivUnique(x / 2, d, q, 0);
      OrDisjoint(x / 2, y / 2, m - 1);
      assert x != 0 || y != 0 ==> Or(x, y) == 2 * Or(x / 2, y / 2) + y % 2;
      assert x != 0 || y != 0 ==> Or(y, x) == 2 * Or(y / 2, x / 2) + y % 2;
    }
  }

  /** Setting a bit that is not set adds it. */
  lemma {:induction false} OrBit(x: nat, c: nat)
    requires Shr(x, c) % 2 == 0
    ensures Or(x, Pow2(c)) == x + Pow2(c)
    decreases c
  {
    if c == 0 {
      OrZero(x / 2);
      assert Or(x, 1) == 2 * Or(x / 2, 0) + 1;
    } else {
      ShrTwice(x, 1, c - 1);
      OrBit(x / 2, c - 1);
      assert Or(x, Pow2(c)) == 2 * Or(x / 2, Pow2(c - 1)) + x % 2;
    }
  }

  /** The number of bits up to the highest one that is set. */
  function BitLength(x: nat): nat {
    if x == 0 then 0 else 1 + BitLength(x / 2)
  }

  lemma {:induction false} BitLengthBounds(x: nat)
    ensures x < Pow2(BitLength(x))
    ensures x > 0 ==> BitLength(x) > 0 && Pow2(BitLength(x) - 1) <= x
  {
    if x > 0 {
      BitLengthBounds(x / 2);
    }
  }

  lemma BitLengthUnique(x: nat, n: nat)
    requires x < Pow2(n) && (n > 0 ==> Pow2(n - 1) <= x)
    ensures BitLength(x) == n
  {
    BitLengthBounds(x);
    var b := BitLength(x);
    if b < n {
      Pow2Mono(b, n - 1);
    } else if n < b {
      Pow2Mono(n, b - 1);
    }
  }

  lemma {:induction false} BitLengthMono(x: nat, y: nat)
    requires x <= y
    ensures BitLength(x) <= BitLength(y)
  {
    if x > 0 {
      BitLengthMono(x / 2, y / 2);
    }
  }

  // ----- Shifts of natural numbers -----

  function Shl(x: nat, n: nat): nat {
    if n == 0 then x else 2 * Shl(x, n - 1)
  }

  function Shr(x: nat, n: nat): nat {
    if n == 0 then x else Shr(x, n - 1) / 2
  }

  lemma {:induction false} ShlIsProduct(x: nat, n: nat)
    ensures Shl(x, n) == x * Pow2(n)
  {
    if n > 0 {
      ShlIsProduct(x, n - 1);
      MulSwap(x, 2, Pow2(n - 1));
    }
  }

  lemma {:induction false} ShrIsQuotient(x: nat, n: nat)
    ensures Shr(x, n) == x / Pow2(n)
  {
    if n > 0 {
      ShrIsQuotient(x, n - 1);
      DivDiv(x, Pow2(n - 1), 2);
    }
  }

  lemma {:induction false} ShlZero(n: nat)
    ensures Shl(0, n) == 0 && Shr(0, n) == 0
  {
    if n > 0 {
      ShlZero(n - 1);
    }
  }

  lemma {:induction false} ShlMono(x: nat, y: nat, n: nat)
    requires x <= y
    ensures Shl(x, n) <= Shl(y, n)
  {
    if n > 0 {
      ShlMono(x, y, n - 1);
    }
  }

  lemma {:induction false} ShrMono(x: nat, y: nat, n: nat)
    requires x <= y
    ensures Shr(x, n) <= Shr(y, n)
  {
    if n > 0 {
      ShrMono(x, y, n - 1);
    }
  }

  lemma {:induction false} ShrTwice(x: nat, m: nat, n: nat)
    ensures Shr(Shr(x, m), n) == Shr(x, m + n)
  {
    if n > 0 {
      ShrTwice(x, m, n - 1);
    }
  }

  lemma {:induction false} ShrOfShl(x: nat, m: nat, n: nat)
    requires n <= m
    ensures Shr(Shl(x, m), n) == Shl(x, m - n)
  {
    if n > 0 {
      ShrOfShl(x, m, n - 1);
    }
  }

  /** Shifting right and back left clears the lowest bits. */
  lemma ShlOfShr(x: nat, n: nat)
    ensures Shl(Shr(x, n), n) == x - x % Pow2(n) <= x
  {
    ShrIsQuotient(x, n);
    ShlIsProduct(Shr(x, n), n);
    DivBounds(x, Pow2(n));
  }

  lemma {:induction false} ShlBounds(x: nat, b: nat, n: nat)
    ensures x < Pow2(b) ==> Shl(x, n) < Pow2(b + n)
    ensures Pow2(b) <= x ==> Pow2(b + n) <= Shl(x, n)
  {
    if n > 0 {
      ShlBounds(x, b, n - 1);
    }
  }

  lemma {:induction false} ShrBounds(x: nat, b: nat, n: nat)
    requires n <= b
    ensures x < Pow2(b) ==> Shr(x, n) < Pow2(b - n)
    ensures Pow2(b) <= x ==> Pow2(b - n) <= Shr(x, n)
  {
    if n > 0 {
      ShrBounds(x, b, n - 1);
    }
  }
}
