/**
 256-bit unsigned integers in eight limbs.  Every loop over limbs is shown to compute the
 operation on numbers, modulo 2^256 where it can overflow.
 */
module ArithUint256 {
  import opened Numbers
  import opened Limbs

  const WIDTH: nat := 8

  const BITS: nat := 32 * WIDTH

  /** 2^256. */
  ghost function Modulus(): nat {
    Pow2(BITS)
  }

  /** What is left after whole multiples of 2^256 are lost. */
  lemma Wrapped(v: int, lost: int, total: int)
    requires 0 <= v < Scale(1, WIDTH) && v + Scale(lost, WIDTH) == total
    ensures 0 <= v < Modulus() && v == total % Modulus()
  {
    ScaleIsProduct(lost, WIDTH);
    ScaleIsPower(WIDTH);
    DivUnique(total, Modulus(), lost, v);
  }

  /** Multiplying by one factor of a product modulo that product. */
  lemma ScaleModulo(x: int, a: nat, b: nat, m: nat)
    requires 0 <= x < m && a > 0 && b > 0 && a * b == m
    ensures x * a == (x % b) * a + m * (x / b)
    ensures 0 <= (x % b) * a < m && 0 <= x / b < a
    ensures (x * a) % m == (x % b) * a
  {
    var q, r := x / b, x % b;
    DivBounds(x, b);
    assert x * a == (b * q) * a + r * a by {
      MulDistr(a, b * q, r);
    }
    assert (b * q) * a == m * q by {
      MulAssoc(a, b, q);
    }
    MulLe(a, 0, r);
    MulLe(a, r, b - 1);
    assert a * (b - 1) == m - a;
    DivUnique(x * a, m, q, r * a);
    if q >= a {
      MulLe(b, a, q);
    }
  }

  /** A limb shifted left: the part that stays, and the part that moves to the next limb. */
  method SplitLimb(x: Limb, s: nat) returns (low: Limb, high: Limb)
    requires s < 32
    ensures low == (x * Pow2(s)) % BASE && high == x / Pow2(32 - s)
    ensures x * Pow2(s) == low + BASE * high
    ensures low % Pow2(s) == 0 && high < Pow2(s) && (s == 0 ==> high == 0)
  {
    Halves(s);
    ScaleModulo(x, Pow2(s), Pow2(32 - s), BASE);
    DivUnique((x % Pow2(32 - s)) * Pow2(s), Pow2(s), x % Pow2(32 - s), 0);
    low, high := (x * Pow2(s)) % BASE, x / Pow2(32 - s);
  }

  lemma SumFits(high: Limb, low: Limb, m: nat)
    requires m <= 32 && high % Pow2(m) == 0 && low < Pow2(m)
    ensures high + low < BASE
  {
    Halves(m);
    MultipleBelow(high, Pow2(m), Pow2(32 - m));
  }

  lemma ShrTop(x: Limb, s: nat)
    requires s < 32
    ensures 0 <= x / Pow2(s) < Pow2(32 - s)
  {
    Halves(s);
    DivBelow(x, Pow2(s), Pow2(32 - s));
  }

  /** A product of limbs and two more limbs fit into 64 bits. */
  lemma ProductFits(x: Limb, y: Limb, c: Limb, d: Limb)
    ensures 0 <= c + d + x * y < BASE * BASE
  {
    MulLe(x, 0, y);
    MulLe(x, y, BASE - 1);
    MulLe(BASE - 1, x, BASE - 1);
  }

  lemma MulZero(x: int)
    ensures 0 * x == 0
  {
  }

  /** What a limb at a position adds, if the position exists. */
  ghost function Part(x: int, t: nat): int {
    if t < WIDTH then Scale(x, t) else 0
  }

  /** What is lost when a number is moved up beyond the top. */
  lemma ShlLost(n: nat, low: nat, high: nat, t: nat) returns (lost: int)
    requires n == low + BASE * high
    ensures Part(low, t) + Part(high, t + 1) + Scale(lost, WIDTH) == Scale(n, t)
  {
    ScaleCarry(low, high, t);
    if t + 1 < WIDTH {
      lost := 0;
      ScaleZero(WIDTH);
    } else if t < WIDTH {
      lost := high;
    } else {
      lost := Scale(n, t - WIDTH);
      ScaleTwice(n, t - WIDTH, WIDTH);
    }
  }

  /** Limbs above position t are zero, and the one at t is small. */
  ghost predicate TopClear(s: seq<Limb>, t: nat, bound: nat) {
    (t < |s| ==> s[t] < bound) && forall j | t < j < |s| :: s[j] == 0
  }

  /** The lowest m bits are zero. */
  ghost predicate LowClear(s: seq<Limb>, m: nat) {
    forall j {:trigger LimbClear(s[j], m, j)} | 0 <= j < |s| :: LimbClear(s[j], m, j)
  }

  ghost predicate LimbClear(x: Limb, m: nat, j: nat) {
    (32 * (j + 1) <= m ==> x == 0) && (32 * j <= m < 32 * (j + 1) ==> x % Pow2(m - 32 * j) == 0)
  }

  /** Setting the highest of the lowest bits, or leaving it, keeps the others clear. */
  lemma ClearBelow(s: seq<Limb>, m: nat)
    requires LowClear(s, m + 1)
    ensures LowClear(s, m)
  {
    forall j | 0 <= j < |s| ensures LimbClear(s[j], m, j) {
      assert LimbClear(s[j], m + 1, j);
      if 32 * j <= m < 32 * (j + 1) - 1 {
        HalfMultiple(s[j], m - 32 * j);
      }
    }
  }

  lemma HalfMultiple(x: nat, c: nat)
    requires x % Pow2(c + 1) == 0
    ensures x % Pow2(c) == 0
  {
    var q := x / Pow2(c + 1);
    DivBounds(x, Pow2(c + 1));
    assert Pow2(c + 1) * q == Pow2(c) * (2 * q) by {
      MulAssoc(Pow2(c), 2, q);
    }
    DivUnique(x, Pow2(c), 2 * q, 0);
  }

  class ArithUint256 {
    const pn: array<Limb>

    ghost predicate Valid() {
      pn.Length == WIDTH
    }

    /** The number that the limbs stand for. */
    ghost function V(): nat
      requires Valid()
      reads pn
    {
      ValueBound(pn[..], WIDTH);
      Value(pn[..], WIDTH)
    }

    lemma Bounded()
      requires Valid()
      ensures 0 <= V() < Scale(1, WIDTH) == Modulus()
    {
      ValueBound(pn[..], WIDTH);
      ScaleIsPower(WIDTH);
    }

    /** Overwrites one limb. */
    method SetLimb(i: nat, x: Limb)
      requires Valid() && i < WIDTH
      modifies pn
      ensures pn[..] == old(pn[..])[i := x] && V() == old(V()) + Scale(x - old(pn[i]), i)
    {
      ValueUpdate(pn[..], i, x, WIDTH);
      pn[i] := x;
    }

    constructor (b: nat)
      requires b < BASE * BASE
      ensures Valid() && fresh(pn) && V() == b
    {
      pn := new Limb[WIDTH](_ => 0);
      new;
      ValueZero(pn[..], WIDTH);
      SetLimb(0, b % BASE);
      SetLimb(1, b / BASE);
      ScaleCarry(b % BASE, b / BASE, 0);
    }

    constructor Copy(b: ArithUint256)
      requires b.Valid()
      ensures Valid() && fresh(pn) && pn[..] == b.pn[..] && V() == b.V()
    {
      pn := new Limb[WIDTH](i requires 0 <= i < WIDTH && b.Valid() reads b, b.pn => b.pn[i]);
      new;
      assert pn[..] == b.pn[..];
    }

    method Clear()
      requires Valid()
      modifies pn
      ensures V() == 0 && forall j | 0 <= j < WIDTH :: pn[j] == 0
    {
      for i := 0 to WIDTH
        invariant forall j | 0 <= j < i :: pn[j] == 0
      {
        pn[i] := 0;
      }
      ValueZero(pn[..], WIDTH);
    }

    // ----- Addition and subtraction -----

    /** Stores the low half of a 64-bit sum in a limb and gives the carry. */
    method PutSum(i: nat, n: nat) returns (carry: nat)
      requires Valid() && i < WIDTH && n < BASE * BASE
      modifies pn
      ensures carry < BASE && pn[..] == old(pn[..])[i := n % BASE]
      ensures V() + Scale(carry, i + 1) == old(V()) + Scale(n - old(pn[i]), i)
    {
      var p: int := pn[i];
      carry := n / BASE;
      ScaleCarry(n % BASE - p, carry, i);
      SetLimb(i, n % BASE);
    }

    method AddAssign(b: ArithUint256)
      requires Valid() && b.Valid()
      modifies pn
      ensures V() == (old(V()) + old(b.V())) % Modulus()
    {
      ghost var b0 := b.pn[..];
      var carry := 0;
      for i := 0 to WIDTH
        invariant 0 <= carry < BASE
        invariant forall j | i <= j < WIDTH :: b.pn[j] == b0[j]
        invariant V() + Scale(carry, i) == old(V()) + Value(b0, i)
      {
        var n := carry + pn[i] + b.pn[i];
        ScaleAdd(carry, b0[i], i);
        carry := PutSum(i, n);
      }
      Bounded();
      Wrapped(V(), carry, old(V()) + old(b.V()));
    }

    /** Complements every bit. */
    method Complement() returns (ret: ArithUint256)
      requires Valid()
      ensures fresh(ret) && ret.Valid() && fresh(ret.pn) && ret.V() == Modulus() - 1 - V()
    {
      ret := new ArithUint256(0);
      ValueZero(ret.pn[..], WIDTH);
      for i := 0 to WIDTH
        invariant fresh(ret) && ret.Valid() && fresh(ret.pn) && pn[..] == old(pn[..])
        invariant forall j | i <= j < WIDTH :: ret.pn[j] == 0
        invariant ret.V() == Scale(1, i) - 1 - Value(pn[..], i)
      {
        var x: int := pn[i];
        ret.SetLimb(i, BASE - 1 - x);
        ScaleAdd(BASE - 1 - x, x, i);
        ScaleAdd(BASE - 1, 1, i);
        ScaleCarry(0, 1, i);
        ScaleZero(i);
      }
      ret.Bounded();
    }

    method IncrementLimb(i: nat) returns (next: Limb)
      requires Valid() && i < WIDTH
      modifies pn
      ensures V() + (if next == 0 then Scale(1, i + 1) else 0) == old(V()) + Scale(1, i)
    {
      var x: int := pn[i];
      next := (x + 1) % BASE;
      ScaleCarry(next - x, if next == 0 then 1 else 0, i);
      ScaleZero(i + 1);
      SetLimb(i, next);
    }

    method Increment()
      requires Valid()
      modifies pn
      ensures V() == (old(V()) + 1) % Modulus()
    {
      var i := 0;
      var next := IncrementLimb(i);
      while next == 0 && i < WIDTH - 1
        invariant 0 <= i < WIDTH && V() + (if next == 0 then Scale(1, i + 1) else 0) == old(V()) + 1
      {
        i := i + 1;
        next := IncrementLimb(i);
      }
      Bounded();
      ScaleZero(WIDTH);
      Wrapped(V(), if next == 0 then 1 else 0, old(V()) + 1);
    }

    method DecrementLimb(i: nat) returns (next: Limb)
      requires Valid() && i < WIDTH
      modifies pn
      ensures V() - (if next == BASE - 1 then Scale(1, i + 1) else 0) == old(V()) - Scale(1, i)
    {
      var x: int := pn[i];
      next := (x - 1) % BASE;
      var borrow := if next == BASE - 1 then 1 else 0;
      ScaleCarry(-1, borrow, i);
      ScaleAdd(-1, 1, i);
      ScaleZero(i);
      ScaleZero(i + 1);
      SetLimb(i, next);
    }

    method Decrement()
      requires Valid()
      modifies pn
      ensures V() == (old(V()) - 1) % Modulus()
    {
      var i := 0;
      var next := DecrementLimb(i);
      while next == BASE - 1 && i < WIDTH - 1
        invariant 0 <= i < WIDTH && V() - (if next == BASE - 1 then Scale(1, i + 1) else 0) == old(V()) - 1
      {
        i := i + 1;
        next := DecrementLimb(i);
      }
      Bounded();
      ScaleZero(WIDTH);
      ScaleAdd(-1, 1, WIDTH);
      Wrapped(V(), if next == BASE - 1 then -1 else 0, old(V()) - 1);
    }

    method Negate() returns (ret: ArithUint256)
      requires Valid()
      ensures fresh(ret) && ret.Valid() && fresh(ret.pn) && ret.V() == (Modulus() - V()) % Modulus()
    {
      ret := Complement();
      ret.Increment();
    }

    method SubAssign(b: ArithUint256)
      requires Valid() && b.Valid()
      modifies pn
      ensures V() == (old(V()) - old(b.V())) % Modulus()
    {
      Bounded();
      b.Bounded();
      ghost var x: int, y: int := V(), b.V();
      var minus := b.Negate();
      AddAssign(minus);
      if y == 0 {
        DivUnique(Modulus(), Modulus(), 1, 0);
      } else {
        DivUnique(Modulus() - y, Modulus(), 0, Modulus() - y);
        DivShift(x - y, 1, Modulus());
      }
    }

    // ----- Multiplication -----

    method MulAssign32(b32: Limb)
      requires Valid()
      modifies pn
      ensures V() == (old(V()) * b32) % Modulus()
    {
      ghost var a := pn[..];
      var carry := 0;
      for i := 0 to WIDTH
        invariant 0 <= carry < BASE
        invariant forall j | i <= j < WIDTH :: pn[j] == a[j]
        invariant V() + Scale(carry, i) == Value(a, WIDTH) - Value(a, i) + Value(a, i) * b32
      {
        ProductFits(b32, pn[i], carry, 0);
        var n := carry + b32 * pn[i];
        ScaleRow(a[i], b32, carry, Value(a, i), i);
        carry := PutSum(i, n);
      }
      Bounded();
      Wrapped(V(), carry, old(V()) * b32);
    }

    static lemma ScaleRow(x: int, b: int, carry: int, v: int, i: nat)
      ensures Scale(carry + b * x - x, i) == Scale(carry, i) - Scale(x, i) + b * Scale(x, i)
      ensures (v + Scale(x, i)) * b == v * b + b * Scale(x, i)
    {
      ScaleAdd(carry + b * x - x, x, i);
      ScaleAdd(carry, b * x, i);
      ScaleMul(b, x, i);
      MulDistr(b, v, Scale(x, i));
    }

    /** The inner loop of the schoolbook product: adds a multiple of b, moved up j limbs, as far as it fits. */
    method AddRow(x: Limb, b: ArithUint256, j: nat) returns (carry: nat)
      requires Valid() && b.Valid() && b.pn != pn && j <= WIDTH
      modifies pn
      ensures V() + Scale(carry, WIDTH) == old(V()) + Scale(x * Value(b.pn[..], WIDTH - j), j)
    {
      ghost var bs, start := b.pn[..], V();
      carry := 0;
      MulZero(x);
      ScaleZero(j);
      var i := 0;
      while i + j < WIDTH
        invariant 0 <= i <= WIDTH - j && 0 <= carry < BASE && b.pn[..] == bs
        invariant V() + Scale(carry, i + j) == start + Scale(x * Value(bs, i), j)
      {
        ProductFits(x, b.pn[i], carry, pn[i + j]);
        var n := carry + pn[i + j] + x * b.pn[i];
        RowStep(x, bs[i], carry, Value(bs, i), i, j);
        carry := PutSum(i + j, n);
        i := i + 1;
      }
    }

    static lemma RowStep(x: int, y: int, carry: int, v: int, i: nat, j: nat)
      ensures Scale(carry + x * y, i + j) == Scale(carry, i + j) + Scale(x * y, i + j)
      ensures Scale(x * (v + Scale(y, i)), j) == Scale(x * v, j) + Scale(x * y, i + j)
    {
      ScaleAdd(carry, x * y, i + j);
      MulDistr(x, v, Scale(y, i));
      ScaleMul(x, y, i);
      ScaleAdd(x * v, Scale(x * y, i), j);
      ScaleTwice(x * y, i, j);
    }

    /** The limbs of b that do not fit would only have added a multiple of 2^256. */
    static lemma RowLost(bs: seq<Limb>, j: nat, x: int, carry: int) returns (lost: int)
      requires |bs| == WIDTH && j <= WIDTH
      ensures Scale(x * Value(bs, WIDTH - j), j) - Scale(carry, WIDTH) == Scale(x * Value(bs, WIDTH), j) - Scale(lost, WIDTH)
    {
      var high := ValueSplit(bs, WIDTH - j, WIDTH);
      lost := carry + x * high;
      RowStep(x, high, carry, Value(bs, WIDTH - j), WIDTH - j, j);
    }

    /**
     The product, unless a number is multiplied into itself: the accumulator is cleared first,
     which then clears the factor as well.
     */
    method MulAssign(b: ArithUint256)
      requires Valid() && b.Valid()
      modifies pn
      ensures b.pn != pn ==> V() == (old(V()) * old(b.V())) % Modulus()
      ensures b.pn == pn ==> V() == 0
      ensures V() == (old(V()) * old(b.V())) % Modulus() <==> b.pn != pn || (old(V()) * old(V())) % Modulus() == 0
    {
      var a := new ArithUint256.Copy(this);
      Clear();
      if b.pn == pn {
        MulByZero(a, b);
        return;
      }
      ghost var lost := 0;
      ScaleZero(WIDTH);
      MulZero(b.V());
      for j := 0 to WIDTH
        invariant a.pn != pn && a.pn[..] == old(pn[..]) && b.pn[..] == old(b.pn[..])
        invariant V() + Scale(lost, WIDTH) == Value(a.pn[..], j) * b.V()
      {
        var carry := AddRow(a.pn[j], b, j);
        ghost var more := RowLost(b.pn[..], j, a.pn[j], carry);
        ProductStep(Value(a.pn[..], j), a.pn[j], b.V(), j);
        ScaleAdd(lost, more, WIDTH);
        lost := lost + more;
      }
      Bounded();
      Wrapped(V(), lost, a.V() * b.V());
    }

    static lemma ProductStep(v: int, x: int, b: int, j: nat)
      ensures (v + Scale(x, j)) * b == v * b + Scale(x * b, j)
    {
      MulDistr(b, v, Scale(x, j));
      ScaleMul(b, x, j);
    }

    /** The same loops when the factor has just been cleared: nothing is ever added. */
    method MulByZero(a: ArithUint256, b: ArithUint256)
      requires Valid() && a.Valid() && b.pn == pn && a.pn != pn && forall j | 0 <= j < WIDTH :: pn[j] == 0
      modifies pn
      ensures V() == 0
    {
      for j := 0 to WIDTH
        invariant forall l | 0 <= l < WIDTH :: pn[l] == 0
      {
        var carry: nat := 0;
        var i := 0;
        while i + j < WIDTH
          invariant carry == 0 && 0 <= i <= WIDTH - j && forall l | 0 <= l < WIDTH :: pn[l] == 0
        {
          MulZero(a.pn[j]);
          var n := carry + pn[i + j] + a.pn[j] * b.pn[i];
          pn[i + j] := n % BASE;
          carry := n / BASE;
          i := i + 1;
        }
      }
      ValueZero(pn[..], WIDTH);
    }

    // ----- Shifts -----

    /** Combines a limb with bits that it does not have yet. */
    method OrLimb(i: nat, x: Limb, ghost m: nat)
      requires Valid() && i < WIDTH && m <= 32
      requires pn[i] == 0 || (pn[i] < Pow2(m) && x % Pow2(m) == 0) || (x < Pow2(m) && pn[i] % Pow2(m) == 0)
      modifies pn
      ensures old(pn[i]) + x < BASE && pn[..] == old(pn[..])[i := old(pn[i]) + x]
      ensures V() == old(V()) + Scale(x, i)
    {
      if pn[i] == 0 {
        OrZero(x);
      } else if pn[i] < Pow2(m) && x % Pow2(m) == 0 {
        OrDisjoint(x, pn[i], m);
        SumFits(x, pn[i], m);
      } else {
        OrDisjoint(pn[i], x, m);
        SumFits(pn[i], x, m);
      }
      SetLimb(i, Or(pn[i], x));
    }

    method OrShifted(t: nat, low: Limb, high: Limb, s: nat)
      requires Valid() && s < 32 && TopClear(pn[..], t, Pow2(s))
      requires low % Pow2(s) == 0 && high < Pow2(s) && (s == 0 ==> high == 0)
      modifies pn
      ensures V() == old(V()) + Part(low, t) + Part(high, t + 1)
      ensures TopClear(pn[..], t + 1, Pow2(s))
    {
      assert t + 1 < WIDTH ==> pn[..][t + 1] == 0;
      ScaleZero(t + 1);
      if t + 1 < WIDTH && s != 0 {
        OrLimb(t + 1, high, 0);
      }
      if t < WIDTH {
        OrLimb(t, low, s);
      }
    }

    /** Adds a limb, shifted and moved up to position t; what does not fit is lost. */
    method ShlLimb(t: nat, x: Limb, s: nat) returns (ghost lost: int)
      requires Valid() && s < 32 && TopClear(pn[..], t, Pow2(s))
      modifies pn
      ensures V() + Scale(lost, WIDTH) == old(V()) + Scale(x * Pow2(s), t)
      ensures TopClear(pn[..], t + 1, Pow2(s))
    {
      var low, high := SplitLimb(x, s);
      OrShifted(t, low, high, s);
      lost := ShlLost(x * Pow2(s), low, high, t);
    }

    method ShlAssign(shift: nat)
      requires Valid()
      modifies pn
      ensures V() == (old(V()) * Pow2(shift)) % Modulus()
    {
      var a := new ArithUint256.Copy(this);
      Clear();
      var k, s := shift / 32, shift % 32;
      ghost var lost := 0;
      ScaleZero(WIDTH);
      ScaleZero(k);
      MulZero(Pow2(s));
      for i := 0 to WIDTH
        invariant a.pn != pn && a.pn[..] == old(pn[..])
        invariant TopClear(pn[..], i + k, Pow2(s))
        invariant V() + Scale(lost, WIDTH) == Scale(Value(a.pn[..], i) * Pow2(s), k)
      {
        ghost var more := ShlLimb(i + k, a.pn[i], s);
        ShlStep(Value(a.pn[..], i), a.pn[i], Pow2(s), i, k);
        ScaleAdd(lost, more, WIDTH);
        lost := lost + more;
      }
      Bounded();
      ShlScale(a.V(), k, s);
      Wrapped(V(), lost, a.V() * Pow2(shift));
    }

    static lemma ShlStep(v: int, x: int, p: int, i: nat, k: nat)
      ensures Scale((v + Scale(x, i)) * p, k) == Scale(v * p, k) + Scale(x * p, i + k)
    {
      MulDistr(p, v, Scale(x, i));
      ScaleMul(p, x, i);
      ScaleAdd(v * p, Scale(x * p, i), k);
      ScaleTwice(x * p, i, k);
    }

    static lemma ShlScale(v: int, k: nat, s: nat)
      ensures Scale(v * Pow2(s), k) == v * Pow2(32 * k + s)
    {
      ScaleIsProduct(v * Pow2(s), k);
      Pow2Add(s, 32 * k);
      MulAssoc(v, Pow2(s), Pow2(32 * k));
    }

    /** Adds limb i of a number that is shifted right by i - t limbs and s bits. */
    method ShrLimb(t: nat, x: Limb, s: nat)
      requires Valid() && s < 32 && t < WIDTH && TopClear(pn[..], t, 1)
      requires t > 0 ==> pn[t - 1] < Pow2(32 - s)
      modifies pn
      ensures V() == old(V()) + if t > 0 && s > 0 then Scale(x * Pow2(32 - s), t - 1) else Scale(x / Pow2(s), t)
      ensures pn[t] < Pow2(32 - s) && TopClear(pn[..], t + 1, 1)
    {
      assert pn[..][t] == 0;
      if t > 0 && s != 0 {
        var low, high := SplitLimb(x, 32 - s);
        ScaleCarry(low, high, t - 1);
        OrLimb(t - 1, low, 32 - s);
        OrLimb(t, high, 0);
      } else {
        ShrTop(x, s);
        Halves(32 - s);
        OrLimb(t, x / Pow2(s), 0);
      }
    }

    method ShrAssign(shift: nat)
      requires Valid()
      modifies pn
      ensures V() == old(V()) / Pow2(shift)
    {
      var a := new ArithUint256.Copy(this);
      Clear();
      var k, s := shift / 32, shift % 32;
      for i := 0 to WIDTH
        invariant a.pn != pn && a.pn[..] == old(pn[..])
        invariant i > k ==> pn[i - k - 1] < Pow2(32 - s)
        invariant TopClear(pn[..], if i <= k then 0 else i - k, 1)
        invariant V() == Shifted(a.pn[..], i, k, s)
      {
        if i >= k {
          ShrStep(a.pn[..], i, k, s);
          ShrLimb(i - k, a.pn[i], s);
        }
      }
      a.Bounded();
      ShiftedOut(a.V(), k, s);
    }

    /** The quotient of the first i limbs. */
    static ghost function Shifted(a: seq<Limb>, i: nat, k: nat, s: nat): int
      requires i <= |a|
    {
      if i <= k then 0 else Value(a, i) / Pow2(32 * k + s)
    }

    static lemma ShiftedOut(v: nat, k: nat, s: nat)
      requires v < Modulus()
      ensures WIDTH <= k ==> v / Pow2(32 * k + s) == 0
    {
      if WIDTH <= k {
        Pow2Mono(BITS, 32 * k + s);
        DivUnique(v, Pow2(32 * k + s), 0, v);
      }
    }

    /** What one more limb does to the quotient. */
    static lemma ShrStep(a: seq<Limb>, i: nat, k: nat, s: nat)
      requires k <= i < |a| && s < 32
      ensures Shifted(a, i + 1, k, s) == Shifted(a, i, k, s) +
                if i > k && s > 0 then Scale(a[i] * Pow2(32 - s), i - k - 1) else Scale(a[i] / Pow2(s), i - k)
    {
      Pow2Add(32 * k, s);
      ScaleIsProduct(a[i], i);
      ScaleIsPower(k);
      if i == k {
        ValueBound(a, i);
        ValueBound(a, i + 1);
        DivDiv(Value(a, i + 1), Pow2(32 * k), Pow2(s));
        DivUnique(Value(a, i + 1), Pow2(32 * k), a[i], Value(a, i));
      } else if s == 0 {
        ScaleIsProduct(a[i], i - k);
        Pow2Add(32 * (i - k), 32 * k);
        MulAssoc(a[i], Pow2(32 * (i - k)), Pow2(32 * k));
        DivShift(Value(a, i), Scale(a[i], i - k), Pow2(32 * k));
      } else {
        ShrSplit(a[i], i, k, s);
        DivShift(Value(a, i), Scale(a[i] * Pow2(32 - s), i - k - 1), Pow2(32 * k + s));
      }
    }

    static lemma ShrSplit(x: int, i: nat, k: nat, s: nat)
      requires k < i && 0 < s < 32
      ensures Scale(x, i) == Scale(x * Pow2(32 - s), i - k - 1) * Pow2(32 * k + s)
    {
      var up := 32 - s + 32 * (i - k - 1);
      ScaleIsProduct(x * Pow2(32 - s), i - k - 1);
      Pow2Add(32 - s, 32 * (i - k - 1));
      MulAssoc(x, Pow2(32 - s), Pow2(32 * (i - k - 1)));
      Pow2Add(up, 32 * k + s);
      MulAssoc(x, Pow2(up), Pow2(32 * k + s));
      ScaleIsProduct(x, i);
    }

    // ----- Comparison and bit length -----

    method CompareTo(b: ArithUint256) returns (sign: int)
      requires Valid() && b.Valid()
      ensures sign < 0 <==> V() < b.V()
      ensures sign > 0 <==> V() > b.V()
    {
      var i := WIDTH;
      while i > 0
        invariant 0 <= i <= WIDTH && forall j | i <= j < WIDTH :: pn[j] == b.pn[j]
      {
        i := i - 1;
        if pn[i] < b.pn[i] {
          ValueCompare(pn[..], b.pn[..], i, WIDTH);
          return -1;
        }
        if pn[i] > b.pn[i] {
          ValueCompare(b.pn[..], pn[..], i, WIDTH);
          return 1;
        }
      }
      assert pn[..] == b.pn[..];
      sign := 0;
    }

    lemma LowLimbs()
      requires Valid()
      ensures Value(pn[..], 2) == pn[0] + BASE * pn[1]
    {
      assert Value(pn[..], 1) == Value(pn[..], 0) + Scale(pn[0], 0);
      assert Scale(pn[1], 1) == BASE * Scale(pn[1], 0);
    }

    method GetLow64() returns (low: nat)
      requires Valid()
      ensures low == V() % (BASE * BASE)
    {
      low := pn[0] + BASE * pn[1];
      ghost var high := ValueSplit(pn[..], 2, WIDTH);
      LowLimbs();
      assert Scale(high, 2) == BASE * Scale(high, 1) && Scale(high, 1) == BASE * Scale(high, 0);
      DivUnique(V(), BASE * BASE, high, low);
    }

    method EqualTo(b: nat) returns (equal: bool)
      requires Valid() && b < BASE * BASE
      ensures equal <==> V() == b
    {
      LowLimbs();
      ghost var s := pn[..];
      var i := WIDTH;
      while i > 2
        invariant 2 <= i <= WIDTH && forall j | i <= j < WIDTH :: pn[j] == 0
      {
        i := i - 1;
        if pn[i] != 0 {
          TooLarge(i);
          return false;
        }
      }
      ValueTop(s, 2, WIDTH);
      equal := pn[1] == b / BASE && pn[0] == b % BASE;
    }

    lemma TooLarge(i: nat)
      requires Valid() && 2 <= i < WIDTH && pn[i] != 0
      ensures V() >= BASE * BASE
    {
      var low := pn[..][i := 0];
      ValueUpdate(pn[..], i, 0, WIDTH);
      ValueBound(low, WIDTH);
      var limb: int := pn[i];
      ScaleMono(0 - limb, -1, i);
      ScaleAdd(-1, 1, i);
      ScaleZero(i);
      ScaleTwice(1, i - 2, 2);
      ScaleZero(i - 2);
      ScaleMono(0, 1, i - 2);
      ScaleMono(1, Scale(1, i - 2), 2);
      assert Scale(1, 2) == BASE * Scale(1, 1) && Scale(1, 1) == BASE * Scale(1, 0);
    }

    /** The position of the highest bit that is set, plus one. */
    method Bits() returns (bits: nat)
      requires Valid()
      ensures bits == BitLength(V()) <= BITS
    {
      Bounded();
      BitLengthFits(V(), BITS);
      var pos := WIDTH;
      while pos > 0
        invariant 0 <= pos <= WIDTH && forall j | pos <= j < WIDTH :: pn[j] == 0
      {
        pos := pos - 1;
        if pn[pos] != 0 {
          ValueTop(pn[..], pos + 1, WIDTH);
          var b := HighestBit(pn[pos]);
          TopBit(pn[..], pos, b);
          return 32 * pos + b + 1;
        }
      }
      ValueZero(pn[..], WIDTH);
      bits := 0;
    }

    static method HighestBit(x: Limb) returns (b: nat)
      requires x != 0
      ensures b <= 31 && Pow2(b) <= x < Pow2(b + 1)
    {
      b := 31;
      Halves(32);
      while b > 0
        invariant 0 <= b <= 31 && x < Pow2(b + 1)
      {
        HighBit(x, b);
        if (x / Pow2(b)) % 2 == 1 {
          return;
        }
        b := b - 1;
      }
    }

    static lemma HighBit(x: int, b: nat)
      requires 0 <= x < Pow2(b + 1)
      ensures (x / Pow2(b)) % 2 == 1 <==> Pow2(b) <= x
    {
      if x < Pow2(b) {
        DivUnique(x, Pow2(b), 0, x);
      } else {
        DivUnique(x, Pow2(b), 1, x - Pow2(b));
      }
    }

    static lemma BitLengthFits(x: nat, n: nat)
      requires x < Pow2(n)
      ensures BitLength(x) <= n
    {
      BitLengthBounds(x);
      if x > 0 && BitLength(x) - 1 >= n {
        Pow2Mono(n, BitLength(x) - 1);
      }
    }

    /** The highest bit of the highest limb that is not zero. */
    static lemma TopBit(s: seq<Limb>, pos: nat, b: nat)
      requires pos < |s| && Pow2(b) <= s[pos] < Pow2(b + 1)
      ensures Value(s, pos + 1) >= 0 && BitLength(Value(s, pos + 1)) == 32 * pos + b + 1
    {
      var limb: int := s[pos];
      ValueBound(s, pos);
      ScaleMono(Pow2(b), limb, pos);
      ScaleMono(limb + 1, Pow2(b + 1), pos);
      ScaleAdd(limb, 1, pos);
      ScaleIsProduct(Pow2(b), pos);
      ScaleIsProduct(Pow2(b + 1), pos);
      Pow2Add(b, 32 * pos);
      Pow2Add(b + 1, 32 * pos);
      BitLengthUnique(Value(s, pos + 1), 32 * pos + b + 1);
    }

    // ----- Division -----

    /** Sets a bit, all bits up to it being zero. */
    method SetBit(shift: nat)
      requires Valid() && shift < BITS && LowClear(pn[..], shift + 1)
      modifies pn
      ensures V() == old(V()) + Pow2(shift) && LowClear(pn[..], shift)
    {
      var j, c := shift / 32, shift % 32;
      ghost var s := pn[..];
      BitFits(s, shift);
      ClearBelow(s, shift);
      ShlScale(1, j, c);
      OrLimb(j, Pow2(c), c + 1);
      forall l | 0 <= l < WIDTH ensures LimbClear(pn[..][l], shift, l) {
        assert LimbClear(s[l], shift, l);
        if l == j {
          assert s[j] % Pow2(c) == 0;
          DivShift(s[j], 1, Pow2(c));
        }
      }
    }

    static lemma BitFits(s: seq<Limb>, shift: nat)
      requires |s| == WIDTH && shift < BITS && LowClear(s, shift + 1)
      ensures s[shift / 32] == 0 || s[shift / 32] % Pow2(shift % 32 + 1) == 0
      ensures Pow2(shift % 32) < Pow2(shift % 32 + 1) && Pow2(shift % 32) < BASE
    {
      assert LimbClear(s[shift / 32], shift + 1, shift / 32);
      Halves(shift % 32 + 1);
    }

    /** The divisor, aligned with the dividend. */
    static lemma Aligned(n: nat, d: nat, nb: nat, db: nat)
      requires 1 <= db <= nb <= BITS && n < Pow2(nb) && Pow2(db - 1) <= d < Pow2(db)
      ensures d * Pow2(nb - db) < Modulus() && n < d * Pow2(nb - db + 1)
    {
      Pow2Mono(nb, BITS);
      ScaledBelow(d, db, nb - db);
      ScaledAbove(d, db - 1, nb - db + 1);
    }

    static lemma AlignedBits(n: nat, d: nat, shift: nat)
      requires d > 0 && shift == BitLength(n) - BitLength(d) && BitLength(n) <= BITS
      ensures shift < BITS && (d * Pow2(shift)) % Modulus() == d * Pow2(shift) && n < d * Pow2(shift + 1)
    {
      BitLengthBounds(n);
      BitLengthBounds(d);
      Aligned(n, d, BitLength(n), BitLength(d));
      DivUnique(d * Pow2(shift), Modulus(), 0, d * Pow2(shift));
    }

    static lemma ScaledBelow(d: nat, m: nat, shift: nat)
      requires d < Pow2(m)
      ensures d * Pow2(shift) < Pow2(m + shift)
    {
      Pow2Add(m, shift);
      MulLt(Pow2(shift), d, Pow2(m));
    }

    static lemma ScaledAbove(d: nat, m: nat, shift: nat)
      requires Pow2(m) <= d
      ensures Pow2(m + shift) <= d * Pow2(shift)
    {
      Pow2Add(m, shift);
      MulLe(Pow2(shift), Pow2(m), d);
    }

    /** One step of the division: the remainder is brought below the shifted divisor. */
    method DivStep(num: ArithUint256, div: ArithUint256, shift: nat, ghost d: nat, ghost n0: nat)
      requires Valid() && num.Valid() && div.Valid() && shift < BITS && LowClear(pn[..], shift + 1)
      requires num.pn != pn && div.pn != pn && num.pn != div.pn
      requires div.V() == d * Pow2(shift) && num.V() < d * Pow2(shift + 1) && num.V() + V() * d == n0
      modifies pn, num.pn
      ensures LowClear(pn[..], shift) && num.V() < d * Pow2(shift) && num.V() + V() * d == n0
    {
      assert d * Pow2(shift + 1) == 2 * (d * Pow2(shift)) by {
        MulSwap(d, 2, Pow2(shift));
      }
      var sign := num.CompareTo(div);
      if sign >= 0 {
        num.Bounded();
        DivUnique(num.V() - div.V(), Modulus(), 0, num.V() - div.V());
        num.SubAssign(div);
        MulDistr(d, V(), Pow2(shift));
        SetBit(shift);
      } else {
        ClearBelow(pn[..], shift);
      }
    }

    /** The loop of the division, from the aligned divisor down. */
    method DivLoop(num: ArithUint256, div: ArithUint256, start: nat, ghost d: nat)
      requires Valid() && num.Valid() && div.Valid() && start < BITS && d > 0
      requires num.pn != pn && div.pn != pn && num.pn != div.pn
      requires V() == 0 && LowClear(pn[..], start + 1)
      requires div.V() == d * Pow2(start) && num.V() < d * Pow2(start + 1)
      modifies pn, num.pn, div.pn
      ensures V() == old(num.V()) / d && num.V() == old(num.V()) % d && V() * d + num.V() == old(num.V())
    {
      ghost var n0 := num.V();
      MulZero(d);
      var shift: int := start;
      while shift >= 0
        invariant -1 <= shift < BITS && LowClear(pn[..], shift + 1)
        invariant shift >= 0 ==> div.V() == d * Pow2(shift)
        invariant num.V() < d * Pow2(shift + 1) && num.V() + V() * d == n0
      {
        DivStep(num, div, shift, d, n0);
        HalveProduct(d, shift);
        div.ShrAssign(1);
        shift := shift - 1;
      }
      DivUnique(n0, d, V(), num.V());
    }

    /** The quotient; dividing by zero is refused after the dividend has been cleared. */
    method DivAssign(b: ArithUint256) returns (ok: bool)
      requires Valid() && b.Valid()
      modifies pn
      ensures ok <==> old(b.V()) != 0
      ensures V() == if ok then old(V()) / old(b.V()) else 0
    {
      var div := new ArithUint256.Copy(b);
      var num := new ArithUint256.Copy(this);
      ghost var n0, d := V(), b.V();
      Clear();
      var numBits := num.Bits();
      var divBits := div.Bits();
      if divBits == 0 {
        return false;
      }
      if divBits > numBits {
        ShorterDividend(n0, d);
        return true;
      }
      AlignAndDivide(num, div, numBits - divBits);
      ok := true;
    }

    static lemma ShorterDividend(n: nat, d: nat)
      requires BitLength(n) < BitLength(d)
      ensures n / d == 0
    {
      BitLengthBounds(n);
      BitLengthBounds(d);
      Pow2Mono(BitLength(n), BitLength(d) - 1);
      DivUnique(n, d, 0, n);
    }

    method AlignAndDivide(num: ArithUint256, div: ArithUint256, shift: nat)
      requires Valid() && num.Valid() && div.Valid() && num.pn != pn && div.pn != pn && num.pn != div.pn
      requires div.V() > 0 && shift == BitLength(num.V()) - BitLength(div.V()) && BitLength(num.V()) <= BITS
      requires forall j | 0 <= j < WIDTH :: pn[j] == 0
      modifies pn, num.pn, div.pn
      ensures V() == old(num.V()) / old(div.V())
    {
      ghost var d := div.V();
      AlignedBits(num.V(), d, shift);
      ValueZero(pn[..], WIDTH);
      AllClear(shift + 1);
      div.ShlAssign(shift);
      DivLoop(num, div, shift, d);
    }

    lemma AllClear(m: nat)
      requires Valid() && forall j | 0 <= j < WIDTH :: pn[j] == 0
      ensures LowClear(pn[..], m)
    {
      forall j | 0 <= j < WIDTH ensures LimbClear(pn[..][j], m, j) {
        if 32 * j <= m {
          DivUnique(0, Pow2(m - 32 * j), 0, 0);
        }
      }
    }

    static lemma HalveProduct(d: nat, shift: nat)
      ensures shift > 0 ==> (d * Pow2(shift)) / Pow2(1) == d * Pow2(shift - 1)
    {
      if shift > 0 {
        MulSwap(d, 2, Pow2(shift - 1));
      }
    }
  }

  /** One times one, as a number multiplied into itself. */
  method SquareLost() returns (x: ArithUint256, ghost before: int)
    ensures x.Valid() && before == 1 && x.V() == 0
  {
    x := new ArithUint256(1);
    before := x.V();
    x.MulAssign(x);
  }
}
