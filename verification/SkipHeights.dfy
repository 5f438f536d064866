/**
 The heights that skip pointers lead to, and how many of them it takes to reach any height below:
 at most the square of the number of binary digits.
 */
module SkipHeights {
  import opened Numbers

  // ----- Skip heights -----

  /** Bitwise and of natural numbers. */
  function And(x: nat, y: nat): (r: nat)
    ensures r <= x && r <= y
    decreases x + y
  {
    if x == 0 || y == 0 then 0
    else 2 * And(x / 2, y / 2) + if x % 2 == 1 && y % 2 == 1 then 1 else 0
  }

  function InvertLowestOne(n: nat): nat {
    if n == 0 then 0 else And(n, n - 1)
  }

  /** What inverting the lowest one does: on odd numbers it clears the last bit, on even ones it recurses. */
  lemma {:induction false} InvertsLowestOne(n: nat)
    requires n > 0
    ensures n % 2 == 1 ==> InvertLowestOne(n) == n - 1
    ensures n % 2 == 0 ==> InvertLowestOne(n) == 2 * InvertLowestOne(n / 2)
  {
    if n % 2 == 1 {
      assert (n - 1) / 2 == n / 2;
      AndSame(n / 2);
    } else {
      assert (n - 1) / 2 == n / 2 - 1;
    }
  }

  lemma {:induction false} AndSame(x: nat)
    ensures And(x, x) == x
  {
    if x > 0 {
      AndSame(x / 2);
    }
  }

  /** Skipping always goes back. */
  function GetSkipHeight(height: nat): (skip: nat)
    ensures skip <= height && (height > 0 ==> skip < height)
  {
    if height < 2 then 0
    else if height % 2 == 1 then InvertLowestOne(InvertLowestOne(height - 1)) + 1
    else InvertLowestOne(height)
  }

  // ----- The lowest one -----

  /** The number without its lowest one, digit by digit. */
  function Cleared(n: nat): (r: nat)
    ensures r <= n && (n > 0 ==> r < n)
  {
    if n == 0 then 0 else if n % 2 == 1 then n - 1 else 2 * Cleared(n / 2)
  }

  lemma {:induction false} InvertIsCleared(n: nat)
    ensures InvertLowestOne(n) == Cleared(n)
  {
    if n > 0 {
      InvertsLowestOne(n);
      if n % 2 == 0 {
        InvertIsCleared(n / 2);
      }
    }
  }

  function SkipTo(height: nat): (skip: nat)
    ensures skip <= height && (height > 0 ==> skip < height)
  {
    if height < 2 then 0
    else if height % 2 == 1 then Cleared(Cleared(height - 1)) + 1
    else Cleared(height)
  }

  lemma SkipIs(height: nat)
    ensures GetSkipHeight(height) == SkipTo(height)
  {
    InvertIsCleared(height);
    if height > 0 {
      InvertIsCleared(height - 1);
      InvertIsCleared(Cleared(height - 1));
    }
  }

  lemma LowestOfOdd(c: nat)
    ensures Cleared(2 * c + 1) == 2 * c
  {
  }

  lemma LowestOfDouble(c: nat)
    ensures Cleared(2 * c) == 2 * Cleared(c)
  {
    if c > 0 {
    }
  }

  lemma LowestBelow(n: nat)
    requires n > 0
    ensures Cleared(n) < n
  {
  }

  /** What the lowest one is worth shows in the last digits. */
  lemma Lowest2(n: nat)
    requires n % 4 == 2
    ensures Cleared(n) == n - 2
  {
    var c := n / 4;
    LowestOfOdd(c);
    LowestOfDouble(2 * c + 1);
    assert n == 2 * (2 * c + 1);
  }

  lemma Lowest4(n: nat)
    requires n % 8 == 4
    ensures Cleared(n) == n - 4
  {
    var c := n / 8;
    LowestOfOdd(c);
    LowestOfDouble(2 * c + 1);
    LowestOfDouble(2 * (2 * c + 1));
    assert n == 2 * (2 * (2 * c + 1));
  }

  lemma Lowest8(n: nat)
    requires n > 0 && n % 8 == 0
    ensures Cleared(n) <= n - 8
  {
    var c := n / 8;
    LowestBelow(c);
    LowestOfDouble(c);
    LowestOfDouble(2 * c);
    LowestOfDouble(2 * (2 * c));
    assert n == 2 * (2 * (2 * c));
  }

  lemma LowestEven(n: nat)
    requires n > 0 && n % 2 == 0
    ensures Cleared(n) % 2 == 0 && Cleared(n) <= n - 2
  {
    var c := n / 2;
    LowestBelow(c);
    LowestOfDouble(c);
    assert n == 2 * c;
  }

  /** A multiple of 2^k, halved k times. */
  predicate Multiple(m: nat, k: nat) {
    k == 0 || (m % 2 == 0 && Multiple(m / 2, k - 1))
  }

  lemma {:induction false} MultipleZero(k: nat)
    ensures Multiple(0, k)
  {
    if k > 0 {
      MultipleZero(k - 1);
    }
  }

  lemma {:induction false} MultipleLess(m: nat, k: nat)
    requires Multiple(m, k + 1)
    ensures Multiple(m, k)
  {
    if k > 0 {
      MultipleLess(m / 2, k - 1);
    }
  }

  lemma {:induction false} MultipleTop(u: nat, k: nat)
    requires Multiple(u, k + 1)
    ensures Multiple(u + Pow2(k), k)
  {
    if k > 0 {
      assert (u + Pow2(k)) / 2 == u / 2 + Pow2(k - 1);
      MultipleTop(u / 2, k - 1);
    }
  }

  /** Below a multiple of a power of two, only the rest counts. */
  lemma {:induction false} LowestOfSum(m: nat, r: nat, k: nat)
    requires Multiple(m, k) && 0 < r < Pow2(k)
    ensures Cleared(m + r) == m + Cleared(r)
  {
    if r % 2 == 0 {
      assert (m + r) / 2 == m / 2 + r / 2;
      LowestOfSum(m / 2, r / 2, k - 1);
    }
  }

  lemma {:induction false} LowestOfTop(u: nat, k: nat)
    requires Multiple(u, k + 1)
    ensures Cleared(u + Pow2(k)) == u
  {
    if k > 0 {
      assert (u + Pow2(k)) / 2 == u / 2 + Pow2(k - 1);
      LowestOfTop(u / 2, k - 1);
    }
  }

  /** The number of ones. */
  function Ones(n: nat): nat
    decreases n
  {
    if n == 0 then 0 else 1 + Ones(Cleared(n))
  }

  lemma {:induction false} OnesAtMost(r: nat, k: nat)
    requires r < Pow2(k)
    ensures Ones(r) <= k
  {
    if r > 0 {
      OnesHalf(r);
      OnesAtMost(r / 2, k - 1);
    }
  }

  lemma {:induction false} OnesHalf(n: nat)
    ensures Ones(n) == Ones(n / 2) + n % 2
  {
    if n > 0 {
      if n % 2 == 1 {
        OnesDouble(n / 2);
      } else {
        OnesDouble(n / 2);
      }
    }
  }

  lemma {:induction false} OnesDouble(n: nat)
    ensures Ones(2 * n) == Ones(n)
  {
    if n > 0 {
      OnesDouble(Cleared(n));
    }
  }

  // ----- The walk -----

  /** Where the walk goes next: along the skip pointer, unless the predecessor's leads to a better place. */
  function NextHeight(w: nat, h: nat): (next: nat)
    requires h < w
    ensures h <= next < w
  {
    var skip, skipPrev := SkipTo(w), SkipTo(w - 1);
    if skip == h || (skip > h && !(skipPrev < skip - 2 && skipPrev >= h)) then skip else w - 1
  }

  /** How often one has to go until a height is reached. */
  function Steps(go: (nat, nat) -> nat, w: nat, h: nat): nat
    decreases w
  {
    if w <= h || !(h <= go(w, h) < w) then 0 else 1 + Steps(go, go(w, h), h)
  }

  ghost predicate Walks(go: (nat, nat) -> nat) {
    forall w: nat, h: nat {:trigger NextHeight(w, h)} | h < w :: go(w, h) == NextHeight(w, h)
  }

  ghost function Walk(): (nat, nat) -> nat {
    (w: nat, h: nat) => if h < w then NextHeight(w, h) else w
  }

  // ----- Inside a block of 2^t heights -----

  /** The upper half of a block begins at a multiple of half its size. */
  ghost predicate Halved(u: nat, m: nat, k: nat) {
    Multiple(u, k + 1) && m == u + Pow2(k) && u % 2 == 0 && Multiple(m, k) && (k > 0 ==> m % 2 == 0)
  }

  lemma Halves(u: nat, m: nat, k: nat)
    requires Multiple(u, k + 1) && m == u + Pow2(k)
    ensures Halved(u, m, k)
  {
    MultipleTop(u, k);
  }

  predicate Even(n: nat) {
    n % 2 == 0
  }

  lemma EvenSum(m: nat, r: nat)
    requires Even(m) && Even(r)
    ensures Even(m + r)
  {
  }

  lemma SkipOfEven(w: nat)
    requires Even(w) && w > 0
    ensures SkipTo(w) == Cleared(w)
  {
  }

  lemma SkipOfOdd(v: nat, c: nat, d: nat)
    requires Even(v) && v > 0 && c == Cleared(v) && d == Cleared(c)
    ensures SkipTo(v + 1) == d + 1
  {
  }

  /** The skip height of an even offset from the middle. */
  lemma SkipEven(m: nat, r: nat, k: nat)
    requires Multiple(m, k) && 0 < r < Pow2(k) && Even(r) && Even(m)
    ensures SkipTo(m + r) == m + Cleared(r)
  {
    EvenSum(m, r);
    LowestOfSum(m, r, k);
    SkipOfEven(m + r);
  }

  /** The skip height of the odd offset after an even one: with two ones below the middle both go, ... */
  lemma SkipOddTwo(m: nat, r: nat, k: nat)
    requires Multiple(m, k) && 0 < r < Pow2(k) && Even(r) && Even(m) && Cleared(r) > 0
    ensures SkipTo(m + r + 1) == m + Cleared(Cleared(r)) + 1
  {
    EvenSum(m, r);
    ClearedTwice(m, r, k);
    SkipOfOdd(m + r, Cleared(m + r), m + Cleared(Cleared(r)));
  }

  lemma ClearedTwice(m: nat, r: nat, k: nat)
    requires Multiple(m, k) && 0 < r < Pow2(k) && Cleared(r) > 0
    ensures Cleared(Cleared(m + r)) == m + Cleared(Cleared(r))
  {
    LowestOfSum(m, r, k);
    LowestOfSum(m, Cleared(r), k);
  }

  /** ... with one, the middle goes too, ... */
  lemma SkipOddOne(u: nat, m: nat, r: nat, k: nat)
    requires Halved(u, m, k) && 0 < r < Pow2(k) && Even(r) && Even(m) && Cleared(r) == 0
    ensures SkipTo(m + r + 1) == u + 1
  {
    EvenSum(m, r);
    LowestOfSum(m, r, k);
    LowestOfTop(u, k);
    SkipOfOdd(m + r, m, u);
  }

  /** ... and with none, even more, unless there is nothing more. */
  lemma SkipOddNone(u: nat, m: nat, k: nat)
    requires Halved(u, m, k) && Even(m) && m > 0
    ensures SkipTo(m + 1) == Cleared(u) + 1
  {
    LowestOfTop(u, k);
    SkipOfOdd(m, u, Cleared(u));
  }

  // ----- From the upper half of a block to its lower half -----

  /** A block of 2^(k+1) heights from u on, with a target in its lower half. */
  ghost predicate Crossing(u: nat, m: nat, k: nat, h: nat) {
    k > 0 && Halved(u, m, k) && Even(u) && Even(m) && u <= h < m
  }

  lemma OneStep(go: (nat, nat) -> nat, w: nat, h: nat, next: nat)
    requires h < w && next == go(w, h) && h <= next < w
    ensures Steps(go, w, h) == 1 + Steps(go, next, h)
  {
  }

  lemma FromMiddle(u: nat, m: nat, k: nat, h: nat)
    requires Crossing(u, m, k, h)
    ensures NextHeight(m, h) == if h == u then u else m - 1
  {
    LowestOfTop(u, k);
    SkipOfEven(m);
    if h == u {
      assert SkipTo(m) == h;
    } else {
      assert SkipTo(m) < h;
    }
  }

  lemma FromOdd(u: nat, m: nat, k: nat, v: nat, h: nat)
    requires Crossing(u, m, k, h) && Even(v) && v < Pow2(k)
    ensures NextHeight(m + v + 1, h) ==
            if v > 0 && Cleared(v) > 0 then m + Cleared(Cleared(v)) + 1
            else if h <= u + 1 && (v > 0 || u == 0) then u + 1
            else m + v
  {
    var w := m + v + 1;
    if v == 0 {
      SkipOddNone(u, m, k);
      LowestOfTop(u, k);
      SkipOfEven(m);
      if u > 0 {
        LowestEven(u);
      }
    } else {
      SkipEven(m, v, k);
      if Cleared(v) > 0 {
        SkipOddTwo(m, v, k);
      } else {
        SkipOddOne(u, m, v, k);
      }
    }
    assert w - 1 == m + v;
  }

  /** From an even height either the lowest one goes, or the predecessor's skip pointer is better. */
  lemma FromEven(m: nat, k: nat, r: nat, h: nat)
    requires Multiple(m, k) && Even(m) && Even(r) && 0 < r < Pow2(k) && h < m
    ensures var s, sp := m + Cleared(r), SkipTo(m + r - 1);
            NextHeight(m + r, h) == if sp < s - 2 && sp >= h then m + r - 1 else s
  {
    SkipEven(m, r, k);
  }

  lemma GoesBack(m: nat, k: nat, r: nat, h: nat)
    requires Multiple(m, k) && Even(m) && Even(r) && 0 < r < Pow2(k) && h < m && NextHeight(m + r, h) != m + Cleared(r)
    ensures NextHeight(m + r, h) == m + r - 1 && h <= SkipTo(m + r - 1) < m + Cleared(r) - 2
  {
    FromEven(m, k, r, h);
  }

  lemma OnesOdd(v: nat)
    requires Even(v)
    ensures Ones(v + 1) == 1 + Ones(v)
  {
    assert Cleared(v + 1) == v;
  }

  lemma ClearedEven(v: nat)
    requires Even(v)
    ensures Even(Cleared(v))
  {
    if v > 0 {
      LowestEven(v);
    }
  }

  lemma Better2(r: nat)
    requires r % 4 == 2
    ensures Ones(r - 2) <= Ones(r)
  {
    Lowest2(r);
  }

  lemma Better4(r: nat)
    requires r % 8 == 4
    ensures Ones(r - 2) <= Ones(r)
  {
    Lowest4(r);
    Lowest2(r - 2);
  }

  lemma NotBetter8(r: nat)
    requires r % 8 == 0 && r > 0
    ensures Cleared(Cleared(r - 2)) + 1 >= Cleared(r) - 2
  {
    Lowest2(r - 2);
    Lowest4(r - 4);
    Lowest8(r);
  }

  lemma LastDigits(r: nat)
    requires Even(r)
    ensures r % 4 == 2 || r % 8 == 4 || r % 8 == 0
  {
    var q, d := r / 8, r % 8;
    DivMod(r, 8);
    DivUnique(r, 4, 2 * q + d / 4, d % 4);
    DivUnique(r, 2, 4 * q + d / 2, d % 2);
  }

  /** Where the predecessor's skip pointer is better by more than two, two steps leave no more ones than before. */
  lemma BetterBefore(r: nat)
    requires Even(r) && r > 2
    ensures Cleared(Cleared(r - 2)) + 1 < Cleared(r) - 2 ==> Ones(r - 2) <= Ones(r)
  {
    LastDigits(r);
    if r % 4 == 2 {
      Better2(r);
    } else if r % 8 == 4 {
      Better4(r);
    } else {
      NotBetter8(r);
    }
  }

  /** The target is the beginning of the block or the height after it, and the walk jumps there. */
  lemma AtBeginning(go: (nat, nat) -> nat, u: nat, h: nat)
    requires Walks(go)
    requires u <= h <= u + 1
    ensures Steps(go, u + 1, h) <= 1
  {
    if h == u {
      OneStep(go, u + 1, u, NextHeight(u + 1, u));
    }
  }

  lemma CrossingMiddle(go: (nat, nat) -> nat, u: nat, m: nat, k: nat, h: nat, rest: nat)
    requires Walks(go)
    requires Crossing(u, m, k, h) && Steps(go, m - 1, h) <= rest
    ensures Steps(go, m, h) <= 1 + rest
  {
    GoMiddle(go, u, m, k, h);
    OneStep(go, m, h, go(m, h));
  }

  lemma GoMiddle(go: (nat, nat) -> nat, u: nat, m: nat, k: nat, h: nat)
    requires Walks(go) && Crossing(u, m, k, h)
    ensures go(m, h) == if h == u then u else m - 1
  {
    FromMiddle(u, m, k, h);
  }

  lemma AnyStep(go: (nat, nat) -> nat, u: nat, m: nat, k: nat, r: nat, h: nat) returns (out: bool, c: nat)
    requires Walks(go)
    requires Crossing(u, m, k, h) && 0 < r < Pow2(k)
    ensures out ==> Steps(go, m + r, h) <= 3 && Ones(r) >= 1
    ensures !out ==> c < r && Steps(go, m + r, h) <= 2 + Steps(go, m + c, h) && Ones(c) + 1 <= Ones(r)
  {
    if Even(r) {
      out, c := EvenStep(go, u, m, k, r, h);
    } else {
      out, c := OddStep(go, u, m, k, r - 1, h);
    }
  }

  /** From any height of the upper half: each one costs at most two steps, until the middle is passed. */
  lemma {:induction false} CrossingSteps(go: (nat, nat) -> nat, u: nat, m: nat, k: nat, r: nat, h: nat, rest: nat)
    requires Walks(go)
    requires Crossing(u, m, k, h) && r < Pow2(k) && Steps(go, m - 1, h) <= rest
    ensures Steps(go, m + r, h) <= 2 * Ones(r) + 1 + rest
    decreases r
  {
    if r == 0 {
      CrossingMiddle(go, u, m, k, h, rest);
    } else {
      var out, c := AnyStep(go, u, m, k, r, h);
      if !out {
        CrossingSteps(go, u, m, k, c, h, rest);
      }
    }
  }

  /** From an odd height: one step clears a one, or leaves the upper half. */
  lemma OddStep(go: (nat, nat) -> nat, u: nat, m: nat, k: nat, v: nat, h: nat) returns (out: bool, c: nat)
    requires Walks(go)
    requires Crossing(u, m, k, h) && Even(v) && v + 1 < Pow2(k)
    ensures out ==> Steps(go, m + v + 1, h) <= 3 && Ones(v + 1) >= 1
    ensures !out ==> c < v + 1 && Steps(go, m + v + 1, h) <= 2 + Steps(go, m + c, h) && Ones(c) + 1 <= Ones(v + 1)
  {
    GoOdd(go, u, m, k, v, h);
    out, c := false, v;
    if v > 0 && Cleared(v) > 0 {
      c := Cleared(Cleared(v)) + 1;
      OddTwo(go, m, v, h, c);
    } else if h <= u + 1 && (v > 0 || u == 0) {
      OddOut(go, u, m, v, h);
      out := true;
    } else {
      OddOne(go, m, v, h);
    }
  }

  lemma GoOdd(go: (nat, nat) -> nat, u: nat, m: nat, k: nat, v: nat, h: nat)
    requires Walks(go) && Crossing(u, m, k, h) && Even(v) && v < Pow2(k)
    ensures go(m + v + 1, h) ==
            if v > 0 && Cleared(v) > 0 then m + Cleared(Cleared(v)) + 1
            else if h <= u + 1 && (v > 0 || u == 0) then u + 1
            else m + v
  {
    FromOdd(u, m, k, v, h);
  }

  lemma OddTwo(go: (nat, nat) -> nat, m: nat, v: nat, h: nat, c: nat)
    requires h < m && Even(v) && v > 0 && Cleared(v) > 0 && c == Cleared(Cleared(v)) + 1 && go(m + v + 1, h) == m + c
    ensures Steps(go, m + v + 1, h) == 1 + Steps(go, m + c, h) && c < v + 1 && Ones(c) + 1 <= Ones(v + 1)
  {
    ClearedEven(v);
    ClearedEven(Cleared(v));
    OnesOdd(v);
    OnesOdd(c - 1);
    OnesTwice(v);
    OneStep(go, m + v + 1, h, m + c);
  }

  lemma OddOut(go: (nat, nat) -> nat, u: nat, m: nat, v: nat, h: nat)
    requires Walks(go) && u <= h <= u + 1 && h < m && Even(v) && go(m + v + 1, h) == u + 1 && u < m
    ensures Steps(go, m + v + 1, h) <= 2 && Ones(v + 1) >= 1
  {
    OneStep(go, m + v + 1, h, u + 1);
    AtBeginning(go, u, h);
  }

  lemma OddOne(go: (nat, nat) -> nat, m: nat, v: nat, h: nat)
    requires h < m && Even(v) && go(m + v + 1, h) == m + v
    ensures Steps(go, m + v + 1, h) == 1 + Steps(go, m + v, h) && Ones(v) + 1 <= Ones(v + 1)
  {
    OnesOdd(v);
    OneStep(go, m + v + 1, h, m + v);
  }

  /** One step or two clear a one, or leave the upper half. */
  lemma EvenStep(go: (nat, nat) -> nat, u: nat, m: nat, k: nat, r: nat, h: nat) returns (out: bool, c: nat)
    requires Walks(go)
    requires Crossing(u, m, k, h) && Even(r) && 0 < r < Pow2(k)
    ensures out ==> Steps(go, m + r, h) <= 3 && Ones(r) >= 1
    ensures !out ==> c < r && Steps(go, m + r, h) <= 2 + Steps(go, m + c, h) && Ones(c) + 1 <= Ones(r)
  {
    out, c := false, Cleared(r);
    if go(m + r, h) == m + c {
      StepDown(go, m, r, h, c);
    } else if r > 2 && Cleared(r - 2) > 0 {
      c := Cleared(Cleared(r - 2)) + 1;
      StepTwice(go, u, m, k, r, h, c);
    } else {
      StepOut(go, u, m, k, r, h);
      out := true;
    }
  }

  lemma StepDown(go: (nat, nat) -> nat, m: nat, r: nat, h: nat, c: nat)
    requires 0 < r && h < m && c == Cleared(r) && go(m + r, h) == m + c
    ensures Steps(go, m + r, h) == 1 + Steps(go, m + c, h) && c < r && Ones(r) == 1 + Ones(c)
  {
    OneStep(go, m + r, h, m + c);
  }

  /** By way of the predecessor, two steps clear two ones. */
  lemma StepTwice(go: (nat, nat) -> nat, u: nat, m: nat, k: nat, r: nat, h: nat, c: nat)
    requires Walks(go)
    requires Crossing(u, m, k, h) && Even(r) && 2 < r < Pow2(k) && Cleared(r - 2) > 0 && c == Cleared(Cleared(r - 2)) + 1
    requires go(m + r, h) != m + Cleared(r)
    ensures Steps(go, m + r, h) == 2 + Steps(go, m + c, h) && c < r && Ones(c) + 1 <= Ones(r)
  {
    GoBackTwo(go, m, k, r, h);
    TwoOnes(r, c);
    GoOdd(go, u, m, k, r - 2, h);
    TwoSteps(go, m + r, m + r - 1, m + c, h);
  }

  lemma GoBackTwo(go: (nat, nat) -> nat, m: nat, k: nat, r: nat, h: nat)
    requires Walks(go) && Multiple(m, k) && Even(m) && Even(r) && 2 < r < Pow2(k) && Cleared(r - 2) > 0 && h < m
    requires go(m + r, h) != m + Cleared(r)
    ensures go(m + r, h) == m + r - 1 && Cleared(Cleared(r - 2)) + 1 < Cleared(r) - 2
  {
    assert NextHeight(m + r, h) == go(m + r, h);
    GoesBack(m, k, r, h);
    SkipOddTwo(m, r - 2, k);
  }

  lemma TwoSteps(go: (nat, nat) -> nat, w: nat, next: nat, after: nat, h: nat)
    requires h < w && next == go(w, h) && h < next < w && after == go(next, h) && h <= after < next
    ensures Steps(go, w, h) == 2 + Steps(go, after, h)
  {
    OneStep(go, w, h, next);
    OneStep(go, next, h, after);
  }

  lemma TwoOnes(r: nat, c: nat)
    requires Even(r) && r > 2 && Cleared(r - 2) > 0 && c == Cleared(Cleared(r - 2)) + 1 && c < Cleared(r) - 2
    ensures c < r && Ones(c) + 1 <= Ones(r)
  {
    var v := r - 2;
    assert Even(v);
    BetterBefore(r);
    ClearedEven(v);
    ClearedEven(Cleared(v));
    OnesOdd(c - 1);
    OnesTwice(v);
  }

  lemma OnesTwice(v: nat)
    requires v > 0 && Cleared(v) > 0
    ensures Ones(v) == 2 + Ones(Cleared(Cleared(v)))
  {
  }

  /** By way of the predecessor, the walk leaves the upper half for the beginning of the block. */
  lemma StepOut(go: (nat, nat) -> nat, u: nat, m: nat, k: nat, r: nat, h: nat)
    requires Walks(go)
    requires Crossing(u, m, k, h) && Even(r) && 0 < r < Pow2(k) && (r == 2 || Cleared(r - 2) == 0)
    requires go(m + r, h) != m + Cleared(r)
    ensures Steps(go, m + r, h) <= 3 && Ones(r) >= 1
  {
    GoBackOut(go, u, m, k, r, h);
    GoOdd(go, u, m, k, r - 2, h);
    OneStep(go, m + r, h, m + r - 1);
    OddOut(go, u, m, r - 2, h);
  }

  lemma GoBackOut(go: (nat, nat) -> nat, u: nat, m: nat, k: nat, r: nat, h: nat)
    requires Walks(go) && Crossing(u, m, k, h) && Even(r) && 0 < r < Pow2(k) && (r == 2 || Cleared(r - 2) == 0)
    requires go(m + r, h) != m + Cleared(r)
    ensures go(m + r, h) == m + r - 1 && h <= u + 1 && (r > 2 || u == 0) && Even(r - 2)
  {
    assert NextHeight(m + r, h) == go(m + r, h);
    GoesBack(m, k, r, h);
    NearBeginning(u, m, k, r - 2, h);
  }

  /** A skip pointer that leaves the upper half leads to the beginning of the block. */
  lemma NearBeginning(u: nat, m: nat, k: nat, v: nat, h: nat)
    requires Crossing(u, m, k, h) && Even(v) && v < Pow2(k) && (v == 0 || Cleared(v) == 0) && SkipTo(m + v + 1) >= h
    ensures h <= u + 1 && (v > 0 || u == 0)
  {
    if v == 0 {
      SkipOddNone(u, m, k);
      if u > 0 {
        LowestEven(u);
      }
    } else {
      SkipOddOne(u, m, v, k);
    }
  }

  // ----- From any height to any below -----

  /** Inside a block of 2^t heights the walk takes at most t * t steps. */
  lemma {:induction false} BlockSteps(go: (nat, nat) -> nat, u: nat, t: nat, w: nat, h: nat)
    requires Walks(go)
    requires Multiple(u, t) && u <= h <= w < u + Pow2(t)
    ensures Steps(go, w, h) <= t * t
    decreases t
  {
    if t > 0 {
      var k := t - 1;
      var m := u + Pow2(k);
      MultipleLess(u, k);
      Halves(u, m, k);
      Squares(t);
      if w < m {
        BlockSteps(go, u, k, w, h);
      } else if h >= m {
        BlockSteps(go, m, k, w, h);
      } else if k == 0 {
        OneStep(go, w, h, NextHeight(w, h));
      } else {
        BlockSteps(go, u, k, m - 1, h);
        assert Crossing(u, m, k, h);
        CrossingBlock(go, u, m, k, w - m, h, k * k);
      }
    }
  }

  lemma CrossingBlock(go: (nat, nat) -> nat, u: nat, m: nat, k: nat, r: nat, h: nat, rest: nat)
    requires Walks(go)
    requires Crossing(u, m, k, h) && r < Pow2(k) && Steps(go, m - 1, h) <= rest
    ensures Steps(go, m + r, h) <= 2 * k + 1 + rest
  {
    CrossingSteps(go, u, m, k, r, h, rest);
    OnesAtMost(r, k);
  }

  lemma Squares(t: nat)
    requires t > 0
    ensures t * t == (t - 1) * (t - 1) + 2 * (t - 1) + 1
  {
  }

  /** The walk from any height to any below takes at most the square of the number of binary digits. */
  lemma WalkSteps(w: nat, h: nat, digits: nat)
    requires h <= w < Pow2(digits)
    ensures Steps(Walk(), w, h) <= digits * digits
  {
    MultipleZero(digits);
    BlockSteps(Walk(), 0, digits, w, h);
  }

  /** One round of the walk, in terms of the skip heights that the code computes. */
  lemma WalkNext(w: nat, h: nat)
    requires h < w
    ensures var skip, skipPrev := GetSkipHeight(w), GetSkipHeight(w - 1);
            var next := if skip == h || (skip > h && !(skipPrev < skip - 2 && skipPrev >= h)) then skip else w - 1;
            Steps(Walk(), w, h) == 1 + Steps(Walk(), next, h)
  {
    SkipIs(w);
    SkipIs(w - 1);
    OneStep(Walk(), w, h, NextHeight(w, h));
  }
}
