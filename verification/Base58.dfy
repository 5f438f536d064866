/** Base58: byte strings as strings of letters and digits, and back. */
module Base58 {
  import opened Numbers
  import opened Transactions
  import opened Positional

  /** A space, tab, line feed, vertical tab, form feed or carriage return. */
  predicate IsSpace(c: char) {
    c == ' ' || c == '\t' || c == '\n' || c == '\U{0B}' || c == '\U{0C}' || c == '\r'
  }

  /** All letters and digits except 0, I, O and l, in the order of their codes. */
  function Letter(d: nat): char
    requires d < 58
  {
    (if d < 9 then '1' as int + d
     else if d < 17 then 'A' as int + d - 9
     else if d < 22 then 'J' as int + d - 17
     else if d < 33 then 'P' as int + d - 22
     else if d < 44 then 'a' as int + d - 33
     else 'm' as int + d - 44) as char
  }

  lemma LettersDiffer(d: nat, e: nat)
    requires d < 58 && e < 58
    ensures Letter(d) == Letter(e) <==> d == e
    ensures !IsSpace(Letter(d)) && Letter(d) != '\0'
    ensures Letter(d) == '1' <==> d == 0
  {
  }

  /** The digit that a character stands for. */
  function DigitOf(c: char, from: nat): (r: Option<nat>)
    requires from <= 58
    ensures r.Some? ==> from <= r.value < 58 && Letter(r.value) == c
    ensures r.None? ==> forall i | from <= i < 58 :: Letter(i) != c
    decreases 58 - from
  {
    if from == 58 then None
    else if Letter(from) == c then Some(from)
    else DigitOf(c, from + 1)
  }

  lemma DigitOfLetter(d: nat)
    requires d < 58
    ensures DigitOf(Letter(d), 0) == Some(d)
  {
    var r := DigitOf(Letter(d), 0);
    if r.Some? {
      LettersDiffer(d, r.value);
    }
  }

  ghost function Letters(d: seq<nat>): string
    requires AreDigits(d, 58)
  {
    seq(|d|, i requires 0 <= i < |d| && d[i] < 58 => Letter(d[i]))
  }

  // ----- The conversion -----

  /** A buffer of digits, zero above the part in use. */
  ghost predicate Buffer(s: seq<nat>, used: nat, base: nat) {
    used <= |s| && AreDigits(s, base) && forall i | 0 <= i < |s| - used :: s[i] == 0
  }

  function MulPlus(factor: nat, v: nat, carry: nat): nat {
    MulLe(factor, 0, v);
    factor * v + carry
  }

  function Quotient(n: nat, base: nat): nat
    requires base > 0
  {
    DivMod(n, base);
    n / base
  }

  function Remainder(n: nat, base: nat): (r: nat)
    requires base > 0
    ensures r < base
  {
    DivMod(n, base);
    n % base
  }

  /** One digit is settled and the carry goes on to the next. */
  lemma CarryStep(factor: nat, high: nat, x: nat, carry: nat, base: nat)
    requires base > 0
    ensures var n := MulPlus(factor, x, carry);
            MulPlus(factor, high * base + x, carry) == MulPlus(factor, high, Quotient(n, base)) * base + Remainder(n, base)
  {
    var n := MulPlus(factor, x, carry);
    DivMod(n, base);
    MulDistr(factor, high * base, x);
    MulAssoc(factor, high, base);
    MulDistr(base, factor * high, n / base);
  }

  /** What the digits already settled and the rest stand for does not change. */
  lemma SettleDigit(before: seq<nat>, k: nat, low: seq<nat>, factor: nat, carry: nat, base: nat)
    requires base > 0 && k < |before|
    ensures var n := MulPlus(factor, before[k], carry);
            ValueFrom(MulPlus(factor, Value(before[..k + 1], base), carry), low, base) ==
            ValueFrom(MulPlus(factor, Value(before[..k], base), Quotient(n, base)), [Remainder(n, base)] + low, base)
  {
    var n := MulPlus(factor, before[k], carry);
    var high := Value(before[..k], base);
    assert before[..k + 1][..k] == before[..k];
    CarryStep(factor, high, before[k], carry, base);
    ValuePrepend(MulPlus(factor, high, Quotient(n, base)), Remainder(n, base), low, base);
  }

  /** The last i digits are settled; they, the rest and the carry stand for the result. */
  ghost predicate Midway(before: seq<nat>, now: seq<nat>, i: nat, carry: nat, factor: nat, base: nat, total: nat) {
    && i <= |before| == |now|
    && now[..|now| - i] == before[..|now| - i] && AreDigits(now[|now| - i..], base)
    && ValueFrom(MulPlus(factor, Value(before[..|now| - i], base), carry), now[|now| - i..], base) == total
  }

  lemma MidwayStart(before: seq<nat>, digit: nat, factor: nat, base: nat)
    ensures Midway(before, before, 0, digit, factor, base, MulPlus(factor, Value(before, base), digit))
  {
    assert before[..|before|] == before && before[|before|..] == [];
  }

  lemma MidwayStep(before: seq<nat>, now: seq<nat>, i: nat, carry: nat, factor: nat, base: nat, total: nat)
    requires base > 0 && i < |now| && Midway(before, now, i, carry, factor, base, total)
    ensures var k := |now| - i - 1;
            var n := MulPlus(factor, now[k], carry);
            Midway(before, now[k := Remainder(n, base)], i + 1, Quotient(n, base), factor, base, total)
  {
    var k := |now| - i - 1;
    assert now[k] == now[..k + 1][k] == before[k];
    var n := MulPlus(factor, now[k], carry);
    var next := now[k := Remainder(n, base)];
    SettleDigit(before, k, now[k + 1..], factor, carry, base);
    assert next[k..] == [Remainder(n, base)] + now[k + 1..];
    assert next[..k] == now[..k + 1][..k] == before[..k + 1][..k] == before[..k];
  }

  /** Multiplies the number in a buffer and adds to it, digit by digit from the end. */
  method MulAdd(b: array<nat>, length: nat, factor: nat, base: nat, digit: nat) returns (used: nat)
    requires base >= 2 && Buffer(b[..], length, base)
    requires MulPlus(factor, Value(b[..], base), digit) < Pow(base, b.Length)
    modifies b
    ensures Buffer(b[..], used, base) && Value(b[..], base) == MulPlus(factor, old(Value(b[..], base)), digit)
  {
    ghost var before := b[..];
    ghost var total := MulPlus(factor, Value(before, base), digit);
    MidwayStart(before, digit, factor, base);
    var carry, i: nat := digit, 0;
    while (carry != 0 || i < length) && i != b.Length
      invariant i <= b.Length && Midway(before, b[..], i, carry, factor, base, total)
      decreases b.Length - i
    {
      MidwayStep(before, b[..], i, carry, factor, base, total);
      var sum := MulPlus(factor, b[b.Length - i - 1], carry);
      b[b.Length - i - 1] := Remainder(sum, base);
      carry := Quotient(sum, base);
      i := i + 1;
    }
    Finish(before, b[..], i, carry, length, factor, base, total);
    assert carry == 0;
    used := i;
  }

  /** When the loop ends there is no carry, and the digits above are zero. */
  lemma Finish(before: seq<nat>, after: seq<nat>, i: nat, carry: nat, length: nat, factor: nat, base: nat, total: nat)
    requires base >= 2 && Buffer(before, length, base) && Midway(before, after, i, carry, factor, base, total)
    requires total < Pow(base, |after|) && ((carry == 0 && i >= length) || i == |before|)
    ensures carry == 0 && Buffer(after, i, base) && Value(after, base) == total
  {
    MulPlusZero(factor, carry);
    if i == |before| {
      assert after[0..] == after && before[..0] == [];
      NoCarry(carry, after, base);
    }
    ZerosAbove(before, after, i, length, base);
  }

  lemma MulPlusZero(factor: nat, carry: nat)
    ensures MulPlus(factor, 0, carry) == carry
  {
  }

  lemma ZerosAbove(before: seq<nat>, after: seq<nat>, i: nat, length: nat, base: nat)
    requires i <= |before| == |after| && Buffer(before, length, base) && (i >= length || i == |before|)
    requires after[..|after| - i] == before[..|after| - i] && AreDigits(after[|after| - i..], base)
    ensures Buffer(after, i, base)
    ensures Value(before[..|after| - i], base) == 0 && Value(after, base) == Value(after[|after| - i..], base)
  {
    var k := |after| - i;
    forall j | 0 <= j < k ensures after[j] == 0 {
      assert after[j] == after[..k][j] == before[..k][j];
    }
    SplitValue(after, k, base);
    forall j | k <= j < |after| ensures after[j] < base {
      assert after[j] == after[k..][j - k];
    }
  }

  lemma SplitValue(d: seq<nat>, k: nat, base: nat)
    requires k <= |d| && forall j | 0 <= j < k :: d[j] == 0
    ensures Value(d[..k], base) == 0 && Value(d, base) == Value(d[k..], base)
  {
    ValueZeros(d[..k], base);
    assert d == d[..k] + d[k..];
    ValueConcat(0, d[..k], d[k..], base);
  }

  lemma NoCarry(carry: nat, d: seq<nat>, base: nat)
    requires base >= 2 && ValueFrom(carry, d, base) < Pow(base, |d|)
    ensures carry == 0
  {
    ValueAtLeast(carry, d, base);
    if carry > 0 {
      MulLe(Pow(base, |d|), 1, carry);
    }
  }

  /** Drops leading zeros from the part in use; what remains are the digits of the number. */
  method Significant(b: array<nat>, used: nat, base: nat) returns (d: seq<nat>)
    requires base >= 2 && Buffer(b[..], used, base)
    ensures d == Digits(Value(b[..], base), base)
  {
    var it := b.Length - used;
    while it != b.Length && b[it] == 0
      invariant 0 <= it <= b.Length && forall i | 0 <= i < it :: b[i] == 0
    {
      it := it + 1;
    }
    d := b[it..];
    assert b[..] == b[..it] + d;
    ValueZeros(b[..it], base);
    ValueConcat(0, b[..it], d, base);
    DigitsUnique(d, base);
  }

  /** The part of the buffer size that the source computes with 138/100 suffices for base 58. */
  lemma EncodeSizeSuffices(m: nat)
    ensures Pow(256, m) <= Pow(58, m * 138 / 100 + 1)
  {
    assert Pow(256, 8) <= Pow(58, 11);
    var n := m * 138 / 100 + 1;
    Proportion(256, 58, 11, 8, m, n, 11 * m, n * 8);
  }

  /** And the one with 733/1000 for base 256. */
  lemma DecodeSizeSuffices(m: nat)
    ensures Pow(58, m) <= Pow(256, m * 733 / 1000 + 1)
  {
    PowAdd(58, 64, 7);
    PowMul(58, 8, 8);
    PowAdd(256, 48, 4);
    PowMul(256, 8, 6);
    assert Pow(58, 8) == 128063081718016 && Pow(256, 8) == 18446744073709551616;
    assert Pow(58, 71) == Pow(128063081718016, 8) * Pow(58, 7);
    assert Pow(256, 52) == Pow(18446744073709551616, 6) * Pow(256, 4);
    var n := m * 733 / 1000 + 1;
    Proportion(58, 256, 52, 71, m, n, 52 * m, n * 71);
  }

  /** With enough room in the buffer, one more digit fits. */
  lemma NextFits(d: seq<nat>, j: nat, from: nat, base: nat, size: nat)
    requires from >= 2 && base >= 2 && j < |d| && AreDigits(d[..j + 1], from) && Pow(from, |d|) <= Pow(base, size)
    ensures Value(d[..j + 1], from) == MulPlus(from, Value(d[..j], from), d[j]) < Pow(base, size)
  {
    assert d[..j + 1][..j] == d[..j];
    ValueBelow(d[..j + 1], from);
    PowLonger(from, j + 1, |d|);
  }

  // ----- Encoding -----

  /** Where the first byte from a position on that is not zero is. */
  function ZerosEnd(v: seq<nat>, from: nat): (n: nat)
    requires from <= |v|
    ensures from <= n <= |v| && (forall i | from <= i < n :: v[i] == 0) && (n < |v| ==> v[n] != 0)
    decreases |v| - from
  {
    if from < |v| && v[from] == 0 then ZerosEnd(v, from + 1) else from
  }

  function LeadingZeros(v: seq<nat>): nat {
    ZerosEnd(v, 0)
  }

  /** The string for a byte string: a 1 for every leading zero byte, then the digits of the rest. */
  ghost function Encoded(vch: seq<nat>): string {
    var z := LeadingZeros(vch);
    Ones(z) + Letters(Digits(Value(vch[z..], 256), 58))
  }

  function Ones(n: nat): string {
    seq(n, _ => '1')
  }

  method EncodeBase58(vch: seq<nat>) returns (str: string)
    requires AreDigits(vch, 256)
    ensures str == Encoded(vch)
  {
    var zeroes := 0;
    while zeroes != |vch| && vch[zeroes] == 0
      invariant 0 <= zeroes <= |vch| && forall i | 0 <= i < zeroes :: vch[i] == 0
    {
      zeroes := zeroes + 1;
    }
    ghost var z := LeadingZeros(vch);
    assert zeroes == z;
    var rest := vch[zeroes..];
    var size := |rest| * 138 / 100 + 1;
    EncodeSizeSuffices(|rest|);
    var b58 := new nat[size](_ => 0);
    var length := 0;
    ValueZeros(b58[..], 58);
    for j := 0 to |rest|
      invariant b58.Length == size && Buffer(b58[..], length, 58) && Value(b58[..], 58) == Value(rest[..j], 256)
    {
      NextFits(rest, j, 256, 58, size);
      length := MulAdd(b58, length, 256, 58, rest[j]);
    }
    assert rest[..|rest|] == rest;
    var digits := Significant(b58, length, 58);
    str := Ones(zeroes);
    for i := 0 to |digits|
      invariant str == Ones(zeroes) + Letters(digits[..i])
    {
      assert Letters(digits[..i + 1]) == Letters(digits[..i]) + [Letter(digits[i])];
      str := str + [Letter(digits[i])];
    }
    assert digits[..|digits|] == digits;
  }

  // ----- Decoding -----

  predicate IsOne(c: char) {
    c == '1'
  }

  predicate IsVisible(c: char) {
    !IsSpace(c)
  }

  /** Where the first character from a position on that does not satisfy a condition is. */
  function RunEnd(s: string, p: char -> bool, from: nat): (n: nat)
    requires from <= |s|
    ensures from <= n <= |s| && (forall i | from <= i < n :: p(s[i])) && (n < |s| ==> !p(s[n]))
    decreases |s| - from
  {
    if from < |s| && p(s[from]) then RunEnd(s, p, from + 1) else from
  }

  /** How many characters at the front satisfy a condition. */
  function Run(s: string, p: char -> bool): (n: nat)
    ensures n <= |s|
  {
    RunEnd(s, p, 0)
  }

  lemma RunIs(s: string, p: char -> bool, n: nat)
    requires n <= |s| && (forall i | 0 <= i < n :: p(s[i])) && (n < |s| ==> !p(s[n]))
    ensures Run(s, p) == n
  {
  }

  ghost predicate IsWord(w: string) {
    forall i | 0 <= i < |w| :: DigitOf(w[i], 0).Some?
  }

  ghost function WordDigits(w: string): (d: seq<nat>)
    requires IsWord(w)
    ensures AreDigits(d, 58) && |d| == |w|
  {
    seq(|w|, i requires 0 <= i < |w| && DigitOf(w[i], 0).Some? => DigitOf(w[i], 0).value)
  }

  function Zeros(n: nat): seq<nat> {
    seq(n, _ => 0)
  }

  /** The string without the spaces and the ones at its front, and the number of those ones. */
  ghost function Rest(psz: string): string {
    var t := psz[Run(psz, IsSpace)..];
    t[Run(t, IsOne)..]
  }

  ghost function CountOnes(psz: string): nat {
    Run(psz[Run(psz, IsSpace)..], IsOne)
  }

  ghost function WordLength(u: string): (n: nat)
    ensures n <= |u|
  {
    Run(u, IsVisible)
  }

  /** The byte string for a string: one word of digits, perhaps between spaces. */
  ghost function Decoded(psz: string): Option<seq<nat>> {
    var u := Rest(psz);
    var w := WordLength(u);
    if IsWord(u[..w]) && forall i | w <= i < |u| :: IsSpace(u[i])
    then Some(Zeros(CountOnes(psz)) + Digits(Value(WordDigits(u[..w]), 58), 256))
    else None
  }

  method DecodeBase58(psz: string) returns (r: Option<seq<nat>>)
    requires '\0' !in psz
    ensures r == Decoded(psz)
  {
    var p := 0;
    while p < |psz| && IsSpace(psz[p])
      invariant 0 <= p <= |psz| && forall i | 0 <= i < p :: IsSpace(psz[i])
    {
      p := p + 1;
    }
    RunIs(psz, IsSpace, p);
    var t := psz[p..];
    var zeroes := 0;
    while zeroes < |t| && t[zeroes] == '1'
      invariant 0 <= zeroes <= |t| && forall i | 0 <= i < zeroes :: t[i] == '1'
    {
      zeroes := zeroes + 1;
    }
    RunIs(t, IsOne, zeroes);
    r := DecodeRest(t[zeroes..], zeroes);
  }

  /** Reads digits up to a space or the end, into a buffer that is large enough for all of them. */
  method ReadWord(u: string) returns (ok: bool, digits: seq<nat>)
    ensures ok <==> IsWord(u[..WordLength(u)])
    ensures ok ==> digits == Digits(Value(WordDigits(u[..WordLength(u)]), 58), 256)
  {
    var size := |u| * 733 / 1000 + 1;
    DecodeSizeSuffices(|u|);
    var b256 := new nat[size](_ => 0);
    ValueZeros(b256[..], 256);
    var length, p := 0, 0;
    ghost var w := WordLength(u);
    while p < |u| && !IsSpace(u[p])
      invariant 0 <= p <= w && b256.Length == size && Buffer(b256[..], length, 256)
      invariant IsWord(u[..p]) && Value(b256[..], 256) == Value(WordDigits(u[..p]), 58)
      decreases |u| - p
    {
      var ch := DigitOf(u[p], 0);
      if ch.None? {
        assert u[..w][p] == u[p];
        return false, [];
      }
      WordNext(u, p, size);
      length := MulAdd(b256, length, 58, 256, ch.value);
      p := p + 1;
    }
    assert p == w;
    digits := Significant(b256, length, 256);
    ok := true;
  }

  /** What follows the leading ones. */
  method DecodeRest(u: string, zeroes: nat) returns (r: Option<seq<nat>>)
    ensures var w := WordLength(u);
            r == if IsWord(u[..w]) && forall i | w <= i < |u| :: IsSpace(u[i])
                 then Some(Zeros(zeroes) + Digits(Value(WordDigits(u[..w]), 58), 256)) else None
  {
    var ok, digits := ReadWord(u);
    if !ok {
      return None;
    }
    var p := Run(u, IsVisible);
    while p < |u| && IsSpace(u[p])
      invariant WordLength(u) <= p <= |u| && forall i | WordLength(u) <= i < p :: IsSpace(u[i])
    {
      p := p + 1;
    }
    if p < |u| {
      return None;
    }
    r := Some(Zeros(zeroes) + digits);
  }

  lemma WordNext(u: string, p: nat, size: nat)
    requires p < |u| && IsWord(u[..p]) && DigitOf(u[p], 0).Some? && Pow(58, |u|) <= Pow(256, size)
    ensures IsWord(u[..p + 1])
    ensures Value(WordDigits(u[..p + 1]), 58) == MulPlus(58, Value(WordDigits(u[..p]), 58), DigitOf(u[p], 0).value) < Pow(256, size)
  {
    var d := DigitOf(u[p], 0).value;
    WordAppend(u[..p], u[p]);
    assert u[..p + 1] == u[..p] + [u[p]];
    ValueAppend(WordDigits(u[..p]), d, 58);
    ValueBelow(WordDigits(u[..p + 1]), 58);
    PowLonger(58, p + 1, |u|);
  }

  lemma WordAppend(w: string, c: char)
    requires IsWord(w) && DigitOf(c, 0).Some?
    ensures IsWord(w + [c]) && WordDigits(w + [c]) == WordDigits(w) + [DigitOf(c, 0).value]
  {
  }

  // ----- Round trips -----

  lemma LettersAreWord(d: seq<nat>)
    requires AreDigits(d, 58)
    ensures IsWord(Letters(d)) && WordDigits(Letters(d)) == d
  {
    forall i | 0 <= i < |d| ensures DigitOf(Letters(d)[i], 0) == Some(d[i]) {
      DigitOfLetter(d[i]);
    }
  }

  /** A word without spaces around it, cut after its leading ones. */
  lemma CutWord(n: nat, u: string)
    requires (forall i | 0 <= i < |u| :: !IsSpace(u[i])) && (u != [] ==> u[0] != '1')
    ensures Rest(Ones(n) + u) == u && CountOnes(Ones(n) + u) == n && WordLength(u) == |u|
  {
    var s := Ones(n) + u;
    RunIs(s, IsSpace, 0);
    assert s[0..] == s;
    RunIs(s, IsOne, n);
    RunIs(u, IsVisible, |u|);
  }

  /** Decoding an encoded byte string gives it back. */
  lemma DecodeEncode(vch: seq<nat>)
    requires AreDigits(vch, 256)
    ensures Decoded(Encoded(vch)) == Some(vch)
  {
    var z := LeadingZeros(vch);
    NumberDecodes(z, Value(vch[z..], 256));
    RestUnique(vch, z);
  }

  lemma RestUnique(vch: seq<nat>, z: nat)
    requires AreDigits(vch, 256) && z == LeadingZeros(vch)
    ensures Zeros(z) + Digits(Value(vch[z..], 256), 256) == vch
  {
    DigitsUnique(vch[z..], 256);
  }

  lemma NumberDecodes(n: nat, v: nat)
    ensures Decoded(Ones(n) + Letters(Digits(v, 58))) == Some(Zeros(n) + Digits(v, 256))
  {
    var d := Digits(v, 58);
    forall i | 0 <= i < |d| ensures !IsSpace(Letters(d)[i]) && (i == 0 ==> Letters(d)[i] != '1') {
      LettersDiffer(d[i], d[i]);
      if v > 0 {
        DigitsLead(v, 58);
      }
    }
    LettersAreWord(d);
    WordDecodes(n, Letters(d));
    DigitsValue(v, 58);
  }

  lemma WordDecodes(n: nat, u: string)
    requires IsWord(u) && (forall i | 0 <= i < |u| :: !IsSpace(u[i])) && (u != [] ==> u[0] != '1')
    ensures Decoded(Ones(n) + u) == Some(Zeros(n) + Digits(Value(WordDigits(u), 58), 256))
  {
    CutWord(n, u);
    assert u[..|u|] == u;
  }

  /** Encoding what a string without spaces decodes to gives the string back. */
  lemma EncodeDecode(s: string)
    requires (forall i | 0 <= i < |s| :: !IsSpace(s[i])) && Decoded(s).Some?
    ensures Encoded(Decoded(s).value) == s
  {
    RunIs(s, IsSpace, 0);
    assert s[0..] == s;
    var n := CountOnes(s);
    var u := Rest(s);
    assert s == Ones(n) + u;
    CutWord(n, u);
    assert u[..|u|] == u;
    var d := WordDigits(u);
    var v := Value(d, 58);
    var bytes := Digits(v, 256);
    if u != [] {
      LettersDiffer(d[0], 0);
    }
    DigitsUnique(d, 58);
    DigitsValue(v, 256);
    ZerosThen(n, v);
    assert Letters(d) == u;
  }

  lemma ZerosThen(n: nat, v: nat)
    ensures var vch := Zeros(n) + Digits(v, 256);
            LeadingZeros(vch) == n && vch[n..] == Digits(v, 256)
  {
    var vch, d := Zeros(n) + Digits(v, 256), Digits(v, 256);
    if v > 0 {
      DigitsLead(v, 256);
      assert vch[n] == d[0];
    }
    assert forall i | 0 <= i < n :: vch[i] == 0;
  }

  // ----- With a checksum -----

  /** The byte string with the first four bytes of its hash behind it. */
  ghost function Checked(vch: seq<nat>, checksum: seq<nat> -> seq<nat>): seq<nat> {
    vch + checksum(vch)
  }

  method EncodeBase58Check(vchIn: seq<nat>, checksum: seq<nat> -> seq<nat>) returns (str: string)
    requires AreDigits(vchIn, 256) && AreDigits(checksum(vchIn), 256)
    ensures str == Encoded(Checked(vchIn, checksum))
  {
    str := EncodeBase58(vchIn + checksum(vchIn));
  }

  /** Accepts exactly the strings that stand for a byte string followed by its checksum. */
  method DecodeBase58Check(psz: string, checksum: seq<nat> -> seq<nat>) returns (r: Option<seq<nat>>)
    requires '\0' !in psz && forall v :: |checksum(v)| == 4
    ensures r.Some? ==> Decoded(psz) == Some(Checked(r.value, checksum))
    ensures r.None? ==> forall v :: Decoded(psz) != Some(Checked(v, checksum))
  {
    var vch := DecodeBase58(psz);
    if vch.None? || |vch.value| < 4 {
      return None;
    }
    var n := |vch.value| - 4;
    var body := vch.value[..n];
    if checksum(body) != vch.value[n..] {
      forall v ensures vch.value != Checked(v, checksum) {
        assert Checked(v, checksum)[|v|..] == checksum(v) && Checked(v, checksum)[..|v|] == v;
      }
      return None;
    }
    assert vch.value == body + vch.value[n..];
    r := Some(body);
  }

  /** What is encoded with a checksum is accepted and decoded to itself. */
  method CheckRoundTrip(vch: seq<nat>, checksum: seq<nat> -> seq<nat>) returns (r: Option<seq<nat>>)
    requires AreDigits(vch, 256) && (forall v :: |checksum(v)| == 4) && forall v :: AreDigits(checksum(v), 256)
    ensures r == Some(vch)
  {
    var str := EncodeBase58Check(vch, checksum);
    DecodeEncode(Checked(vch, checksum));
    NoNul(Checked(vch, checksum));
    r := DecodeBase58Check(str, checksum);
    if r.Some? {
      assert Checked(vch, checksum)[..|vch|] == vch && Checked(r.value, checksum)[..|vch|] == r.value;
    }
  }

  lemma NoNul(vch: seq<nat>)
    ensures '\0' !in Encoded(vch)
  {
    var z := LeadingZeros(vch);
    var d := Digits(Value(vch[z..], 256), 58);
    forall i | 0 <= i < |d| ensures Letters(d)[i] != '\0' {
      LettersDiffer(d[i], 0);
    }
  }
}
