/**
 Streams of bytes and scripts, and the variable-length integers in them: digits of seven bits, the most
 significant first, each but the last with its high bit set and one less than its place says.
 */
module Streams {
  import opened Numbers

  /** The form a script takes in a stream is not part of the model. */
  datatype Token = Byte(b: Octet) | Script(script: seq<nat>)

  type Octet = n: int | 0 <= n < 256

  /** What reading some tokens gives: nothing, because the stream ended or held something else,
      or a value and the position after it. */
  datatype Read<T> = Fail | Got(value: T, next: nat)

  ghost predicate At(ts: seq<Token>, pos: nat, part: seq<Token>) {
    pos + |part| <= |ts| && forall j | 0 <= j < |part| :: ts[pos + j] == part[j]
  }

  lemma AtSplit(ts: seq<Token>, pos: nat, a: seq<Token>, b: seq<Token>)
    requires At(ts, pos, a + b)
    ensures At(ts, pos, a) && At(ts, pos + |a|, b)
  {
    var c := a + b;
    forall j | 0 <= j < |a|
      ensures ts[pos + j] == a[j]
    {
      assert c[j] == a[j];
    }
    forall j | 0 <= j < |b|
      ensures ts[pos + |a| + j] == b[j]
    {
      assert c[|a| + j] == b[j] && ts[pos + (|a| + j)] == c[|a| + j];
    }
  }

  lemma AtSlice(ts: seq<Token>, pos: nat, next: nat)
    requires pos <= next <= |ts|
    ensures At(ts, pos, ts[pos..next])
  {
  }

  lemma SliceAt(ts: seq<Token>, pos: nat, part: seq<Token>)
    requires At(ts, pos, part)
    ensures ts[pos..pos + |part|] == part
  {
  }

  lemma AtOne(ts: seq<Token>, pos: nat, x: Token)
    requires At(ts, pos, [x])
    ensures pos < |ts| && ts[pos] == x
  {
    assert ts[pos + 0] == [x][0];
  }

  // ----- Integers of the machine -----

  datatype Width = INT32 | UINT32 | INT64 | UINT64 {

    function Bits(): nat {
      if INT32? || UINT32? then 32 else 64
    }

    function Size(): nat {
      if INT32? || UINT32? then 0x1_0000_0000 else 0x1_0000_0000_0000_0000
    }

    function Lowest(): int {
      if INT32? then -0x8000_0000 else if INT64? then -0x8000_0000_0000_0000 else 0
    }
  }

  predicate Fits(w: Width, n: int) {
    w.Lowest() <= n < w.Lowest() + w.Size()
  }

  /** The number that is left of n in this many bits. */
  function Wrap(w: Width, n: int): (r: int)
    ensures Fits(w, r) && (Fits(w, n) ==> r == n)
    decreases if n < w.Lowest() then w.Lowest() - n + w.Size() else n - w.Lowest()
  {
    if n < w.Lowest() then Wrap(w, n + w.Size())
    else if n >= w.Lowest() + w.Size() then Wrap(w, n - w.Size())
    else n
  }

  lemma {:induction false} WrapShift(w: Width, n: int, k: int)
    ensures Wrap(w, n + k * w.Size()) == Wrap(w, n)
    decreases if k < 0 then 0 - k else k
  {
    var s := w.Size();
    if k > 0 {
      WrapShift(w, n, k - 1);
      assert n + k * s == n + (k - 1) * s + s;
    } else if k < 0 {
      WrapShift(w, n, k + 1);
      assert n + k * s == n + (k + 1) * s - s;
    }
  }

  lemma {:induction false} WrapOffset(w: Width, n: int) returns (k: int)
    ensures n == Wrap(w, n) + k * w.Size()
    decreases if n < w.Lowest() then w.Lowest() - n + w.Size() else n - w.Lowest()
  {
    var s := w.Size();
    k := 0;
    if n < w.Lowest() {
      k := WrapOffset(w, n + s);
      k := k - 1;
      assert (k + 1) * s - s == k * s;
    } else if n >= w.Lowest() + s {
      k := WrapOffset(w, n - s);
      k := k + 1;
      assert (k - 1) * s + s == k * s;
    }
  }

  /** Wrapping on the way does not change what wrapping at the end gives. */
  lemma WrapTwice(w: Width, n: int, a: int, b: int)
    ensures Wrap(w, Wrap(w, n) * a + b) == Wrap(w, n * a + b)
  {
    var s := w.Size();
    var k := WrapOffset(w, n);
    Spread(Wrap(w, n), s, k, a);
    WrapShift(w, Wrap(w, n) * a + b, k * a);
  }

  lemma Spread(x: int, s: int, k: int, a: int)
    ensures (x + k * s) * a == x * a + (k * a) * s
  {
    MulDistr(a, x, k * s);
    assert (k * s) * a == (k * a) * s;
  }

  // ----- Digits -----

  function Low(b: Octet): nat {
    b % 128
  }

  predicate More(b: Octet) {
    b >= 128
  }

  function Digit(n: int, more: bool): Octet {
    n % 128 + if more then 128 else 0
  }

  // ----- Writing -----

  /** The tokens of a number that more digits follow, or none. */
  function VarInt(n: int, more: bool): seq<Token>
    decreases if n <= 0x7F then 0 else n
  {
    (if n <= 0x7F then [] else VarInt(n / 128 - 1, true)) + [Byte(Digit(n, more))]
  }

  /** Bytes in the opposite order. */
  function Backwards(d: seq<Octet>): seq<Token> {
    if d == [] then [] else [Byte(d[|d| - 1])] + Backwards(d[..|d| - 1])
  }

  lemma BackwardsNext(d: seq<Octet>, b: Octet)
    ensures Backwards(d + [b]) == [Byte(b)] + Backwards(d)
  {
    assert (d + [b])[..|d|] == d;
  }

  lemma VarIntDigits(n: int, more: bool, d: seq<Octet>, b: Octet)
    requires b == Digit(n, more)
    ensures n <= 0x7F ==> VarInt(n, more) + Backwards(d) == Backwards(d + [b])
    ensures n > 0x7F ==> VarInt(n, more) + Backwards(d) == VarInt(n / 128 - 1, true) + Backwards(d + [b])
  {
    BackwardsNext(d, b);
    if n > 0x7F {
      var front := VarInt(n / 128 - 1, true);
      assert front + [Byte(b)] + Backwards(d) == front + ([Byte(b)] + Backwards(d));
    }
  }

  /** A number with bits beyond the next digit needs room for another one. */
  lemma RoomLeft(bits: nat, len: nat, n: int)
    requires 7 * len < bits && 0x7F < n < Pow2(bits - 7 * len)
    ensures 7 * (len + 1) < bits && n / 128 - 1 < Pow2(bits - 7 * (len + 1))
  {
    Pow2Values();
    var left := bits - 7 * len;
    if left <= 7 {
      Pow2Mono(left, 7);
    } else {
      Pow2Add(7, left - 7);
      DivBelow(n, 128, Pow2(left - 7));
    }
  }

  method WriteVarInt(w: Width, number: int) returns (s: seq<Token>)
    requires Fits(w, number)
    ensures s == VarInt(number, false)
  {
    BitsSuffice(w, number);
    var tmp, len := Digits(w.Bits(), number);
    s := [];
    while true
      invariant 0 <= len < tmp.Length && VarInt(number, false) == s + Backwards(tmp[..len + 1])
      decreases len
    {
      assert tmp[..len + 1] == tmp[..len] + [tmp[len]];
      BackwardsNext(tmp[..len], tmp[len]);
      s := s + [Byte(tmp[len])];
      if len == 0 {
        break;
      }
      len := len - 1;
    }
  }

  lemma BitsSuffice(w: Width, n: int)
    requires Fits(w, n)
    ensures n < Pow2(w.Bits())
  {
    Pow2Values();
  }

  /** The buffer for the digits of an integer is never too small. */
  method Digits(bits: nat, number: int) returns (tmp: array<Octet>, len: nat)
    requires bits > 0 && number < Pow2(bits)
    ensures len < tmp.Length && VarInt(number, false) == Backwards(tmp[..len + 1])
  {
    tmp := new Octet[(bits + 6) / 7];
    var n := number;
    len := 0;
    while true
      invariant 7 * len < bits && n < Pow2(bits - 7 * len)
      invariant len <= tmp.Length && VarInt(number, false) == VarInt(n, len > 0) + Backwards(tmp[..len])
      decreases bits - 7 * len
    {
      CeilDiv(bits, 7, len);
      VarIntDigits(n, len > 0, tmp[..len], Digit(n, len > 0));
      tmp[len] := Digit(n, len > 0);
      assert tmp[..len + 1] == tmp[..len] + [tmp[len]];
      if n <= 0x7F {
        break;
      }
      RoomLeft(bits, len, n);
      n := n / 128 - 1;
      len := len + 1;
    }
  }

  // ----- Reading -----

  /** The number that the digits from pos on add to those already read. */
  function ReadDigits(ts: seq<Token>, pos: nat, n: nat): (r: Read<nat>)
    ensures r.Got? ==> pos < r.next <= |ts|
    decreases |ts| - pos
  {
    if pos >= |ts| || !ts[pos].Byte? then Fail
    else if More(ts[pos].b) then ReadDigits(ts, pos + 1, Next(n, ts[pos].b))
    else Got(Next(n, ts[pos].b), pos + 1)
  }

  function ReadInt(w: Width, ts: seq<Token>, pos: nat): (r: Read<int>)
    ensures r.Got? ==> Fits(w, r.value) && pos < r.next <= |ts|
  {
    var r := ReadDigits(ts, pos, 0);
    if r.Fail? then Fail else Got(Wrap(w, r.value), r.next)
  }

  /** What one more digit makes of the number. */
  function Next(n: nat, b: Octet): nat {
    n * 128 + Low(b) + if More(b) then 1 else 0
  }

  lemma NextWraps(w: Width, whole: nat, b: Octet)
    ensures var n := Wrap(w, Wrap(w, whole) * 128 + Low(b));
            (if More(b) then Wrap(w, n + 1) else n) == Wrap(w, Next(whole, b))
  {
    WrapTwice(w, whole, 128, Low(b));
    WrapTwice(w, whole * 128 + Low(b), 1, 1);
  }

  method AddDigit(w: Width, number: int, chData: Octet, ghost whole: nat) returns (n: int)
    requires number == Wrap(w, whole)
    ensures n == Wrap(w, Next(whole, chData))
  {
    NextWraps(w, whole, chData);
    n := Wrap(w, number * 128 + Low(chData));
    if More(chData) {
      n := Wrap(w, n + 1);
    }
  }

  /** Every step wraps; the result is the number on the stream, wrapped once. */
  method ReadVarInt(w: Width, ts: seq<Token>, start: nat) returns (r: Read<int>)
    ensures r == ReadInt(w, ts, start)
  {
    var n, pos := Wrap(w, 0), start;
    ghost var whole: nat := 0;
    while true
      invariant n == Wrap(w, whole) && ReadDigits(ts, start, 0) == ReadDigits(ts, pos, whole)
      decreases |ts| - pos
    {
      if pos >= |ts| || !ts[pos].Byte? {
        return Fail;
      }
      var chData := ts[pos].b;
      n := AddDigit(w, n, chData, whole);
      whole := Next(whole, chData);
      pos := pos + 1;
      if !More(chData) {
        return Got(n, pos);
      }
    }
  }

  // ----- The round trip -----

  /** What is read back of a number: the writer stops at once on a negative one. */
  function ReadBack(n: int): (r: nat) {
    if n >= 0 then n else n % 128
  }

  lemma VarIntOfReadBack(n: int, more: bool)
    ensures VarInt(n, more) == VarInt(ReadBack(n), more)
  {
  }

  /** The digits of a number before its last one, and the last. */
  lemma VarIntParts(n: nat, more: bool)
    ensures n <= 0x7F ==> VarInt(n, more) == [Byte(Digit(n, more))]
    ensures n > 0x7F ==> VarInt(n, more) == VarInt(n / 128 - 1, true) + [Byte(Digit(n, more))]
    ensures n / 128 * 128 + Low(Digit(n, more)) == n && (More(Digit(n, more)) <==> more)
    ensures n <= 0x7F ==> n / 128 == 0
  {
  }

  /** Reading after the digits of a number goes on with the number, or stops. */
  ghost function After(ts: seq<Token>, pos: nat, n: nat, more: bool): Read<nat> {
    if more then ReadDigits(ts, pos, n + 1) else Got(n, pos)
  }

  /** The digits of a number are at pos, up to end. */
  ghost predicate WrittenAt(ts: seq<Token>, pos: nat, end: nat, n: nat, more: bool) {
    && pos < end <= |ts| && ts[end - 1] == Byte(Digit(n, more))
    && (if n <= 0x7F then end == pos + 1 else WrittenAt(ts, pos, end - 1, n / 128 - 1, true))
  }

  lemma {:induction false} WrittenMoves(part: seq<Token>, end: nat, ts: seq<Token>, pos: nat, n: nat, more: bool)
    requires WrittenAt(part, 0, end, n, more) && At(ts, pos, part)
    ensures WrittenAt(ts, pos, pos + end, n, more)
    decreases n
  {
    assert ts[pos + (end - 1)] == part[end - 1];
    if n > 0x7F {
      WrittenMoves(part, end - 1, ts, pos, n / 128 - 1, true);
    }
  }

  lemma {:induction false} VarIntWritten(n: nat, more: bool)
    ensures WrittenAt(VarInt(n, more), 0, |VarInt(n, more)|, n, more)
  {
    VarIntParts(n, more);
    if n > 0x7F {
      var front := VarInt(n / 128 - 1, true);
      VarIntWritten(n / 128 - 1, true);
      WrittenMoves(front, |front|, VarInt(n, more), 0, n / 128 - 1, true);
    }
  }

  lemma {:induction false} ReadsDigits(ts: seq<Token>, pos: nat, end: nat, n: nat, more: bool)
    requires WrittenAt(ts, pos, end, n, more)
    ensures ReadDigits(ts, pos, 0) == After(ts, end, n, more)
    decreases n
  {
    ReadsDigit(ts, end - 1, n, more);
    if n > 0x7F {
      ReadsDigits(ts, pos, end - 1, n / 128 - 1, true);
    }
  }

  lemma ReadsDigit(ts: seq<Token>, pos: nat, n: nat, more: bool)
    requires pos < |ts| && ts[pos] == Byte(Digit(n, more))
    ensures ReadDigits(ts, pos, n / 128) == After(ts, pos + 1, n, more)
  {
    VarIntParts(n, more);
  }

  /** What was written of a number is at pos, up to next. */
  ghost predicate IntAt(ts: seq<Token>, pos: nat, next: nat, n: int) {
    WrittenAt(ts, pos, next, ReadBack(n), false)
  }

  lemma VarIntLaid(ts: seq<Token>, pos: nat, next: nat, n: int)
    requires pos <= next <= |ts| && ts[pos..next] == VarInt(n, false)
    ensures IntAt(ts, pos, next, n)
  {
    VarIntOfReadBack(n, false);
    VarIntWritten(ReadBack(n), false);
    AtSlice(ts, pos, next);
    WrittenMoves(ts[pos..next], next - pos, ts, pos, ReadBack(n), false);
  }

  lemma IntRead(w: Width, ts: seq<Token>, pos: nat, next: nat, n: int)
    requires Fits(w, n) && IntAt(ts, pos, next, n)
    ensures ReadInt(w, ts, pos) == Got(ReadBack(n), next)
  {
    ReadsDigits(ts, pos, next, ReadBack(n), false);
  }

  /** A number that was written is read back if and only if it is not negative. */
  lemma ReadWritten(w: Width, ts: seq<Token>, pos: nat, n: int)
    requires Fits(w, n) && At(ts, pos, VarInt(n, false))
    ensures ReadInt(w, ts, pos) == Got(ReadBack(n), pos + |VarInt(n, false)|)
    ensures ReadInt(w, ts, pos).value == n <==> n >= 0
  {
    SliceAt(ts, pos, VarInt(n, false));
    VarIntLaid(ts, pos, pos + |VarInt(n, false)|, n);
    IntRead(w, ts, pos, pos + |VarInt(n, false)|, n);
  }

  /** The bytes of minus one are those of 127. */
  lemma MinusOne()
    ensures VarInt(-1, false) == [Byte(0x7F)] == VarInt(127, false) && ReadBack(-1) == 127
  {
  }

  lemma VarIntOf(n: nat, b: Octet)
    ensures VarInt(n * 128 + Low(b), More(b)) == (if n == 0 then [] else VarInt(n - 1, true)) + [Byte(b)]
  {
    DivUnique(n * 128 + Low(b), 128, n, Low(b));
    VarIntParts(n * 128 + Low(b), More(b));
  }

  /** No number has two forms: what is read from a stream is what would have been written. */
  lemma {:induction false} OneForm(ts: seq<Token>, pos: nat, n: nat)
    requires ReadDigits(ts, pos, n).Got?
    ensures var r := ReadDigits(ts, pos, n);
            VarInt(r.value, false) == (if n == 0 then [] else VarInt(n - 1, true)) + ts[pos..r.next]
    decreases |ts| - pos
  {
    var b, r := ts[pos].b, ReadDigits(ts, pos, n);
    VarIntOf(n, b);
    Slices(if n == 0 then [] else VarInt(n - 1, true), ts, pos, r.next);
    if More(b) {
      OneForm(ts, pos + 1, Next(n, b));
    }
  }

  lemma Slices(before: seq<Token>, ts: seq<Token>, pos: nat, next: nat)
    requires pos < next <= |ts|
    ensures before + ts[pos..next] == before + [ts[pos]] + ts[pos + 1..next]
  {
    assert ts[pos..next] == [ts[pos]] + ts[pos + 1..next];
  }
}
