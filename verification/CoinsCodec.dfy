/**
 How the unspent outputs of a transaction are written and read back: amounts without their
 trailing zeros, and a bit mask that leaves out its last bytes when they are zero.
 */
module CoinsCodec {
  import opened Numbers
  import opened Bits
  import opened Streams
  import opened Transactions

  // ----- Amounts -----

  const COIN: nat := 100000000
  const MAX_MONEY: nat := 10000000000 * COIN

  /** The longest vector that is read from a stream. */
  const MAX_SIZE: nat := 0x0200_0000

  /** The code of an amount that has already lost e trailing zeros. */
  function CompressedFrom(n: nat, e: nat): nat
    requires n > 0 && e <= 9
    decreases 9 - e
  {
    if n % 10 == 0 && e < 9 then CompressedFrom(n / 10, e + 1)
    else if e < 9 then 1 + (n / 10 * 9 + n % 10 - 1) * 10 + e
    else 1 + (n - 1) * 10 + 9
  }

  function Compressed(n: nat): nat {
    if n == 0 then 0 else CompressedFrom(n, 0)
  }

  function Raised(n: nat, e: nat): nat
    decreases e
  {
    if e == 0 then n else Raised(n * 10, e - 1)
  }

  /** The amount without its trailing zeros that a code stands for. */
  function Stem(x: nat, e: nat): nat {
    if e < 9 then x / 9 * 10 + x % 9 + 1 else x + 1
  }

  function Decompressed(x: nat): nat {
    if x == 0 then 0 else Raised(Stem((x - 1) / 10, (x - 1) % 10), (x - 1) % 10)
  }

  /** The code of an amount in 64 bits. */
  function AmountCode(amount: int): (r: nat)
    ensures Fits(UINT64, r)
  {
    Wrap(UINT64, Compressed(Wrap(UINT64, amount)))
  }

  /** The amount of a code in 64 bits. */
  function AmountOf(code: nat): int {
    Wrap(INT64, Wrap(UINT64, Decompressed(code)))
  }

  /** Amounts whose code does not need more than 64 bits. */
  ghost predicate AmountLasts(amount: int) {
    0 <= amount && Fits(INT64, amount) && Fits(UINT64, Compressed(amount))
  }

  method CompressAmount(amount: nat) returns (x: nat)
    ensures x == Wrap(UINT64, Compressed(amount))
  {
    if amount == 0 {
      return 0;
    }
    var n, e := amount, 0;
    while n % 10 == 0 && e < 9
      invariant 0 < n <= amount && 0 <= e <= 9 && CompressedFrom(n, e) == Compressed(amount)
      decreases 9 - e
    {
      n := n / 10;
      e := e + 1;
    }
    if e < 9 {
      var d := n % 10;
      assert 1 <= d <= 9;
      n := n / 10;
      return Wrap(UINT64, 1 + (n * 9 + d - 1) * 10 + e);
    } else {
      return Wrap(UINT64, 1 + (n - 1) * 10 + 9);
    }
  }

  method DecompressAmount(code: nat) returns (n: nat)
    ensures n == Wrap(UINT64, Decompressed(code))
  {
    if code == 0 {
      return Wrap(UINT64, 0);
    }
    var x := code - 1;
    var e := x % 10;
    x := x / 10;
    ghost var whole := Stem(x, e);
    if e < 9 {
      var d := x % 9 + 1;
      x := x / 9;
      n := Wrap(UINT64, x * 10 + d);
    } else {
      n := Wrap(UINT64, x + 1);
    }
    while e != 0
      invariant 0 <= e <= 9 && n == Wrap(UINT64, whole) && Raised(whole, e) == Decompressed(code)
    {
      WrapTwice(UINT64, whole, 10, 0);
      n := Wrap(UINT64, n * 10);
      whole := whole * 10;
      e := e - 1;
    }
  }

  lemma {:induction false} RaisedTen(n: nat, e: nat)
    ensures Raised(n * 10, e) == Raised(n, e) * 10
    decreases e
  {
    if e > 0 {
      RaisedTen(n * 10, e - 1);
    }
  }

  /** A code tells how many zeros were dropped and what remained. */
  lemma {:induction false} CodeParts(n: nat, e: nat)
    requires n > 0 && e <= 9
    ensures CompressedFrom(n, e) > 0 && e <= Zeros(CompressedFrom(n, e))
    ensures Raised(StemAt(CompressedFrom(n, e)), Zeros(CompressedFrom(n, e)) - e) == n
    decreases 9 - e
  {
    var x := CompressedFrom(n, e);
    if n % 10 == 0 && e < 9 {
      CodeParts(n / 10, e + 1);
      RaisedTen(StemAt(x), Zeros(x) - e - 1);
    } else if e < 9 {
      StemOf(n / 10, n % 10, e);
    } else {
      assert (x - 1) % 10 == 9 && (x - 1) / 10 == n - 1;
    }
  }

  /** How many zeros a code stands for, and what is before them. */
  function Zeros(x: nat): nat
    requires x > 0
  {
    (x - 1) % 10
  }

  function StemAt(x: nat): nat
    requires x > 0
  {
    Stem((x - 1) / 10, Zeros(x))
  }

  lemma StemOf(q: nat, d: nat, e: nat)
    requires 1 <= d <= 9 && e < 9
    ensures var x := 1 + (q * 9 + d - 1) * 10 + e;
            (x - 1) % 10 == e && (x - 1) / 10 == q * 9 + d - 1 && Stem((x - 1) / 10, e) == q * 10 + d
  {
  }

  /** Decompressing undoes compressing, for every amount. */
  lemma DecompressCompress(n: nat)
    ensures Decompressed(Compressed(n)) == n
  {
    if n > 0 {
      CodeParts(n, 0);
    }
  }

  /** Zeros that are put back are dropped again. */
  lemma {:induction false} CompressRaised(n: nat, e: nat, k: nat)
    requires n > 0 && k <= e <= 9 && (e < 9 ==> n % 10 != 0)
    ensures Raised(n, k) > 0 && CompressedFrom(Raised(n, k), e - k) == CompressedFrom(n, e)
    decreases k
  {
    if k > 0 {
      CompressRaised(n, e, k - 1);
      RaisedTen(n, k - 1);
      CompressedTen(Raised(n, k - 1), e - k);
    }
  }

  lemma CompressedTen(m: nat, f: nat)
    requires m > 0 && f < 9
    ensures CompressedFrom(m * 10, f) == CompressedFrom(m, f + 1)
  {
    assert m * 10 % 10 == 0 && m * 10 / 10 == m;
  }

  /** Compressing undoes decompressing, for every code. */
  lemma CompressDecompress(x: nat)
    ensures Compressed(Decompressed(x)) == x
  {
    if x > 0 {
      var e, y := (x - 1) % 10, (x - 1) / 10;
      StemFacts(y, e);
      CompressRaised(Stem(y, e), e, e);
    }
  }

  lemma StemFacts(y: nat, e: nat)
    requires e <= 9
    ensures Stem(y, e) > 0 && (e < 9 ==> Stem(y, e) % 10 != 0)
    ensures CompressedFrom(Stem(y, e), e) == 1 + y * 10 + e
  {
    if e < 9 {
      var n := Stem(y, e);
      assert n / 10 == y / 9 && n % 10 == y % 9 + 1;
    }
  }

  // ----- Which outputs are available -----

  predicate Avail(vout: seq<TxOut>, i: nat) {
    i < |vout| && !vout[i].IsNull()
  }

  /** The first k bits of mask byte b. */
  function MaskUpTo(vout: seq<TxOut>, b: nat, k: nat): bv8
    requires k <= 8
    decreases |vout|, k
  {
    if k == 0 then 0
    else MaskUpTo(vout, b, k - 1) | if Avail(vout, 2 + b * 8 + k - 1) then Mask(k - 1) else 0
  }

  function MaskByte(vout: seq<TxOut>, b: nat): bv8 {
    MaskUpTo(vout, b, 8)
  }

  lemma {:induction false} MaskBits(vout: seq<TxOut>, b: nat, k: nat, p: nat)
    requires k <= 8 && p < 8
    ensures BitSet(MaskUpTo(vout, b, k), p) <==> p < k && Avail(vout, 2 + b * 8 + p)
  {
    if k == 0 {
      NoBits(p);
    } else {
      MaskBits(vout, b, k - 1, p);
      SetBit(MaskUpTo(vout, b, k - 1), k - 1, p);
      OrNothing(MaskUpTo(vout, b, k - 1));
    }
  }

  lemma OrNothing(x: bv8)
    ensures x | 0 == x
  {
  }

  /** Bits beyond the last output are zero. */
  lemma {:induction false} MaskEnd(vout: seq<TxOut>, b: nat, i: nat, k: nat)
    requires i <= k <= 8 && 2 + b * 8 + i >= |vout|
    ensures MaskUpTo(vout, b, k) == MaskUpTo(vout, b, i)
  {
    if i < k {
      MaskEnd(vout, b, i, k - 1);
      OrNothing(MaskUpTo(vout, b, k - 1));
    }
  }

  lemma OrMask(x: bv8, k: nat)
    requires k < 8
    ensures x | Mask(k) != 0
  {
  }

  /** How many of the first n mask bytes are not zero. */
  function Nonzero(vout: seq<TxOut>, n: nat): nat {
    if n == 0 then 0 else Nonzero(vout, n - 1) + if MaskByte(vout, n - 1) != 0 then 1 else 0
  }

  /** The length of the mask without zero bytes at its end. */
  function MaskLength(vout: seq<TxOut>, n: nat): nat {
    if n == 0 then 0 else if MaskByte(vout, n - 1) != 0 then n else MaskLength(vout, n - 1)
  }

  /** The number of bytes in which the outputs after the first two fit. */
  function MaskRoom(vout: seq<TxOut>): (n: nat)
    ensures forall b: nat :: 2 + b * 8 < |vout| <==> b < n
  {
    if |vout| <= 2 then 0 else (|vout| - 2 + 7) / 8
  }

  method CalcMaskSize(vout: seq<TxOut>) returns (nBytes: nat, nNonzeroBytes: nat)
    ensures nBytes == MaskLength(vout, MaskRoom(vout)) && nNonzeroBytes == Nonzero(vout, MaskRoom(vout))
  {
    nBytes, nNonzeroBytes := 0, 0;
    var b := 0;
    while 2 + b * 8 < |vout|
      invariant 0 <= b <= MaskRoom(vout) && nBytes == MaskLength(vout, b) && nNonzeroBytes == Nonzero(vout, b)
      decreases |vout| - b
    {
      var fZero := true;
      var i := 0;
      while i < 8 && 2 + b * 8 + i < |vout|
        invariant 0 <= i <= 8 && (fZero <==> MaskUpTo(vout, b, i) == 0)
      {
        OrMask(MaskUpTo(vout, b, i), i);
        OrNothing(MaskUpTo(vout, b, i));
        if !vout[2 + b * 8 + i].IsNull() {
          fZero := false;
        }
        i := i + 1;
      }
      if i < 8 {
        MaskEnd(vout, b, i, 8);
      }
      b := b + 1;
      if !fZero {
        nBytes := b;
        nNonzeroBytes := nNonzeroBytes + 1;
      }
    }
  }

  // ----- Writing -----

  function AsOctet(x: bv8): Octet {
    x as int
  }

  function AsBits(b: Octet): bv8 {
    b as bv8
  }

  lemma OctetBits(x: bv8)
    ensures AsBits(AsOctet(x)) == x && (AsOctet(x) == 0 <==> x == 0)
  {
  }

  /** The number that holds three flags and the count of mask bytes that are not zero. */
  function HeaderCode(nonzero: nat, coinBase: bool, first: bool, second: bool): nat
    requires first || second || nonzero > 0
  {
    8 * (nonzero - (if first || second then 0 else 1)) + (if coinBase then 1 else 0) + (if first then 2 else 0) + (if second then 4 else 0)
  }

  function MaskTokens(vout: seq<TxOut>, n: nat): seq<Token> {
    seq(n, b requires 0 <= b => Byte(AsOctet(MaskByte(vout, b))))
  }

  function OutTokens(o: TxOut): seq<Token> {
    VarInt(AmountCode(o.amount), false) + [Script(o.script)]
  }

  /** The outputs from i on that are not null. */
  function OutsTokens(vout: seq<TxOut>, i: nat): seq<Token>
    decreases |vout| - i
  {
    if i >= |vout| then []
    else (if vout[i].IsNull() then [] else OutTokens(vout[i])) + OutsTokens(vout, i + 1)
  }

  ghost function MaskSize(vout: seq<TxOut>): nat {
    MaskLength(vout, MaskRoom(vout))
  }

  ghost function CodeOf(c: Coins): nat
    requires !c.IsPruned()
  {
    SomethingToWrite(c);
    HeaderCode(Nonzero(c.vout, MaskRoom(c.vout)), c.coinBase, Avail(c.vout, 0), Avail(c.vout, 1))
  }

  /** The header code in 32 bits. */
  ghost function Header(c: Coins): nat
    requires !c.IsPruned()
  {
    Wrap(UINT32, CodeOf(c))
  }

  ghost function Encoded(c: Coins): seq<Token>
    requires !c.IsPruned()
  {
    VarInt(c.version, false) + VarInt(Header(c), false) + MaskTokens(c.vout, MaskSize(c.vout)) + OutsTokens(c.vout, 0) + VarInt(c.height, false)
  }

  lemma SomethingToWrite(c: Coins)
    requires !c.IsPruned()
    ensures Avail(c.vout, 0) || Avail(c.vout, 1) || Nonzero(c.vout, MaskRoom(c.vout)) > 0
  {
    var i :| 0 <= i < |c.vout| && !c.vout[i].IsNull();
    if i >= 2 {
      var b := (i - 2) / 8;
      MaskBits(c.vout, b, 8, (i - 2) % 8);
      NoBits((i - 2) % 8);
      NonzeroMono(c.vout, b + 1, MaskRoom(c.vout));
    }
  }

  lemma {:induction false} NonzeroMono(vout: seq<TxOut>, m: nat, n: nat)
    requires m <= n
    ensures Nonzero(vout, m) <= Nonzero(vout, n)
  {
    if m < n {
      NonzeroMono(vout, m, n - 1);
    }
  }

  method WriteMaskByte(vout: seq<TxOut>, b: nat) returns (chAvail: bv8)
    ensures chAvail == MaskByte(vout, b)
  {
    chAvail := 0;
    var i := 0;
    while i < 8 && 2 + b * 8 + i < |vout|
      invariant 0 <= i <= 8 && chAvail == MaskUpTo(vout, b, i)
    {
      OrNothing(chAvail);
      if !vout[2 + b * 8 + i].IsNull() {
        chAvail := chAvail | Mask(i);
      }
      i := i + 1;
    }
    if i < 8 {
      MaskEnd(vout, b, i, 8);
    }
  }

  method WriteMask(vout: seq<TxOut>, nMaskSize: nat) returns (s: seq<Token>)
    ensures s == MaskTokens(vout, nMaskSize)
  {
    s := [];
    for b := 0 to nMaskSize
      invariant s == MaskTokens(vout, b)
    {
      var chAvail := WriteMaskByte(vout, b);
      s := s + [Byte(AsOctet(chAvail))];
    }
  }

  method WriteOut(o: TxOut) returns (s: seq<Token>)
    ensures s == OutTokens(o)
  {
    var code := CompressAmount(Wrap(UINT64, o.amount));
    var amount := WriteVarInt(UINT64, code);
    s := amount + [Script(o.script)];
  }

  method WriteOuts(vout: seq<TxOut>) returns (s: seq<Token>)
    ensures s == OutsTokens(vout, 0)
  {
    s := [];
    for i := 0 to |vout|
      invariant OutsTokens(vout, 0) == s + OutsTokens(vout, i)
    {
      OutsTokensStep(vout, i);
      if !vout[i].IsNull() {
        Regroup(s, OutTokens(vout[i]), OutsTokens(vout, i + 1));
        var out := WriteOut(vout[i]);
        s := s + out;
      }
    }
  }

  lemma Regroup(a: seq<Token>, b: seq<Token>, c: seq<Token>)
    ensures a + (b + c) == a + b + c
  {
  }

  /** Any record with something to spend can be written; its version and its height have 32 bits. */
  method Serialize(c: Coins) returns (s: seq<Token>)
    requires !c.IsPruned() && Fits(INT32, c.version) && Fits(INT32, c.height)
    ensures s == Encoded(c)
  {
    var nMaskSize, nMaskCode := CalcMaskSize(c.vout);
    var fFirst := |c.vout| > 0 && !c.vout[0].IsNull();
    var fSecond := |c.vout| > 1 && !c.vout[1].IsNull();
    SomethingToWrite(c);
    var nCode := Wrap(UINT32, HeaderCode(nMaskCode, c.coinBase, fFirst, fSecond));
    var version := WriteVarInt(INT32, c.version);
    var code := WriteVarInt(UINT32, nCode);
    var mask := WriteMask(c.vout, nMaskSize);
    var outs := WriteOuts(c.vout);
    var height := WriteVarInt(INT32, c.height);
    s := version + code + mask + outs + height;
  }

  // ----- Reading -----

  function MaskedBits(b: bv8): seq<bool> {
    seq(8, p requires 0 <= p < 8 => BitSet(b, p))
  }

  /** Mask bytes are read until k of them were not zero. */
  function ReadMask(ts: seq<Token>, pos: nat, k: nat, seen: seq<bool>): Read<seq<bool>>
    decreases |ts| - pos
  {
    if k == 0 then Got(seen, pos)
    else if pos >= |ts| || !ts[pos].Byte? then Fail
    else ReadMask(ts, pos + 1, if ts[pos].b != 0 then k - 1 else k, seen + MaskedBits(AsBits(ts[pos].b)))
  }

  function ReadOut(ts: seq<Token>, pos: nat): Read<TxOut> {
    var code := ReadInt(UINT64, ts, pos);
    if code.Fail? || code.next >= |ts| || !ts[code.next].Script? then Fail
    else Got(TxOut(AmountOf(code.value), ts[code.next].script), code.next + 1)
  }

  /** Each available output is on the stream; the others are null. */
  function ReadOuts(ts: seq<Token>, pos: nat, avail: seq<bool>, seen: seq<TxOut>): Read<seq<TxOut>>
    requires |seen| <= |avail|
    decreases |avail| - |seen|
  {
    if |seen| == |avail| then Got(seen, pos)
    else if !avail[|seen|] then ReadOuts(ts, pos, avail, seen + [NULL_OUT])
    else
      var out := ReadOut(ts, pos);
      if out.Fail? then Fail else ReadOuts(ts, out.next, avail, seen + [out.value])
  }

  /** How many mask bytes that are not zero a header code announces. */
  function MaskCode(nCode: nat): nat {
    nCode / 8 + if nCode / 2 % 4 != 0 then 0 else 1
  }

  function Availability(nCode: nat, mask: seq<bool>): seq<bool> {
    [nCode / 2 % 2 == 1, nCode / 4 % 2 == 1] + mask
  }

  function ReadTail(nVersion: int, nCode: nat, ts: seq<Token>, outs: Read<seq<TxOut>>): Read<Coins> {
    if outs.Fail? then Fail
    else
      var height := ReadInt(INT32, ts, outs.next);
      if height.Fail? then Fail
      else Got(Coins(nCode % 2 == 1, outs.value, height.value, nVersion).Cleaned(), height.next)
  }

  function ReadBody(nVersion: int, nCode: nat, ts: seq<Token>, pos: nat): Read<Coins> {
    var mask := ReadMask(ts, pos, MaskCode(nCode), []);
    if mask.Fail? then Fail
    else ReadTail(nVersion, nCode, ts, ReadOuts(ts, mask.next, Availability(nCode, mask.value), []))
  }

  function Decoded(ts: seq<Token>): Read<Coins> {
    var version := ReadInt(INT32, ts, 0);
    if version.Fail? then Fail
    else
      var code := ReadInt(UINT32, ts, version.next);
      if code.Fail? then Fail else ReadBody(version.value, code.value, ts, code.next)
  }

  method ReadMaskByte(chAvail: bv8) returns (bits: seq<bool>)
    ensures bits == MaskedBits(chAvail)
  {
    bits := [];
    for p := 0 to 8
      invariant |bits| == p && forall q | 0 <= q < p :: bits[q] == BitSet(chAvail, q)
    {
      bits := bits + [BitSet(chAvail, p)];
    }
  }

  method UnserializeMask(ts: seq<Token>, start: nat, code: nat) returns (r: Read<seq<bool>>)
    ensures r == ReadMask(ts, start, code, [])
  {
    var nMaskCode, pos: nat, vAvail := code, start, [];
    while nMaskCode > 0
      invariant ReadMask(ts, start, code, []) == ReadMask(ts, pos, nMaskCode, vAvail)
      decreases |ts| - pos
    {
      if pos >= |ts| || !ts[pos].Byte? {
        return Fail;
      }
      var bits := ReadMaskByte(AsBits(ts[pos].b));
      vAvail := vAvail + bits;
      if ts[pos].b != 0 {
        nMaskCode := nMaskCode - 1;
      }
      pos := pos + 1;
    }
    r := Got(vAvail, pos);
  }

  method UnserializeOut(ts: seq<Token>, pos: nat) returns (r: Read<TxOut>)
    ensures r == ReadOut(ts, pos)
  {
    var code := ReadVarInt(UINT64, ts, pos);
    if code.Fail? || code.next >= |ts| || !ts[code.next].Script? {
      return Fail;
    }
    var amount := DecompressAmount(code.value);
    r := Got(TxOut(Wrap(INT64, amount), ts[code.next].script), code.next + 1);
  }

  method UnserializeOuts(ts: seq<Token>, start: nat, vAvail: seq<bool>) returns (r: Read<seq<TxOut>>)
    ensures r == ReadOuts(ts, start, vAvail, [])
  {
    var vout, pos: nat := [], start;
    for i := 0 to |vAvail|
      invariant |vout| == i && ReadOuts(ts, start, vAvail, []) == ReadOuts(ts, pos, vAvail, vout)
    {
      if vAvail[i] {
        var out := UnserializeOut(ts, pos);
        if out.Fail? {
          return Fail;
        }
        vout, pos := vout + [out.value], out.next;
      } else {
        vout := vout + [NULL_OUT];
      }
    }
    r := Got(vout, pos);
  }

  method Unserialize(ts: seq<Token>) returns (r: Read<Coins>)
    ensures r == Decoded(ts)
  {
    var version := ReadVarInt(INT32, ts, 0);
    if version.Fail? {
      return Fail;
    }
    var code := ReadVarInt(UINT32, ts, version.next);
    if code.Fail? {
      return Fail;
    }
    var nCode: nat := code.value;
    var vAvail := UnserializeMask(ts, code.next, MaskCode(nCode));
    if vAvail.Fail? {
      return Fail;
    }
    var outs := UnserializeOuts(ts, vAvail.next, Availability(nCode, vAvail.value));
    if outs.Fail? {
      return Fail;
    }
    var height := ReadVarInt(INT32, ts, outs.next);
    if height.Fail? {
      return Fail;
    }
    var coins := Cleanup(Coins(nCode % 2 == 1, outs.value, height.value, version.value));
    r := Got(coins, height.next);
  }

  // ----- The round trip -----

  /** What transactions in blocks have: amounts of money, and no more outputs than can be counted.  Version and height
      are any integers. */
  ghost predicate Storable(c: Coins) {
    && !c.IsPruned() && Fits(INT32, c.version) && Fits(INT32, c.height)
    && Fits(UINT32, CodeOf(c)) && AmountsLast(c.vout)
  }

  ghost predicate AmountsLast(vout: seq<TxOut>) {
    forall i | 0 <= i < |vout| :: vout[i] == NULL_OUT || AmountLasts(vout[i].amount)
  }

  lemma {:induction false} CompressedBound(n: nat, e: nat)
    requires n > 0 && e <= 9
    ensures CompressedFrom(n, e) <= 10 * n + 9
    decreases 9 - e
  {
    if n % 10 == 0 && e < 9 {
      CompressedBound(n / 10, e + 1);
    }
  }

  /** Every amount that a valid transaction can have is read back. */
  lemma MoneyLasts(amount: nat)
    requires amount <= MAX_MONEY
    ensures AmountLasts(amount)
  {
    if amount > 0 {
      CompressedBound(amount, 0);
    }
  }

  lemma {:induction false} NonzeroBound(vout: seq<TxOut>, n: nat)
    ensures Nonzero(vout, n) <= n
  {
    if n > 0 {
      NonzeroBound(vout, n - 1);
    }
  }

  /** Coins of a valid transaction, which has at most MAX_SIZE outputs, can be stored. */
  lemma ValidIsStorable(c: Coins)
    requires !c.IsPruned() && Fits(INT32, c.version) && Fits(INT32, c.height)
    requires |c.vout| <= MAX_SIZE
    requires forall i | 0 <= i < |c.vout| :: c.vout[i] == NULL_OUT || 0 <= c.vout[i].amount <= MAX_MONEY
    ensures Storable(c)
  {
    NonzeroBound(c.vout, MaskRoom(c.vout));
    forall i | 0 <= i < |c.vout| && c.vout[i] != NULL_OUT
      ensures AmountLasts(c.vout[i].amount)
    {
      MoneyLasts(c.vout[i].amount);
    }
  }

  /** The mask says of every output after the first two whether it is there. */
  ghost predicate MaskOf(vout: seq<TxOut>, mask: seq<bool>) {
    forall i | 0 <= i < |mask| :: mask[i] == Avail(vout, 2 + i)
  }

  lemma MaskGrows(vout: seq<TxOut>, mask: seq<bool>, b: nat)
    requires MaskOf(vout, mask) && |mask| == 8 * b
    ensures MaskOf(vout, mask + MaskedBits(MaskByte(vout, b)))
  {
    var grown := mask + MaskedBits(MaskByte(vout, b));
    forall i | 0 <= i < |grown|
      ensures grown[i] == Avail(vout, 2 + i)
    {
      if i >= 8 * b {
        MaskBits(vout, b, 8, i - 8 * b);
      }
    }
  }

  lemma {:induction false} ReadsMask(ts: seq<Token>, pos: nat, vout: seq<TxOut>, n: nat, b: nat, seen: seq<bool>)
    requires b <= n && (n > 0 ==> MaskByte(vout, n - 1) != 0)
    requires forall j | 0 <= j < n :: pos + j < |ts| && ts[pos + j] == Byte(AsOctet(MaskByte(vout, j)))
    requires MaskOf(vout, seen) && |seen| == 8 * b
    requires Nonzero(vout, b) <= Nonzero(vout, n)
    ensures var r := ReadMask(ts, pos + b, Nonzero(vout, n) - Nonzero(vout, b), seen);
            r.Got? && r.next == pos + n && |r.value| == 8 * n && MaskOf(vout, r.value)
    decreases n - b
  {
    if b < n {
      NonzeroMono(vout, b, n - 1);
      NonzeroMono(vout, b + 1, n);
      MaskGrows(vout, seen, b);
      assert ts[pos + b] == Byte(AsOctet(MaskByte(vout, b)));
      OctetBits(MaskByte(vout, b));
      ReadsMask(ts, pos, vout, n, b + 1, seen + MaskedBits(MaskByte(vout, b)));
    }
  }

  /** What an output reads back as. */
  function Restored(vout: seq<TxOut>, i: nat): TxOut {
    if Avail(vout, i) then vout[i] else NULL_OUT
  }

  ghost predicate RestoredUpTo(vout: seq<TxOut>, seen: seq<TxOut>) {
    forall i | 0 <= i < |seen| :: seen[i] == Restored(vout, i)
  }

  lemma {:induction false} NothingLeft(vout: seq<TxOut>, i: nat)
    requires forall j: nat | i <= j :: !Avail(vout, j)
    ensures OutsTokens(vout, i) == []
    decreases |vout| - i
  {
    if i < |vout| {
      assert !Avail(vout, i);
      NothingLeft(vout, i + 1);
    }
  }

  lemma OutsTokensStep(vout: seq<TxOut>, i: nat)
    ensures Avail(vout, i) ==> OutsTokens(vout, i) == OutTokens(vout[i]) + OutsTokens(vout, i + 1)
    ensures !Avail(vout, i) ==> OutsTokens(vout, i) == OutsTokens(vout, i + 1)
  {
  }

  /** A code that fits gives the amount back. */
  lemma AmountRead(amount: int)
    requires AmountLasts(amount)
    ensures AmountOf(AmountCode(amount)) == amount
  {
    DecompressCompress(amount);
  }

  lemma OutIs(ts: seq<Token>, pos: nat, code: nat, next: nat, script: seq<nat>)
    requires ReadInt(UINT64, ts, pos) == Got(code, next) && next < |ts| && ts[next] == Script(script)
    ensures ReadOut(ts, pos) == Got(TxOut(AmountOf(code), script), next + 1)
  {
  }

  lemma OutRead(ts: seq<Token>, pos: nat, o: TxOut)
    requires AmountLasts(o.amount) && At(ts, pos, OutTokens(o))
    ensures ReadOut(ts, pos) == Got(o, pos + |OutTokens(o)|)
  {
    var code := AmountCode(o.amount);
    AtSplit(ts, pos, VarInt(code, false), [Script(o.script)]);
    AtOne(ts, pos + |VarInt(code, false)|, Script(o.script));
    ReadWritten(UINT64, ts, pos, code);
    OutIs(ts, pos, code, pos + |VarInt(code, false)|, o.script);
    AmountRead(o.amount);
  }

  lemma NextOut(ts: seq<Token>, pos: nat, vout: seq<TxOut>, i: nat)
    requires AmountsLast(vout) && Avail(vout, i) && At(ts, pos, OutsTokens(vout, i))
    ensures var next := pos + |OutTokens(vout[i])|;
            && ReadOut(ts, pos) == Got(vout[i], next)
            && At(ts, next, OutsTokens(vout, i + 1)) && next + |OutsTokens(vout, i + 1)| == pos + |OutsTokens(vout, i)|
  {
    OutsTokensStep(vout, i);
    AtSplit(ts, pos, OutTokens(vout[i]), OutsTokens(vout, i + 1));
    OutRead(ts, pos, vout[i]);
  }

  ghost predicate AvailIs(vout: seq<TxOut>, avail: seq<bool>) {
    forall j: nat :: Avail(vout, j) <==> j < |avail| && avail[j]
  }

  lemma {:induction false} ReadsOuts(ts: seq<Token>, pos: nat, vout: seq<TxOut>, avail: seq<bool>, seen: seq<TxOut>)
    requires AmountsLast(vout) && AvailIs(vout, avail)
    requires |seen| <= |avail| && RestoredUpTo(vout, seen)
    requires At(ts, pos, OutsTokens(vout, |seen|))
    ensures var r := ReadOuts(ts, pos, avail, seen);
            && r.Got? && r.next == pos + |OutsTokens(vout, |seen|)|
            && |r.value| == |avail| && RestoredUpTo(vout, r.value)
    decreases |avail| - |seen|
  {
    var i := |seen|;
    if i == |avail| {
      NothingLeft(vout, i);
    } else {
      var next := OutStep(ts, pos, vout, avail, seen);
      ReadsOuts(ts, next, vout, avail, seen + [Restored(vout, i)]);
    }
  }

  /** One more output is read, if it is there. */
  lemma OutStep(ts: seq<Token>, pos: nat, vout: seq<TxOut>, avail: seq<bool>, seen: seq<TxOut>) returns (next: nat)
    requires AmountsLast(vout) && AvailIs(vout, avail)
    requires |seen| < |avail| && At(ts, pos, OutsTokens(vout, |seen|))
    ensures ReadOuts(ts, pos, avail, seen) == ReadOuts(ts, next, avail, seen + [Restored(vout, |seen|)])
    ensures At(ts, next, OutsTokens(vout, |seen| + 1)) && next + |OutsTokens(vout, |seen| + 1)| == pos + |OutsTokens(vout, |seen|)|
  {
    var i := |seen|;
    next := pos;
    if avail[i] {
      assert Avail(vout, i);
      NextOut(ts, pos, vout, i);
      next := ReadOut(ts, pos).next;
    } else {
      assert !Avail(vout, i);
      OutsTokensStep(vout, i);
    }
  }

  /** Beyond the written mask nothing is available. */
  lemma {:induction false} MaskSizeCovers(vout: seq<TxOut>, n: nat, i: nat)
    requires Avail(vout, 2 + i) && i < 8 * n
    ensures i < 8 * MaskLength(vout, n)
  {
    if i < 8 * (n - 1) {
      MaskSizeCovers(vout, n - 1, i);
    } else {
      MaskBits(vout, n - 1, 8, i - 8 * (n - 1));
      NoBits(i - 8 * (n - 1));
    }
  }

  lemma {:induction false} MaskLengthFacts(vout: seq<TxOut>, n: nat)
    ensures var m := MaskLength(vout, n);
            m <= n && (m > 0 ==> MaskByte(vout, m - 1) != 0) && Nonzero(vout, m) == Nonzero(vout, n)
  {
    if n > 0 && MaskByte(vout, n - 1) == 0 {
      MaskLengthFacts(vout, n - 1);
    }
  }

  /** A number in [0, 8) beside a multiple of eight keeps its three bits. */
  lemma LowBits(m: nat, f: nat, c: nat)
    requires f < 8 && c == 8 * m + f
    ensures c / 8 == m && c % 2 == f % 2 && c / 2 % 4 == f / 2 && c / 2 % 2 == f / 2 % 2 && c / 4 % 2 == f / 4
  {
    DivUnique(c, 8, m, f);
    DivUnique(c, 4, 2 * m + f / 4, f % 4);
    DivUnique(c, 2, 4 * m + f / 2, f % 2);
    DivUnique(4 * m + f / 2, 4, m, f / 2);
    DivUnique(4 * m + f / 2, 2, 2 * m + f / 4, f / 2 % 2);
    DivUnique(2 * m + f / 4, 2, m, f / 4);
  }

  lemma HeaderCodeFacts(nonzero: nat, coinBase: bool, first: bool, second: bool)
    requires first || second || nonzero > 0
    ensures var c := HeaderCode(nonzero, coinBase, first, second);
            && MaskCode(c) == nonzero && (c % 2 == 1 <==> coinBase)
            && (c / 2 % 2 == 1 <==> first) && (c / 4 % 2 == 1 <==> second)
  {
    var m := nonzero - (if first || second then 0 else 1);
    var f := (if coinBase then 1 else 0) + (if first then 2 else 0) + (if second then 4 else 0);
    LowBits(m, f, HeaderCode(nonzero, coinBase, first, second));
  }

  lemma RestoredTrims(vout: seq<TxOut>, read: seq<TxOut>)
    requires AmountsLast(vout)
    requires RestoredUpTo(vout, read)
    requires forall j: nat :: Avail(vout, j) ==> j < |read|
    ensures Trimmed(read) == Trimmed(vout)
  {
    TrimmedFacts(vout);
    var t := Trimmed(vout);
    assert t != [] ==> t[|t| - 1] == vout[|t| - 1] && Avail(vout, |t| - 1);
    forall j | 0 <= j < |t|
      ensures j < |read| && read[j] == t[j]
    {
      assert read[j] == Restored(vout, j);
    }
    forall j | |t| <= j < |read|
      ensures read[j].IsNull()
    {
      assert read[j] == Restored(vout, j);
    }
    TrimmedUnique(read, t);
  }

  /** Five parts of a stream, one after the other. */
  lemma Parts(ts: seq<Token>, a: seq<Token>, b: seq<Token>, mask: seq<Token>, outs: seq<Token>, tail: seq<Token>)
    returns (body: nat, end: nat)
    requires a + b + mask + outs + tail <= ts
    ensures body == |a| + |b| && end == |a + b + mask + outs + tail| == body + |mask| + |outs| + |tail| <= |ts|
    ensures ts[..|a|] == a && ts[|a|..body] == b && At(ts, body, mask)
    ensures At(ts, body + |mask|, outs) && ts[body + |mask| + |outs|..end] == tail
  {
    assert At(ts, 0, a + b + mask + outs + tail);
    AtSplit(ts, 0, a + b + mask + outs, tail);
    AtSplit(ts, 0, a + b + mask, outs);
    AtSplit(ts, 0, a + b, mask);
    AtSplit(ts, 0, a, b);
    SliceAt(ts, 0, a);
    SliceAt(ts, |a|, b);
    SliceAt(ts, |a| + |b| + |mask| + |outs|, tail);
    body, end := |a| + |b|, |a + b + mask + outs + tail|;
  }

  /** What the header code says of the outputs. */
  ghost predicate CodeFor(vout: seq<TxOut>, coinBase: bool, code: nat) {
    && MaskCode(code) == Nonzero(vout, MaskRoom(vout)) && (code % 2 == 1 <==> coinBase)
    && (code / 2 % 2 == 1 <==> Avail(vout, 0)) && (code / 4 % 2 == 1 <==> Avail(vout, 1))
  }

  lemma CodeOfCoins(c: Coins)
    requires !c.IsPruned()
    ensures CodeFor(c.vout, c.coinBase, CodeOf(c))
  {
    SomethingToWrite(c);
    HeaderCodeFacts(Nonzero(c.vout, MaskRoom(c.vout)), c.coinBase, Avail(c.vout, 0), Avail(c.vout, 1));
  }

  lemma MaskRead(vout: seq<TxOut>, ts: seq<Token>, pos: nat)
    requires At(ts, pos, MaskTokens(vout, MaskSize(vout)))
    ensures var r := ReadMask(ts, pos, Nonzero(vout, MaskRoom(vout)), []);
            r.Got? && r.next == pos + MaskSize(vout) && |r.value| == 8 * MaskSize(vout) && MaskOf(vout, r.value)
  {
    var n := MaskSize(vout);
    MaskLengthFacts(vout, MaskRoom(vout));
    forall j | 0 <= j < n
      ensures pos + j < |ts| && ts[pos + j] == Byte(AsOctet(MaskByte(vout, j)))
    {
      assert ts[pos + j] == MaskTokens(vout, n)[j];
    }
    ReadsMask(ts, pos, vout, n, 0, []);
  }

  lemma TailRead(c: Coins, code: nat, ts: seq<Token>, outs: Read<seq<TxOut>>, end: nat)
    requires Fits(INT32, c.height) && (code % 2 == 1 <==> c.coinBase)
    requires outs.Got? && Trimmed(outs.value) == Trimmed(c.vout) && IntAt(ts, outs.next, end, c.height)
    ensures ReadTail(ReadBack(c.version), code, ts, outs) == Got(c.Reread(), end)
  {
    IntRead(INT32, ts, outs.next, end, c.height);
  }

  lemma AvailabilityOf(vout: seq<TxOut>, nCode: nat, mask: seq<bool>)
    requires MaskOf(vout, mask) && |mask| == 8 * MaskSize(vout)
    requires (nCode / 2 % 2 == 1 <==> Avail(vout, 0)) && (nCode / 4 % 2 == 1 <==> Avail(vout, 1))
    ensures AvailIs(vout, Availability(nCode, mask))
  {
    var avail := Availability(nCode, mask);
    forall j: nat
      ensures Avail(vout, j) <==> j < |avail| && avail[j]
    {
      if j >= 2 {
        assert j < |avail| ==> avail[j] == mask[j - 2];
        if Avail(vout, j) {
          var b := (j - 2) / 8;
          assert 2 + b * 8 < |vout|;
          assert b < MaskRoom(vout);
          MaskSizeCovers(vout, MaskRoom(vout), j - 2);
        }
      }
    }
  }

  lemma BodyIs(version: int, code: nat, ts: seq<Token>, body: nat, mask: Read<seq<bool>>)
    requires mask.Got? && ReadMask(ts, body, MaskCode(code), []) == mask
    ensures ReadBody(version, code, ts, body) == ReadTail(version, code, ts, ReadOuts(ts, mask.next, Availability(code, mask.value), []))
  {
  }

  lemma OutsRead(vout: seq<TxOut>, code: nat, ts: seq<Token>, pos: nat, mask: seq<bool>)
    requires AmountsLast(vout) && At(ts, pos, OutsTokens(vout, 0))
    requires MaskOf(vout, mask) && |mask| == 8 * MaskSize(vout)
    requires (code / 2 % 2 == 1 <==> Avail(vout, 0)) && (code / 4 % 2 == 1 <==> Avail(vout, 1))
    ensures var r := ReadOuts(ts, pos, Availability(code, mask), []);
            r.Got? && r.next == pos + |OutsTokens(vout, 0)| && Trimmed(r.value) == Trimmed(vout)
  {
    var avail := Availability(code, mask);
    AvailabilityOf(vout, code, mask);
    ReadsOuts(ts, pos, vout, avail, []);
    RestoredTrims(vout, ReadOuts(ts, pos, avail, []).value);
  }

  lemma MaskedRead(c: Coins, code: nat, ts: seq<Token>, outs: nat, tail: nat, end: nat, mask: seq<bool>)
    requires Fits(INT32, c.height) && AmountsLast(c.vout) && CodeFor(c.vout, c.coinBase, code)
    requires MaskOf(c.vout, mask) && |mask| == 8 * MaskSize(c.vout)
    requires tail == outs + |OutsTokens(c.vout, 0)|
    requires At(ts, outs, OutsTokens(c.vout, 0)) && IntAt(ts, tail, end, c.height)
    ensures ReadTail(ReadBack(c.version), code, ts, ReadOuts(ts, outs, Availability(code, mask), [])) == Got(c.Reread(), end)
  {
    OutsRead(c.vout, code, ts, outs, mask);
    TailRead(c, code, ts, ReadOuts(ts, outs, Availability(code, mask), []), end);
  }

  /** Where the outputs and the height of a record are. */
  ghost predicate Laid(vout: seq<TxOut>, height: int, ts: seq<Token>, body: nat, outs: nat, tail: nat, end: nat) {
    && outs == body + MaskSize(vout) && tail == outs + |OutsTokens(vout, 0)|
    && At(ts, body, MaskTokens(vout, MaskSize(vout)))
    && At(ts, outs, OutsTokens(vout, 0)) && IntAt(ts, tail, end, height)
  }

  lemma BodyRead(c: Coins, code: nat, ts: seq<Token>, body: nat, outs: nat, tail: nat, end: nat)
    requires Fits(INT32, c.height) && AmountsLast(c.vout) && CodeFor(c.vout, c.coinBase, code)
    requires Laid(c.vout, c.height, ts, body, outs, tail, end)
    ensures ReadBody(ReadBack(c.version), code, ts, body) == Got(c.Reread(), end)
  {
    MaskRead(c.vout, ts, body);
    var mask := ReadMask(ts, body, MaskCode(code), []);
    BodyIs(ReadBack(c.version), code, ts, body, mask);
    MaskedRead(c, code, ts, outs, tail, end, mask.value);
  }

  lemma HeadRead(ts: seq<Token>, version: int, code: nat, a: nat, b: nat)
    requires ReadInt(INT32, ts, 0) == Got(version, a) && ReadInt(UINT32, ts, a) == Got(code, b)
    ensures Decoded(ts) == ReadBody(version, code, ts, b)
  {
  }

  lemma HeadWritten(ts: seq<Token>, version: int, code: nat, a: nat, b: nat)
    requires Fits(INT32, version) && Fits(UINT32, code)
    requires IntAt(ts, 0, a, version) && IntAt(ts, a, b, code)
    ensures Decoded(ts) == ReadBody(ReadBack(version), code, ts, b)
  {
    IntRead(INT32, ts, 0, a, version);
    IntRead(UINT32, ts, a, b, code);
    HeadRead(ts, ReadBack(version), code, a, b);
  }

  lemma EncodedParts(c: Coins, code: nat, ts: seq<Token>) returns (a: nat, body: nat, outs: nat, tail: nat)
    requires !c.IsPruned() && code == Header(c) && Encoded(c) <= ts
    ensures IntAt(ts, 0, a, c.version) && IntAt(ts, a, body, code)
    ensures Laid(c.vout, c.height, ts, body, outs, tail, |Encoded(c)|)
  {
    var end;
    var mask, written := MaskTokens(c.vout, MaskSize(c.vout)), OutsTokens(c.vout, 0);
    body, end := Parts(ts, VarInt(c.version, false), VarInt(code, false), mask, written, VarInt(c.height, false));
    a, outs, tail := |VarInt(c.version, false)|, body + |mask|, body + |mask| + |written|;
    VarIntLaid(ts, 0, a, c.version);
    VarIntLaid(ts, a, body, code);
    VarIntLaid(ts, tail, end, c.height);
  }

  lemma EncodedRead(c: Coins, code: nat, ts: seq<Token>, a: nat, body: nat, outs: nat, tail: nat, end: nat)
    requires Fits(INT32, c.version) && Fits(UINT32, code) && Fits(INT32, c.height) && AmountsLast(c.vout)
    requires IntAt(ts, 0, a, c.version) && IntAt(ts, a, body, code) && CodeFor(c.vout, c.coinBase, code)
    requires Laid(c.vout, c.height, ts, body, outs, tail, end)
    ensures Decoded(ts) == Got(c.Reread(), end)
  {
    HeadWritten(ts, c.version, code, a, body);
    BodyRead(c, code, ts, body, outs, tail, end);
  }

  /** Reading what was written, whatever follows it, leaves what follows unread, and gives the coins back without
      trailing spent outputs, if and only if neither version nor height is negative. */
  lemma DecodeEncode(c: Coins, ts: seq<Token>)
    requires Storable(c) && Encoded(c) <= ts
    ensures Decoded(ts) == Got(c.Reread(), |Encoded(c)|)
    ensures Decoded(ts).value == c.Cleaned() <==> c.Lasts()
  {
    var a, body, outs, tail := EncodedParts(c, CodeOf(c), ts);
    CodeOfCoins(c);
    EncodedRead(c, CodeOf(c), ts, a, body, outs, tail, |Encoded(c)|);
    RereadFacts(c);
  }

  /** Two clean records have the same code, or one is a prefix of the other's, if and only if the same is read back of
      both; for records without negative numbers, if and only if they are the same. */
  lemma EncodeInjective(c: Coins, d: Coins)
    requires Storable(c) && Storable(d) && c.IsClean() && d.IsClean()
    ensures Encoded(c) <= Encoded(d) <==> c.Reread() == d.Reread()
    ensures Encoded(c) <= Encoded(d) <==> Encoded(c) == Encoded(d)
    ensures c.Lasts() && d.Lasts() ==> (Encoded(c) == Encoded(d) <==> c == d)
  {
    CleanedFacts(c);
    CleanedFacts(d);
    if Encoded(c) <= Encoded(d) {
      DecodeEncode(c, Encoded(d));
      DecodeEncode(d, Encoded(d));
    }
    if c.Reread() == d.Reread() {
      SameCode(c, d);
    }
    RereadFacts(c);
    RereadFacts(d);
  }

  lemma SameCode(c: Coins, d: Coins)
    requires !c.IsPruned() && d == c.(version := d.version, height := d.height)
    requires ReadBack(c.version) == ReadBack(d.version) && ReadBack(c.height) == ReadBack(d.height)
    ensures Encoded(c) == Encoded(d)
  {
    VarIntOfReadBack(c.version, false);
    VarIntOfReadBack(d.version, false);
    VarIntOfReadBack(c.height, false);
    VarIntOfReadBack(d.height, false);
  }

  method StoreThenLoad(c: Coins, after: seq<Token>) returns (r: Read<Coins>)
    requires Storable(c)
    ensures r.Got? && r.value == c.Reread()
    ensures c.IsClean() ==> (r.value == c <==> c.Lasts())
  {
    var s := Serialize(c);
    DecodeEncode(c, s + after);
    RereadFacts(c);
    r := Unserialize(s + after);
  }

  /** A transaction of version minus one, which is valid, comes out of the database with version 127. */
  method NegativeVersion(o: TxOut, height: nat) returns (c: Coins, r: Read<Coins>)
    requires 0 <= o.amount <= MAX_MONEY && Fits(INT32, height)
    ensures c == Coins(false, [o], height, -1) && r.Got? && r.value == c.(version := 127)
  {
    c := Coins(false, [o], height, -1);
    assert !c.vout[0].IsNull();
    ValidIsStorable(c);
    r := StoreThenLoad(c, []);
  }
}
