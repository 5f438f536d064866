/**
 Compact targets: a 256-bit number as a size in bytes and a mantissa of three bytes, and the
 amount of work that a target stands for.
 */
module CompactTarget {
  import opened Numbers
  import opened Limbs
  import opened ArithUint256

  // ----- The encoding on numbers -----

  /** Bytes needed, with room for a sign bit. */
  function ByteSize(x: nat): nat {
    if x == 0 then 0 else BitLength(x) / 8 + 1
  }

  /** The leading bytes. */
  function Mantissa(x: nat): nat {
    if ByteSize(x) <= 3 then Shl(x, 8 * (3 - ByteSize(x))) else Shr(x, 8 * (ByteSize(x) - 3))
  }

  function Encode(x: nat): nat {
    ByteSize(x) * 0x100_0000 + Mantissa(x)
  }

  /** The number that a size and a mantissa stand for, of any magnitude. */
  function Meaning(size: nat, word: nat): nat {
    if size <= 3 then Shr(word, 8 * (3 - size)) else Shl(word, 8 * (size - 3))
  }

  /** The mantissa has at least two significant bytes and leaves the sign bit free. */
  lemma MantissaBounds(x: nat)
    ensures Mantissa(x) < 0x80_0000
    ensures x > 0 ==> 0x8000 <= Mantissa(x)
  {
    Pow2Values();
    if x == 0 {
      ShlZero(24);
    } else {
      BitLengthBounds(x);
      if ByteSize(x) <= 3 {
        UpBounds(x, BitLength(x), 8 * (3 - ByteSize(x)), 15, 23);
      } else {
        DownBounds(x, BitLength(x), 8 * (ByteSize(x) - 3), 15, 23);
      }
    }
  }

  lemma UpBounds(x: nat, b: nat, up: nat, lo: nat, hi: nat)
    requires b > 0 && Pow2(b - 1) <= x < Pow2(b) && lo <= b - 1 + up && b + up <= hi
    ensures Pow2(lo) <= Shl(x, up) < Pow2(hi)
  {
    ShlBounds(x, b, up);
    ShlBounds(x, b - 1, up);
    Pow2Mono(lo, b - 1 + up);
    Pow2Mono(b + up, hi);
  }

  lemma DownBounds(x: nat, b: nat, down: nat, lo: nat, hi: nat)
    requires b > 0 && Pow2(b - 1) <= x < Pow2(b) && lo + down <= b - 1 && b <= hi + down
    ensures Pow2(lo) <= Shr(x, down) < Pow2(hi)
  {
    ShrBounds(x, b, down);
    ShrBounds(x, b - 1, down);
    Pow2Mono(lo, b - 1 - down);
    Pow2Mono(b - down, hi);
  }

  lemma SizeMono(x: nat, y: nat)
    requires x <= y
    ensures ByteSize(x) <= ByteSize(y)
  {
    BitLengthMono(x, y);
  }

  /** A larger number never has a smaller encoding. */
  lemma EncodeMono(x: nat, y: nat)
    requires x <= y
    ensures Encode(x) <= Encode(y)
  {
    SizeMono(x, y);
    MantissaBounds(x);
    if ByteSize(x) == ByteSize(y) {
      if ByteSize(x) <= 3 {
        ShlMono(x, y, 8 * (3 - ByteSize(x)));
      } else {
        ShrMono(x, y, 8 * (ByteSize(x) - 3));
      }
    }
  }

  /** What remains of a number: its leading bytes. */
  ghost function Truncated(x: nat): int {
    if ByteSize(x) <= 3 then x else x - x % Pow2(8 * (ByteSize(x) - 3))
  }

  /** Decoding an encoding truncates to the leading bytes. */
  lemma DecodeEncode(x: nat)
    ensures Encode(x) / 0x100_0000 == ByteSize(x) && Encode(x) % 0x100_0000 == Mantissa(x) < 0x80_0000
    ensures Meaning(ByteSize(x), Mantissa(x)) == Truncated(x) <= x
  {
    MantissaBounds(x);
    if ByteSize(x) <= 3 {
      ShrOfShl(x, 8 * (3 - ByteSize(x)), 8 * (3 - ByteSize(x)));
    } else {
      ShlOfShr(x, 8 * (ByteSize(x) - 3));
    }
  }

  lemma LongEnough(m: nat, b: nat, up: nat)
    requires Pow2(b) <= m
    ensures BitLength(Shl(m, up)) >= b + up + 1
  {
    ShlBounds(m, b, up);
    BitLengthUnique(Pow2(b + up), b + up + 1);
    BitLengthMono(Pow2(b + up), Shl(m, up));
  }

  /** Encoding again changes nothing. */
  lemma EncodeTwice(x: nat)
    ensures 0 <= Truncated(x) && Encode(Truncated(x)) == Encode(x)
  {
    DecodeEncode(x);
    var n, y := ByteSize(x), Truncated(x);
    if n > 3 {
      var down := 8 * (n - 3);
      MantissaBounds(x);
      Pow2Values();
      LongEnough(Mantissa(x), 15, down);
      SizeMono(y, x);
      ShrOfShl(Mantissa(x), down, down);
    }
  }

  // ----- The limb arithmetic -----

  /** The flag for overflow says exactly that the number does not fit. */
  lemma OverflowExact(size: nat, word: nat)
    requires word < 0x80_0000
    ensures word != 0 && (size > 34 || (word > 0xff && size > 33) || (word > 0xffff && size > 32)) <==> Meaning(size, word) >= Modulus()
  {
    Pow2Values();
    Pow2Mono(23, BITS);
    if size <= 3 {
      ShrMono(0, word, 0);
      ShrAtMost(word, 8 * (3 - size));
    } else if word == 0 {
      ShlZero(8 * (size - 3));
    } else {
      var up := 8 * (size - 3);
      var b := if word <= 0xff then 8 else if word <= 0xffff then 16 else 24;
      Beyond(word, b, up);
    }
  }

  lemma Beyond(word: nat, b: nat, up: nat)
    requires b >= 8 && Pow2(b - 8) <= word < Pow2(b)
    ensures b + up <= BITS ==> Shl(word, up) < Modulus()
    ensures b - 8 + up >= BITS ==> Shl(word, up) >= Modulus()
  {
    ShlBounds(word, b, up);
    ShlBounds(word, b - 8, up);
    if b + up <= BITS {
      Pow2Mono(b + up, BITS);
    }
    if b - 8 + up >= BITS {
      Pow2Mono(BITS, b - 8 + up);
    }
  }

  lemma {:induction false} ShrAtMost(x: nat, n: nat)
    ensures Shr(x, n) <= x
  {
    if n > 0 {
      ShrAtMost(x, n - 1);
    }
  }

  /** Reads a compact target; a size beyond the mantissa shifts it up, modulo 2^256. */
  method SetCompact(target: ArithUint256, nCompact: nat) returns (fNegative: bool, fOverflow: bool)
    requires target.Valid() && nCompact < BASE
    modifies target.pn
    ensures var size, word := nCompact / 0x100_0000, nCompact % 0x80_0000;
            && target.V() == Meaning(size, word) % Modulus()
            && (fOverflow <==> Meaning(size, word) >= Modulus())
            && (fNegative <==> Meaning(size, word) != 0 && (nCompact / 0x80_0000) % 2 == 1)
  {
    var nSize, nWord := nCompact / 0x100_0000, nCompact % 0x80_0000;
    ghost var word := nWord;
    OverflowExact(nSize, nWord);
    if nSize <= 3 {
      nWord := Shr(nWord, 8 * (3 - nSize));
      ShrAtMost(word, 8 * (3 - nSize));
      Assign(target, nWord);
      SmallWord(nWord);
    } else {
      Assign(target, nWord);
      target.ShlAssign(8 * (nSize - 3));
      ShlIsProduct(nWord, 8 * (nSize - 3));
      ShlPositive(nWord, 8 * (nSize - 3));
    }
    fNegative := nWord != 0 && (nCompact / 0x80_0000) % 2 == 1;
    fOverflow := nWord != 0 && (nSize > 34 || (nWord > 0xff && nSize > 33) || (nWord > 0xffff && nSize > 32));
  }

  lemma SmallWord(word: nat)
    requires word < 0x80_0000
    ensures word % Modulus() == word
  {
    Pow2Values();
    Pow2Mono(23, BITS);
    SmallMod(word, Modulus());
  }

  lemma {:induction false} ShlPositive(x: nat, n: nat)
    ensures Shl(x, n) == 0 <==> x == 0
  {
    if n > 0 {
      ShlPositive(x, n - 1);
    }
  }

  method Assign(target: ArithUint256, b: nat)
    requires target.Valid() && b < BASE
    modifies target.pn
    ensures target.V() == b
  {
    target.Clear();
    target.SetLimb(0, b);
  }

  /** The first three bytes of a number, before the sign bit is considered. */
  function Lead(x: nat, bytes: nat): nat {
    if bytes <= 3 then Shl(x, 8 * (3 - bytes)) else Shr(x, 8 * (bytes - 3))
  }

  /** If the highest of them would be taken for a sign, one byte less is kept. */
  lemma LeadIsMantissa(x: nat)
    ensures var bytes := (BitLength(x) + 7) / 8;
            && Lead(x, bytes) < 0x100_0000
            && if Lead(x, bytes) >= 0x80_0000
               then ByteSize(x) == bytes + 1 && Mantissa(x) == Lead(x, bytes) / 0x100
               else ByteSize(x) == bytes && Mantissa(x) == Lead(x, bytes)
  {
    var b := BitLength(x);
    RoundedUp(b);
    BitLengthBounds(x);
    MantissaBounds(x);
    if b % 8 == 0 && b > 0 {
      LeadFull(x, b, b / 8);
    }
  }

  lemma RoundedUp(b: nat)
    ensures (b + 7) / 8 == if b % 8 == 0 then b / 8 else b / 8 + 1
  {
  }

  /** The bytes are full: the highest bit is set, and shifting one byte out gives the mantissa. */
  lemma LeadFull(x: nat, b: nat, bytes: nat)
    requires b > 0 && b == 8 * bytes && Pow2(b - 1) <= x < Pow2(b)
    ensures 0x80_0000 <= Lead(x, bytes) < 0x100_0000 && Lead(x, bytes + 1) == Lead(x, bytes) / 0x100
  {
    Pow2Values();
    LeadTop(x, b, bytes, 23, 24);
    LeadShift(x, bytes);
  }

  lemma LeadTop(x: nat, b: nat, bytes: nat, lo: nat, hi: nat)
    requires b > 0 && b == 8 * bytes && Pow2(b - 1) <= x < Pow2(b) && lo == 23 && hi == 24
    ensures Pow2(lo) <= Lead(x, bytes) < Pow2(hi)
  {
    if bytes <= 3 {
      UpBounds(x, b, 8 * (3 - bytes), lo, hi);
    } else {
      DownBounds(x, b, 8 * (bytes - 3), lo, hi);
    }
  }

  lemma LeadShift(x: nat, bytes: nat)
    ensures Lead(x, bytes + 1) == Lead(x, bytes) / 0x100
  {
    Pow2Values();
    ShrIsQuotient(Lead(x, bytes), 8);
    if bytes < 3 {
      ShrOfShl(x, 8 * (3 - bytes), 8);
    } else {
      ShrTwice(x, 8 * (bytes - 3), 8);
    }
  }

  lemma LowLead(x: nat, bytes: nat)
    requires bytes == (BitLength(x) + 7) / 8 <= 3
    ensures Shl(x % (BASE * BASE), 8 * (3 - bytes)) % (BASE * BASE) % BASE == Lead(x, bytes)
  {
    LeadIsMantissa(x);
    BelowBytes(x, 24);
    SmallMod(x, BASE * BASE);
    SmallMod(Lead(x, bytes), BASE * BASE);
    SmallMod(Lead(x, bytes), BASE);
  }

  lemma BelowBytes(x: nat, b: nat)
    requires BitLength(x) <= b <= 24
    ensures x < 0x100_0000
  {
    BitLengthBounds(x);
    Pow2Mono(BitLength(x), 24);
    Pow2Values();
  }

  lemma HighLead(x: nat, bytes: nat)
    requires bytes == (BitLength(x) + 7) / 8 > 3
    ensures (x / Pow2(8 * (bytes - 3))) % (BASE * BASE) % BASE == Lead(x, bytes)
  {
    LeadIsMantissa(x);
    ShrIsQuotient(x, 8 * (bytes - 3));
    SmallMod(Lead(x, bytes), BASE * BASE);
    SmallMod(Lead(x, bytes), BASE);
  }

  /** The 64 low bits of the number, moved so that its three leading bytes are in place. */
  method LeadBytes(target: ArithUint256, nSize: nat) returns (lead: nat)
    requires target.Valid() && nSize == (BitLength(target.V()) + 7) / 8
    ensures lead == Lead(target.V(), nSize)
  {
    if nSize <= 3 {
      LowLead(target.V(), nSize);
      var low := target.GetLow64();
      lead := Shl(low, 8 * (3 - nSize)) % (BASE * BASE) % BASE;
    } else {
      HighLead(target.V(), nSize);
      var bn := new ArithUint256.Copy(target);
      bn.ShrAssign(8 * (nSize - 3));
      lead := bn.GetLow64();
      lead := lead % BASE;
    }
  }

  /** Writes a compact target; the assertions about its parts hold for every number. */
  method GetCompact(target: ArithUint256, fNegative: bool) returns (nCompact: nat)
    requires target.Valid()
    ensures nCompact == Encode(target.V()) + if fNegative && Mantissa(target.V()) != 0 then 0x80_0000 else 0
  {
    target.Bounded();
    var bits := target.Bits();
    var nSize := (bits + 7) / 8;
    nCompact := LeadBytes(target, nSize);
    nCompact := Assemble(nCompact, nSize, fNegative, target.V());
  }

  method Assemble(lead: nat, bytes: nat, fNegative: bool, ghost x: nat) returns (nCompact: nat)
    requires x < Modulus() && bytes == (BitLength(x) + 7) / 8 && lead == Lead(x, bytes)
    ensures nCompact == Encode(x) + if fNegative && Mantissa(x) != 0 then 0x80_0000 else 0
  {
    var nSize := bytes;
    nCompact := lead;
    LeadIsMantissa(x);
    if (nCompact / 0x80_0000) % 2 == 1 {
      nCompact := nCompact / 0x100;
      nSize := nSize + 1;
    }
    MantissaBounds(x);
    SizeBound(x);
    assert nCompact < 0x80_0000 && nSize < 256;
    nCompact := PutParts(nCompact, nSize, fNegative);
  }

  method PutParts(mantissa: nat, nSize: nat, fNegative: bool) returns (nCompact: nat)
    requires mantissa < 0x80_0000
    ensures nCompact == nSize * 0x100_0000 + mantissa + if fNegative && mantissa != 0 then 0x80_0000 else 0
  {
    nCompact := PutSize(mantissa, nSize);
    Parts(nSize, mantissa);
    if fNegative && nCompact % 0x80_0000 != 0 {
      nCompact := PutSign(nCompact, mantissa);
    }
  }

  method PutSize(mantissa: nat, nSize: nat) returns (nCompact: nat)
    requires mantissa < 0x80_0000
    ensures nCompact == nSize * 0x100_0000 + mantissa
  {
    Pow2Values();
    DivUnique(nSize * 0x100_0000, 0x100_0000, nSize, 0);
    OrDisjoint(nSize * 0x100_0000, mantissa, 24);
    nCompact := Or(mantissa, nSize * 0x100_0000);
  }

  method PutSign(compact: nat, ghost mantissa: nat) returns (nCompact: nat)
    requires compact % 0x100_0000 == mantissa < 0x80_0000
    ensures nCompact == compact + 0x80_0000
  {
    Pow2Values();
    ShrIsQuotient(compact, 23);
    OrBit(compact, 23);
    nCompact := Or(compact, 0x80_0000);
  }

  /** Reading back what was written: not negative, no overflow, and the leading bytes of the number. */
  method WriteThenRead(x: ArithUint256) returns (y: ArithUint256, fNegative: bool, fOverflow: bool)
    requires x.Valid()
    ensures fresh(y) && y.Valid() && !fNegative && !fOverflow && y.V() == Truncated(x.V())
  {
    x.Bounded();
    ReadsBack(x.V());
    var nCompact := GetCompact(x, false);
    y := new ArithUint256(0);
    fNegative, fOverflow := SetCompact(y, nCompact);
  }

  lemma ReadsBack(x: nat)
    requires x < Modulus()
    ensures Encode(x) < BASE && (Encode(x) / 0x80_0000) % 2 == 0
    ensures Meaning(Encode(x) / 0x100_0000, Encode(x) % 0x80_0000) == Truncated(x) == Truncated(x) % Modulus() < Modulus()
  {
    DecodeEncode(x);
    SizeBound(x);
    Parts(ByteSize(x), Mantissa(x));
    SmallMod(Truncated(x), Modulus());
  }

  lemma Parts(size: nat, m: nat)
    requires m < 0x80_0000
    ensures var c := size * 0x100_0000 + m;
            c / 0x100_0000 == size && c % 0x100_0000 == m && c % 0x80_0000 == m && (c / 0x80_0000) % 2 == 0
  {
  }

  lemma SizeBound(x: nat)
    requires x < Modulus()
    ensures ByteSize(x) <= 33
  {
    BitLengthBounds(x);
    if x > 0 && BitLength(x) - 1 >= BITS {
      Pow2Mono(BITS, BitLength(x) - 1);
    }
  }

  // ----- Work -----

  /** The expected number of hashes for a target, or nothing for one that is not valid. */
  ghost function Proof(nBits: nat): nat {
    var target := Meaning(nBits / 0x100_0000, nBits % 0x80_0000);
    if target == 0 || target >= Modulus() || (nBits / 0x80_0000) % 2 == 1 then 0
    else Modulus() / (target + 1)
  }

  /** Every compact target has its amount of work; the division is never by zero. */
  method GetBlockProof(nBits: nat) returns (work: ArithUint256)
    requires nBits < BASE
    ensures fresh(work) && work.Valid() && work.V() == Proof(nBits)
  {
    var bnTarget := new ArithUint256(0);
    var fNegative, fOverflow := SetCompact(bnTarget, nBits);
    ghost var target := Meaning(nBits / 0x100_0000, nBits % 0x80_0000);
    bnTarget.Bounded();
    if !fOverflow {
      DivUnique(target, Modulus(), 0, target);
    }
    var isZero := bnTarget.EqualTo(0);
    if fNegative || fOverflow || isZero {
      work := new ArithUint256(0);
      return;
    }
    Sparse(nBits / 0x100_0000, nBits % 0x80_0000);
    work := WorkOf(bnTarget);
  }

  /** No compact target is the largest number. */
  lemma Sparse(size: nat, word: nat)
    requires word < 0x80_0000
    ensures Meaning(size, word) != Modulus() - 1
  {
    Pow2Values();
    Pow2Mono(24, BITS);
    if size <= 3 {
      ShrAtMost(word, 8 * (3 - size));
    } else {
      assert Shl(word, 8 * (size - 3)) == 2 * Shl(word, 8 * (size - 3) - 1);
      assert Modulus() == 2 * Pow2(BITS - 1);
    }
  }

  /** 2^256 / (target + 1), computed without 2^256. */
  method WorkOf(bnTarget: ArithUint256) returns (work: ArithUint256)
    requires bnTarget.Valid() && 0 < bnTarget.V() < Modulus() - 1
    ensures fresh(work) && work.Valid() && work.V() == Modulus() / (bnTarget.V() + 1)
  {
    ghost var t := bnTarget.V();
    work := bnTarget.Complement();
    var divisor := new ArithUint256.Copy(bnTarget);
    var one := new ArithUint256(1);
    divisor.AddAssign(one);
    DivUnique(t + 1, Modulus(), 0, t + 1);
    var ok := work.DivAssign(divisor);
    DivShift(Modulus() - (t + 1), 1, t + 1);
    DivSmaller(Modulus(), t + 1);
    work.AddAssign(one);
    DivUnique(Modulus() / (t + 1), Modulus(), 0, Modulus() / (t + 1));
  }
}
