/** The size of a partial Merkle tree on the wire, and when the bound promised for it holds. */
module MerkleSize {
  import opened Transactions
  import opened Numbers
  import opened PartialMerkle
  import opened MerkleBlock

  /** The bytes that the length of a vector takes. */
  function LengthSize(x: nat): nat {
    if x < 253 then 1 else if x <= 0xFFFF then 3 else if x <= 0xFFFF_FFFF then 5 else 9
  }

  /** The number of transactions, the hashes, and the flag bits in bytes. */
  function SerializedSize(b: Part): nat {
    4 + LengthSize(|b.hashes|) + 32 * |b.hashes| + LengthSize((|b.bits| + 7) / 8) + (|b.bits| + 7) / 8
  }

  /** Ten bytes, and 32 and a quarter for each hash, rounded up. */
  function Promised(hashes: nat): nat {
    10 + 32 * hashes + (hashes + 3) / 4
  }

  // ----- Nodes with one child lie at the right edge -----

  /** A node with all its leaves has two children, and so have all below it. */
  lemma {:induction false} FullHasNoLones(n: nat, height: nat, pos: nat, matches: seq<bool>)
    requires pos < TreeWidth(n, height) && Within(Shape(n, height, pos), |matches|) && (pos + 1) * Pow2(height) <= n
    ensures LonesOpened(Shape(n, height, pos), matches) == 0
    decreases height
  {
    if height > 0 {
      FullChildren(n, height - 1, pos);
      FullHasNoLones(n, height - 1, 2 * pos, matches);
      FullHasNoLones(n, height - 1, 2 * pos + 1, matches);
    }
  }

  lemma FullChildren(n: nat, height: nat, pos: nat)
    requires pos < TreeWidth(n, height + 1) && (pos + 1) * Pow2(height + 1) <= n
    ensures 2 * pos + 1 < TreeWidth(n, height)
    ensures (2 * pos + 1) * Pow2(height) <= n && (2 * pos + 2) * Pow2(height) <= n
  {
    var p := Pow2(height);
    assert (pos + 1) * (2 * p) == (2 * pos + 2) * p == (2 * pos + 1) * p + p;
    NodeExists(n, height, 2 * pos + 1);
  }

  /** The left of two children has all its leaves. */
  lemma LeftIsFull(n: nat, height: nat, pos: nat)
    requires 2 * pos + 1 < TreeWidth(n, height)
    ensures (2 * pos + 1) * Pow2(height) <= n
  {
    NodeExists(n, height, 2 * pos + 1);
  }

  lemma {:induction false} LonesAtMost(n: nat, height: nat, pos: nat, matches: seq<bool>)
    requires pos < TreeWidth(n, height) && Within(Shape(n, height, pos), |matches|)
    ensures LonesOpened(Shape(n, height, pos), matches) <= height
    decreases height
  {
    if height > 0 {
      LeftChild(n, height - 1, pos);
      if 2 * pos + 1 < TreeWidth(n, height - 1) {
        LeftIsFull(n, height - 1, pos);
        FullHasNoLones(n, height - 1, 2 * pos, matches);
        LonesAtMost(n, height - 1, 2 * pos + 1, matches);
      } else {
        LonesAtMost(n, height - 1, 2 * pos, matches);
      }
    }
  }

  lemma {:induction false} HeightAtMost(n: nat, height: nat, top: nat)
    requires height <= top && TreeWidth(n, top) <= 1
    ensures HeightFrom(n, height) <= top
    decreases top - height
  {
    if height < top && TreeWidth(n, height) > 1 {
      HeightAtMost(n, height + 1, top);
    }
  }

  lemma BlockHeight(n: nat)
    requires 0 < n <= MAX_BLOCK_BASE_SIZE / 60
    ensures HeightFrom(n, 0) <= 15
  {
    Pow2Values();
    NodeExists(n, 15, 1);
    HeightAtMost(n, 0, 15);
  }

  // ----- The bound -----

  /** For every block: the promised bound holds if and only if there are at most 252 bytes of flag bits, or the flag bits fit
      into a quarter of a byte for each hash.  There are two bits for each hash less one, and one more for every node with one
      child above a match. */
  lemma SizeBound(h: PairHash, txids: seq<Uint256>, matches: seq<bool>)
    requires |txids| == |matches| && 0 < |txids| <= MAX_BLOCK_BASE_SIZE / 60
    ensures Within(Root(|txids|), |txids|)
    ensures var b := Build(h, Root(|txids|), txids, matches);
            var bits := 2 * |b.hashes| - 1 + LonesOpened(Root(|txids|), matches);
            SerializedSize(b) <= Promised(|b.hashes|) <==> bits <= 8 * 252 || bits <= 8 * ((|b.hashes| + 3) / 4)
  {
    var n := |txids|;
    RootCovers(n, txids, matches);
    var b := Build(h, Root(n), txids, matches);
    BuildSize(h, Root(n), txids, matches);
    BitsExact(h, Root(n), txids, matches);
    WidthPositive(n, HeightFrom(n, 0));
    LonesAtMost(n, HeightFrom(n, 0), 0, matches);
    BlockHeight(n);
    Arithmetic(|b.hashes|, LonesOpened(Root(n), matches), |b.bits|);
  }

  lemma Arithmetic(hashes: nat, lones: nat, bits: nat)
    requires 1 <= hashes <= MAX_BLOCK_BASE_SIZE / 60 && lones <= 15 && bits == 2 * hashes - 1 + lones
    ensures 4 + LengthSize(hashes) + 32 * hashes + LengthSize((bits + 7) / 8) + (bits + 7) / 8 <= Promised(hashes)
            <==> bits <= 8 * 252 || bits <= 8 * ((hashes + 3) / 4)
  {
    var bytes := (bits + 7) / 8;
    assert bytes < 253 <==> bits <= 8 * 252;
    assert bytes <= (hashes + 3) / 4 + 2;
  }

  // ----- A block for which it fails -----

  /** How many of the levels below a height have an odd number of nodes. */
  function OddLevels(n: nat, height: nat): nat {
    if height == 0 then 0 else OddLevels(n, height - 1) + TreeWidth(n, height - 1) % 2
  }

  ghost predicate AllTrue(matches: seq<bool>) {
    forall i | 0 <= i < |matches| :: matches[i]
  }

  lemma {:induction false} AllOpened(h: PairHash, t: Tree, txids: seq<Uint256>, matches: seq<bool>)
    requires |matches| == |txids| && Within(t, |txids|) && AllTrue(matches)
    ensures AnyMatch(t, matches) && |Build(h, t, txids, matches).hashes| == Leaves(t)
  {
    match t
    case Leaf(_) =>
    case Lone(c) => AllOpened(h, c, txids, matches);
    case Pair(l, r) => AllOpened(h, l, txids, matches); AllOpened(h, r, txids, matches);
  }

  lemma Parity(k: nat, r: nat)
    requires r < 2
    ensures (2 * k + r) % 2 == r
  {
  }

  /** The last node of a level. */
  lemma LastChild(n: nat, height: nat, pos: nat)
    requires pos + 1 == TreeWidth(n, height + 1)
    ensures if 2 * pos + 1 < TreeWidth(n, height) then TreeWidth(n, height) == 2 * pos + 2 else TreeWidth(n, height) == 2 * pos + 1
  {
    LeftChild(n, height, pos);
    LeftChild(n, height, pos + 1);
  }

  /** With all transactions matched, the nodes with one child are the last ones of levels above an odd one. */
  lemma {:induction false} LonesAreOdd(h: PairHash, n: nat, height: nat, pos: nat, txids: seq<Uint256>, matches: seq<bool>)
    requires pos + 1 == TreeWidth(n, height) && |txids| == |matches| && Within(Shape(n, height, pos), |matches|) && AllTrue(matches)
    ensures LonesOpened(Shape(n, height, pos), matches) == OddLevels(n, height)
    decreases height
  {
    if height > 0 {
      AllOpened(h, Shape(n, height, pos), txids, matches);
      LastChild(n, height - 1, pos);
      if 2 * pos + 1 < TreeWidth(n, height - 1) {
        LeftIsFull(n, height - 1, pos);
        FullHasNoLones(n, height - 1, 2 * pos, matches);
        LonesAreOdd(h, n, height - 1, 2 * pos + 1, txids, matches);
        Parity(pos + 1, 0);
      } else {
        LonesAreOdd(h, n, height - 1, 2 * pos, txids, matches);
        Parity(pos, 1);
      }
    }
  }

  lemma Widths(n: nat)
    requires n == 1012
    ensures TreeWidth(n, 0) == 1012 && TreeWidth(n, 1) == 506 && TreeWidth(n, 2) == 253 && TreeWidth(n, 3) == 127 && TreeWidth(n, 4) == 64
    ensures TreeWidth(n, 5) == 32 && TreeWidth(n, 6) == 16 && TreeWidth(n, 7) == 8 && TreeWidth(n, 8) == 4 && TreeWidth(n, 9) == 2
    ensures TreeWidth(n, 10) == 1
  {
    assert Pow2(0) == 1 && Pow2(1) == 2 && Pow2(2) == 4 && Pow2(3) == 8 && Pow2(4) == 16 && Pow2(5) == 32;
    assert Pow2(6) == 64 && Pow2(7) == 128 && Pow2(8) == 256 && Pow2(9) == 512 && Pow2(10) == 1024;
  }

  lemma TwoOddLevels(n: nat)
    requires n == 1012
    ensures OddLevels(n, HeightFrom(n, 0)) == 2
  {
    Widths(n);
    assert HeightFrom(n, 9) == 10 && HeightFrom(n, 7) == 10 && HeightFrom(n, 5) == 10 && HeightFrom(n, 3) == 10 && HeightFrom(n, 1) == 10;
    assert OddLevels(n, 2) == 0 && OddLevels(n, 4) == 2 && OddLevels(n, 6) == 2 && OddLevels(n, 8) == 2;
  }

  /** All of 1012 transactions matched: 254 bytes of flag bits instead of 253, one byte more than promised. */
  lemma SizeExceeds(h: PairHash, txids: seq<Uint256>, matches: seq<bool>)
    requires |txids| == |matches| == 1012 && AllTrue(matches)
    ensures Within(Root(|txids|), |txids|)
    ensures var b := Build(h, Root(|txids|), txids, matches);
            |b.hashes| == 1012 && |b.bits| == 2025 && SerializedSize(b) == Promised(1012) + 1
  {
    var n := |txids|;
    RootCovers(n, txids, matches);
    AllOpened(h, Root(n), txids, matches);
    BitsExact(h, Root(n), txids, matches);
    LonesOfRoot(h, n, txids, matches);
    TwoOddLevels(n);
  }

  lemma LonesOfRoot(h: PairHash, n: nat, txids: seq<Uint256>, matches: seq<bool>)
    requires n > 0 && |txids| == |matches| && Within(Root(n), |txids|) && AllTrue(matches)
    ensures LonesOpened(Root(n), matches) == OddLevels(n, HeightFrom(n, 0))
  {
    HeightIsTop(n, 0);
    LonesAreOdd(h, n, HeightFrom(n, 0), 0, txids, matches);
  }
}
