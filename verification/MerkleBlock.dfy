/** The partial Merkle tree object: nodes by height and position, flag bits packed into bytes. */
module MerkleBlock {
  import opened Bits
  import opened Transactions
  import opened Numbers
  import opened PartialMerkle

  // ----- Addresses of nodes -----

  /** The number of nodes at a height. */
  function TreeWidth(n: nat, height: nat): nat {
    (n + Pow2(height) - 1) / Pow2(height)
  }

  /** A position is a node exactly if its leftmost leaf exists. */
  lemma NodeExists(n: nat, height: nat, pos: nat)
    ensures pos < TreeWidth(n, height) <==> pos * Pow2(height) < n
  {
    CeilDiv(n, Pow2(height), pos);
  }

  lemma LeftChild(n: nat, height: nat, pos: nat)
    ensures pos < TreeWidth(n, height + 1) <==> 2 * pos < TreeWidth(n, height)
  {
    NodeExists(n, height + 1, pos);
    NodeExists(n, height, 2 * pos);
    assert pos * (2 * Pow2(height)) == 2 * pos * Pow2(height);
  }

  /** The subtree at an address. */
  function Shape(n: nat, height: nat, pos: nat): Tree
    requires pos < TreeWidth(n, height)
    decreases height
  {
    if height == 0 then Leaf(pos)
    else
      LeftChild(n, height - 1, pos);
      if 2 * pos + 1 < TreeWidth(n, height - 1)
      then Pair(Shape(n, height - 1, 2 * pos), Shape(n, height - 1, 2 * pos + 1))
      else Lone(Shape(n, height - 1, 2 * pos))
  }

  function First(height: nat, pos: nat): nat {
    pos * Pow2(height)
  }

  function End(n: nat, height: nat, pos: nat): nat {
    if (pos + 1) * Pow2(height) < n then (pos + 1) * Pow2(height) else n
  }

  /** A node's leaves are its left child's followed by its right child's. */
  lemma LeavesSplit(n: nat, height: nat, pos: nat)
    requires pos < TreeWidth(n, height + 1)
    ensures First(height + 1, pos) == First(height, 2 * pos)
    ensures if 2 * pos + 1 < TreeWidth(n, height)
            then End(n, height, 2 * pos) == First(height, 2 * pos + 1) && End(n, height + 1, pos) == End(n, height, 2 * pos + 1)
            else End(n, height + 1, pos) == End(n, height, 2 * pos)
  {
    var p := Pow2(height);
    NodeExists(n, height + 1, pos);
    NodeExists(n, height, 2 * pos + 1);
    assert pos * (2 * p) == 2 * pos * p;
    assert (pos + 1) * (2 * p) == (2 * pos + 2) * p == (2 * pos + 1) * p + p == 2 * pos * p + 2 * p;
    assert (2 * pos + 1) * p == 2 * pos * p + p;
  }

  /** The flags of a range of leaves, as the indices that are set. */
  function MatchedRange(txids: seq<Uint256>, matches: seq<bool>, lo: nat, hi: nat): seq<(Uint256, nat)>
    requires |matches| == |txids| && hi <= |txids|
    decreases hi - lo
  {
    if lo >= hi then []
    else (if matches[lo] then [(txids[lo], lo)] else []) + MatchedRange(txids, matches, lo + 1, hi)
  }

  lemma {:induction false} RangeSplit(txids: seq<Uint256>, matches: seq<bool>, lo: nat, mid: nat, hi: nat)
    requires |matches| == |txids| && lo <= mid <= hi <= |txids|
    ensures MatchedRange(txids, matches, lo, hi) == MatchedRange(txids, matches, lo, mid) + MatchedRange(txids, matches, mid, hi)
    decreases mid - lo
  {
    if lo < mid {
      RangeSplit(txids, matches, lo + 1, mid, hi);
    }
  }

  /** The leaves of a tree count up without gaps, from Lo to Hi. */
  ghost predicate Contiguous(t: Tree, lo: nat, hi: nat) {
    match t
    case Leaf(i) => lo == i && hi == i + 1
    case Lone(c) => Contiguous(c, lo, hi)
    case Pair(l, r) => exists mid: nat :: Contiguous(l, lo, mid) && Contiguous(r, mid, hi)
  }

  lemma {:induction false} ContiguousFacts(t: Tree, lo: nat, hi: nat, txids: seq<Uint256>, matches: seq<bool>)
    requires Contiguous(t, lo, hi) && hi <= |txids| == |matches|
    ensures lo < hi && Within(t, |txids|) && Leaves(t) == hi - lo
    ensures Matched(t, txids, matches) == MatchedRange(txids, matches, lo, hi)
  {
    match t
    case Leaf(i) => assert MatchedRange(txids, matches, hi, hi) == [];
    case Lone(c) => ContiguousFacts(c, lo, hi, txids, matches);
    case Pair(l, r) =>
      var mid: nat :| Contiguous(l, lo, mid) && Contiguous(r, mid, hi);
      ContiguousOrdered(r, mid, hi);
      ContiguousFacts(l, lo, mid, txids, matches);
      ContiguousFacts(r, mid, hi, txids, matches);
      RangeSplit(txids, matches, lo, mid, hi);
  }

  lemma {:induction false} ContiguousOrdered(t: Tree, lo: nat, hi: nat)
    requires Contiguous(t, lo, hi)
    ensures lo < hi
  {
    match t
    case Leaf(_) =>
    case Lone(c) => ContiguousOrdered(c, lo, hi);
    case Pair(l, r) =>
      var mid: nat :| Contiguous(l, lo, mid) && Contiguous(r, mid, hi);
      ContiguousOrdered(l, lo, mid);
      ContiguousOrdered(r, mid, hi);
  }

  ghost predicate Covers(n: nat, height: nat, pos: nat)
    requires pos < TreeWidth(n, height)
  {
    && Contiguous(Shape(n, height, pos), First(height, pos), End(n, height, pos))
    && Depth(Shape(n, height, pos)) == height
    && End(n, height, pos) <= n
  }

  lemma PairCovers(n: nat, k: nat, pos: nat)
    requires pos < TreeWidth(n, k + 1) && 2 * pos + 1 < TreeWidth(n, k)
    requires Covers(n, k, 2 * pos) && Covers(n, k, 2 * pos + 1)
    ensures Covers(n, k + 1, pos)
  {
    LeavesSplit(n, k, pos);
  }

  lemma LoneCovers(n: nat, k: nat, pos: nat)
    requires pos < TreeWidth(n, k + 1) && 2 * pos < TreeWidth(n, k) <= 2 * pos + 1
    requires Covers(n, k, 2 * pos)
    ensures Covers(n, k + 1, pos)
  {
    LeavesSplit(n, k, pos);
  }

  /** The subtree at an address covers exactly its range of leaves, in order. */
  lemma {:induction false} ShapeCovers(n: nat, height: nat, pos: nat)
    requires pos < TreeWidth(n, height)
    ensures Covers(n, height, pos)
    decreases height
  {
    if height == 0 {
      NodeExists(n, height, pos);
    } else {
      LeftChild(n, height - 1, pos);
      ShapeCovers(n, height - 1, 2 * pos);
      if 2 * pos + 1 < TreeWidth(n, height - 1) {
        ShapeCovers(n, height - 1, 2 * pos + 1);
        PairCovers(n, height - 1, pos);
      } else {
        LoneCovers(n, height - 1, pos);
      }
    }
  }

  lemma {:induction false} RangeAny(txids: seq<Uint256>, matches: seq<bool>, lo: nat, hi: nat)
    requires |matches| == |txids| && hi <= |txids|
    ensures MatchedRange(txids, matches, lo, hi) != [] <==> exists p :: lo <= p < hi && matches[p]
    decreases hi - lo
  {
    if lo < hi {
      RangeAny(txids, matches, lo + 1, hi);
      if p :| lo <= p < hi && matches[p] {
        assert p == lo || (lo + 1 <= p < hi && matches[p]);
      }
    }
  }

  /** The loop over a node's leaves finds a match exactly if the subtree has one. */
  lemma ShapeAny(n: nat, height: nat, pos: nat, txids: seq<Uint256>, matches: seq<bool>)
    requires pos < TreeWidth(n, height) && |txids| == |matches| == n
    ensures Within(Shape(n, height, pos), n) && End(n, height, pos) <= n
    ensures AnyMatch(Shape(n, height, pos), matches) <==> exists p :: First(height, pos) <= p < End(n, height, pos) && matches[p]
  {
    ShapeCovers(n, height, pos);
    ContiguousFacts(Shape(n, height, pos), First(height, pos), End(n, height, pos), txids, matches);
    RangeAny(txids, matches, First(height, pos), End(n, height, pos));
    if AnyMatch(Shape(n, height, pos), matches) {
      MatchedSome(Shape(n, height, pos), txids, matches);
    } else {
      MatchedNone(Shape(n, height, pos), txids, matches);
    }
  }
  // ----- The height of the tree -----

  lemma WidthShrinks(n: nat, height: nat)
    requires TreeWidth(n, height) > 1
    ensures TreeWidth(n, height + 1) < TreeWidth(n, height)
  {
    LeftChild(n, height, TreeWidth(n, height) - 1);
  }

  function HeightFrom(n: nat, height: nat): nat
    decreases TreeWidth(n, height)
  {
    if TreeWidth(n, height) > 1 then WidthShrinks(n, height); HeightFrom(n, height + 1) else height
  }

  lemma {:induction false} WidthPositive(n: nat, height: nat)
    requires n > 0
    ensures 0 < TreeWidth(n, height)
  {
    NodeExists(n, height, 0);
  }

  /** The whole tree of n transactions. */
  function Root(n: nat): Tree
    requires n > 0
  {
    WidthPositive(n, HeightFrom(n, 0));
    Shape(n, HeightFrom(n, 0), 0)
  }

  lemma {:induction false} HeightIsTop(n: nat, height: nat)
    requires n > 0
    ensures TreeWidth(n, HeightFrom(n, height)) == 1
    decreases TreeWidth(n, height)
  {
    WidthPositive(n, height);
    if TreeWidth(n, height) > 1 {
      WidthShrinks(n, height);
      HeightIsTop(n, height + 1);
    }
  }

  lemma RootCovers(n: nat, txids: seq<Uint256>, matches: seq<bool>)
    requires n > 0 && |txids| == |matches| == n
    ensures Within(Root(n), n) && Leaves(Root(n)) == n && Depth(Root(n)) == HeightFrom(n, 0)
    ensures Matched(Root(n), txids, matches) == MatchedRange(txids, matches, 0, n)
  {
    var top := HeightFrom(n, 0);
    WidthPositive(n, top);
    HeightIsTop(n, 0);
    NodeExists(n, top, 1);
    ShapeCovers(n, top, 0);
    ContiguousFacts(Root(n), 0, n, txids, matches);
  }

  // ----- Flag bits in bytes -----

  method PackBits(vBits: seq<bool>) returns (vBytes: seq<bv8>)
    ensures |vBytes| == (|vBits| + 7) / 8
    ensures forall p | 0 <= p < 8 * |vBytes| :: BitSet(vBytes[p / 8], p % 8) <==> p < |vBits| && vBits[p]
  {
    vBytes := seq((|vBits| + 7) / 8, _ => 0 as bv8);
    forall p | 0 <= p < 8 * |vBytes| ensures !BitSet(vBytes[p / 8], p % 8) {
      NoBits(p % 8);
    }
    for p := 0 to |vBits|
      invariant |vBytes| == (|vBits| + 7) / 8
      invariant forall q | 0 <= q < 8 * |vBytes| :: BitSet(vBytes[q / 8], q % 8) <==> q < p && vBits[q]
    {
      if vBits[p] {
        ghost var was := vBytes;
        vBytes := vBytes[p / 8 := vBytes[p / 8] | Mask(p % 8)];
        forall q | 0 <= q < 8 * |vBytes|
          ensures BitSet(vBytes[q / 8], q % 8) <==> q < p + 1 && vBits[q]
        {
          assert BitSet(was[q / 8], q % 8) <==> q < p && vBits[q];
          if q / 8 == p / 8 {
            SetBit(was[p / 8], p % 8, q % 8);
            assert q % 8 == p % 8 <==> q == p;
          }
        }
      }
    }
  }

  method UnpackBits(vBytes: seq<bv8>) returns (vBits: seq<bool>)
    ensures |vBits| == 8 * |vBytes|
    ensures forall p | 0 <= p < |vBits| :: vBits[p] == BitSet(vBytes[p / 8], p % 8)
  {
    vBits := [];
    for p := 0 to 8 * |vBytes|
      invariant |vBits| == p
      invariant forall q | 0 <= q < p :: vBits[q] == BitSet(vBytes[q / 8], q % 8)
    {
      vBits := vBits + [BitSet(vBytes[p / 8], p % 8)];
    }
  }
  // ----- The object -----

  function Ids(found: seq<(Uint256, nat)>): seq<Uint256> {
    seq(|found|, i requires 0 <= i < |found| => found[i].0)
  }

  function Indices(found: seq<(Uint256, nat)>): seq<nat> {
    seq(|found|, i requires 0 <= i < |found| => found[i].1)
  }

  lemma FoundAppend(a: seq<(Uint256, nat)>, b: seq<(Uint256, nat)>, ids: seq<Uint256>, indices: seq<nat>)
    ensures ids + Ids(a) + Ids(b) == ids + Ids(a + b)
    ensures indices + Indices(a) + Indices(b) == indices + Indices(a + b)
  {
  }

  /** The root and the matches, if every check passes. */
  function Extracted(h: PairHash, n: nat, bits: seq<bool>, hashes: seq<Uint256>): Option<Parsed> {
    if n == 0 || n > MAX_BLOCK_BASE_SIZE / 60 || |hashes| > n || |bits| < |hashes| then None
    else
      var p := Parse(h, Root(n), bits, hashes);
      if p.bad || (|bits| - |p.bits| + 7) / 8 != (|bits| + 7) / 8 || p.hashes != [] then None
      else Some(p)
  }

  ghost function Appended(a: Part, b: Part): Part {
    Part(a.bits + b.bits, a.hashes + b.hashes)
  }

  lemma AppendInner(a: Part, l: Part, r: Part)
    ensures Appended(Appended(a.(bits := a.bits + [true]), l), r) == Appended(a, Part([true] + l.bits + r.bits, l.hashes + r.hashes))
    ensures r == Part([], []) ==> Appended(a.(bits := a.bits + [true]), l) == Appended(a, Part([true] + l.bits, l.hashes))
  {
    assert a.bits + [true] + l.bits + r.bits == a.bits + ([true] + l.bits + r.bits);
  }

  class CPartialMerkleTree {
    const h: PairHash
    var nTransactions: nat
    var vBits: seq<bool>
    var vHash: seq<Uint256>
    var fBad: bool

    /** Builds the encoding of a transaction list under a match mask. */
    constructor Encode(h: PairHash, vTxid: seq<Uint256>, vMatch: seq<bool>)
      requires |vTxid| == |vMatch| && |vTxid| > 0
      ensures this.h == h && nTransactions == |vTxid| && !fBad
      ensures Within(Root(|vTxid|), |vTxid|)
      ensures Part(vBits, vHash) == Build(h, Root(|vTxid|), vTxid, vMatch)
    {
      this.h := h;
      nTransactions := |vTxid|;
      fBad := false;
      vBits, vHash := [], [];
      new;
      var nHeight := TreeHeight();
      WidthPositive(nTransactions, nHeight);
      RootCovers(nTransactions, vTxid, vMatch);
      TraverseAndBuild(nHeight, 0, vTxid, vMatch, Root(nTransactions));
    }

    /** Reads an encoding off the wire. */
    constructor Decode(h: PairHash, n: nat, hashes: seq<Uint256>, vBytes: seq<bv8>)
      ensures this.h == h && nTransactions == n && vHash == hashes && !fBad
      ensures |vBits| == 8 * |vBytes|
      ensures forall p | 0 <= p < |vBits| :: vBits[p] == BitSet(vBytes[p / 8], p % 8)
    {
      this.h := h;
      nTransactions := n;
      vHash := hashes;
      fBad := false;
      var bits := UnpackBits(vBytes);
      vBits := bits;
    }

    method TreeHeight() returns (nHeight: nat)
      ensures nHeight == HeightFrom(nTransactions, 0)
    {
      nHeight := 0;
      while TreeWidth(nTransactions, nHeight) > 1
        invariant HeightFrom(nTransactions, nHeight) == HeightFrom(nTransactions, 0)
        decreases TreeWidth(nTransactions, nHeight)
      {
        WidthShrinks(nTransactions, nHeight);
        nHeight := nHeight + 1;
      }
    }

    function CalcHash(height: nat, pos: nat, vTxid: seq<Uint256>): (r: Uint256)
      requires nTransactions == |vTxid| && pos < TreeWidth(nTransactions, height)
      reads this
      ensures Within(Shape(nTransactions, height, pos), |vTxid|)
      ensures r == NodeHash(h, Shape(nTransactions, height, pos), vTxid)
      decreases height
    {
      if height == 0 then
        NodeExists(nTransactions, 0, pos);
        vTxid[pos]
      else
        LeftChild(nTransactions, height - 1, pos);
        var left := CalcHash(height - 1, 2 * pos, vTxid);
        var right := if 2 * pos + 1 < TreeWidth(nTransactions, height - 1) then CalcHash(height - 1, 2 * pos + 1, vTxid) else left;
        h(left, right)
    }

    /** Whether any leaf under a node is matched. */
    method IsParentOfMatch(height: nat, pos: nat, ghost vTxid: seq<Uint256>, vMatch: seq<bool>) returns (any: bool)
      requires nTransactions == |vTxid| == |vMatch| && pos < TreeWidth(nTransactions, height)
      ensures Within(Shape(nTransactions, height, pos), |vMatch|)
      ensures any <==> AnyMatch(Shape(nTransactions, height, pos), vMatch)
    {
      ShapeAny(nTransactions, height, pos, vTxid, vMatch);
      any := false;
      var p := First(height, pos);
      while p < First(height, pos + 1) && p < nTransactions
        invariant First(height, pos) <= p <= End(nTransactions, height, pos) || p == First(height, pos)
        invariant any <==> exists q :: First(height, pos) <= q < p && q < nTransactions && vMatch[q]
      {
        any := any || vMatch[p];
        p := p + 1;
      }
    }

    /** Appends a node's flag bits and hashes, descending only towards matches. */
    method TraverseAndBuild(height: nat, pos: nat, vTxid: seq<Uint256>, vMatch: seq<bool>, ghost t: Tree)
      requires nTransactions == |vTxid| == |vMatch|
      requires pos < TreeWidth(nTransactions, height) && t == Shape(nTransactions, height, pos) && Within(t, nTransactions)
      modifies this`vBits, this`vHash
      ensures Part(vBits, vHash) == Appended(Part(old(vBits), old(vHash)), Build(h, t, vTxid, vMatch))
      decreases height
    {
      var fParentOfMatch := IsParentOfMatch(height, pos, vTxid, vMatch);
      vBits := vBits + [fParentOfMatch];
      if height == 0 || !fParentOfMatch {
        var hash := CalcHash(height, pos, vTxid);
        vHash := vHash + [hash];
      } else {
        LeftChild(nTransactions, height - 1, pos);
        BuildInner(h, t, vTxid, vMatch);
        ghost var start := Part(old(vBits), old(vHash));
        if 2 * pos + 1 < TreeWidth(nTransactions, height - 1) {
          AppendInner(start, Build(h, t.left, vTxid, vMatch), Build(h, t.right, vTxid, vMatch));
          TraverseAndBuild(height - 1, 2 * pos, vTxid, vMatch, t.left);
          TraverseAndBuild(height - 1, 2 * pos + 1, vTxid, vMatch, t.right);
        } else {
          AppendInner(start, Build(h, t.child, vTxid, vMatch), Part([], []));
          TraverseAndBuild(height - 1, 2 * pos, vTxid, vMatch, t.child);
        }
      }
    }

    /** What a traversal from a cursor must deliver. */
    ghost predicate Delivers(p: Parsed, hash: Uint256, nBitsUsed: nat, nHashUsed: nat,
                             vMatch: seq<Uint256>, vnIndex: seq<nat>, vMatch': seq<Uint256>, vnIndex': seq<nat>)
      reads this`vBits, this`vHash
    {
      && nBitsUsed <= |vBits| && nHashUsed <= |vHash|
      && hash == p.hash && vBits[nBitsUsed..] == p.bits && vHash[nHashUsed..] == p.hashes
      && vMatch' == vMatch + Ids(p.found) && vnIndex' == vnIndex + Indices(p.found)
    }

    /** What two children deliver, one after the other, is what their parent delivers. */
    lemma DeliversBoth(l: Parsed, r: Parsed, left: Uint256, right: Uint256, nBitsUsed: nat, nHashUsed: nat,
                       vMatch: seq<Uint256>, vnIndex: seq<nat>, vMatch1: seq<Uint256>, vnIndex1: seq<nat>,
                       vMatch2: seq<Uint256>, vnIndex2: seq<nat>)
      requires left == l.hash && vMatch1 == vMatch + Ids(l.found) && vnIndex1 == vnIndex + Indices(l.found)
      requires Delivers(r, right, nBitsUsed, nHashUsed, vMatch1, vnIndex1, vMatch2, vnIndex2)
      ensures Delivers(Parsed(h(l.hash, r.hash), r.bits, r.hashes, l.found + r.found, l.bad || r.bad || r.hash == l.hash),
                       h(left, right), nBitsUsed, nHashUsed, vMatch, vnIndex, vMatch2, vnIndex2)
    {
      FoundAppend(l.found, r.found, vMatch, vnIndex);
    }

    /** Consumes a node's flag bits and hashes, collecting the matched leaves. */
    method TraverseAndExtract(height: nat, pos: nat, nBitsUsed: nat, nHashUsed: nat, vMatch: seq<Uint256>, vnIndex: seq<nat>, ghost t: Tree)
      returns (hash: Uint256, nBitsUsed': nat, nHashUsed': nat, vMatch': seq<Uint256>, vnIndex': seq<nat>)
      requires pos < TreeWidth(nTransactions, height) && t == Shape(nTransactions, height, pos)
      requires nBitsUsed <= |vBits| && nHashUsed <= |vHash|
      modifies this`fBad
      ensures var p := Parse(h, t, vBits[nBitsUsed..], vHash[nHashUsed..]);
              && Delivers(p, hash, nBitsUsed', nHashUsed', vMatch, vnIndex, vMatch', vnIndex')
              && fBad == (old(fBad) || p.bad)
      decreases height, 1
    {
      nBitsUsed', nHashUsed', vMatch', vnIndex' := nBitsUsed, nHashUsed, vMatch, vnIndex;
      if nBitsUsed >= |vBits| {
        fBad := true;
        hash := NULL_HASH;
        return;
      }
      var fParentOfMatch := vBits[nBitsUsed];
      nBitsUsed' := nBitsUsed + 1;
      assert vBits[nBitsUsed..] == [fParentOfMatch] + vBits[nBitsUsed'..];
      if height == 0 || !fParentOfMatch {
        if nHashUsed >= |vHash| {
          fBad := true;
          hash := NULL_HASH;
          return;
        }
        hash := vHash[nHashUsed];
        nHashUsed' := nHashUsed + 1;
        if height == 0 && fParentOfMatch {
          vMatch' := vMatch' + [hash];
          vnIndex' := vnIndex' + [pos];
        }
      } else {
        hash, nBitsUsed', nHashUsed', vMatch', vnIndex' :=
          ExtractChildren(height, pos, nBitsUsed', nHashUsed', vMatch', vnIndex', t);
      }
    }

    /** The children of a node whose own flag bit was set. */
    method ExtractChildren(height: nat, pos: nat, nBitsUsed: nat, nHashUsed: nat, vMatch: seq<Uint256>, vnIndex: seq<nat>, ghost t: Tree)
      returns (hash: Uint256, nBitsUsed': nat, nHashUsed': nat, vMatch': seq<Uint256>, vnIndex': seq<nat>)
      requires height > 0 && pos < TreeWidth(nTransactions, height) && t == Shape(nTransactions, height, pos)
      requires nBitsUsed <= |vBits| && nHashUsed <= |vHash|
      modifies this`fBad
      ensures var p := Parse(h, t, [true] + vBits[nBitsUsed..], vHash[nHashUsed..]);
              && Delivers(p, hash, nBitsUsed', nHashUsed', vMatch, vnIndex, vMatch', vnIndex')
              && fBad == (old(fBad) || p.bad)
      decreases height, 0
    {
      LeftChild(nTransactions, height - 1, pos);
      ghost var a := if t.Pair? then t.left else t.child;
      ghost var l := Parse(h, a, vBits[nBitsUsed..], vHash[nHashUsed..]);
      var left: Uint256, right: Uint256;
      left, nBitsUsed', nHashUsed', vMatch', vnIndex' :=
        TraverseAndExtract(height - 1, 2 * pos, nBitsUsed, nHashUsed, vMatch, vnIndex, a);
      if 2 * pos + 1 < TreeWidth(nTransactions, height - 1) {
        ghost var r := Parse(h, t.right, l.bits, l.hashes);
        ghost var vMatch1, vnIndex1 := vMatch', vnIndex';
        right, nBitsUsed', nHashUsed', vMatch', vnIndex' :=
          TraverseAndExtract(height - 1, 2 * pos + 1, nBitsUsed', nHashUsed', vMatch', vnIndex', t.right);
        ParsePair(h, a, t.right, vBits[nBitsUsed..], vHash[nHashUsed..]);
        DeliversBoth(l, r, left, right, nBitsUsed', nHashUsed', vMatch, vnIndex, vMatch1, vnIndex1, vMatch', vnIndex');
        if right == left {
          fBad := true;
        }
      } else {
        ParseLone(h, a, vBits[nBitsUsed..], vHash[nHashUsed..]);
        right := left;
      }
      hash := h(left, right);
    }

    /** Checks the encoding and returns its root (null for failure), matched ids and their indices, after those that are
        already in the vector. */
    method ExtractMatches(vnIndex0: seq<nat>) returns (root: Uint256, vMatch: seq<Uint256>, vnIndex: seq<nat>)
      modifies this`fBad
      ensures
        match Extracted(h, nTransactions, vBits, vHash)
        case None => root == NULL_HASH
        case Some(p) => root == (if old(fBad) then NULL_HASH else p.hash) && vMatch == Ids(p.found) && vnIndex == vnIndex0 + Indices(p.found)
      // A null root does not tell failure from a tree whose root is null.
      ensures root == NULL_HASH <==>
              old(fBad) || Extracted(h, nTransactions, vBits, vHash).None? || Extracted(h, nTransactions, vBits, vHash).value.hash == NULL_HASH
    {
      root, vMatch, vnIndex := NULL_HASH, [], vnIndex0;
      if nTransactions == 0 || nTransactions > MAX_BLOCK_BASE_SIZE / 60 {
        return;
      }
      if |vHash| > nTransactions || |vBits| < |vHash| {
        return;
      }
      var nHeight := TreeHeight();
      WidthPositive(nTransactions, nHeight);
      var hashMerkleRoot: Uint256, nBitsUsed: nat, nHashUsed: nat;
      assert vBits[0..] == vBits && vHash[0..] == vHash;
      hashMerkleRoot, nBitsUsed, nHashUsed, vMatch, vnIndex := TraverseAndExtract(nHeight, 0, 0, 0, [], vnIndex0, Root(nTransactions));
      if fBad {
        return;
      }
      if (nBitsUsed + 7) / 8 != (|vBits| + 7) / 8 {
        return;
      }
      if nHashUsed != |vHash| {
        return;
      }
      root := hashMerkleRoot;
    }
  }

  // ----- The two promises -----

  /** There are at most two bits per hash less one if and only if no match lies under a node with one child. */
  lemma BitsBound(h: PairHash, txids: seq<Uint256>, matches: seq<bool>)
    requires |txids| == |matches| && |txids| > 0 && Within(Root(|txids|), |txids|)
    ensures var b := Build(h, Root(|txids|), txids, matches);
            |b.bits| <= 2 * |b.hashes| - 1 <==> LonesOpened(Root(|txids|), matches) == 0
  {
    BitsExact(h, Root(|txids|), txids, matches);
  }

  lemma WidthsOfThree(n: nat, top: nat, mid: nat, low: nat)
    requires n == 3 && top == 2 && mid == 1 && low == 0
    ensures TreeWidth(n, low) == 3 && TreeWidth(n, mid) == 2 && TreeWidth(n, top) == 1
  {
    assert Pow2(low) == 1 && Pow2(mid) == 2 && Pow2(top) == 4;
  }

  lemma RootOfThree(n: nat)
    requires n == 3
    ensures Root(n) == Pair(Pair(Leaf(0), Leaf(1)), Lone(Leaf(2)))
  {
    var top, mid, low := 2, 1, 0;
    WidthsOfThree(n, top, mid, low);
    assert Shape(n, low, 0) == Leaf(0) && Shape(n, low, 1) == Leaf(1) && Shape(n, low, 2) == Leaf(2);
    assert Shape(n, mid, 0) == Pair(Leaf(0), Leaf(1));
    assert Shape(n, mid, 1) == Lone(Leaf(2));
    assert Shape(n, top, 0) == Pair(Shape(n, mid, 0), Shape(n, mid, 1));
    assert HeightFrom(n, top) == top && HeightFrom(n, mid) == top && HeightFrom(n, low) == top;
  }

  /** Three transactions of which the last is matched: two hashes, and four bits instead of three. */
  lemma BitsExceed(h: PairHash, txids: seq<Uint256>)
    requires |txids| == 3
    ensures Within(Root(3), 3)
    ensures var b := Build(h, Root(3), txids, [false, false, true]); |b.hashes| == 2 && |b.bits| == 4
  {
    RootOfThree(3);
    LastOfThree(h, txids, [false, false, true]);
  }

  /** Build, pack, send, unpack, extract: the root and exactly the matches, or failure, and which. */
  lemma RoundTrip(h: PairHash, txids: seq<Uint256>, matches: seq<bool>, received: seq<bool>)
    requires |txids| == |matches| && |txids| > 0 && Within(Root(|txids|), |txids|)
    requires var b := Build(h, Root(|txids|), txids, matches);
             && |received| == (|b.bits| + 7) / 8 * 8
             && forall p | 0 <= p < |received| :: received[p] <==> p < |b.bits| && b.bits[p]
    ensures
      var n := |txids|;
      var b := Build(h, Root(n), txids, matches);
      match Extracted(h, n, received, b.hashes)
      case Some(p) =>
        && p.hash == NodeHash(h, Root(n), txids)
        && p.found == MatchedRange(txids, matches, 0, n)
        && n <= MAX_BLOCK_BASE_SIZE / 60 && SiblingsDiffer(h, Root(n), txids, matches)
      case None => n > MAX_BLOCK_BASE_SIZE / 60 || !SiblingsDiffer(h, Root(n), txids, matches)
    ensures
      var b := Build(h, Root(|txids|), txids, matches);
      && |b.hashes| <= |txids|
      && |b.hashes| <= 1 + |MatchedRange(txids, matches, 0, |txids|)| * HeightFrom(|txids|, 0)
  {
    var n := |txids|;
    var b := Build(h, Root(n), txids, matches);
    RootCovers(n, txids, matches);
    BuildSize(h, Root(n), txids, matches);
    BuildSizeMatched(h, Root(n), txids, matches);
    var padding := received[|b.bits|..];
    assert received == b.bits + padding;
    assert b.hashes + [] == b.hashes;
    ParseBuilt(h, Root(n), txids, matches, padding, []);
  }

  /** With a collision-free pair hash, nobody can get a wrong transaction past the root. */
  lemma Soundness(h: PairHash, txids: seq<Uint256>, bits: seq<bool>, hashes: seq<Uint256>)
    requires Injective(h) && |txids| > 0 && Within(Root(|txids|), |txids|)
    requires Extracted(h, |txids|, bits, hashes).Some?
    requires Extracted(h, |txids|, bits, hashes).value.hash == NodeHash(h, Root(|txids|), txids)
    ensures AllFrom(Extracted(h, |txids|, bits, hashes).value.found, txids)
  {
    ParseSound(h, Root(|txids|), txids, bits, hashes);
  }

  /** The whole exchange between two objects. */
  method Exchange(h: PairHash, txids: seq<Uint256>, matches: seq<bool>)
    returns (root: Uint256, ids: seq<Uint256>, indices: seq<nat>)
    requires |txids| == |matches| && 0 < |txids| <= MAX_BLOCK_BASE_SIZE / 60
    ensures Within(Root(|txids|), |txids|)
    ensures if SiblingsDiffer(h, Root(|txids|), txids, matches) then
              && root == NodeHash(h, Root(|txids|), txids)
              && ids == Ids(MatchedRange(txids, matches, 0, |txids|))
              && indices == Indices(MatchedRange(txids, matches, 0, |txids|))
            else root == NULL_HASH
  {
    var sender := new CPartialMerkleTree.Encode(h, txids, matches);
    var vBytes := PackBits(sender.vBits);
    var receiver := new CPartialMerkleTree.Decode(h, sender.nTransactions, sender.vHash, vBytes);
    RoundTrip(h, txids, matches, receiver.vBits);
    root, ids, indices := receiver.ExtractMatches([]);
  }

  /** A tree of one transaction whose id is null passes every test, and its root says that it failed. */
  method NullRoot(h: PairHash) returns (tree: CPartialMerkleTree, root: Uint256, ids: seq<Uint256>)
    ensures Extracted(h, tree.nTransactions, tree.vBits, tree.vHash).Some? && ids == [NULL_HASH] && root == NULL_HASH
  {
    var vBytes := [1 as bv8];
    tree := new CPartialMerkleTree.Decode(h, 1, [NULL_HASH], vBytes);
    BitsOfOne(vBytes, tree.vBits);
    RootOfOne(1);
    var indices;
    root, ids, indices := tree.ExtractMatches([]);
  }

  lemma BitsOfOne(vBytes: seq<bv8>, vBits: seq<bool>)
    requires vBytes == [1] && |vBits| == 8 && forall p | 0 <= p < 8 :: vBits[p] == BitSet(vBytes[p / 8], p % 8)
    ensures vBits[0]
  {
    assert vBits[0] == BitSet(vBytes[0 / 8], 0 % 8);
  }

  lemma RootOfOne(n: nat)
    requires n == 1
    ensures Root(n) == Leaf(0)
  {
    var low := 0;
    assert Pow2(low) == 1 && TreeWidth(n, low) == 1;
    assert HeightFrom(n, low) == low;
  }
}
