/**
 Partial Merkle trees (BIP 37): a depth-first encoding of the part of a Merkle tree that leads
 to matched transactions, and its decoder.  The source addresses nodes by height and position;
 the specification is by structural recursion over the tree those addresses describe.  The
 pair hash is a parameter throughout.
 */
module PartialMerkle {
  import opened Transactions
  import opened Numbers

  type PairHash = (Uint256, Uint256) -> Uint256

  const MAX_BLOCK_BASE_SIZE := 1000000

  // ----- The tree -----

  /** A node has two children, or only a left one at the right edge of a level. */
  datatype Tree = Leaf(index: nat) | Lone(child: Tree) | Pair(left: Tree, right: Tree)

  predicate Within(t: Tree, n: nat) {
    match t
    case Leaf(i) => i < n
    case Lone(c) => Within(c, n)
    case Pair(l, r) => Within(l, n) && Within(r, n)
  }

  /** The hash of a node; a missing right child repeats the left one. */
  function NodeHash(h: PairHash, t: Tree, txids: seq<Uint256>): Uint256
    requires Within(t, |txids|)
  {
    match t
    case Leaf(i) => txids[i]
    case Lone(c) => h(NodeHash(h, c, txids), NodeHash(h, c, txids))
    case Pair(l, r) => h(NodeHash(h, l, txids), NodeHash(h, r, txids))
  }

  predicate AnyMatch(t: Tree, matches: seq<bool>)
    requires Within(t, |matches|)
  {
    match t
    case Leaf(i) => matches[i]
    case Lone(c) => AnyMatch(c, matches)
    case Pair(l, r) => AnyMatch(l, matches) || AnyMatch(r, matches)
  }

  // ----- Encoding -----

  /** The flag bits and hashes of a node, in depth-first order. */
  datatype Part = Part(bits: seq<bool>, hashes: seq<Uint256>)

  function Build(h: PairHash, t: Tree, txids: seq<Uint256>, matches: seq<bool>): Part
    requires |matches| == |txids| && Within(t, |txids|)
  {
    if t.Leaf? || !AnyMatch(t, matches) then
      Part([AnyMatch(t, matches)], [NodeHash(h, t, txids)])
    else if t.Lone? then
      var c := Build(h, t.child, txids, matches);
      Part([true] + c.bits, c.hashes)
    else
      var l, r := Build(h, t.left, txids, matches), Build(h, t.right, txids, matches);
      Part([true] + l.bits + r.bits, l.hashes + r.hashes)
  }

  lemma BuildInner(h: PairHash, t: Tree, txids: seq<Uint256>, matches: seq<bool>)
    requires |matches| == |txids| && Within(t, |txids|) && !t.Leaf? && AnyMatch(t, matches)
    ensures t.Lone? ==> var c := Build(h, t.child, txids, matches);
                        Build(h, t, txids, matches) == Part([true] + c.bits, c.hashes)
    ensures t.Pair? ==> var l, r := Build(h, t.left, txids, matches), Build(h, t.right, txids, matches);
                        Build(h, t, txids, matches) == Part([true] + l.bits + r.bits, l.hashes + r.hashes)
  {
  }

  // ----- Decoding -----

  /** A node's hash, what is left of the input, the matched leaves under it, and whether anything was wrong. */
  datatype Parsed = Parsed(hash: Uint256, bits: seq<bool>, hashes: seq<Uint256>, found: seq<(Uint256, nat)>, bad: bool)

  function Parse(h: PairHash, t: Tree, bits: seq<bool>, hashes: seq<Uint256>): (p: Parsed)
    ensures |p.bits| <= |bits| && |p.hashes| <= |hashes|
  {
    if bits == [] then
      Parsed(NULL_HASH, bits, hashes, [], true)
    else if t.Leaf? || !bits[0] then
      if hashes == [] then Parsed(NULL_HASH, bits[1..], hashes, [], true)
      else Parsed(hashes[0], bits[1..], hashes[1..], if t.Leaf? && bits[0] then [(hashes[0], t.index)] else [], false)
    else if t.Lone? then
      var c := Parse(h, t.child, bits[1..], hashes);
      c.(hash := h(c.hash, c.hash))
    else
      var l := Parse(h, t.left, bits[1..], hashes);
      var r := Parse(h, t.right, l.bits, l.hashes);
      Parsed(h(l.hash, r.hash), r.bits, r.hashes, l.found + r.found, l.bad || r.bad || r.hash == l.hash)
  }

  lemma ParsePair(h: PairHash, a: Tree, b: Tree, bits: seq<bool>, hashes: seq<Uint256>)
    ensures var l := Parse(h, a, bits, hashes);
            var r := Parse(h, b, l.bits, l.hashes);
            Parse(h, Pair(a, b), [true] + bits, hashes) ==
            Parsed(h(l.hash, r.hash), r.bits, r.hashes, l.found + r.found, l.bad || r.bad || r.hash == l.hash)
  {
    assert ([true] + bits)[1..] == bits;
  }

  lemma ParseLone(h: PairHash, c: Tree, bits: seq<bool>, hashes: seq<Uint256>)
    ensures var p := Parse(h, c, bits, hashes);
            Parse(h, Lone(c), [true] + bits, hashes) == p.(hash := h(p.hash, p.hash))
  {
    assert ([true] + bits)[1..] == bits;
  }

  // ----- Decoding undoes encoding -----

  /** The matched transactions under a node, with their indices, in order. */
  function Matched(t: Tree, txids: seq<Uint256>, matches: seq<bool>): seq<(Uint256, nat)>
    requires |matches| == |txids| && Within(t, |txids|)
  {
    match t
    case Leaf(i) => if matches[i] then [(txids[i], i)] else []
    case Lone(c) => Matched(c, txids, matches)
    case Pair(l, r) => Matched(l, txids, matches) + Matched(r, txids, matches)
  }

  lemma {:induction false} MatchedNone(t: Tree, txids: seq<Uint256>, matches: seq<bool>)
    requires |matches| == |txids| && Within(t, |txids|) && !AnyMatch(t, matches)
    ensures Matched(t, txids, matches) == []
  {
    match t
    case Leaf(_) =>
    case Lone(c) => MatchedNone(c, txids, matches);
    case Pair(l, r) => MatchedNone(l, txids, matches); MatchedNone(r, txids, matches);
  }

  /** No node that the encoding descends into has two children with the same hash. */
  ghost predicate SiblingsDiffer(h: PairHash, t: Tree, txids: seq<Uint256>, matches: seq<bool>)
    requires |matches| == |txids| && Within(t, |txids|)
  {
    t.Leaf? || !AnyMatch(t, matches) ||
    match t
    case Lone(c) => SiblingsDiffer(h, c, txids, matches)
    case Pair(l, r) =>
      && SiblingsDiffer(h, l, txids, matches)
      && SiblingsDiffer(h, r, txids, matches)
      && NodeHash(h, l, txids) != NodeHash(h, r, txids)
  }

  /** Parsing what was built recovers the hash and the matches, and stops where the node ends. */
  lemma {:induction false} ParseBuilt(h: PairHash, t: Tree, txids: seq<Uint256>, matches: seq<bool>,
                                      bits: seq<bool>, hashes: seq<Uint256>)
    requires |matches| == |txids| && Within(t, |txids|)
    ensures var b := Build(h, t, txids, matches);
            Parse(h, t, b.bits + bits, b.hashes + hashes) ==
            Parsed(NodeHash(h, t, txids), bits, hashes, Matched(t, txids, matches), !SiblingsDiffer(h, t, txids, matches))
  {
    var b := Build(h, t, txids, matches);
    if t.Leaf? || !AnyMatch(t, matches) {
      if !AnyMatch(t, matches) {
        MatchedNone(t, txids, matches);
      }
    } else if t.Lone? {
      ParseBuilt(h, t.child, txids, matches, bits, hashes);
      assert (b.bits + bits)[1..] == Build(h, t.child, txids, matches).bits + bits;
    } else {
      var l, r := Build(h, t.left, txids, matches), Build(h, t.right, txids, matches);
      assert (b.bits + bits)[1..] == l.bits + (r.bits + bits);
      assert b.hashes + hashes == l.hashes + (r.hashes + hashes);
      ParseBuilt(h, t.left, txids, matches, r.bits + bits, r.hashes + hashes);
      ParseBuilt(h, t.right, txids, matches, bits, hashes);
    }
  }

  // ----- What an accepted encoding proves -----

  ghost predicate Injective(h: PairHash) {
    forall a, b, c, d :: h(a, b) == h(c, d) ==> a == c && b == d
  }

  /**
   Whatever bits and hashes were supplied: if they parse to the right hash for a node, then
   everything they claim to have found under that node is really there.
   */
  lemma {:induction false} ParseSound(h: PairHash, t: Tree, txids: seq<Uint256>, bits: seq<bool>, hashes: seq<Uint256>)
    requires Injective(h) && Within(t, |txids|)
    requires var p := Parse(h, t, bits, hashes); !p.bad && p.hash == NodeHash(h, t, txids)
    ensures AllFrom(Parse(h, t, bits, hashes).found, txids)
  {
    if t.Leaf? || !bits[0] {
    } else if t.Lone? {
      ParseSound(h, t.child, txids, bits[1..], hashes);
    } else {
      var l := Parse(h, t.left, bits[1..], hashes);
      ParseSound(h, t.left, txids, bits[1..], hashes);
      ParseSound(h, t.right, txids, l.bits, l.hashes);
    }
  }

  /** Every claimed transaction is the one at the claimed index. */
  ghost predicate AllFrom(found: seq<(Uint256, nat)>, txids: seq<Uint256>) {
    forall i | 0 <= i < |found| :: found[i].1 < |txids| && txids[found[i].1] == found[i].0
  }

  // ----- Size of the encoding -----

  function Leaves(t: Tree): nat {
    match t
    case Leaf(_) => 1
    case Lone(c) => Leaves(c)
    case Pair(l, r) => Leaves(l) + Leaves(r)
  }

  function Depth(t: Tree): nat {
    match t
    case Leaf(_) => 0
    case Lone(c) => 1 + Depth(c)
    case Pair(l, r) => 1 + if Depth(l) > Depth(r) then Depth(l) else Depth(r)
  }

  lemma {:induction false} BuildSize(h: PairHash, t: Tree, txids: seq<Uint256>, matches: seq<bool>)
    requires |matches| == |txids| && Within(t, |txids|)
    ensures var b := Build(h, t, txids, matches); 1 <= |b.hashes| <= |b.bits| && |b.hashes| <= Leaves(t)
  {
    LeavesPositive(t);
    if !t.Leaf? && AnyMatch(t, matches) {
      if t.Lone? {
        BuildSize(h, t.child, txids, matches);
      } else {
        BuildSize(h, t.left, txids, matches);
        BuildSize(h, t.right, txids, matches);
      }
    }
  }

  /** The nodes with one child that the encoding descends into. */
  function LonesOpened(t: Tree, matches: seq<bool>): nat
    requires Within(t, |matches|)
  {
    if t.Leaf? || !AnyMatch(t, matches) then 0
    else if t.Lone? then 1 + LonesOpened(t.child, matches)
    else LonesOpened(t.left, matches) + LonesOpened(t.right, matches)
  }

  lemma {:induction false} BitsExact(h: PairHash, t: Tree, txids: seq<Uint256>, matches: seq<bool>)
    requires |matches| == |txids| && Within(t, |txids|)
    ensures var b := Build(h, t, txids, matches); |b.bits| == 2 * |b.hashes| - 1 + LonesOpened(t, matches)
  {
    if !t.Leaf? && AnyMatch(t, matches) {
      if t.Lone? {
        BitsExact(h, t.child, txids, matches);
      } else {
        BitsExact(h, t.left, txids, matches);
        BitsExact(h, t.right, txids, matches);
      }
    }
  }

  lemma LastOfThree(h: PairHash, txids: seq<Uint256>, matches: seq<bool>)
    requires |txids| == 3 && matches == [false, false, true]
    ensures var t := Pair(Pair(Leaf(0), Leaf(1)), Lone(Leaf(2)));
            Within(t, 3) && |Build(h, t, txids, matches).hashes| == 2 && |Build(h, t, txids, matches).bits| == 4
  {
    var l, r := Pair(Leaf(0), Leaf(1)), Lone(Leaf(2));
    assert !AnyMatch(l, matches) && AnyMatch(r, matches);
    assert Build(h, l, txids, matches) == Part([false], [NodeHash(h, l, txids)]);
    BuildInner(h, r, txids, matches);
    assert Build(h, Leaf(2), txids, matches) == Part([true], [txids[2]]);
    BuildInner(h, Pair(l, r), txids, matches);
  }

  lemma {:induction false} BuildSizeMatched(h: PairHash, t: Tree, txids: seq<Uint256>, matches: seq<bool>)
    requires |matches| == |txids| && Within(t, |txids|)
    ensures |Build(h, t, txids, matches).hashes| <= 1 + |Matched(t, txids, matches)| * Depth(t)
  {
    if !t.Leaf? && AnyMatch(t, matches) {
      MatchedSome(t, txids, matches);
      var d := Depth(t) - 1;
      if t.Lone? {
        BuildSizeMatched(h, t.child, txids, matches);
        MulLe(|Matched(t, txids, matches)|, d, d + 1);
      } else {
        BuildSizeMatched(h, t.left, txids, matches);
        BuildSizeMatched(h, t.right, txids, matches);
        BothSides(|Matched(t.left, txids, matches)|, |Matched(t.right, txids, matches)|, Depth(t.left), Depth(t.right), d);
      }
    }
  }

  lemma BothSides(ml: nat, mr: nat, dl: nat, dr: nat, d: nat)
    requires ml + mr >= 1 && dl <= d && dr <= d
    ensures (1 + ml * dl) + (1 + mr * dr) <= 1 + (ml + mr) * (d + 1)
  {
    MulLe(ml, dl, d);
    MulLe(mr, dr, d);
    assert (ml + mr) * (d + 1) == ml * d + mr * d + ml + mr;
  }

  lemma {:induction false} LeavesPositive(t: Tree)
    ensures Leaves(t) >= 1
  {
    match t
    case Leaf(_) =>
    case Lone(c) => LeavesPositive(c);
    case Pair(l, r) => LeavesPositive(l); LeavesPositive(r);
  }

  lemma {:induction false} MatchedSome(t: Tree, txids: seq<Uint256>, matches: seq<bool>)
    requires |matches| == |txids| && Within(t, |txids|) && AnyMatch(t, matches)
    ensures |Matched(t, txids, matches)| >= 1
  {
    match t
    case Leaf(_) =>
    case Lone(c) => MatchedSome(c, txids, matches);
    case Pair(l, r) =>
      if AnyMatch(l, matches) {
        MatchedSome(l, txids, matches);
      } else {
        MatchedSome(r, txids, matches);
      }
  }
}
