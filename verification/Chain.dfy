/**
 The block index and the active chain: ancestors through skip pointers, switching tips, forks
 and locators, each shown to agree with walking from block to predecessor.
 */
module Chain {
  import opened Numbers
  import opened Transactions
  import opened Limbs
  import opened SkipHeights

  // ----- Blocks and their ancestors -----

  class BlockIndex {
    const pprev: BlockIndex?
    const nHeight: nat
    const hash: Uint256
    var pskip: BlockIndex?
    ghost const before: set<BlockIndex>   // all blocks before this one

    /** A new entry on top of another, or a genesis block. */
    constructor (pprev: BlockIndex?, hash: Uint256)
      requires pprev != null ==> Rooted(pprev)
      ensures this.pprev == pprev && this.hash == hash && pskip == null && Rooted(this)
    {
      this.pprev, this.hash := pprev, hash;
      nHeight := if pprev == null then 0 else pprev.nHeight + 1;
      before := if pprev == null then {} else pprev.before + {pprev};
      pskip := null;
    }

    /** The ancestor at a height, by skip pointers where they help: if they are all set, the number of blocks
        visited is at most the square of the number of binary digits of the height. */
    method GetAncestor(height: int) returns (r: BlockIndex?, ghost steps: nat)
      requires Rooted(this) && Built(this)
      ensures r == null <==> height > nHeight || height < 0
      ensures r != null ==> r == Ancestor(this, height)
      ensures Skips(this) ==> steps <= BitLength(nHeight) * BitLength(nHeight)
    {
      steps := 0;
      if height > nHeight || height < 0 {
        MulLe(BitLength(nHeight), 0, BitLength(nHeight));
        return null, steps;
      }
      r, steps := WalkDown(height);
    }

    /** The walk down to a height. */
    method WalkDown(height: nat) returns (r: BlockIndex, ghost steps: nat)
      requires Rooted(this) && Built(this) && height <= nHeight
      ensures r == Ancestor(this, height)
      ensures Skips(this) ==> steps <= BitLength(nHeight) * BitLength(nHeight)
    {
      steps := 0;
      var pindexWalk: BlockIndex := this;
      var heightWalk := nHeight;
      while heightWalk > height
        invariant height <= heightWalk == pindexWalk.nHeight && Rooted(pindexWalk) && Built(pindexWalk)
        invariant Ancestor(pindexWalk, height) == Ancestor(this, height)
        invariant Skips(this) ==> Skips(pindexWalk) && steps + Steps(Walk(), heightWalk, height) == Steps(Walk(), nHeight, height)
      {
        pindexWalk := pindexWalk.Back(height);
        heightWalk := pindexWalk.nHeight;
        steps := steps + 1;
      }
      BitLengthBounds(nHeight);
      WalkSteps(nHeight, height, BitLength(nHeight));
      r := pindexWalk;
    }

    /** One round of the walk: along the skip pointer, unless the predecessor's leads to a better place. */
    method Back(height: nat) returns (next: BlockIndex)
      requires Rooted(this) && Built(this) && height < nHeight
      ensures Rooted(next) && Built(next) && height <= next.nHeight < nHeight && Ancestor(next, height) == Ancestor(this, height)
      ensures Skips(this) ==> Skips(next) && Steps(Walk(), nHeight, height) == 1 + Steps(Walk(), next.nHeight, height)
    {
      var heightSkip := GetSkipHeight(nHeight);
      var heightSkipPrev := GetSkipHeight(nHeight - 1);
      WalkNext(nHeight, height);
      InLine(this);
      if pskip != null &&
         (heightSkip == height ||
          (heightSkip > height && !(heightSkipPrev < heightSkip - 2 && heightSkipPrev >= height))) {
        AlongSkip(this, height);
        next := pskip;
      } else {
        AlongPrev(this, height);
        next := pprev;
      }
    }

    /** Sets the skip pointer of a block whose predecessors have theirs. */
    method BuildSkip()
      requires Rooted(this) && (pprev != null ==> Built(pprev) && Skips(pprev))
      modifies this
      ensures pprev == null ==> pskip == old(pskip)
      ensures pprev != null ==> Built(this) && Skips(this) && pskip == Ancestor(this, GetSkipHeight(nHeight))
    {
      if pprev != null {
        var skip, _ := pprev.GetAncestor(GetSkipHeight(nHeight));
        NotOwnAncestor(this, pprev);
        assert skip == Ancestor(this, GetSkipHeight(nHeight));
        pskip := skip;
      }
    }
  }

  /** Heights count the steps back to a genesis block. */
  ghost predicate Rooted(b: BlockIndex)
    decreases b.nHeight
  {
    if b.pprev == null then b.nHeight == 0 && b.before == {}
    else b.nHeight == b.pprev.nHeight + 1 && b.before == Line(b.pprev) && Rooted(b.pprev)
  }

  /** Walking back from block to predecessor. */
  ghost function Ancestor(b: BlockIndex, height: nat): BlockIndex
    requires Rooted(b) && height <= b.nHeight
    decreases b.nHeight
  {
    if height == b.nHeight then b else Ancestor(b.pprev, height)
  }

  /** A block and all blocks before it. */
  ghost function Line(b: BlockIndex): set<BlockIndex> {
    b.before + {b}
  }

  /** A skip pointer that is set leads to the ancestor at the skip height. */
  ghost predicate SkipOk(b: BlockIndex)
    requires Rooted(b)
    reads b
  {
    b.pskip != null ==> b.pskip == Ancestor(b, GetSkipHeight(b.nHeight))
  }

  ghost predicate Built(b: BlockIndex)
    requires Rooted(b)
    reads Line(b)
  {
    forall c {:trigger c in Line(b)} | c in Line(b) :: Rooted(c) && SkipOk(c)
  }

  /** Every block but a genesis block has its skip pointer. */
  ghost predicate Skips(b: BlockIndex)
    reads Line(b)
  {
    forall c {:trigger c in Line(b)} | c in Line(b) && c.pprev != null :: c.pskip != null
  }

  lemma InLine(b: BlockIndex)
    requires Rooted(b)
    ensures b in Line(b)
    ensures b.pprev != null ==> Line(b.pprev) <= Line(b)
  {
  }

  lemma {:induction false} AncestorFacts(b: BlockIndex, height: nat)
    requires Rooted(b) && height <= b.nHeight
    ensures Rooted(Ancestor(b, height)) && Ancestor(b, height).nHeight == height
    decreases b.nHeight
  {
    if height < b.nHeight {
      AncestorFacts(b.pprev, height);
    }
  }

  /** An ancestor of an ancestor is an ancestor. */
  lemma {:induction false} AncestorTwice(b: BlockIndex, high: nat, low: nat)
    requires Rooted(b) && low <= high <= b.nHeight
    ensures Rooted(Ancestor(b, high)) && Ancestor(b, high).nHeight == high
    ensures Ancestor(Ancestor(b, high), low) == Ancestor(b, low)
    decreases b.nHeight
  {
    if high < b.nHeight {
      AncestorTwice(b.pprev, high, low);
    }
  }

  lemma {:induction false} LineBelow(b: BlockIndex, height: nat)
    requires Rooted(b) && height <= b.nHeight
    ensures Rooted(Ancestor(b, height)) && Line(Ancestor(b, height)) <= Line(b)
    decreases b.nHeight
  {
    if height < b.nHeight {
      LineBelow(b.pprev, height);
    }
  }

  lemma {:induction false} LineHeights(b: BlockIndex, c: BlockIndex)
    requires Rooted(b) && c in Line(b)
    ensures c.nHeight <= b.nHeight
    decreases b.nHeight
  {
    if b.pprev != null && c != b {
      LineHeights(b.pprev, c);
    }
  }

  lemma NotOwnAncestor(b: BlockIndex, p: BlockIndex)
    requires Rooted(b) && b.pprev == p
    ensures b !in Line(p)
  {
    if b in Line(p) {
      LineHeights(p, b);
    }
  }

  /** A skip pointer leads along the line to the ancestor at the skip height. */
  lemma AlongSkip(b: BlockIndex, height: nat)
    requires Rooted(b) && Built(b) && b.pskip != null && height <= GetSkipHeight(b.nHeight)
    ensures Rooted(b.pskip) && Built(b.pskip) && b.pskip.nHeight == GetSkipHeight(b.nHeight)
    ensures Ancestor(b.pskip, height) == Ancestor(b, height) && (Skips(b) ==> Skips(b.pskip))
  {
    InLine(b);
    AncestorFacts(b, GetSkipHeight(b.nHeight));
    AncestorTwice(b, GetSkipHeight(b.nHeight), height);
    LineBelow(b, GetSkipHeight(b.nHeight));
  }

  lemma AlongPrev(b: BlockIndex, height: nat)
    requires Rooted(b) && Built(b) && height < b.nHeight
    ensures b.pprev != null && Rooted(b.pprev) && Built(b.pprev) && b.pprev.nHeight == b.nHeight - 1
    ensures Ancestor(b.pprev, height) == Ancestor(b, height) && (Skips(b) ==> Skips(b.pprev))
  {
    InLine(b);
  }

  lemma ValuesAdd<K, T>(m: map<K, T>, k: K, v: T)
    requires k !in m
    ensures m[k := v].Values == m.Values + {v}
  {
    var m' := m[k := v];
    forall x | x in m.Values ensures x in m'.Values {
      var h :| h in m && m[h] == x;
      assert m'[h] == x;
    }
    assert m'[k] == v;
  }

  // ----- The block tree -----

  ghost predicate InTree(b: BlockIndex, blocks: set<BlockIndex>)
    reads b
  {
    Rooted(b) && Line(b) <= blocks && SkipOk(b) && (b.pprev != null ==> b.pskip != null)
  }

  class BlockTree {
    var mapBlockIndex: map<Uint256, BlockIndex>

    ghost function Blocks(): set<BlockIndex> reads this {
      mapBlockIndex.Values
    }

    /** Every block knows its ancestors, and every skip pointer leads to one of them. */
    ghost predicate Valid()
      reads this, Blocks()
    {
      && (forall h | h in mapBlockIndex :: mapBlockIndex[h].hash == h)
      && (forall b {:trigger InTree(b, Blocks())} | b in Blocks() :: InTree(b, Blocks()))
    }

    constructor ()
      ensures Valid() && mapBlockIndex == map[]
    {
      mapBlockIndex := map[];
    }

    /** Adds a header on top of its predecessor, if that is known; its skip pointer is set at once. */
    method AddToBlockIndex(hash: Uint256, hashPrevBlock: Uint256) returns (pindex: BlockIndex)
      requires Valid() && hash != hashPrevBlock
      modifies this
      ensures Valid() && hash in mapBlockIndex && mapBlockIndex[hash] == pindex
      ensures if hash in old(mapBlockIndex) then mapBlockIndex == old(mapBlockIndex)
              else fresh(pindex) && mapBlockIndex == old(mapBlockIndex)[hash := pindex] &&
                   pindex.pprev == if hashPrevBlock in old(mapBlockIndex) then old(mapBlockIndex)[hashPrevBlock] else null
    {
      if hash in mapBlockIndex {
        return mapBlockIndex[hash];
      }
      ghost var blocks := Blocks();
      var prev: BlockIndex? := null;
      if hashPrevBlock in mapBlockIndex {
        prev := mapBlockIndex[hashPrevBlock];
        LineInTree(prev, blocks);
      }
      pindex := NewBlock(prev, hash);
      ValuesAdd(mapBlockIndex, hash, pindex);
      mapBlockIndex := mapBlockIndex[hash := pindex];
      forall b | b in blocks ensures InTree(b, Blocks()) {
        assert old(InTree(b, blocks));
      }
    }
  }

  /** A new block on top of another, with its skip pointer. */
  method NewBlock(prev: BlockIndex?, hash: Uint256) returns (pindex: BlockIndex)
    requires prev != null ==> Rooted(prev) && Built(prev) && Skips(prev)
    ensures fresh(pindex) && pindex.pprev == prev && pindex.hash == hash
    ensures InTree(pindex, Line(pindex)) && Line(pindex) == (if prev == null then {} else Line(prev)) + {pindex}
  {
    pindex := new BlockIndex(prev, hash);
    if prev != null {
      pindex.BuildSkip();
    }
    InLine(pindex);
  }

  lemma LineInTree(b: BlockIndex, blocks: set<BlockIndex>)
    requires b in blocks && forall c {:trigger InTree(c, blocks)} | c in blocks :: InTree(c, blocks)
    ensures Rooted(b) && Built(b) && Skips(b) && Line(b) <= blocks
  {
    assert InTree(b, blocks);
    forall c | c in Line(b) ensures Rooted(c) && SkipOk(c) && (c.pprev != null ==> c.pskip != null) {
      assert InTree(c, blocks);
    }
  }

  // ----- The active chain -----

  /** The blocks from a genesis block to the last one, in order. */
  ghost predicate IsPath(v: seq<BlockIndex?>) {
    forall i {:trigger OnPath(v, i)} | 0 <= i < |v| :: OnPath(v, i)
  }

  ghost predicate OnPath(v: seq<BlockIndex?>, i: nat)
    requires i < |v|
  {
    v[i] != null && v[i].nHeight == i && Rooted(v[i]) && v[i].pprev == if i == 0 then null else v[i - 1]
  }

  /** A path holds, at every height, the ancestor of its last block. */
  lemma {:induction false} PathIsAncestors(v: seq<BlockIndex?>, i: nat, j: nat)
    requires IsPath(v) && i <= j < |v|
    ensures OnPath(v, j) && v[i] == Ancestor(v[j], i)
    decreases j
  {
    assert OnPath(v, j);
    if i < j {
      PathIsAncestors(v, i, j - 1);
    }
  }

  class CChain {
    var vChain: seq<BlockIndex?>

    ghost predicate Valid() reads this {
      IsPath(vChain)
    }

    constructor ()
      ensures Valid() && vChain == []
    {
      vChain := [];
    }

    function At(nHeight: int): BlockIndex?
      reads this
    {
      if nHeight < 0 || nHeight >= |vChain| then null else vChain[nHeight]
    }

    function Tip(): BlockIndex? reads this {
      if |vChain| > 0 then vChain[|vChain| - 1] else null
    }

    predicate Contains(pindex: BlockIndex) reads this {
      At(pindex.nHeight) == pindex
    }

    function Height(): int reads this {
      |vChain| - 1
    }

    /** The successor of a block of the chain is the block that has it as predecessor. */
    function Next(pindex: BlockIndex): (next: BlockIndex?)
      requires Valid()
      reads this
      ensures next != null ==> next.pprev == pindex && Contains(next)
      ensures next == null <==> !Contains(pindex) || pindex == Tip()
    {
      assert pindex.nHeight + 1 < |vChain| ==> OnPath(vChain, pindex.nHeight + 1);
      assert |vChain| > 0 ==> OnPath(vChain, |vChain| - 1);
      if Contains(pindex) then At(pindex.nHeight + 1) else null
    }

    /** A block is in the chain exactly if it is an ancestor of the tip. */
    lemma ContainsIsAncestor(b: BlockIndex)
      requires Valid() && Rooted(b)
      ensures Contains(b) <==> Tip() != null && b.nHeight <= Tip().nHeight && Rooted(Tip()) && Ancestor(Tip(), b.nHeight) == b
    {
      if |vChain| > 0 {
        assert OnPath(vChain, |vChain| - 1);
        if b.nHeight < |vChain| {
          PathIsAncestors(vChain, b.nHeight, |vChain| - 1);
        }
      }
    }

    /** Switches to another tip; only the blocks that differ are rewritten. */
    method SetTip(pindex: BlockIndex?)
      requires Valid() && (pindex != null ==> Rooted(pindex))
      modifies this
      ensures Valid() && Tip() == pindex
      ensures pindex != null ==> |vChain| == pindex.nHeight + 1 && forall h | 0 <= h <= pindex.nHeight :: vChain[h] == Ancestor(pindex, h)
    {
      if pindex == null {
        vChain := [];
        return;
      }
      ghost var before := vChain;
      vChain := if pindex.nHeight < |vChain| then vChain[..pindex.nHeight + 1]
                else vChain + seq(pindex.nHeight + 1 - |vChain|, _ => null);
      var walk: BlockIndex? := pindex;
      while walk != null && vChain[walk.nHeight] != walk
        invariant |vChain| == pindex.nHeight + 1
        invariant walk != null ==> Rooted(walk) && walk.nHeight <= pindex.nHeight && Ancestor(pindex, walk.nHeight) == walk
        invariant forall h | 0 <= h <= pindex.nHeight && (walk == null || h > walk.nHeight) :: vChain[h] == Ancestor(pindex, h)
        invariant forall h | 0 <= h <= pindex.nHeight && walk != null && h <= walk.nHeight ::
                    vChain[h] == if h < |before| then before[h] else null
        decreases if walk == null then 0 else walk.nHeight + 1
      {
        ghost var at := walk;
        vChain := vChain[walk.nHeight := walk];
        if walk.pprev != null {
          AncestorTwice(pindex, walk.nHeight, walk.nHeight - 1);
        }
        walk := walk.pprev;
      }
      forall h | 0 <= h <= pindex.nHeight ensures vChain[h] == Ancestor(pindex, h) {
        if walk != null && h <= walk.nHeight {
          PathIsAncestors(before, h, walk.nHeight);
          AncestorTwice(pindex, walk.nHeight, h);
        }
      }
      AllAncestors(pindex);
    }

    lemma AllAncestors(tip: BlockIndex)
      requires Rooted(tip) && |vChain| == tip.nHeight + 1 && forall h | 0 <= h <= tip.nHeight :: vChain[h] == Ancestor(tip, h)
      ensures Valid() && Tip() == tip
    {
      forall i | 0 <= i < |vChain| ensures OnPath(vChain, i) {
        AncestorFacts(tip, i);
        if i > 0 {
          AncestorTwice(tip, i, i - 1);
        }
      }
    }

    /** The chain does not have the ancestor at this height. */
    ghost predicate Apart(start: BlockIndex, h: nat)
      requires Rooted(start)
      reads this
    {
      h <= start.nHeight && !Contains(Ancestor(start, h))
    }

    lemma AboveChain(start: BlockIndex, h: nat)
      requires Rooted(start) && Height() < h <= start.nHeight
      ensures Apart(start, h)
    {
      AncestorFacts(start, h);
    }

    /** The last block that a line of blocks has in common with the chain. */
    method FindFork(start: BlockIndex?) returns (fork: BlockIndex?)
      requires Valid() && (start != null ==> Rooted(start) && Built(start))
      ensures fork != null ==>
                && start != null && Contains(fork) && fork.nHeight <= start.nHeight && Ancestor(start, fork.nHeight) == fork
                && forall h | fork.nHeight < h <= start.nHeight :: Apart(start, h)
      ensures fork == null && start != null ==> forall h | 0 <= h <= start.nHeight :: Apart(start, h)
    {
      if start == null {
        return null;
      }
      var pindex: BlockIndex? := start;
      if start.nHeight > Height() {
        ghost var steps;
        pindex, steps := start.GetAncestor(Height());
        if Height() >= 0 {
          AncestorFacts(start, Height());
        }
      }
      forall h | Height() < h && 0 <= h <= start.nHeight ensures Apart(start, h) {
        AboveChain(start, h);
      }
      while pindex != null && !Contains(pindex)
        invariant pindex != null ==> Rooted(pindex) && pindex.nHeight <= start.nHeight && Ancestor(start, pindex.nHeight) == pindex
        invariant forall h {:trigger Apart(start, h)} | 0 <= h <= start.nHeight && (pindex == null || h > pindex.nHeight) :: Apart(start, h)
        decreases if pindex == null then 0 else pindex.nHeight + 1
      {
        assert Apart(start, pindex.nHeight);
        if pindex.pprev != null {
          AncestorTwice(start, pindex.nHeight, pindex.nHeight - 1);
        }
        pindex := pindex.pprev;
      }
      fork := pindex;
    }

    /** One step of a locator: from a block to its ancestor, through the chain itself where possible. */
    method StepBack(pindex: BlockIndex, height: nat, ghost start: BlockIndex) returns (r: BlockIndex)
      requires Valid() && Rooted(start) && pindex.nHeight <= start.nHeight && pindex == Ancestor(start, pindex.nHeight)
      requires height <= pindex.nHeight && (Contains(start) || Built(start))
      ensures r == Ancestor(start, height) && r.nHeight == height
    {
      AncestorTwice(start, pindex.nHeight, height);
      AncestorFacts(start, height);
      if Contains(pindex) {
        PathIsAncestors(vChain, height, pindex.nHeight);
        r := At(height);
      } else {
        if Contains(start) {
          PathIsAncestors(vChain, pindex.nHeight, start.nHeight);
          assert false;
        }
        LineBelow(start, pindex.nHeight);
        ghost var steps;
        r, steps := pindex.GetAncestor(height);
      }
    }

    /**
     A locator: the hashes of the blocks at a locator's heights, from a block to the first of them
     that is the genesis block.  Its length is logarithmic in the height.
     */
    method GetLocator(from: BlockIndex?) returns (vHave: seq<Uint256>)
      requires Valid() && (from != null ==> Rooted(from) && Built(from))
      ensures var start := if from == null then Tip() else from;
              if start == null then vHave == []
              else Rooted(start) && IsLocator(start, vHave) && LocatorHeight(start.nHeight, |vHave| - 1) == 0 &&
                   |vHave| <= 11 + BitLength(start.nHeight)
    {
      vHave := [];
      var first := if from == null then Tip() else from;
      if first == null {
        return;
      }
      if from == null {
        assert OnPath(vChain, |vChain| - 1);
      }
      var start: BlockIndex, pindex: BlockIndex := first, first;
      var nStep: nat := 1;
      while true
        invariant Rooted(start) && (Contains(start) || Built(start))
        invariant pindex.nHeight <= start.nHeight && pindex == Ancestor(start, pindex.nHeight)
        invariant Going(start, vHave)
        invariant Paced(|vHave|, nStep, start.nHeight, pindex.nHeight)
        decreases pindex.nHeight
      {
        LocatorNext(start, vHave, pindex);
        vHave := vHave + [pindex.hash];
        if pindex.nHeight == 0 {
          break;
        }
        var nHeight := if pindex.nHeight < nStep then 0 else pindex.nHeight - nStep;
        PaceNext(|vHave| - 1, nStep, start.nHeight, pindex.nHeight);
        pindex := StepBack(pindex, nHeight, start);
        if |vHave| > 10 {
          nStep := nStep * 2;
        }
      }
    }
  }

  /** The height of a locator's block k: ten steps of one, then of one, two, four and so on. */
  ghost function LocatorHeight(high: nat, k: nat): (r: nat)
    ensures r <= high
  {
    var back := if k <= 10 then k else 9 + Pow2(k - 10);
    if high < back then 0 else high - back
  }

  /** The hashes of a block's ancestors at a locator's heights, all but the last above genesis. */
  ghost predicate IsLocator(start: BlockIndex, vHave: seq<Uint256>)
    requires Rooted(start)
  {
    && vHave != []
    && (forall i | 0 <= i < |vHave| :: vHave[i] == Ancestor(start, LocatorHeight(start.nHeight, i)).hash)
    && (forall i | 0 <= i < |vHave| - 1 :: 0 < LocatorHeight(start.nHeight, i))
  }

  /** A locator that has not come to genesis yet. */
  ghost predicate Going(start: BlockIndex, vHave: seq<Uint256>)
    requires Rooted(start)
  {
    vHave != [] ==> IsLocator(start, vHave) && 0 < LocatorHeight(start.nHeight, |vHave| - 1)
  }

  lemma LocatorNext(start: BlockIndex, vHave: seq<Uint256>, next: BlockIndex)
    requires Rooted(start) && Going(start, vHave)
    requires next.nHeight == LocatorHeight(start.nHeight, |vHave|) && next == Ancestor(start, next.nHeight)
    ensures IsLocator(start, vHave + [next.hash])
    ensures 0 < next.nHeight ==> Going(start, vHave + [next.hash])
  {
  }

  /** The heights of a locator fall until they reach zero. */
  lemma LocatorFalls(high: nat, i: nat, j: nat)
    requires i < j && 0 < LocatorHeight(high, i)
    ensures LocatorHeight(high, j) < LocatorHeight(high, i)
  {
    if j > 10 {
      Pow2Mono(if i <= 10 then 1 else i - 9, j - 10);
    }
  }

  /** How far a locator has come after k blocks, and how large its next step is. */
  ghost predicate Paced(k: nat, nStep: nat, high: nat, height: nat) {
    && nStep == (if k <= 10 then 1 else Pow2(k - 10))
    && height == LocatorHeight(high, k)
    && k <= 10 + BitLength(high)
  }

  lemma PaceNext(k: nat, nStep: nat, high: nat, height: nat)
    requires Paced(k, nStep, high, height) && 0 < height <= high
    ensures Paced(k + 1, if k + 1 > 10 then nStep * 2 else nStep, high, if height < nStep then 0 else height - nStep)
  {
    BitLengthBounds(high);
    if k > 10 {
      Pow2Reflect(k - 10, BitLength(high));
    }
  }
}
