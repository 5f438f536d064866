/**
 The block assembler: fills a block from the memory pool, package by package.  Scores and
 priorities only decide which entry is looked at next; here that choice is arbitrary.
 */
module Miner {
  import opened Numbers
  import opened Sets
  import opened Mempool

  const MAX_BLOCK_SIGOPS_COST := 80000
  const WITNESS_SCALE_FACTOR := 4
  const MAX_CONSECUTIVE_FAILURES := 1000
  const MAX_BLOCK_WEIGHT := 4000000
  const MAX_BLOCK_SERIALIZED_SIZE := 4000000

  /** Cached totals of an entry and those of its ancestors that are not in the block. */
  datatype Modified = Modified(size: int, fees: int, sigOps: int)

  function Family(pool: Pool, t: nat): set<nat>
    requires t < |pool|
  {
    Ancestors(pool, t) + {t}
  }

  /** What the pool itself caches for an entry. */
  function Cached(pool: Pool, t: nat): Modified
    requires t < |pool|
  {
    Modified(Total(pool, Family(pool, t), Size), Total(pool, Family(pool, t), ModFee), Total(pool, Family(pool, t), SigOps))
  }

  /** The totals do not understate what is missing from a set, nor overstate the whole family. */
  ghost predicate Covers(pool: Pool, m: Modified, t: nat, included: set<nat>)
    requires t < |pool|
  {
    && Total(pool, Family(pool, t) - included, Size) <= m.size <= Cached(pool, t).size
    && Total(pool, Family(pool, t) - included, SigOps) <= m.sigOps <= Cached(pool, t).sigOps
  }

  ghost predicate AllCover(pool: Pool, mods: map<nat, Modified>, included: set<nat>) {
    forall t | t in mods :: t < |pool| && Covers(pool, mods[t], t, included)
  }

  lemma CachedCovers(pool: Pool, t: nat, included: set<nat>)
    requires t < |pool|
    ensures Covers(pool, Cached(pool, t), t, included)
  {
    TotalMono(pool, Family(pool, t) - included, Family(pool, t), Size);
    TotalMono(pool, Family(pool, t) - included, Family(pool, t), SigOps);
  }

  /** Subtracting an entry that has just been included. */
  function Without(m: Modified, tx: Tx, fee: int): Modified {
    Modified(m.size - tx.size, m.fees - fee, m.sigOps - tx.sigOps)
  }

  lemma WithoutCovers(pool: Pool, m: Modified, t: nat, included: set<nat>, it: nat, fee: int)
    requires t < |pool| && it in Family(pool, t) && it !in included && Covers(pool, m, t, included)
    ensures it < |pool| && Covers(pool, Without(m, pool[it], fee), t, included + {it})
  {
    var missing := Family(pool, t) - included;
    assert Family(pool, t) - (included + {it}) == missing - {it};
    TotalRemove(pool, missing, Size, it);
    TotalRemove(pool, missing, SigOps, it);
  }

  lemma UnrelatedCovers(pool: Pool, m: Modified, t: nat, included: set<nat>, it: nat)
    requires t < |pool| && it !in Family(pool, t) && Covers(pool, m, t, included)
    ensures Covers(pool, m, t, included + {it})
  {
    assert Family(pool, t) - (included + {it}) == Family(pool, t) - included;
  }

  ghost predicate NoFeeDeltas(pool: Pool) {
    forall t | 0 <= t < |pool| :: pool[t].fee == pool[t].modFee
  }

  /** By how much the fees of some entries differ from their modified fees. */
  ghost function Deltas(pool: Pool, s: set<nat>): int {
    Total(pool, s, ModFee) - Total(pool, s, Fee)
  }

  /** Without deltas, nothing depends on which fees were taken off. */
  lemma {:induction false} NoDeltas(pool: Pool, s: set<nat>, n: nat)
    requires NoFeeDeltas(pool) && n <= |pool|
    ensures TotalTo(pool, s, ModFee, n) == TotalTo(pool, s, Fee, n)
  {
    if n > 0 {
      NoDeltas(pool, s, n - 1);
    }
  }

  /** The members of an entry's family that are taken off its total, with those that were taken off with their plain fees: all
      but the first. */
  ghost predicate AllButOne(pool: Pool, t: nat, gone: set<nat>, late: set<nat>)
    requires t < |pool|
  {
    exists first | first in Family(pool, t) * gone :: late == Family(pool, t) * gone - {first}
  }

  /** The cached fees of an entry are those of what is missing of its family, and of the members of the block in a given set, and
      what those taken off late differ by; without a cached total, all of its family in the block is in the set. */
  ghost predicate FeesExact(pool: Pool, mods: map<nat, Modified>, late: map<nat, set<nat>>, t: nat, included: set<nat>, stale: set<nat>)
    requires t < |pool|
  {
    && stale <= included && (t in mods <==> t in late)
    && if t in mods then
         && AllButOne(pool, t, included - stale, late[t])
         && mods[t].fees == Total(pool, Family(pool, t) - (included - stale), ModFee) + Deltas(pool, late[t])
       else Family(pool, t) * included <= stale
  }

  /** Whatever was exact is exact again. */
  ghost predicate FeesStayExact(pool: Pool, mods: map<nat, Modified>, late: map<nat, set<nat>>, included: set<nat>,
                                mods': map<nat, Modified>, late': map<nat, set<nat>>, included': set<nat>, but: set<nat>) {
    forall t: nat, stale {:trigger FeesExact(pool, mods', late', t, included', stale)} |
      t < |pool| && t !in but && FeesExact(pool, mods, late, t, included, stale) :: FeesExact(pool, mods', late', t, included', stale)
  }

  lemma FeesStayTwice(pool: Pool, mods: map<nat, Modified>, late: map<nat, set<nat>>, included: set<nat>,
                      mods1: map<nat, Modified>, late1: map<nat, set<nat>>, included1: set<nat>,
                      mods2: map<nat, Modified>, late2: map<nat, set<nat>>, included2: set<nat>, but: set<nat>)
    requires FeesStayExact(pool, mods, late, included, mods1, late1, included1, but)
    requires FeesStayExact(pool, mods1, late1, included1, mods2, late2, included2, but)
    ensures FeesStayExact(pool, mods, late, included, mods2, late2, included2, but)
  {
    forall t: nat, stale | t < |pool| && t !in but && FeesExact(pool, mods, late, t, included, stale)
      ensures FeesExact(pool, mods2, late2, t, included2, stale)
    {
      assert FeesExact(pool, mods1, late1, t, included1, stale);
    }
  }

  /** The fees of one entry were taken off the total of another: its modified fees if that starts a total, else its plain fees. */
  ghost predicate Reduced(pool: Pool, mods: map<nat, Modified>, late: map<nat, set<nat>>,
                          mods': map<nat, Modified>, late': map<nat, set<nat>>, d: nat, it: nat) {
    && d < |pool| && it < |pool| && d in mods' && d in late'
    && if d in mods then d in late && mods'[d].fees == mods[d].fees - pool[it].fee && late'[d] == late[d] + {it}
       else mods'[d].fees == Cached(pool, d).fees - pool[it].modFee && late'[d] == {}
  }

  ghost predicate Untouched(mods: map<nat, Modified>, late: map<nat, set<nat>>, mods': map<nat, Modified>, late': map<nat, set<nat>>, t: nat) {
    && (t in mods' <==> t in mods) && (t in mods' ==> mods'[t] == mods[t])
    && (t in late' <==> t in late) && (t in late' ==> late'[t] == late[t])
  }

  /** What including one entry does to the fees of another. */
  lemma FeesAfter(pool: Pool, mods: map<nat, Modified>, late: map<nat, set<nat>>, mods': map<nat, Modified>, late': map<nat, set<nat>>,
                  t: nat, included: set<nat>, it: nat, stale: set<nat>)
    requires t < |pool| && it < |pool| && it !in included && FeesExact(pool, mods, late, t, included, stale)
    requires if it in Family(pool, t) then Reduced(pool, mods, late, mods', late', t, it) else Untouched(mods, late, mods', late', t)
    ensures FeesExact(pool, mods', late', t, included + {it}, stale)
  {
    var gone, gone' := included - stale, included + {it} - stale;
    if it !in Family(pool, t) {
      assert Family(pool, t) - gone' == Family(pool, t) - gone && Family(pool, t) * gone' == Family(pool, t) * gone;
    } else if t in mods {
      TakenOff(pool, t, gone, late[t], it);
      assert gone' == gone + {it};
    } else {
      assert Family(pool, t) - gone' == Family(pool, t) - {it} && Family(pool, t) * gone' == {it};
      TotalRemove(pool, Family(pool, t), ModFee, it);
      TotalNone(pool, ModFee, |pool|);
      TotalNone(pool, Fee, |pool|);
    }
  }

  lemma TakenOff(pool: Pool, t: nat, gone: set<nat>, late: set<nat>, it: nat)
    requires t < |pool| && it < |pool| && it !in gone && it in Family(pool, t) && AllButOne(pool, t, gone, late)
    ensures AllButOne(pool, t, gone + {it}, late + {it})
    ensures Total(pool, Family(pool, t) - (gone + {it}), ModFee) + Deltas(pool, late + {it}) ==
            Total(pool, Family(pool, t) - gone, ModFee) + Deltas(pool, late) - pool[it].fee
  {
    var family := Family(pool, t);
    var first :| first in family * gone && late == family * gone - {first};
    assert late + {it} == family * (gone + {it}) - {first};
    assert family - (gone + {it}) == family - gone - {it};
    TotalRemove(pool, family - gone, ModFee, it);
    TotalAdd(pool, late, ModFee, it);
    TotalAdd(pool, late, Fee, it);
  }

  /** What happened to the totals: for entries that were turned away, the block at that time; for entries that have a total, the
      ancestors that were taken off it late. */
  datatype Past = Past(turned: map<nat, set<nat>>, late: map<nat, set<nat>>)

  /** The block as it was at some time. */
  ghost predicate Earlier(vtx: seq<nat>, block: set<nat>) {
    exists k {:trigger vtx[..k]} :: 0 <= k <= |vtx| && block == Elements(vtx[..k])
  }

  lemma EarlierStays(vtx: seq<nat>, vtx': seq<nat>, block: set<nat>)
    requires Earlier(vtx, block) && vtx <= vtx'
    ensures Earlier(vtx', block)
  {
    var k :| 0 <= k <= |vtx| && block == Elements(vtx[..k]);
    assert vtx'[..k] == vtx[..k];
  }

  /** What the total of an entry counts though it is in the block: the part of its family that was there when it was last
      turned away. */
  ghost function Stale(pool: Pool, past: Past, t: nat): set<nat>
    requires t < |pool|
  {
    if t in past.turned then Family(pool, t) * past.turned[t] else {}
  }

  ghost function Late(past: Past, t: nat): set<nat> {
    if t in past.late then past.late[t] else {}
  }

  ghost predicate AllPriced(pool: Pool, mods: map<nat, Modified>, past: Past, inBlock: set<nat>) {
    forall t: nat {:trigger Stale(pool, past, t)} | t < |pool| && t !in inBlock ::
      FeesExact(pool, mods, past.late, t, inBlock, Stale(pool, past, t))
  }

  lemma PricedFirst(pool: Pool, mods: map<nat, Modified>, late: map<nat, set<nat>>, inBlock: set<nat>)
    requires FeesStayExact(pool, map[], map[], {}, mods, late, inBlock, inBlock)
    ensures AllPriced(pool, mods, Past(map[], late), inBlock)
  {
    forall t: nat | t < |pool| ensures FeesExact(pool, map[], map[], t, {}, Stale(pool, Past(map[], late), t)) {
    }
  }

  /** After a package was included, what was exact is exact again. */
  lemma PricedAfter(pool: Pool, mods: map<nat, Modified>, mods1: map<nat, Modified>, mods2: map<nat, Modified>, past: Past, late2: map<nat, set<nat>>,
                    before: set<nat>, inBlock: set<nat>, package: set<nat>)
    requires AllPriced(pool, mods, past, before) && inBlock == before + package && Within(mods1, mods) && mods1.Keys == mods.Keys - package
    requires FeesStayExact(pool, mods1, past.late - package, before, mods2, late2, inBlock, inBlock)
    ensures AllPriced(pool, mods2, past.(late := late2), inBlock)
  {
    var past' := past.(late := late2);
    forall t: nat | t < |pool| && t !in inBlock
      ensures FeesExact(pool, mods2, late2, t, inBlock, Stale(pool, past', t))
    {
      assert Stale(pool, past', t) == Stale(pool, past, t);
      assert FeesExact(pool, mods, past.late, t, before, Stale(pool, past, t));
      assert FeesExact(pool, mods1, past.late - package, t, before, Stale(pool, past, t));
    }
  }

  ghost function TurnedAt(past: Past, iter: nat, inBlock: set<nat>): Past {
    Past(past.turned[iter := inBlock], past.late - {iter})
  }

  /** Forgetting the total of an entry that was turned away. */
  lemma PricedBut(pool: Pool, mods: map<nat, Modified>, mods': map<nat, Modified>, past: Past, iter: nat, inBlock: set<nat>)
    requires AllPriced(pool, mods, past, inBlock) && mods' == mods - {iter}
    ensures AllPriced(pool, mods', TurnedAt(past, iter, inBlock), inBlock)
  {
    var past' := TurnedAt(past, iter, inBlock);
    forall t: nat | t < |pool| && t !in inBlock ensures FeesExact(pool, mods', past'.late, t, inBlock, Stale(pool, past', t)) {
      assert t != iter ==> Stale(pool, past', t) == Stale(pool, past, t);
      assert FeesExact(pool, mods, past.late, t, inBlock, Stale(pool, past, t));
    }
  }

  lemma OneFewer(mods: map<nat, Modified>, iter: nat)
    ensures (mods - {iter}).Keys == mods.Keys - {iter} && |mods - {iter}| == |mods| - if iter in mods then 1 else 0
  {
    assert (mods - {iter}).Keys == mods.Keys - {iter};
    assert |mods - {iter}| == |(mods - {iter}).Keys| && |mods| == |mods.Keys|;
  }

  lemma ReducedExact(pool: Pool, mods: map<nat, Modified>, late: map<nat, set<nat>>, mods': map<nat, Modified>, late': map<nat, set<nat>>,
                     it: nat, included: set<nat>, inBlock: set<nat>)
    requires PoolOk(pool) && it < |pool| && it !in included && it in inBlock
    requires forall d | d in Descendants(pool, it) && d !in inBlock :: Reduced(pool, mods, late, mods', late', d, it)
    requires forall t {:trigger Untouched(mods, late, mods', late', t)} | t !in Descendants(pool, it) :: Untouched(mods, late, mods', late', t)
    ensures FeesStayExact(pool, mods, late, included, mods', late', included + {it}, inBlock)
  {
    forall t: nat, stale | t < |pool| && t !in inBlock && FeesExact(pool, mods, late, t, included, stale)
      ensures FeesExact(pool, mods', late', t, included + {it}, stale)
    {
      if it in Family(pool, t) {
        assert Reduced(pool, mods, late, mods', late', t, it);
      } else {
        assert Untouched(mods, late, mods', late', t);
      }
      FeesAfter(pool, mods, late, mods', late', t, included, it, stale);
    }
  }

  /** A block in a valid order: nothing twice, and everything after its parents. */
  ghost predicate Listed(pool: Pool, vtx: seq<nat>, inBlock: set<nat>) {
    && Distinct(vtx)
    && inBlock == Elements(vtx)
    && (forall i {:trigger AfterParents(pool, vtx, i)} | 0 <= i < |vtx| :: AfterParents(pool, vtx, i))
  }

  ghost function Elements(s: seq<nat>): set<nat> {
    set x | x in s
  }

  ghost predicate AfterParents(pool: Pool, vtx: seq<nat>, i: nat)
    requires i < |vtx|
  {
    vtx[i] < |pool| && forall p | p in pool[vtx[i]].parents :: p in vtx[..i]
  }

  lemma ListedAppend(pool: Pool, vtx: seq<nat>, inBlock: set<nat>, x: nat)
    requires Listed(pool, vtx, inBlock) && x < |pool| && x !in inBlock && pool[x].parents <= inBlock
    ensures Listed(pool, vtx + [x], inBlock + {x})
  {
    var vtx' := vtx + [x];
    forall i | 0 <= i < |vtx'| ensures AfterParents(pool, vtx', i) {
      if i < |vtx| {
        assert AfterParents(pool, vtx, i);
        assert vtx'[..i] == vtx[..i];
      } else {
        assert vtx'[..i] == vtx;
      }
    }
  }

  lemma ListedClosed(pool: Pool, vtx: seq<nat>, inBlock: set<nat>)
    requires Listed(pool, vtx, inBlock)
    ensures Closed(pool, inBlock)
    ensures forall x | x in inBlock :: x < |pool|
  {
    forall x | x in inBlock ensures x < |pool| {
      assert x in vtx;
      var i :| 0 <= i < |vtx| && vtx[i] == x;
      assert AfterParents(pool, vtx, i);
    }
    forall x, p | x in inBlock && x < |pool| && p in pool[x].parents ensures p in inBlock {
      assert x in vtx;
      var i :| 0 <= i < |vtx| && vtx[i] == x;
      assert AfterParents(pool, vtx, i);
      assert p in vtx[..i];
    }
  }

  /** What happens to a candidate package. */
  datatype Outcome = TooCheap | TooBig | Unfit | Included

  /** How the selection ends. */
  datatype End = Exhausted | FeeTooLow(iter: nat, m: Modified) | GaveUp

  function AncestorCount(pool: Pool, t: nat): nat
    requires t < |pool|
  {
    |Ancestors(pool, t)| + 1
  }

  ghost predicate SortedByCount(pool: Pool, s: seq<nat>) {
    && (forall i | 0 <= i < |s| :: s[i] < |pool|)
    && (forall i, j | 0 <= i < j < |s| :: AncestorCount(pool, s[i]) <= AncestorCount(pool, s[j]))
  }

  ghost predicate SortedPackage(pool: Pool, package: set<nat>, s: seq<nat>) {
    Distinct(s) && SortedByCount(pool, s) && forall x :: x in s <==> x in package
  }

  ghost predicate Within(m: map<nat, Modified>, m': map<nat, Modified>) {
    forall t | t in m :: t in m' && m[t] == m'[t]
  }

  /** Parents of a package's members are in the package or in a given set. */
  ghost predicate Complete(pool: Pool, package: set<nat>, inBlock: set<nat>) {
    forall x, p | x in package && x < |pool| && p in pool[x].parents :: p in inBlock || p in package
  }

  lemma FamilyComplete(pool: Pool, iter: nat, inBlock: set<nat>)
    requires PoolOk(pool) && iter < |pool|
    ensures Complete(pool, Family(pool, iter) - inBlock, inBlock)
    ensures forall x | x in Family(pool, iter) :: x < |pool|
  {
    forall x, p | x in Family(pool, iter) && x < |pool| && p in pool[x].parents ensures p in Family(pool, iter) {
      ParentsAreAncestors(pool, x, p);
      if x != iter {
        AncestorsClosed(pool, iter, x);
      }
    }
  }

  lemma ParentCount(pool: Pool, x: nat, p: nat)
    requires PoolOk(pool) && x < |pool| && p in pool[x].parents
    ensures p < |pool| && AncestorCount(pool, p) < AncestorCount(pool, x)
  {
    ParentsAreAncestors(pool, x, p);
    AncestorsCount(pool, x, p);
  }

  /** In a sorted package, parents that are not in the block yet come first. */
  lemma SortedIsTopological(pool: Pool, package: set<nat>, inBlock: set<nat>, sorted: seq<nat>, i: nat)
    requires PoolOk(pool) && Complete(pool, package, inBlock) && SortedPackage(pool, package, sorted)
    requires i < |sorted|
    ensures forall p | p in pool[sorted[i]].parents :: p in inBlock || p in sorted[..i]
  {
    var x := sorted[i];
    assert x in sorted && x in package;
    forall p | p in pool[x].parents ensures p in inBlock || p in sorted[..i] {
      ParentCount(pool, x, p);
      if p !in inBlock {
        assert p in sorted;
        var j :| 0 <= j < |sorted| && sorted[j] == p;
        assert j < i;
      }
    }
  }

  lemma NextElement(s: seq<nat>, i: nat)
    requires i < |s| && Distinct(s)
    ensures s[i] !in s[..i] && Elements(s[..i + 1]) == Elements(s[..i]) + {s[i]}
  {
    assert s[..i + 1] == s[..i] + [s[i]];
  }

  predicate Admissible(tx: Tx, fIncludeWitness: bool) {
    tx.isFinal && (fIncludeWitness || !tx.hasWitness)
  }

  ghost predicate AllAdmissible(pool: Pool, s: set<nat>, fIncludeWitness: bool) {
    forall x | x in s :: x < |pool| && Admissible(pool[x], fIncludeWitness)
  }

  function Clamp(low: nat, high: nat, x: nat): nat {
    var capped := if high < x then high else x;
    if capped < low then low else capped
  }

  /** What is left below the limits; sizes count only if they are accounted. */
  datatype Room = Room(weight: int, sigOps: int, size: int, sized: bool)

  /** No room for an entry with all its ancestors, or one of them may not be in this block. */
  ghost predicate Rejected(pool: Pool, room: Room, fIncludeWitness: bool, t: nat) {
    t < |pool| && (
      || WITNESS_SCALE_FACTOR * Cached(pool, t).size >= room.weight
      || Cached(pool, t).sigOps >= room.sigOps
      || !AllAdmissible(pool, Family(pool, t), fIncludeWitness)
      || (room.sized && Total(pool, Family(pool, t), Bytes) >= room.size))
  }

  ghost predicate AllRejected(pool: Pool, room: Room, fIncludeWitness: bool, s: set<nat>) {
    forall t {:trigger Rejected(pool, room, fIncludeWitness, t)} | t in s :: Rejected(pool, room, fIncludeWitness, t)
  }

  /** The reasons for a rejection stay: the room only shrinks. */
  lemma StaysRejected(pool: Pool, room: Room, room': Room, fIncludeWitness: bool, s: set<nat>)
    requires AllRejected(pool, room, fIncludeWitness, s)
    requires room'.weight <= room.weight && room'.sigOps <= room.sigOps && room'.size <= room.size && room'.sized == room.sized
    ensures AllRejected(pool, room', fIncludeWitness, s)
  {
    forall t | t in s ensures Rejected(pool, room', fIncludeWitness, t) {
      assert Rejected(pool, room, fIncludeWitness, t);
    }
  }

  lemma OneRejected(pool: Pool, room: Room, fIncludeWitness: bool, s: set<nat>, t: nat)
    requires AllRejected(pool, room, fIncludeWitness, s) && Rejected(pool, room, fIncludeWitness, t)
    ensures AllRejected(pool, room, fIncludeWitness, s + {t})
  {
  }

  /** The first mi entries in order are known, and those that failed are rejected. */
  ghost predicate Scanned(order: seq<nat>, mi: nat, failedTx: set<nat>, rejected: set<nat>, known: set<nat>) {
    mi <= |order| && failedTx <= rejected && rejected <= known && forall i | 0 <= i < mi :: order[i] in known
  }

  lemma ScanSkips(order: seq<nat>, mi: nat, failedTx: set<nat>, rejected: set<nat>, known: set<nat>)
    requires Scanned(order, mi, failedTx, rejected, known) && mi < |order| && order[mi] in known
    ensures Scanned(order, mi + 1, failedTx, rejected, known)
  {
  }

  lemma ScanTries(order: seq<nat>, mi: nat, mi': nat, failedTx: set<nat>, failedTx': set<nat>, rejected: set<nat>, rejected': set<nat>,
                  known: set<nat>, known': set<nat>, iter: nat)
    requires Scanned(order, mi, failedTx, rejected, known) && rejected <= rejected' <= known' && known <= known' && iter in known'
    requires failedTx' <= failedTx + {iter} && (failedTx' != failedTx ==> iter in rejected')
    requires mi' == mi || (mi' == mi + 1 <= |order| && order[mi] == iter)
    ensures Scanned(order, mi', failedTx', rejected', known')
  {
  }

  /** The block a selection started from. */
  datatype Start = Start(vtx: seq<nat>, block: set<nat>, accounted: set<nat>)

  class BlockAssembler {
    const pool: Pool
    const fIncludeWitness: bool
    const nBlockMaxWeight: nat
    const nBlockMaxSize: nat
    const minFee: int -> int
    var fNeedSizeAccounting: bool
    var nBlockWeight: int
    var nBlockSize: int
    var nBlockTx: int
    var nBlockSigOpsCost: int
    var nFees: int
    var inBlock: set<nat>
    var vtx: seq<nat>               // the block without its coinbase
    var lastFewTxs: int
    var blockFinished: bool
    ghost var accounted: set<nat>   // the entries added while sizes were being accounted

    /** The counters are exact, the order is valid, and no limit is reached. */
    ghost predicate Inv() reads this {
      && PoolOk(pool)
      && Listed(pool, vtx, inBlock) && accounted <= inBlock
      && AllAdmissible(pool, inBlock, fIncludeWitness)
      && nBlockWeight == 4000 + Total(pool, inBlock, Weight)
      && nBlockSigOpsCost == 400 + Total(pool, inBlock, SigOps)
      && nFees == Total(pool, inBlock, Fee)
      && nBlockTx == |vtx|
      && nBlockSize == 1000 + Total(pool, accounted, Bytes)
      && (inBlock != {} ==> nBlockWeight < nBlockMaxWeight && nBlockSigOpsCost < MAX_BLOCK_SIGOPS_COST)
      && (accounted != {} ==> nBlockSize < nBlockMaxSize)
    }

    /** The limits are clamped so that the reserved amounts never exceed them. */
    constructor (pool: Pool, fIncludeWitness: bool, maxWeight: nat, maxSize: nat, minFee: int -> int)
      requires PoolOk(pool)
      ensures this.pool == pool && this.fIncludeWitness == fIncludeWitness && this.minFee == minFee && LimitsClamped()
      ensures nBlockMaxWeight == Clamp(4000, MAX_BLOCK_WEIGHT - 4000, maxWeight)
      ensures nBlockMaxSize == Clamp(1000, MAX_BLOCK_SERIALIZED_SIZE - 1000, maxSize)
      ensures fNeedSizeAccounting == (nBlockMaxSize < MAX_BLOCK_SERIALIZED_SIZE - 1000)
    {
      this.pool, this.fIncludeWitness, this.minFee := pool, fIncludeWitness, minFee;
      nBlockMaxWeight := Clamp(4000, MAX_BLOCK_WEIGHT - 4000, maxWeight);
      nBlockMaxSize := Clamp(1000, MAX_BLOCK_SERIALIZED_SIZE - 1000, maxSize);
      fNeedSizeAccounting := Clamp(1000, MAX_BLOCK_SERIALIZED_SIZE - 1000, maxSize) < MAX_BLOCK_SERIALIZED_SIZE - 1000;
      nBlockSize, nBlockWeight, nBlockSigOpsCost, nBlockTx, nFees := 0, 0, 0, 0, 0;
      inBlock, vtx, accounted := {}, [], {};
      lastFewTxs, blockFinished := 0, false;
    }

    function RoomLeft(): Room reads this {
      Room(nBlockMaxWeight - nBlockWeight, MAX_BLOCK_SIGOPS_COST - nBlockSigOpsCost, nBlockMaxSize - nBlockSize, fNeedSizeAccounting)
    }

    ghost predicate LimitsClamped() {
      4000 <= nBlockMaxWeight <= MAX_BLOCK_WEIGHT - 4000 && 1000 <= nBlockMaxSize <= MAX_BLOCK_SERIALIZED_SIZE - 1000
    }

    /** An empty block; the reserved amounts are for the coinbase. */
    method ResetBlock()
      requires PoolOk(pool)
      modifies this
      ensures Inv() && inBlock == {} && vtx == [] && accounted == {} && fNeedSizeAccounting == old(fNeedSizeAccounting)
      ensures nBlockSize == 1000 && nBlockWeight == 4000 && nBlockSigOpsCost == 400 && !blockFinished
    {
      nBlockSize, nBlockWeight, nBlockSigOpsCost, nBlockTx, nFees := 1000, 4000, 400, 0, 0;
      inBlock, vtx, accounted := {}, [], {};
      lastFewTxs, blockFinished := 0, false;
      TotalNone(pool, Weight, |pool|);
      TotalNone(pool, SigOps, |pool|);
      TotalNone(pool, Fee, |pool|);
      TotalNone(pool, Bytes, |pool|);
    }

    method AddToBlock(iter: nat)
      requires Inv() && iter < |pool| && iter !in inBlock && pool[iter].parents <= inBlock
      requires Admissible(pool[iter], fIncludeWitness)
      requires nBlockWeight + pool[iter].weight < nBlockMaxWeight
      requires nBlockSigOpsCost + pool[iter].sigOps < MAX_BLOCK_SIGOPS_COST
      requires fNeedSizeAccounting ==> nBlockSize + pool[iter].bytes < nBlockMaxSize
      modifies this`vtx, this`nBlockSize, this`nBlockWeight, this`nBlockTx, this`nBlockSigOpsCost, this`nFees, this`inBlock, this`accounted
      ensures Inv()
      ensures inBlock == old(inBlock) + {iter} && vtx == old(vtx) + [iter]
      ensures accounted == if fNeedSizeAccounting then old(accounted) + {iter} else old(accounted)
      ensures nBlockWeight == old(nBlockWeight) + pool[iter].weight && nBlockSigOpsCost == old(nBlockSigOpsCost) + pool[iter].sigOps
      ensures nBlockSize == old(nBlockSize) + if fNeedSizeAccounting then pool[iter].bytes else 0
    {
      ListedAppend(pool, vtx, inBlock, iter);
      TotalAdd(pool, inBlock, Weight, iter);
      TotalAdd(pool, inBlock, SigOps, iter);
      TotalAdd(pool, inBlock, Fee, iter);
      TotalAdd(pool, accounted, Bytes, iter);
      vtx := vtx + [iter];
      if fNeedSizeAccounting {
        nBlockSize := nBlockSize + pool[iter].bytes;
        accounted := accounted + {iter};
      }
      nBlockWeight := nBlockWeight + pool[iter].weight;
      nBlockTx := nBlockTx + 1;
      nBlockSigOpsCost := nBlockSigOpsCost + pool[iter].sigOps;
      nFees := nFees + pool[iter].fee;
      inBlock := inBlock + {iter};
    }

    predicate TestPackage(packageSize: int, packageSigOpsCost: int)
      reads this
    {
      nBlockWeight + WITNESS_SCALE_FACTOR * packageSize < nBlockMaxWeight
      && nBlockSigOpsCost + packageSigOpsCost < MAX_BLOCK_SIGOPS_COST
    }

    /** Finality, witnesses and, if accounted, serialized size of every member of a package. */
    method TestPackageTransactions(package: set<nat>) returns (ok: bool)
      requires forall x | x in package :: x < |pool|
      ensures ok <==>
                && AllAdmissible(pool, package, fIncludeWitness)
                && (fNeedSizeAccounting && package != {} ==> nBlockSize + Total(pool, package, Bytes) < nBlockMaxSize)
    {
      var nPotentialBlockSize := nBlockSize;
      var rest := package;
      TotalNone(pool, Bytes, |pool|);
      assert package - rest == {};
      while rest != {}
        invariant rest <= package
        invariant AllAdmissible(pool, package - rest, fIncludeWitness)
        invariant fNeedSizeAccounting ==> nPotentialBlockSize == nBlockSize + Total(pool, package - rest, Bytes)
        invariant fNeedSizeAccounting && rest != package ==> nPotentialBlockSize < nBlockMaxSize
        decreases rest
      {
        var it := AnyOf(rest);
        if !pool[it].isFinal {
          return false;
        }
        if !fIncludeWitness && pool[it].hasWitness {
          return false;
        }
        TotalAdd(pool, package - rest, Bytes, it);
        assert package - (rest - {it}) == package - rest + {it};
        TotalMono(pool, package - rest + {it}, package, Bytes);
        if fNeedSizeAccounting {
          if nPotentialBlockSize + pool[it].bytes >= nBlockMaxSize {
            return false;
          }
          nPotentialBlockSize := nPotentialBlockSize + pool[it].bytes;
        }
        rest := rest - {it};
      }
      assert package - rest == package;
      ok := true;
    }

    /** Accounts, in the totals of every descendant outside the block, for entries just included. */
    method UpdatePackagesForAdded(alreadyAdded: set<nat>, mapModifiedTx: map<nat, Modified>, ghost late0: map<nat, set<nat>>)
      returns (nDescendantsUpdated: nat, mods: map<nat, Modified>, ghost late: map<nat, set<nat>>)
      requires PoolOk(pool) && alreadyAdded <= inBlock && (forall x | x in inBlock :: x < |pool|)
      requires Closed(pool, inBlock - alreadyAdded) && late0.Keys == mapModifiedTx.Keys
      requires AllCover(pool, mapModifiedTx, inBlock - alreadyAdded) && mapModifiedTx.Keys !! inBlock
      ensures AllCover(pool, mods, inBlock) && mods.Keys !! inBlock && late.Keys == mods.Keys
      // Whoever still misses an ancestor that is now in the block is tracked.
      ensures mapModifiedTx.Keys <= mods.Keys
      ensures FeesStayExact(pool, mapModifiedTx, late0, inBlock - alreadyAdded, mods, late, inBlock, inBlock)
      ensures forall it, d | it in alreadyAdded && d in Descendants(pool, it) && d !in alreadyAdded :: d in mods
    {
      mods, late := mapModifiedTx, late0;
      nDescendantsUpdated := 0;
      var rest := alreadyAdded;
      ghost var before := inBlock - alreadyAdded;
      assert before + (alreadyAdded - rest) == before;
      while rest != {}
        invariant rest <= alreadyAdded && late.Keys == mods.Keys
        invariant AllCover(pool, mods, before + (alreadyAdded - rest)) && mods.Keys !! inBlock
        invariant mapModifiedTx.Keys <= mods.Keys
        invariant FeesStayExact(pool, mapModifiedTx, late0, before, mods, late, before + (alreadyAdded - rest), inBlock)
        invariant forall it, d | it in alreadyAdded - rest && d in Descendants(pool, it) && d !in alreadyAdded :: d in mods
        decreases rest
      {
        var it := AnyOf(rest);
        var n: nat;
        ghost var included := before + (alreadyAdded - rest);
        ghost var mods1, late1 := mods, late;
        n, mods, late := UpdateDescendants(it, alreadyAdded, mods, late, before, included);
        FeesStayTwice(pool, mapModifiedTx, late0, before, mods1, late1, included, mods, late, included + {it}, inBlock);
        nDescendantsUpdated := nDescendantsUpdated + n;
        assert included + {it} == before + (alreadyAdded - (rest - {it}));
        rest := rest - {it};
      }
      assert before + (alreadyAdded - rest) == inBlock;
    }

    /** The totals of one descendant, if it is outside the block. */
    method UpdateDescendant(it: nat, desc: nat, mapModifiedTx: map<nat, Modified>, ghost late0: map<nat, set<nat>>, ghost included: set<nat>)
      returns (mods: map<nat, Modified>, ghost late: map<nat, set<nat>>)
      requires PoolOk(pool) && it < |pool| && desc in Descendants(pool, it) && desc != it && it !in included
      requires late0.Keys == mapModifiedTx.Keys && (desc in mapModifiedTx ==> Covers(pool, mapModifiedTx[desc], desc, included))
      ensures desc in mods && Covers(pool, mods[desc], desc, included + {it}) && Reduced(pool, mapModifiedTx, late0, mods, late, desc, it)
      ensures mods.Keys == late.Keys == mapModifiedTx.Keys + {desc}
      ensures forall t {:trigger Untouched(mapModifiedTx, late0, mods, late, t)} | t != desc :: Untouched(mapModifiedTx, late0, mods, late, t)
    {
      if desc !in mapModifiedTx {
        CachedCovers(pool, desc, included);
        WithoutCovers(pool, Cached(pool, desc), desc, included, it, pool[it].modFee);
        mods := mapModifiedTx[desc := Without(Cached(pool, desc), pool[it], pool[it].modFee)];
        late := late0[desc := {}];
      } else {
        WithoutCovers(pool, mapModifiedTx[desc], desc, included, it, pool[it].fee);
        mods := mapModifiedTx[desc := Without(mapModifiedTx[desc], pool[it], pool[it].fee)];
        late := late0[desc := late0[desc] + {it}];
      }
    }

    /** The inner loop: the descendants of one included entry. */
    method UpdateDescendants(it: nat, alreadyAdded: set<nat>, mapModifiedTx: map<nat, Modified>, ghost late0: map<nat, set<nat>>,
                             ghost before: set<nat>, ghost included: set<nat>)
      returns (n: nat, mods: map<nat, Modified>, ghost late: map<nat, set<nat>>)
      requires PoolOk(pool) && it < |pool| && it in alreadyAdded && alreadyAdded <= inBlock && inBlock == before + alreadyAdded
      requires it !in before && Closed(pool, before) && before <= included && it !in included && late0.Keys == mapModifiedTx.Keys
      requires AllCover(pool, mapModifiedTx, included) && mapModifiedTx.Keys !! inBlock
      ensures AllCover(pool, mods, included + {it}) && mods.Keys !! inBlock && late.Keys == mods.Keys
      ensures mapModifiedTx.Keys <= mods.Keys
      ensures FeesStayExact(pool, mapModifiedTx, late0, included, mods, late, included + {it}, inBlock)
      ensures forall d | d in Descendants(pool, it) && d !in alreadyAdded :: d in mods
    {
      mods, late, n := mapModifiedTx, late0, 0;
      var descendants := Descendants(pool, it);
      var rest := descendants;
      UpdatingStarts(mapModifiedTx, late0, it, included, descendants - rest, alreadyAdded);
      while rest != {}
        invariant rest <= descendants && Updating(mapModifiedTx, late0, mods, late, it, included, descendants - rest, alreadyAdded)
        invariant mods.Keys !! inBlock
        decreases rest
      {
        var desc := AnyOf(rest);
        if desc !in alreadyAdded {
          n := n + 1;
          NotBefore(it, desc, before);
          ghost var mods1, late1 := mods, late;
          assert Untouched(mapModifiedTx, late0, mods, late, desc);
          mods, late := UpdateDescendant(it, desc, mods, late, included);
          StillUpdating(mapModifiedTx, late0, mods1, late1, mods, late, it, included, descendants - rest, alreadyAdded, desc);
        } else {
          UpdatingSkips(mapModifiedTx, late0, mods, late, it, included, descendants - rest, alreadyAdded, desc);
        }
        assert descendants - (rest - {desc}) == descendants - rest + {desc};
        rest := rest - {desc};
      }
      assert descendants - rest == descendants;
      Updated(mapModifiedTx, late0, mods, late, it, included, alreadyAdded);
    }

    /** An entry has been dealt with, or not. */
    ghost predicate Handled(mods0: map<nat, Modified>, late0: map<nat, set<nat>>, mods: map<nat, Modified>, late: map<nat, set<nat>>,
                            it: nat, included: set<nat>, t: nat, done: bool) {
      if done then Reduced(pool, mods0, late0, mods, late, t, it) && Covers(pool, mods[t], t, included + {it})
      else Untouched(mods0, late0, mods, late, t)
    }

    /** Some of the descendants of an entry have been dealt with, except those that are just added too. */
    ghost predicate Updating(mods0: map<nat, Modified>, late0: map<nat, set<nat>>, mods: map<nat, Modified>, late: map<nat, set<nat>>,
                             it: nat, included: set<nat>, done: set<nat>, alreadyAdded: set<nat>) {
      && mods0.Keys <= mods.Keys && late.Keys == mods.Keys
      && (forall t: nat {:trigger Untouched(mods0, late0, mods, late, t)} {:trigger Reduced(pool, mods0, late0, mods, late, t, it)} ::
            Handled(mods0, late0, mods, late, it, included, t, t in done && t !in alreadyAdded))
    }

    lemma UpdatingStarts(mods: map<nat, Modified>, late: map<nat, set<nat>>, it: nat, included: set<nat>, done: set<nat>, alreadyAdded: set<nat>)
      requires late.Keys == mods.Keys && done == {}
      ensures Updating(mods, late, mods, late, it, included, done, alreadyAdded)
    {
      forall t: nat
        ensures Handled(mods, late, mods, late, it, included, t, false)
      {
      }
    }

    lemma UpdatingSkips(mods0: map<nat, Modified>, late0: map<nat, set<nat>>, mods: map<nat, Modified>, late: map<nat, set<nat>>,
                        it: nat, included: set<nat>, done: set<nat>, alreadyAdded: set<nat>, desc: nat)
      requires Updating(mods0, late0, mods, late, it, included, done, alreadyAdded) && desc in alreadyAdded
      ensures Updating(mods0, late0, mods, late, it, included, done + {desc}, alreadyAdded)
    {
      forall t: nat
        ensures Handled(mods0, late0, mods, late, it, included, t, t in done + {desc} && t !in alreadyAdded)
      {
        assert Untouched(mods0, late0, mods, late, t) || Reduced(pool, mods0, late0, mods, late, t, it);
        assert (t in done + {desc} && t !in alreadyAdded) == (t in done && t !in alreadyAdded);
      }
    }

    lemma StillHandled(mods0: map<nat, Modified>, late0: map<nat, set<nat>>, mods1: map<nat, Modified>, late1: map<nat, set<nat>>,
                       mods: map<nat, Modified>, late: map<nat, set<nat>>, it: nat, included: set<nat>, t: nat, done: bool)
      requires Handled(mods0, late0, mods1, late1, it, included, t, done) && Untouched(mods1, late1, mods, late, t)
      ensures Handled(mods0, late0, mods, late, it, included, t, done)
    {
    }

    lemma StillUpdating(mods0: map<nat, Modified>, late0: map<nat, set<nat>>, mods1: map<nat, Modified>, late1: map<nat, set<nat>>,
                        mods: map<nat, Modified>, late: map<nat, set<nat>>, it: nat, included: set<nat>, done: set<nat>, alreadyAdded: set<nat>, desc: nat)
      requires Updating(mods0, late0, mods1, late1, it, included, done, alreadyAdded) && desc !in done && desc !in alreadyAdded
      requires Reduced(pool, mods1, late1, mods, late, desc, it) && Covers(pool, mods[desc], desc, included + {it})
      requires mods.Keys == late.Keys == mods1.Keys + {desc}
      requires forall t {:trigger Untouched(mods1, late1, mods, late, t)} | t != desc :: Untouched(mods1, late1, mods, late, t)
      ensures Updating(mods0, late0, mods, late, it, included, done + {desc}, alreadyAdded)
    {
      assert Untouched(mods0, late0, mods1, late1, desc);
      forall t: nat
        ensures Handled(mods0, late0, mods, late, it, included, t, t in done + {desc} && t !in alreadyAdded)
      {
        if t != desc {
          assert Untouched(mods0, late0, mods1, late1, t) || Reduced(pool, mods0, late0, mods1, late1, t, it);
          assert Untouched(mods1, late1, mods, late, t);
          StillHandled(mods0, late0, mods1, late1, mods, late, it, included, t, t in done && t !in alreadyAdded);
        }
      }
    }

    lemma Updated(mods0: map<nat, Modified>, late0: map<nat, set<nat>>, mods: map<nat, Modified>, late: map<nat, set<nat>>,
                  it: nat, included: set<nat>, alreadyAdded: set<nat>)
      requires PoolOk(pool) && it < |pool| && it !in included && it in alreadyAdded && alreadyAdded <= inBlock && AllCover(pool, mods0, included)
      requires Updating(mods0, late0, mods, late, it, included, Descendants(pool, it), alreadyAdded) && mods.Keys !! inBlock
      ensures AllCover(pool, mods, included + {it})
      ensures FeesStayExact(pool, mods0, late0, included, mods, late, included + {it}, inBlock)
      ensures forall d | d in Descendants(pool, it) && d !in alreadyAdded :: d in mods
    {
      forall t: nat
        ensures t in mods ==> t < |pool| && Covers(pool, mods[t], t, included + {it})
        ensures t in Descendants(pool, it) && t !in alreadyAdded ==> Reduced(pool, mods0, late0, mods, late, t, it)
        ensures t !in Descendants(pool, it) ==> Untouched(mods0, late0, mods, late, t)
      {
        assert Untouched(mods0, late0, mods, late, t) || Reduced(pool, mods0, late0, mods, late, t, it);
        if t in mods && t !in Descendants(pool, it) {
          UnrelatedCovers(pool, mods[t], t, included, it);
        }
      }
      ReducedExact(pool, mods0, late0, mods, late, it, included, inBlock);
    }

    /** A descendant of something outside a closed set is outside it too. */
    lemma NotBefore(it: nat, desc: nat, before: set<nat>)
      requires Closed(pool, before) && it < |pool| && it !in before && desc in Descendants(pool, it)
      ensures desc !in before
    {
      if desc in before && desc != it {
        ClosedAncestors(pool, before, desc);
      }
    }

    /** The package in an order that is valid in a block. */
    method SortForBlock(package: set<nat>) returns (sortedEntries: seq<nat>)
      requires forall x | x in package :: x < |pool|
      ensures SortedPackage(pool, package, sortedEntries)
    {
      sortedEntries := [];
      var rest := package;
      while rest != {}
        invariant rest <= package
        invariant Distinct(sortedEntries) && (forall x :: x in sortedEntries <==> x in package - rest)
        invariant SortedByCount(pool, sortedEntries)
        decreases rest
      {
        var it := AnyOf(rest);
        var k := 0;
        while k < |sortedEntries| && AncestorCount(pool, sortedEntries[k]) <= AncestorCount(pool, it)
          invariant 0 <= k <= |sortedEntries|
          invariant forall i | 0 <= i < k :: AncestorCount(pool, sortedEntries[i]) <= AncestorCount(pool, it)
        {
          k := k + 1;
        }
        InsertSorted(sortedEntries, k, it);
        sortedEntries := sortedEntries[..k] + [it] + sortedEntries[k..];
        rest := rest - {it};
      }
    }

    lemma InsertSorted(s: seq<nat>, k: nat, it: nat)
      requires Distinct(s) && SortedByCount(pool, s) && it < |pool| && it !in s && k <= |s|
      requires forall i | 0 <= i < k :: AncestorCount(pool, s[i]) <= AncestorCount(pool, it)
      requires k < |s| ==> AncestorCount(pool, it) <= AncestorCount(pool, s[k])
      ensures var s' := s[..k] + [it] + s[k..];
              Distinct(s') && SortedByCount(pool, s') && forall x :: x in s' <==> x in s || x == it
    {
      var s' := s[..k] + [it] + s[k..];
      assert s == s[..k] + s[k..];
      forall i | 0 <= i < |s'| ensures s'[i] < |pool| {
      }
      forall i, j | 0 <= i < j < |s'| ensures s'[i] != s'[j] && AncestorCount(pool, s'[i]) <= AncestorCount(pool, s'[j]) {
        InsertPair(s, k, it, i, j);
      }
    }

    lemma InsertPair(s: seq<nat>, k: nat, it: nat, i: nat, j: nat)
      requires Distinct(s) && SortedByCount(pool, s) && it < |pool| && it !in s && k <= |s|
      requires forall i | 0 <= i < k :: AncestorCount(pool, s[i]) <= AncestorCount(pool, it)
      requires k < |s| ==> AncestorCount(pool, it) <= AncestorCount(pool, s[k])
      requires i < j <= |s|
      ensures var s' := s[..k] + [it] + s[k..];
              && s'[i] < |pool| && s'[j] < |pool| && s'[i] != s'[j]
              && AncestorCount(pool, s'[i]) <= AncestorCount(pool, s'[j])
    {
      var s' := s[..k] + [it] + s[k..];
      var a, b := if i < k then i else i - 1, if j < k then j else j - 1;
      assert i != k ==> s'[i] == s[a] && s[a] in s;
      assert j != k ==> s'[j] == s[b] && s[b] in s;
      assert k < b < |s| ==> AncestorCount(pool, s[k]) <= AncestorCount(pool, s[b]);
    }

    /** Everything together stays below the limits. */
    ghost predicate Fits(all: set<nat>) reads this {
      && 4000 + Total(pool, all, Weight) < nBlockMaxWeight
      && 400 + Total(pool, all, SigOps) < MAX_BLOCK_SIGOPS_COST
      && (fNeedSizeAccounting ==> 1000 + Total(pool, all - (inBlock - accounted), Bytes) < nBlockMaxSize)
    }

    /** A package that passes both tests fits: the cached totals never understate it. */
    lemma PackageFits(package: set<nat>, iter: nat, m: Modified)
      requires Inv() && iter < |pool| && package == Family(pool, iter) - inBlock
      requires Covers(pool, m, iter, inBlock) && TestPackage(m.size, m.sigOps)
      requires fNeedSizeAccounting ==> nBlockSize + Total(pool, package, Bytes) < nBlockMaxSize
      ensures Fits(inBlock + package)
    {
      WeightToSize(pool, package, |pool|);
      TotalUnion(pool, inBlock, package, Weight);
      TotalUnion(pool, inBlock, package, SigOps);
      TotalUnion(pool, accounted, package, Bytes);
      assert inBlock + package - (inBlock - accounted) == accounted + package;
    }

    /** Where the loop over a sorted package stands: exactly the first i members are in. */
    ghost predicate Progress(start: set<nat>, startAccounted: set<nat>, package: set<nat>, sorted: seq<nat>, i: nat)
      requires i <= |sorted|
      reads this
    {
      && Inv() && Fits(start + package) && AllAdmissible(pool, package, fIncludeWitness)
      && inBlock == start + Elements(sorted[..i])
      && accounted == if fNeedSizeAccounting then startAccounted + Elements(sorted[..i]) else startAccounted
    }

    /** Adds the next member of a sorted package. */
    method AddMember(x: nat, ghost start: set<nat>, ghost startAccounted: set<nat>, ghost package: set<nat>, ghost sorted: seq<nat>, ghost i: nat)
      requires Complete(pool, package, start) && package !! start && SortedPackage(pool, package, sorted)
      requires i < |sorted| && sorted[i] == x && Progress(start, startAccounted, package, sorted, i)
      modifies this`vtx, this`nBlockSize, this`nBlockWeight, this`nBlockTx, this`nBlockSigOpsCost, this`nFees, this`inBlock, this`accounted
      ensures Progress(start, startAccounted, package, sorted, i + 1) && vtx == old(vtx) + [x]
    {
      SortedIsTopological(pool, package, start, sorted, i);
      NextElement(sorted, i);
      assert x in sorted;
      ghost var skipped := inBlock - accounted;
      OneFits(start + package, x);
      AddToBlock(x);
      assert fNeedSizeAccounting ==> inBlock - accounted == skipped;
    }

    /** Adds a package that fits, parents first, and stops tracking its members. */
    method AddPackage(package: set<nat>, mapModifiedTx: map<nat, Modified>) returns (mods: map<nat, Modified>)
      requires Inv() && Complete(pool, package, inBlock) && package !! inBlock && Fits(inBlock + package)
      requires AllAdmissible(pool, package, fIncludeWitness)
      modifies this`vtx, this`nBlockSize, this`nBlockWeight, this`nBlockTx, this`nBlockSigOpsCost, this`nFees, this`inBlock, this`accounted
      ensures Inv() && inBlock == old(inBlock) + package && old(vtx) <= vtx
      ensures accounted == if fNeedSizeAccounting then old(accounted) + package else old(accounted)
      ensures mods.Keys == mapModifiedTx.Keys - package && Within(mods, mapModifiedTx)
    {
      var sortedEntries := SortForBlock(package);
      mods := mapModifiedTx;
      assert sortedEntries[..0] == [] && Elements([]) == {};
      for i := 0 to |sortedEntries|
        invariant Progress(old(inBlock), old(accounted), package, sortedEntries, i) && old(vtx) <= vtx
        invariant mods.Keys == mapModifiedTx.Keys - Elements(sortedEntries[..i]) && Within(mods, mapModifiedTx)
      {
        NextElement(sortedEntries, i);
        AddMember(sortedEntries[i], old(inBlock), old(accounted), package, sortedEntries, i);
        mods := mods - {sortedEntries[i]};
      }
      assert sortedEntries[..|sortedEntries|] == sortedEntries;
      assert Elements(sortedEntries) == package;
    }

    /** Any next member of a set that fits as a whole fits. */
    lemma OneFits(all: set<nat>, x: nat)
      requires Inv() && x < |pool| && x !in inBlock && x in all && inBlock <= all
      requires 4000 + Total(pool, all, Weight) < nBlockMaxWeight
      requires 400 + Total(pool, all, SigOps) < MAX_BLOCK_SIGOPS_COST
      requires fNeedSizeAccounting ==> 1000 + Total(pool, all - (inBlock - accounted), Bytes) < nBlockMaxSize
      ensures nBlockWeight + pool[x].weight < nBlockMaxWeight
      ensures nBlockSigOpsCost + pool[x].sigOps < MAX_BLOCK_SIGOPS_COST
      ensures fNeedSizeAccounting ==> nBlockSize + pool[x].bytes < nBlockMaxSize
    {
      TotalAdd(pool, inBlock, Weight, x);
      TotalAdd(pool, inBlock, SigOps, x);
      TotalAdd(pool, accounted, Bytes, x);
      TotalMono(pool, inBlock + {x}, all, Weight);
      TotalMono(pool, inBlock + {x}, all, SigOps);
      TotalMono(pool, accounted + {x}, all - (inBlock - accounted), Bytes);
    }

    /** The tests on one candidate package, in order. */
    method Consider(iter: nat, m: Modified) returns (outcome: Outcome)
      requires iter < |pool| && iter !in inBlock && Covers(pool, m, iter, inBlock)
      ensures outcome.TooCheap? <==> m.fees < minFee(m.size)
      ensures outcome.Included? ==> Passes(iter, m)
      ensures outcome.TooBig? || outcome.Unfit? ==> Rejected(pool, RoomLeft(), fIncludeWitness, iter)
    {
      if m.fees < minFee(m.size) {
        return TooCheap;
      }
      if !TestPackage(m.size, m.sigOps) {
        return TooBig;
      }
      var ancestors := Family(pool, iter) - inBlock;
      assert iter in ancestors;
      var ok := TestPackageTransactions(ancestors);
      TotalMono(pool, ancestors, Family(pool, iter), Bytes);
      outcome := if ok then Included else Unfit;
    }

    /** Tracked entries are outside the block, and their totals do not understate what they still need. */
    ghost predicate Tracks(mods: map<nat, Modified>) reads this {
      AllCover(pool, mods, inBlock) && mods.Keys !! inBlock
    }

    /** What every round of the selection keeps, relative to the block it started from. */
    ghost predicate Filling(mods: map<nat, Modified>, start: Start) reads this {
      && Inv() && Tracks(mods) && start.vtx <= vtx && start.block <= inBlock
      && (fNeedSizeAccounting && start.accounted == start.block ==> accounted == inBlock)
    }

    /** Cached fees are those of what is missing and of what was in the block when the entry was last turned away, and what
        was taken off late differs by. */
    ghost predicate Priced(mods: map<nat, Modified>, past: Past) reads this {
      AllPriced(pool, mods, past, inBlock) && past.late.Keys == mods.Keys
    }

    ghost predicate Turned(past: Past) reads this {
      AllRejected(pool, RoomLeft(), fIncludeWitness, past.turned.Keys) && forall t | t in past.turned :: Earlier(vtx, past.turned[t])
    }

    /** Entries that are tracked, in the block, or past. */
    ghost function Known(mods: map<nat, Modified>, past: Past): set<nat> reads this {
      mods.Keys + inBlock + past.turned.Keys
    }

    /** Adds a package that passed the tests and updates what depends on it. */
    method IncludePackage(iter: nat, ghost m: Modified, mapModifiedTx: map<nat, Modified>, ghost past: Past, ghost start: Start)
      returns (n: nat, mods: map<nat, Modified>, ghost past': Past)
      requires Filling(mapModifiedTx, start) && Turned(past) && Priced(mapModifiedTx, past) && iter < |pool| && iter !in inBlock
      requires Covers(pool, m, iter, inBlock) && Passes(iter, m)
      modifies this`vtx, this`nBlockSize, this`nBlockWeight, this`nBlockTx, this`nBlockSigOpsCost, this`nFees, this`inBlock, this`accounted
      ensures Filling(mods, start) && Turned(past') && Priced(mods, past') && past'.turned == past.turned
      ensures inBlock == old(inBlock) + Family(pool, iter) && Ids(pool) - inBlock < Ids(pool) - old(inBlock)
      ensures old(Known(mapModifiedTx, past)) <= Known(mods, past')
      ensures forall d | d in Descendants(pool, iter) && d !in inBlock :: d in mods
    {
      var ancestors := Family(pool, iter) - inBlock;
      ghost var room := RoomLeft();
      assert iter in ancestors;
      PackageFits(ancestors, iter, m);
      ListedClosed(pool, vtx, inBlock);
      FamilyComplete(pool, iter, inBlock);
      mods := AddPackage(ancestors, mapModifiedTx);
      ListedClosed(pool, vtx, inBlock);
      assert inBlock - ancestors == old(inBlock);
      ghost var mods1 := mods;
      ghost var late;
      n, mods, late := UpdatePackagesForAdded(ancestors, mods, past.late - ancestors);
      PricedAfter(pool, mapModifiedTx, mods1, mods, past, late, old(inBlock), inBlock, ancestors);
      past' := past.(late := late);
      assert iter in Ids(pool);
      TotalMono(pool, old(inBlock), inBlock, Weight);
      TotalMono(pool, old(inBlock), inBlock, SigOps);
      TotalMono(pool, old(accounted), accounted, Bytes);
      StaysRejected(pool, room, RoomLeft(), fIncludeWitness, past.turned.Keys);
      forall t | t in past.turned
        ensures Earlier(vtx, past.turned[t])
      {
        EarlierStays(old(vtx), vtx, past.turned[t]);
      }
    }

    /** The totals of a candidate. */
    method TotalsOf(iter: nat, fUsingModified: bool, mapModifiedTx: map<nat, Modified>, ghost past: Past) returns (m: Modified)
      requires Tracks(mapModifiedTx) && Turned(past) && Priced(mapModifiedTx, past)
      requires iter < |pool| && iter !in inBlock && (fUsingModified <==> iter in mapModifiedTx)
      ensures Covers(pool, m, iter, inBlock) && FeesOf(m, iter, past)
    {
      CachedCovers(pool, iter, inBlock);
      m := if fUsingModified then mapModifiedTx[iter] else Cached(pool, iter);
      PricedFees(mapModifiedTx, past, m, iter);
    }

    /** The totals of a candidate, and the tests on it. */
    method Judge(iter: nat, fUsingModified: bool, mapModifiedTx: map<nat, Modified>, ghost past: Past, ghost start: Start)
      returns (outcome: Outcome, m: Modified)
      requires Filling(mapModifiedTx, start) && Turned(past) && Priced(mapModifiedTx, past)
      requires iter < |pool| && iter !in inBlock && (fUsingModified <==> iter in mapModifiedTx)
      ensures Covers(pool, m, iter, inBlock)
      ensures outcome.TooCheap? ==> FeesOf(m, iter, past) && m.fees < minFee(m.size)
      ensures outcome.Included? ==> Passes(iter, m)
      ensures outcome.TooBig? || outcome.Unfit? ==> Rejected(pool, RoomLeft(), fIncludeWitness, iter)
    {
      m := TotalsOf(iter, fUsingModified, mapModifiedTx, past);
      outcome := Consider(iter, m);
    }

    /** What a package that is included has passed. */
    ghost predicate Passes(iter: nat, m: Modified)
      requires iter < |pool|
      reads this
    {
      && TestPackage(m.size, m.sigOps) && AllAdmissible(pool, Family(pool, iter) - inBlock, fIncludeWitness)
      && (fNeedSizeAccounting ==> nBlockSize + Total(pool, Family(pool, iter) - inBlock, Bytes) < nBlockMaxSize)
    }

    /** Tries one candidate, from the pool's order or from the tracked entries. */
    method TryPackage(iter: nat, fUsingModified: bool, mapModifiedTx: map<nat, Modified>, ghost past: Past, ghost start: Start)
      returns (outcome: Outcome, m: Modified, n: nat, mods: map<nat, Modified>, ghost turned: Past)
      requires Filling(mapModifiedTx, start) && Turned(past) && Priced(mapModifiedTx, past)
      requires iter < |pool| && iter !in inBlock && (fUsingModified <==> iter in mapModifiedTx)
      modifies this`vtx, this`nBlockSize, this`nBlockWeight, this`nBlockTx, this`nBlockSigOpsCost, this`nFees, this`inBlock, this`accounted
      ensures Filling(mods, start) && Turned(turned) && Priced(mods, turned)
      ensures outcome.TooCheap? ==> inBlock == old(inBlock) && Covers(pool, m, iter, inBlock) && m.fees < minFee(m.size)
      ensures outcome.TooCheap? ==> turned == past && FeesOf(m, iter, past)
      ensures old(Known(mapModifiedTx, past)) <= Known(mods, turned)
      ensures outcome.Included? ==> inBlock == old(inBlock) + Family(pool, iter)
      ensures outcome.Included? ==> forall d | d in Descendants(pool, iter) && d !in inBlock :: d in mods
      ensures outcome.TooBig? || outcome.Unfit? ==> turned == TurnedAt(past, iter, inBlock)
      ensures outcome.Included? || outcome.TooCheap? ==> turned.turned == past.turned
      ensures !outcome.Included? ==> RoomLeft() == old(RoomLeft())
      ensures outcome.TooBig? || outcome.Unfit? ==> Rejected(pool, RoomLeft(), fIncludeWitness, iter)
      ensures if outcome.Included? then Ids(pool) - inBlock < Ids(pool) - old(inBlock)
              else inBlock == old(inBlock) && (outcome.TooCheap? || |mods| == |mapModifiedTx| - if fUsingModified then 1 else 0)
    {
      mods, n, turned := mapModifiedTx, 0, past;
      outcome, m := Judge(iter, fUsingModified, mapModifiedTx, past, start);
      if outcome.Included? {
        n, mods, turned := IncludePackage(iter, m, mods, past, start);
      } else if !outcome.TooCheap? {
        mods, turned := TurnAway(iter, fUsingModified, mods, past, start);
      }
    }

    method TurnAway(iter: nat, fUsingModified: bool, mapModifiedTx: map<nat, Modified>, ghost past: Past, ghost start: Start)
      returns (mods: map<nat, Modified>, ghost turned: Past)
      requires Filling(mapModifiedTx, start) && Turned(past) && Priced(mapModifiedTx, past) && iter < |pool|
      requires Rejected(pool, RoomLeft(), fIncludeWitness, iter) && (fUsingModified <==> iter in mapModifiedTx)
      ensures Filling(mods, start) && Turned(turned) && Priced(mods, turned) && turned == TurnedAt(past, iter, inBlock)
      ensures Known(mapModifiedTx, past) <= Known(mods, turned) && |mods| == |mapModifiedTx| - if fUsingModified then 1 else 0
    {
      mods := mapModifiedTx;
      if fUsingModified {
        mods := mods - {iter};
      } else {
        assert mods - {iter} == mods;
      }
      turned := TurnedAt(past, iter, inBlock);
      TurnedAway(mapModifiedTx, mods, past, iter, start);
    }

    /** An entry that is turned away is not tracked any more. */
    lemma TurnedAway(mods: map<nat, Modified>, mods': map<nat, Modified>, past: Past, iter: nat, start: Start)
      requires Filling(mods, start) && Turned(past) && Priced(mods, past) && iter < |pool|
      requires Rejected(pool, RoomLeft(), fIncludeWitness, iter) && mods' == mods - {iter}
      ensures Filling(mods', start) && Turned(TurnedAt(past, iter, inBlock)) && Priced(mods', TurnedAt(past, iter, inBlock))
      ensures Known(mods, past) <= Known(mods', TurnedAt(past, iter, inBlock)) && |mods'| == |mods| - if iter in mods then 1 else 0
    {
      OneFewer(mods, iter);
      AlsoRejected(past, iter);
      PricedBut(pool, mods, mods', past, iter, inBlock);
    }

    lemma AlsoRejected(past: Past, iter: nat)
      requires Turned(past) && Rejected(pool, RoomLeft(), fIncludeWitness, iter) && inBlock == Elements(vtx)
      ensures Turned(TurnedAt(past, iter, inBlock))
    {
      OneRejected(pool, RoomLeft(), fIncludeWitness, past.turned.Keys, iter);
      assert TurnedAt(past, iter, inBlock).turned.Keys == past.turned.Keys + {iter};
      assert vtx[..|vtx|] == vtx;
    }

    /** The fees of a candidate are those of its missing family, and of what was in the block when it was last turned
        away, and the deltas of all but one of the others in the block; so they are right if and only if these cancel out. */
    ghost predicate FeesOf(m: Modified, iter: nat, past: Past)
      requires iter < |pool|
      reads this
    {
      && m.fees == Total(pool, Family(pool, iter) - inBlock, ModFee) + Total(pool, Stale(pool, past, iter), ModFee)
                   + Deltas(pool, Late(past, iter))
      && Late(past, iter) <= Family(pool, iter) * inBlock - Stale(pool, past, iter)
      && (iter in past.late ==> AllButOne(pool, iter, inBlock - Stale(pool, past, iter), Late(past, iter)))
      && (iter in past.turned ==> Earlier(vtx, past.turned[iter]) && Rejected(pool, RoomLeft(), fIncludeWitness, iter))
    }

    lemma PricedFees(mods: map<nat, Modified>, past: Past, m: Modified, iter: nat)
      requires Priced(mods, past) && Turned(past) && iter < |pool| && iter !in inBlock
      requires m == if iter in mods then mods[iter] else Cached(pool, iter)
      ensures FeesOf(m, iter, past)
    {
      var stale, family := Stale(pool, past, iter), Family(pool, iter);
      assert FeesExact(pool, mods, past.late, iter, inBlock, stale);
      assert iter !in mods ==> family - (inBlock - stale) == family;
      assert family - (inBlock - stale) == family - inBlock + stale;
      TotalUnion(pool, family - inBlock, stale, ModFee);
      TotalNone(pool, ModFee, |pool|);
      TotalNone(pool, Fee, |pool|);
    }

    /** Where the selection stands. */
    ghost predicate Selecting(order: seq<nat>, mi: nat, mods: map<nat, Modified>, failedTx: set<nat>, past: Past, start: Start)
      reads this
    {
      Filling(mods, start) && Turned(past) && Priced(mods, past) && Scanned(order, mi, failedTx, past.turned.Keys, Known(mods, past))
    }

    /** One round on one candidate; a tracked entry that fails is remembered. */
    method Round(iter: nat, fUsingModified: bool, mapModifiedTx: map<nat, Modified>, failedTx: set<nat>,
                 ghost order: seq<nat>, ghost mi: nat, ghost past: Past, ghost start: Start)
      returns (outcome: Outcome, m: Modified, n: nat, mods: map<nat, Modified>, failed: set<nat>, ghost turned: Past)
      requires Selecting(order, mi, mapModifiedTx, failedTx, past, start)
      requires iter < |pool| && iter !in inBlock
      requires if fUsingModified then iter in mapModifiedTx else mi < |order| && order[mi] == iter && iter !in mapModifiedTx
      modifies this`vtx, this`nBlockSize, this`nBlockWeight, this`nBlockTx, this`nBlockSigOpsCost, this`nFees, this`inBlock, this`accounted
      ensures outcome.TooCheap? ==>
                && Filling(mods, start) && inBlock == old(inBlock)
                && Covers(pool, m, iter, inBlock) && m.fees < minFee(m.size) && FeesOf(m, iter, turned)
      ensures !outcome.TooCheap? ==> Selecting(order, if fUsingModified then mi else mi + 1, mods, failed, turned, start)
      ensures if outcome.Included? then Ids(pool) - inBlock < Ids(pool) - old(inBlock)
              else inBlock == old(inBlock) && (outcome.TooCheap? || |mods| == |mapModifiedTx| - if fUsingModified then 1 else 0)
    {
      ghost var known := Known(mapModifiedTx, past);
      failed := failedTx;
      outcome, m, n, mods, turned := TryPackage(iter, fUsingModified, mapModifiedTx, past, start);
      if !outcome.TooCheap? {
        if !outcome.Included? && fUsingModified {
          failed := failedTx + {iter};
        }
        ScanTries(order, mi, if fUsingModified then mi else mi + 1, failedTx, failed, past.turned.Keys, turned.turned.Keys, known, Known(mods, turned), iter);
      }
    }

    /** The entries that depend on what is already in the block are tracked first. */
    method TrackPresent() returns (n: nat, mods: map<nat, Modified>, ghost past: Past)
      requires Inv()
      ensures Filling(mods, Start(vtx, inBlock, accounted)) && Priced(mods, past) && past.turned == map[]
    {
      ListedClosed(pool, vtx, inBlock);
      assert inBlock - inBlock == {};
      ghost var late;
      n, mods, late := UpdatePackagesForAdded(inBlock, map[], map[]);
      PricedFirst(pool, mods, late, inBlock);
      past := Past(map[], late);
    }

    /** The next candidate: the next in order or a tracked one, whichever has the better score. */
    method Choose(order: seq<nat>, mi: nat, mods: map<nat, Modified>) returns (iter: nat, fUsingModified: bool, next: nat)
      requires mi <= |order| && (mi < |order| || mods != map[])
      ensures if fUsingModified then iter in mods else mi < |order| && iter == order[mi]
      ensures next == if fUsingModified then mi else mi + 1
    {
      var preferModified: bool := *;
      fUsingModified := mi == |order| || (mods != map[] && preferModified);
      next := mi;
      if fUsingModified {
        iter := AnyOf(mods.Keys);
      } else {
        iter := order[mi];
        next := mi + 1;
      }
    }

    lemma NothingMissed(order: seq<nat>, failedTx: set<nat>, past: Past, start: Start)
      requires Selecting(order, |order|, map[], failedTx, past, start)
      ensures forall t | t in order :: t in inBlock || Rejected(pool, RoomLeft(), fIncludeWitness, t)
    {
      forall t | t in order ensures t in inBlock || Rejected(pool, RoomLeft(), fIncludeWitness, t) {
        assert t in Known(map[], past);
      }
    }

    /**
     Fills the block by packages: an entry with all its ancestors that are still missing.
     The order in which entries are looked at is arbitrary; the loop always ends.  If it is not cut
     short, whatever was left out either has no room with all its ancestors or may not be in this block.
     */
    method AddPackageTxs(order: seq<nat>) returns (nPackagesSelected: nat, nDescendantsUpdated: nat, end: End, ghost past: Past)
      requires Inv() && forall i | 0 <= i < |order| :: order[i] < |pool|
      modifies this`vtx, this`nBlockSize, this`nBlockWeight, this`nBlockTx, this`nBlockSigOpsCost, this`nFees, this`inBlock, this`accounted
      ensures Inv() && old(vtx) <= vtx && old(inBlock) <= inBlock 
      ensures fNeedSizeAccounting && old(accounted) == old(inBlock) ==> accounted == inBlock
      ensures end.Exhausted? ==> forall t | t in order :: t in inBlock || Rejected(pool, RoomLeft(), fIncludeWitness, t)
      ensures end.FeeTooLow? ==>
                end.iter < |pool| && end.iter !in inBlock && Covers(pool, end.m, end.iter, inBlock) && end.m.fees < minFee(end.m.size)
      ensures end.FeeTooLow? ==> FeesOf(end.m, end.iter, past)
      ensures end.GaveUp? ==> nBlockWeight > nBlockMaxWeight - 4000
    {
      ghost var start := Start(vtx, inBlock, accounted);
      nPackagesSelected := 0;
      var failedTx: set<nat> := {};
      var mapModifiedTx: map<nat, Modified>;
      nDescendantsUpdated, mapModifiedTx, past := TrackPresent();
      var mi := 0;
      var nConsecutiveFailed := 0;
      while mi < |order| || mapModifiedTx != map[]
        invariant 0 <= mi <= |order|
        invariant Selecting(order, mi, mapModifiedTx, failedTx, past, start)
        decreases Ids(pool) - inBlock, |order| - mi + |mapModifiedTx|
      {
        if mi < |order| && (order[mi] in mapModifiedTx || order[mi] in inBlock || order[mi] in failedTx) {
          ScanSkips(order, mi, failedTx, past.turned.Keys, Known(mapModifiedTx, past));
          mi := mi + 1;
          continue;
        }
        var iter, fUsingModified, next := Choose(order, mi, mapModifiedTx);
        var outcome, m, n;
        outcome, m, n, mapModifiedTx, failedTx, past :=
          Round(iter, fUsingModified, mapModifiedTx, failedTx, order, mi, past, start);
        mi := next;
        if outcome.TooCheap? {
          return nPackagesSelected, nDescendantsUpdated, FeeTooLow(iter, m), past;
        } else if outcome.Included? {
          nConsecutiveFailed := 0;
          nPackagesSelected := nPackagesSelected + 1;
          nDescendantsUpdated := nDescendantsUpdated + n;
        } else if outcome.TooBig? {
          nConsecutiveFailed := nConsecutiveFailed + 1;
          if nConsecutiveFailed > MAX_CONSECUTIVE_FAILURES && nBlockWeight > nBlockMaxWeight - 4000 {
            return nPackagesSelected, nDescendantsUpdated, GaveUp, past;
          }
        }
      }
      end := Exhausted;
      NothingMissed(order, failedTx, past, start);
    }

    /** Whether some parent in the pool is not in the block yet. */
    method IsStillDependent(iter: nat) returns (dependent: bool)
      requires iter < |pool|
      ensures dependent <==> !(pool[iter].parents <= inBlock)
    {
      var rest := pool[iter].parents;
      while rest != {}
        invariant rest <= pool[iter].parents && pool[iter].parents - rest <= inBlock
        decreases rest
      {
        var parent := AnyOf(rest);
        if parent !in inBlock {
          return true;
        }
        rest := rest - {parent};
      }
      dependent := false;
    }

    /** The tests on a single transaction; a block that is nearly full may be declared finished. */
    method TestForBlock(iter: nat) returns (ok: bool)
      requires iter < |pool|
      modifies this`blockFinished, this`lastFewTxs
      ensures ok <==>
                && nBlockWeight + pool[iter].weight < nBlockMaxWeight
                && (fNeedSizeAccounting ==> nBlockSize + pool[iter].bytes < nBlockMaxSize)
                && nBlockSigOpsCost + pool[iter].sigOps < MAX_BLOCK_SIGOPS_COST
                && pool[iter].isFinal
      ensures ok ==> blockFinished == old(blockFinished) && lastFewTxs == old(lastFewTxs)
      ensures blockFinished && !old(blockFinished) ==>
                || nBlockWeight > nBlockMaxWeight - 400
                || (fNeedSizeAccounting && nBlockSize > nBlockMaxSize - 100)
                || nBlockSigOpsCost > MAX_BLOCK_SIGOPS_COST - 8
                || lastFewTxs > 50
    {
      if nBlockWeight + pool[iter].weight >= nBlockMaxWeight {
        if nBlockWeight > nBlockMaxWeight - 400 || lastFewTxs > 50 {
          blockFinished := true;
          return false;
        }
        if nBlockWeight > nBlockMaxWeight - 4000 {
          lastFewTxs := lastFewTxs + 1;
        }
        return false;
      }
      if fNeedSizeAccounting {
        if nBlockSize + pool[iter].bytes >= nBlockMaxSize {
          if nBlockSize > nBlockMaxSize - 100 || lastFewTxs > 50 {
            blockFinished := true;
            return false;
          }
          if nBlockSize > nBlockMaxSize - 1000 {
            lastFewTxs := lastFewTxs + 1;
          }
          return false;
        }
      }
      if nBlockSigOpsCost + pool[iter].sigOps >= MAX_BLOCK_SIGOPS_COST {
        if nBlockSigOpsCost > MAX_BLOCK_SIGOPS_COST - 8 {
          blockFinished := true;
        }
        return false;
      }
      ok := pool[iter].isFinal;
    }

    /** The children of an entry, among those that wait for a parent. */
    function WaitingChildren(iter: nat, waiting: set<nat>): set<nat> {
      set c | c in waiting && c < |pool| && iter in pool[c].parents
    }

    /** While the area for high-priority transactions is filled, only the last one may overrun it. */
    ghost predicate AreaKept(prioritySize: nat) reads this {
      && accounted == inBlock
      && (|vtx| > 1 ==> vtx[|vtx| - 1] < |pool| && nBlockSize - pool[vtx[|vtx| - 1]].bytes < prioritySize)
    }

    /** Nothing is in two of the queue, the waiting set and the block, and there is room left. */
    ghost predicate Queued(vecPriority: set<nat>, waiting: set<nat>, prioritySize: nat) reads this {
      && Inv() && AreaKept(prioritySize) && fNeedSizeAccounting && (vtx != [] ==> nBlockSize < prioritySize)
      && vecPriority + waiting <= Ids(pool) && vecPriority !! waiting && (vecPriority + waiting) !! inBlock
    }

    /** Adds a transaction whose parents are in the block, if it fits. */
    method TryPriority(iter: nat, prioritySize: nat) returns (added: bool)
      requires Inv() && iter < |pool| && iter !in inBlock && pool[iter].parents <= inBlock && fNeedSizeAccounting
      requires fIncludeWitness || !pool[iter].hasWitness
      requires AreaKept(prioritySize) && (vtx != [] ==> nBlockSize < prioritySize)
      modifies this`blockFinished, this`lastFewTxs
      modifies this`vtx, this`nBlockSize, this`nBlockWeight, this`nBlockTx, this`nBlockSigOpsCost, this`nFees, this`inBlock, this`accounted
      ensures Inv() && AreaKept(prioritySize)
      ensures inBlock == if added then old(inBlock) + {iter} else old(inBlock)
      ensures !added ==> vtx == old(vtx) && nBlockSize == old(nBlockSize)
    {
      added := TestForBlock(iter);
      if added {
        AddToBlock(iter);
      }
    }

    /** One round: the entry that was taken from the queue is dropped, made to wait, or tried. */
    method NextPriority(iter: nat, vecPriority: set<nat>, waitPriMap: set<nat>, prioritySize: nat, allowFree: nat -> bool)
      returns (vec: set<nat>, waiting: set<nat>, done: bool)
      requires Queued(vecPriority + {iter}, waitPriMap, prioritySize) && iter !in vecPriority
      modifies this`blockFinished, this`lastFewTxs
      modifies this`vtx, this`nBlockSize, this`nBlockWeight, this`nBlockTx, this`nBlockSigOpsCost, this`nFees, this`inBlock, this`accounted
      ensures if done then Inv() && AreaKept(prioritySize) else Queued(vec, waiting, prioritySize)
      ensures Ids(pool) - inBlock < Ids(pool) - old(inBlock) || (inBlock == old(inBlock) && vec == vecPriority)
    {
      vec, waiting, done := vecPriority, waitPriMap, false;
      assert iter in vecPriority + {iter};
      assert iter !in inBlock && iter in Ids(pool);
      if !fIncludeWitness && pool[iter].hasWitness {
        return;
      }
      var dependent := IsStillDependent(iter);
      if dependent {
        waiting := waiting + {iter};
        return;
      }
      var added := TryPriority(iter, prioritySize);
      if added {
        if nBlockSize >= prioritySize || !allowFree(iter) {
          done := true;
          return;
        }
        var children := WaitingChildren(iter, waiting);
        vec, waiting := vec + children, waiting - children;
      }
    }

    /**
     Fills part of the block with transactions of high priority, whatever fees they pay.  Which of
     the queued ones comes next is arbitrary, and so is which priorities count as high.
     */
    method AddPriorityTxs(blockPrioritySize: nat, allowFree: nat -> bool)
      requires Inv() && inBlock == {} && vtx == [] && accounted == {}
      modifies this
      ensures Inv() && fNeedSizeAccounting == old(fNeedSizeAccounting)
      ensures AreaKept(if nBlockMaxSize < blockPrioritySize then nBlockMaxSize else blockPrioritySize)
    {
      var nBlockPrioritySize := if nBlockMaxSize < blockPrioritySize then nBlockMaxSize else blockPrioritySize;
      if nBlockPrioritySize == 0 {
        return;
      }
      var fSizeAccounting := fNeedSizeAccounting;
      fNeedSizeAccounting := true;
      var vecPriority, waitPriMap: set<nat> := Ids(pool), {};
      var done := false;
      while vecPriority != {} && !blockFinished && !done
        invariant if done then Inv() && AreaKept(nBlockPrioritySize) else Queued(vecPriority, waitPriMap, nBlockPrioritySize)
        decreases Ids(pool) - inBlock, vecPriority
      {
        var iter := AnyOf(vecPriority);
        vecPriority, waitPriMap, done := NextPriority(iter, vecPriority - {iter}, waitPriMap, nBlockPrioritySize, allowFree);
      }
      fNeedSizeAccounting := fSizeAccounting;
    }

    /**
     The whole assembly.  The block is in a valid order, holds nothing twice and nothing that is
     not final, and together with what is reserved for the coinbase stays within every limit.
     */
    method CreateNewBlock(blockPrioritySize: nat, allowFree: nat -> bool, order: seq<nat>) returns (end: End)
      requires PoolOk(pool) && LimitsClamped() && forall i | 0 <= i < |order| :: order[i] < |pool|
      modifies this
      ensures Listed(pool, vtx, inBlock) && AllAdmissible(pool, inBlock, fIncludeWitness)
      ensures nBlockTx == |vtx| && nFees == Total(pool, inBlock, Fee)
      ensures nBlockWeight == 4000 + Total(pool, inBlock, Weight) <= nBlockMaxWeight
      ensures nBlockSigOpsCost == 400 + Total(pool, inBlock, SigOps) <= MAX_BLOCK_SIGOPS_COST
      ensures fNeedSizeAccounting == old(fNeedSizeAccounting)
      ensures fNeedSizeAccounting ==> nBlockSize == 1000 + Total(pool, inBlock, Bytes) <= nBlockMaxSize
      // Only a block that is empty may reach a limit, with what is reserved for the coinbase.
      ensures inBlock != {} ==> nBlockWeight < nBlockMaxWeight && nBlockSigOpsCost < MAX_BLOCK_SIGOPS_COST
      ensures inBlock != {} && fNeedSizeAccounting ==> nBlockSize < nBlockMaxSize
      ensures end.Exhausted? ==> forall t | t in order :: t in inBlock || Rejected(pool, RoomLeft(), fIncludeWitness, t)
    {
      ResetBlock();
      AddPriorityTxs(blockPrioritySize, allowFree);
      var nPackagesSelected, nDescendantsUpdated;
      ghost var past;
      nPackagesSelected, nDescendantsUpdated, end, past := AddPackageTxs(order);
      TotalNone(pool, Weight, |pool|);
      TotalNone(pool, SigOps, |pool|);
      TotalNone(pool, Bytes, |pool|);
    }
  }

  // ----- Totals that are wrong -----

  /** What matters of two transactions and a third that spends both. */
  ghost predicate TwoParents(pool: Pool) {
    && |pool| == 3 && PoolOk(pool) && AllAdmissible(pool, {0, 1, 2}, false)
    && Family(pool, 0) == {0} && Family(pool, 1) == {1} && Family(pool, 2) == {0, 1, 2}
    && 2 in Descendants(pool, 0) && 2 in Descendants(pool, 1)
  }

  /** The third is too big for a block of weight 5000. */
  ghost predicate ChildTooBig(pool: Pool) {
    && Total(pool, {0}, Weight) == 100 && Total(pool, {0, 1, 2}, Weight) == 8200
    && Total(pool, {0}, Size) == 25 == Total(pool, {1}, Size)
    && Total(pool, {0}, SigOps) == 0 == Total(pool, {1}, SigOps)
  }

  /** What they pay, the first two with a delta. */
  ghost predicate TheirFees(pool: Pool, delta: nat) {
    && (delta == 0 ==> NoFeeDeltas(pool))
    && Total(pool, {}, Fee) == 0 && Total(pool, {0}, Fee) == 7 && Total(pool, {1}, Fee) == 5
    && Total(pool, {}, ModFee) == 0 && Total(pool, {0}, ModFee) == 7 + delta && Total(pool, {1}, ModFee) == 5 + delta
    && Total(pool, {1, 2}, ModFee) == 8 + delta && Total(pool, {0, 2}, ModFee) == 10 + delta && Total(pool, {2}, ModFee) == 3
  }

  function SpendsBoth(delta: nat): Pool {
    [Tx({}, 25, 100, 0, 7, 7 + delta, 100, true, false), Tx({}, 25, 100, 0, 5, 5 + delta, 100, true, false),
     Tx({0, 1}, 2000, 8000, 0, 3, 3, 8000, true, false)]
  }

  lemma SpendsBothTotal(delta: nat, s: set<nat>, q: Quantity)
    ensures var pool := SpendsBoth(delta);
            Total(pool, s, q) == (if 0 in s then Of(pool[0], q) else 0) + (if 1 in s then Of(pool[1], q) else 0) + if 2 in s then Of(pool[2], q) else 0
  {
    var pool := SpendsBoth(delta);
    assert TotalTo(pool, s, q, 1) == if 0 in s then Of(pool[0], q) else 0;
    assert TotalTo(pool, s, q, 2) == TotalTo(pool, s, q, 1) + if 1 in s then Of(pool[1], q) else 0;
  }

  lemma SpendsBothSizes(delta: nat)
    ensures ChildTooBig(SpendsBoth(delta))
  {
    SpendsBothTotal(delta, {0}, Weight);
    SpendsBothTotal(delta, {0, 1, 2}, Weight);
    SpendsBothTotal(delta, {0}, Size);
    SpendsBothTotal(delta, {1}, Size);
    SpendsBothTotal(delta, {0}, SigOps);
    SpendsBothTotal(delta, {1}, SigOps);
  }

  lemma SpendsBothFees(delta: nat)
    ensures TheirFees(SpendsBoth(delta), delta)
  {
    SpendsBothTotal(delta, {}, Fee);
    SpendsBothTotal(delta, {0}, Fee);
    SpendsBothTotal(delta, {1}, Fee);
    SpendsBothTotal(delta, {}, ModFee);
    SpendsBothTotal(delta, {0}, ModFee);
    SpendsBothTotal(delta, {1}, ModFee);
    SpendsBothTotal(delta, {1, 2}, ModFee);
    SpendsBothTotal(delta, {0, 2}, ModFee);
    SpendsBothTotal(delta, {2}, ModFee);
  }

  method SpendingBoth(delta: nat) returns (pool: Pool)
    ensures TwoParents(pool) && ChildTooBig(pool) && TheirFees(pool, delta)
  {
    pool := SpendsBoth(delta);
    ParentsAreAncestors(pool, 2, 0);
    ParentsAreAncestors(pool, 2, 1);
    SpendsBothSizes(delta);
    SpendsBothFees(delta);
  }

  lemma ParentFits(pool: Pool, room: Room, iter: nat)
    requires TwoParents(pool) && ChildTooBig(pool) && iter < 2 && room.weight > 100 && room.sigOps > 0 && !room.sized
    ensures !Rejected(pool, room, false, iter)
  {
  }

  /** A child too big for the block fails when one parent is in; when the other parent follows, it is tracked again, and its
      fees are those of the first parent and itself, of which the first is in the block. */
  method StaleFees() returns (a: BlockAssembler, mods: map<nat, Modified>)
    ensures 2 < |a.pool| && a.inBlock == {0, 1} && 2 in mods
    ensures mods[2].fees == 10 && Total(a.pool, Family(a.pool, 2) - a.inBlock, ModFee) == 3
  {
    var pool := SpendingBoth(0);
    ghost var start, past;
    a, mods, past, start := FirstParent(pool, 0);
    assert Family(pool, 2) - a.inBlock == {1, 2} && a.inBlock + Family(pool, 2) == {0, 1, 2} && Stale(pool, past, 2) == {};
    mods, past := FailChild(a, 2, mods, past, start);
    assert past.turned == map[2 := {0}];
    mods, past := SecondParent(a, mods, past, start);
    StaleTotal(pool, mods, past, a.inBlock);
  }

  /** A new block with one parent in it. */
  method FirstParent(pool: Pool, ghost delta: nat) returns (a: BlockAssembler, mods: map<nat, Modified>, ghost past: Past, ghost start: Start)
    requires TwoParents(pool) && ChildTooBig(pool) && TheirFees(pool, delta)
    ensures fresh(a) && a.pool == pool && !a.fIncludeWitness && a.nBlockMaxWeight == 5000 && (forall x :: a.minFee(x) == 0)
    ensures a.inBlock == {0} && !a.fNeedSizeAccounting && 2 in mods
    ensures a.Filling(mods, start) && a.Turned(past) && a.Priced(mods, past) && past.turned == map[]
  {
    a, mods, past, start := EmptyBlock(pool);
    ParentFits(pool, a.RoomLeft(), 0);
    mods, past := IncludeParent(a, 0, 2, mods, past, start);
  }

  method SecondParent(a: BlockAssembler, mapModifiedTx: map<nat, Modified>, ghost past: Past, ghost start: Start)
    returns (mods: map<nat, Modified>, ghost past': Past)
    requires TwoParents(a.pool) && ChildTooBig(a.pool) && Total(a.pool, {1}, ModFee) >= 0 && !a.fIncludeWitness
    requires a.inBlock == {0} && !a.fNeedSizeAccounting && a.nBlockMaxWeight == 5000 && (forall x :: a.minFee(x) == 0) && 1 !in past.turned
    requires a.Filling(mapModifiedTx, start) && a.Turned(past) && a.Priced(mapModifiedTx, past)
    modifies a`vtx, a`nBlockSize, a`nBlockWeight, a`nBlockTx, a`nBlockSigOpsCost, a`nFees, a`inBlock, a`accounted
    ensures a.inBlock == {0, 1} && 2 in mods && past'.turned == past.turned
    ensures a.Filling(mods, start) && a.Turned(past') && a.Priced(mods, past')
  {
    ParentFits(a.pool, a.RoomLeft(), 1);
    mods, past' := IncludeParent(a, 1, 2, mapModifiedTx, past, start);
  }

  lemma StaleTotal(pool: Pool, mods: map<nat, Modified>, past: Past, inBlock: set<nat>)
    requires TwoParents(pool) && TheirFees(pool, 0) && inBlock == {0, 1} && 2 in mods
    requires AllPriced(pool, mods, past, inBlock) && past.turned == map[2 := {0}]
    ensures mods[2].fees == 10 && Total(pool, Family(pool, 2) - inBlock, ModFee) == 3
  {
    assert Stale(pool, past, 2) == {0} && inBlock - {0} == {1};
    assert Family(pool, 2) - {1} == {0, 2} && Family(pool, 2) - inBlock == {2};
    assert FeesExact(pool, mods, past.late, 2, inBlock, {0});
    assert AllButOne(pool, 2, {1}, past.late[2]) && Family(pool, 2) * {1} == {1};
    assert past.late[2] == {};
  }

  /** Each parent pays 100 more than its fee says.  When both are in the block, the total of the child still has the delta of
      the one that was taken off last. */
  method DeltaLost() returns (a: BlockAssembler, mods: map<nat, Modified>)
    ensures 2 < |a.pool| && a.inBlock == {0, 1} && 2 in mods
    ensures mods[2].fees == 103 && Total(a.pool, Family(a.pool, 2) - a.inBlock, ModFee) == 3
  {
    var pool := SpendingBoth(100);
    ghost var start, past;
    a, mods, past, start := FirstParent(pool, 100);
    mods, past := SecondParent(a, mods, past, start);
    DeltaTotal(pool, mods, past, a.inBlock);
  }

  lemma DeltaTotal(pool: Pool, mods: map<nat, Modified>, past: Past, inBlock: set<nat>)
    requires TwoParents(pool) && TheirFees(pool, 100) && inBlock == {0, 1} && 2 in mods
    requires AllPriced(pool, mods, past, inBlock) && past.turned == map[]
    ensures mods[2].fees == 103 && Total(pool, Family(pool, 2) - inBlock, ModFee) == 3
  {
    assert Stale(pool, past, 2) == {} && inBlock - {} == inBlock && Family(pool, 2) - inBlock == {2};
    assert FeesExact(pool, mods, past.late, 2, inBlock, {});
    assert AllButOne(pool, 2, inBlock, past.late[2]) && Family(pool, 2) * inBlock == {0, 1};
    assert {0, 1} - {0} == {1} && {0, 1} - {1} == {0};
    assert past.late[2] == {0} || past.late[2] == {1};
  }

  /** A block of weight at most 5000, and no least fee. */
  method EmptyBlock(pool: Pool) returns (a: BlockAssembler, mods: map<nat, Modified>, ghost past: Past, ghost start: Start)
    requires PoolOk(pool)
    ensures fresh(a) && a.pool == pool && !a.fIncludeWitness && a.nBlockMaxWeight == 5000 && (forall x :: a.minFee(x) == 0)
    ensures a.RoomLeft() == Room(1000, MAX_BLOCK_SIGOPS_COST - 400, a.nBlockMaxSize - 1000, false) && a.inBlock == {}
    ensures a.Filling(mods, start) && a.Turned(past) && a.Priced(mods, past) && past.turned == map[]
  {
    a := new BlockAssembler(pool, false, 5000, MAX_BLOCK_SERIALIZED_SIZE, _ => 0);
    a.ResetBlock();
    var n;
    n, mods, past := a.TrackPresent();
    start := Start(a.vtx, a.inBlock, a.accounted);
  }

  /** An entry without ancestors that fits is included, and its child is tracked. */
  method IncludeParent(a: BlockAssembler, iter: nat, child: nat, mapModifiedTx: map<nat, Modified>, ghost past: Past, ghost start: Start)
    returns (mods: map<nat, Modified>, ghost past': Past)
    requires iter < |a.pool| && iter !in a.inBlock && iter !in past.turned && Family(a.pool, iter) == {iter}
    requires Total(a.pool, {iter}, ModFee) >= 0 && forall x :: a.minFee(x) == 0
    requires !Rejected(a.pool, a.RoomLeft(), a.fIncludeWitness, iter)
    requires child in Descendants(a.pool, iter) && child !in a.inBlock + {iter}
    requires a.Filling(mapModifiedTx, start) && a.Turned(past) && a.Priced(mapModifiedTx, past)
    modifies a`vtx, a`nBlockSize, a`nBlockWeight, a`nBlockTx, a`nBlockSigOpsCost, a`nFees, a`inBlock, a`accounted
    ensures a.inBlock == old(a.inBlock) + {iter} && child in mods && past'.turned == past.turned
    ensures a.Filling(mods, start) && a.Turned(past') && a.Priced(mods, past')
  {
    var outcome, m, n;
    assert Family(a.pool, iter) - a.inBlock == {iter} && Stale(a.pool, past, iter) == {} && {iter} * a.inBlock - {} == {};
    TotalNone(a.pool, ModFee, |a.pool|);
    TotalNone(a.pool, Fee, |a.pool|);
    outcome, m, n, mods, past' := a.TryPackage(iter, iter in mapModifiedTx, mapModifiedTx, past, start);
    assert outcome.Included?;
  }

  /** A tracked entry that is too big for the block is turned away. */
  method FailChild(a: BlockAssembler, iter: nat, mapModifiedTx: map<nat, Modified>, ghost past: Past, ghost start: Start)
    returns (mods: map<nat, Modified>, ghost past': Past)
    requires iter < |a.pool| && iter !in a.inBlock && iter in mapModifiedTx && NoFeeDeltas(a.pool) && Stale(a.pool, past, iter) == {}
    requires Total(a.pool, Family(a.pool, iter) - a.inBlock, ModFee) >= 0 && forall x :: a.minFee(x) == 0
    requires 4000 + Total(a.pool, a.inBlock + Family(a.pool, iter), Weight) >= a.nBlockMaxWeight
    requires a.Filling(mapModifiedTx, start) && a.Turned(past) && a.Priced(mapModifiedTx, past)
    modifies a`vtx, a`nBlockSize, a`nBlockWeight, a`nBlockTx, a`nBlockSigOpsCost, a`nFees, a`inBlock, a`accounted
    ensures a.inBlock == old(a.inBlock) && a.Filling(mods, start) && a.Turned(past') && a.Priced(mods, past')
    ensures past'.turned == past.turned[iter := a.inBlock]
  {
    NoDeltas(a.pool, Late(past, iter), |a.pool|);
    TotalNone(a.pool, ModFee, |a.pool|);
    var outcome, m, n;
    outcome, m, n, mods, past' := a.TryPackage(iter, true, mapModifiedTx, past, start);
  }
}
