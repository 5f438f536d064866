/**
 The memory pool as a finite directed acyclic graph of transactions with weights.  Entries are
 numbered so that parents come first; nothing in the model depends on the numbering beyond that.
 */
module Mempool {
  import opened Numbers
  import opened Sets

  datatype Tx = Tx(parents: set<nat>, size: nat, weight: nat, sigOps: nat, fee: int, modFee: int, bytes: nat,
                   isFinal: bool, hasWitness: bool)

  type Pool = seq<Tx>

  /** Sizes are rounded-up quarters of weights. */
  ghost predicate PoolOk(pool: Pool) {
    forall i | 0 <= i < |pool| :: pool[i].weight <= 4 * pool[i].size && forall p | p in pool[i].parents :: p < i
  }

  predicate InPool(pool: Pool, i: nat) {
    i < |pool|
  }

  function Ids(pool: Pool): set<nat> {
    set i: nat | i < |pool| && InPool(pool, i)
  }

  predicate IsAncestor(pool: Pool, i: nat, a: nat)
    decreases i
  {
    i < |pool| && exists p | p in pool[i].parents :: p < i && (a == p || IsAncestor(pool, p, a))
  }

  /** Everything an entry depends on, directly or not. */
  function Ancestors(pool: Pool, i: nat): set<nat>
    requires i < |pool|
  {
    set a: nat | a < i && IsAncestor(pool, i, a)
  }

  function Descendants(pool: Pool, i: nat): set<nat>
    requires i < |pool|
  {
    {i} + set d: nat | d < |pool| && i in Ancestors(pool, d)
  }

  lemma ParentsAreAncestors(pool: Pool, i: nat, p: nat)
    requires PoolOk(pool) && i < |pool| && p in pool[i].parents
    ensures p in Ancestors(pool, i)
  {
  }

  lemma {:induction false} AncestorIsSmaller(pool: Pool, i: nat, a: nat)
    requires IsAncestor(pool, i, a)
    ensures a < i < |pool|
    decreases i
  {
    var p :| p in pool[i].parents && p < i && (a == p || IsAncestor(pool, p, a));
    if a != p {
      AncestorIsSmaller(pool, p, a);
    }
  }

  /** Being an ancestor is transitive. */
  lemma {:induction false} AncestorsClosed(pool: Pool, i: nat, a: nat)
    requires i < |pool| && a in Ancestors(pool, i)
    ensures a < i && Ancestors(pool, a) <= Ancestors(pool, i)
    decreases i
  {
    var p :| p in pool[i].parents && p < i && (a == p || IsAncestor(pool, p, a));
    AncestorIsSmaller(pool, i, a);
    if a != p {
      AncestorIsSmaller(pool, p, a);
      AncestorsClosed(pool, p, a);
    }
    forall b | b in Ancestors(pool, a) ensures b in Ancestors(pool, i) {
      assert IsAncestor(pool, p, b);
    }
  }

  /** A set that holds the parents of its members holds their ancestors. */
  ghost predicate Closed(pool: Pool, s: set<nat>) {
    forall i | i in s && i < |pool| :: pool[i].parents <= s
  }

  lemma {:induction false} ClosedAncestors(pool: Pool, s: set<nat>, i: nat)
    requires Closed(pool, s) && i in s && i < |pool|
    ensures Ancestors(pool, i) <= s
    decreases i
  {
    forall a | a in Ancestors(pool, i) ensures a in s {
      var p :| p in pool[i].parents && p < i && (a == p || IsAncestor(pool, p, a));
      assert p in s;
      if a != p {
        AncestorIsSmaller(pool, p, a);
        ClosedAncestors(pool, s, p);
      }
    }
  }

  /** An ancestor has fewer ancestors: sorting by their number is a valid block order. */
  lemma AncestorsCount(pool: Pool, i: nat, a: nat)
    requires i < |pool| && a in Ancestors(pool, i)
    ensures a < i && |Ancestors(pool, a)| < |Ancestors(pool, i)|
  {
    AncestorsClosed(pool, i, a);
    var more := Ancestors(pool, a) + {a};
    assert |more| == |Ancestors(pool, a)| + 1;
    SubsetSize(more, Ancestors(pool, i));
  }

  // ----- Totals over sets of entries -----

  datatype Quantity = Size | Weight | SigOps | Fee | ModFee | Bytes

  function Of(tx: Tx, q: Quantity): int {
    match q
    case Size => tx.size
    case Weight => tx.weight
    case SigOps => tx.sigOps
    case Fee => tx.fee
    case ModFee => tx.modFee
    case Bytes => tx.bytes
  }

  function TotalTo(pool: Pool, s: set<nat>, q: Quantity, n: nat): int
    requires n <= |pool|
  {
    if n == 0 then 0 else TotalTo(pool, s, q, n - 1) + if n - 1 in s then Of(pool[n - 1], q) else 0
  }

  function Total(pool: Pool, s: set<nat>, q: Quantity): int {
    TotalTo(pool, s, q, |pool|)
  }

  lemma {:induction false} TotalToAdd(pool: Pool, s: set<nat>, q: Quantity, x: nat, n: nat)
    requires n <= |pool| && x !in s && x < |pool|
    ensures TotalTo(pool, s + {x}, q, n) == TotalTo(pool, s, q, n) + if x < n then Of(pool[x], q) else 0
  {
    if n > 0 {
      TotalToAdd(pool, s, q, x, n - 1);
    }
  }

  lemma TotalAdd(pool: Pool, s: set<nat>, q: Quantity, x: nat)
    requires x !in s && x < |pool|
    ensures Total(pool, s + {x}, q) == Total(pool, s, q) + Of(pool[x], q)
  {
    TotalToAdd(pool, s, q, x, |pool|);
  }

  lemma TotalRemove(pool: Pool, s: set<nat>, q: Quantity, x: nat)
    requires x in s && x < |pool|
    ensures Total(pool, s - {x}, q) == Total(pool, s, q) - Of(pool[x], q)
  {
    TotalAdd(pool, s - {x}, q, x);
    assert s - {x} + {x} == s;
  }

  lemma {:induction false} TotalToUnion(pool: Pool, s: set<nat>, t: set<nat>, q: Quantity, n: nat)
    requires n <= |pool| && s !! t
    ensures TotalTo(pool, s + t, q, n) == TotalTo(pool, s, q, n) + TotalTo(pool, t, q, n)
  {
    if n > 0 {
      TotalToUnion(pool, s, t, q, n - 1);
    }
  }

  lemma TotalUnion(pool: Pool, s: set<nat>, t: set<nat>, q: Quantity)
    requires s !! t
    ensures Total(pool, s + t, q) == Total(pool, s, q) + Total(pool, t, q)
  {
    TotalToUnion(pool, s, t, q, |pool|);
  }

  lemma {:induction false} TotalToMono(pool: Pool, s: set<nat>, t: set<nat>, q: Quantity, n: nat)
    requires n <= |pool| && s <= t && !q.Fee? && !q.ModFee?
    ensures 0 <= TotalTo(pool, s, q, n) <= TotalTo(pool, t, q, n)
  {
    if n > 0 {
      TotalToMono(pool, s, t, q, n - 1);
    }
  }

  lemma TotalMono(pool: Pool, s: set<nat>, t: set<nat>, q: Quantity)
    requires s <= t && !q.Fee? && !q.ModFee?
    ensures 0 <= Total(pool, s, q) <= Total(pool, t, q)
  {
    TotalToMono(pool, s, t, q, |pool|);
  }

  lemma {:induction false} WeightToSize(pool: Pool, s: set<nat>, n: nat)
    requires PoolOk(pool) && n <= |pool|
    ensures TotalTo(pool, s, Weight, n) <= 4 * TotalTo(pool, s, Size, n)
  {
    if n > 0 {
      WeightToSize(pool, s, n - 1);
    }
  }

  lemma {:induction false} TotalNone(pool: Pool, q: Quantity, n: nat)
    requires n <= |pool|
    ensures TotalTo(pool, {}, q, n) == 0
  {
    if n > 0 {
      TotalNone(pool, q, n - 1);
    }
  }
}
