/** Values shared by the coin database, its caches and its codecs. */
module Transactions {
  import opened Streams

  datatype Option<+T> = None | Some(value: T)

  /** A 256-bit hash; zero is the null hash. */
  type Uint256 = nat

  const NULL_HASH: Uint256 := 0

  /** A transaction output; an amount of -1 marks a spent (null) output. */
  datatype TxOut = TxOut(amount: int, script: seq<nat>) {
    predicate IsNull() {
      amount == -1
    }
  }

  const NULL_OUT := TxOut(-1, [])

  /** The outputs with the null ones at the end dropped. */
  function Trimmed(vout: seq<TxOut>): seq<TxOut> {
    if vout != [] && vout[|vout| - 1].IsNull() then Trimmed(vout[..|vout| - 1]) else vout
  }

  lemma {:induction false} TrimmedFacts(vout: seq<TxOut>)
    ensures var r := Trimmed(vout);
            && r <= vout
            && (r != [] ==> !r[|r| - 1].IsNull())
            && forall i | |r| <= i < |vout| :: vout[i].IsNull()
  {
    if vout != [] && vout[|vout| - 1].IsNull() {
      TrimmedFacts(vout[..|vout| - 1]);
    }
  }

  /** What a transaction still has to spend. */
  datatype Coins = Coins(coinBase: bool, vout: seq<TxOut>, height: int, version: int) {

    predicate IsPruned() {
      forall i | 0 <= i < |vout| :: vout[i].IsNull()
    }

    predicate IsAvailable(pos: nat) {
      pos < |vout| && !vout[pos].IsNull()
    }

    predicate IsClean() {
      vout == [] || !vout[|vout| - 1].IsNull()
    }

    function Cleaned(): Coins {
      this.(vout := Trimmed(vout))
    }

    /** What the database gives back of a record: trimmed, and its numbers as they are read. */
    function Reread(): Coins {
      this.(vout := Trimmed(vout), version := ReadBack(version), height := ReadBack(height))
    }

    /** Nothing but spent outputs is lost in the database. */
    predicate Lasts() {
      version >= 0 && height >= 0
    }
  }

  /** Cleaning loses nothing that can be spent, and makes "pruned" mean "empty". */
  lemma CleanedFacts(c: Coins)
    ensures c.Cleaned().IsClean()
    ensures c.Cleaned().IsPruned() <==> c.IsPruned()
    ensures c.IsPruned() <==> c.Cleaned().vout == []
    ensures c.IsClean() ==> c.Cleaned() == c
    ensures c.Cleaned().Cleaned() == c.Cleaned()
    ensures forall pos: nat :: c.Cleaned().IsAvailable(pos) <==> c.IsAvailable(pos)
  {
    TrimmedFacts(c.vout);
  }

  /** The database changes a clean record exactly if one of its numbers is negative. */
  lemma RereadFacts(c: Coins)
    ensures c.Reread().IsClean() && c.Reread().Lasts()
    ensures c.Reread().IsPruned() <==> c.IsPruned()
    ensures c.Reread() == c.Cleaned() <==> c.Lasts()
    ensures c.IsClean() ==> (c.Reread() == c <==> c.Lasts())
    ensures c.Reread().Reread() == c.Reread() == c.Cleaned().Reread()
    ensures forall pos: nat :: c.Reread().IsAvailable(pos) <==> c.IsAvailable(pos)
  {
    CleanedFacts(c);
  }

  const NO_COINS := Coins(false, [], 0, 0)

  /** Trimming is the only vector that drops exactly the trailing nulls. */
  lemma {:induction false} TrimmedUnique(vout: seq<TxOut>, r: seq<TxOut>)
    requires r <= vout
    requires r != [] ==> !r[|r| - 1].IsNull()
    requires forall i | |r| <= i < |vout| :: vout[i].IsNull()
    ensures r == Trimmed(vout)
  {
    TrimmedFacts(vout);
    var t := Trimmed(vout);
    assert t != [] ==> t[|t| - 1] == vout[|t| - 1];
    assert r != [] ==> r[|r| - 1] == vout[|r| - 1];
  }

  /** Drops spent outputs from the end, one at a time. */
  method Cleanup(coins: Coins) returns (r: Coins)
    ensures r == coins.Cleaned()
  {
    var vout := coins.vout;
    while |vout| > 0 && vout[|vout| - 1].IsNull()
      invariant vout <= coins.vout
      invariant forall i | |vout| <= i < |coins.vout| :: coins.vout[i].IsNull()
    {
      vout := vout[..|vout| - 1];
    }
    TrimmedUnique(coins.vout, vout);
    r := coins.(vout := vout);
  }

  /** Marks one output spent; exactly that output stops being available. */
  method Spend(coins: Coins, pos: nat) returns (ok: bool, r: Coins)
    ensures ok <==> coins.IsAvailable(pos)
    ensures !ok ==> r == coins
    ensures ok ==> r.IsClean()
    ensures ok ==> forall p: nat :: r.IsAvailable(p) <==> p != pos && coins.IsAvailable(p)
    ensures ok ==> r == coins.(vout := Trimmed(coins.vout[pos := NULL_OUT]))
  {
    if pos >= |coins.vout| || coins.vout[pos].IsNull() {
      return false, coins;
    }
    CleanedFacts(coins.(vout := coins.vout[pos := NULL_OUT]));
    r := Cleanup(coins.(vout := coins.vout[pos := NULL_OUT]));
    ok := true;
  }
}
