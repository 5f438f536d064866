/**
 The unspent-output cache: a stack of write-back caches over a database.  Each cache entry
 carries a DIRTY and a FRESH flag that let a flush skip or delete writes.  The meaning of a
 cache is a plain map from transaction ids to coins, in which "pruned" is "absent".
 */
module CoinsCache {
  import opened Transactions

  type CoinsMap = map<Uint256, Coins>

  datatype Entry = Entry(coins: Coins, isDirty: bool, isFresh: bool)

  // ----- One transaction id at a time -----

  /** The meaning of a record: what is read back when it has been through the database. */
  function Live(c: Coins): Option<Coins> {
    if c.IsPruned() then None else Some(c.Reread())
  }

  function Get<V>(m: map<Uint256, V>, txid: Uint256): Option<V> {
    if txid in m then Some(m[txid]) else None
  }

  /** What a level shows for an id, given its own entry and what the level below shows. */
  function Shown(e: Option<Entry>, below: Option<Coins>): Option<Coins> {
    if e.Some? then Live(e.value.coins) else below
  }

  /** FRESH: nothing unspent below.  Not DIRTY: nothing to tell the level below. */
  predicate FlagsSound(e: Entry, below: Option<Coins>) {
    && (e.isFresh ==> below.None?)
    && (!e.isDirty ==> Live(e.coins) == below)
  }

  predicate Misapplied(child: Entry, parent: Option<Entry>) {
    child.isDirty && child.isFresh && parent.Some? && !parent.value.coins.IsPruned()
  }

  /** The parent's entry after a flush has visited one entry of the child. */
  function WriteBack(child: Entry, parent: Option<Entry>): Option<Entry> {
    if !child.isDirty then parent
    else if parent.None? then
      if child.isFresh && child.coins.IsPruned() then None
      else Some(Entry(child.coins, true, child.isFresh))
    else if parent.value.isFresh && child.coins.IsPruned() then None
    else Some(Entry(child.coins, true, parent.value.isFresh))
  }

  /** Three levels at once: what makes it safe for a flush to trust the two flags. */
  lemma WriteBackSound(child: Entry, parent: Option<Entry>, grand: Option<Coins>)
    requires parent.Some? ==> FlagsSound(parent.value, grand)
    requires FlagsSound(child, Shown(parent, grand))
    ensures !Misapplied(child, parent)
    ensures Shown(WriteBack(child, parent), grand) == Live(child.coins)
    ensures var p := WriteBack(child, parent); p.Some? ==> FlagsSound(p.value, grand)
  {
  }

  /** The entry that ModifyNewCoins leaves, when it does not throw. */
  function NewEntry(e: Option<Entry>, coinbase: bool): Entry {
    var was := if e.Some? then e.value else Entry(NO_COINS, false, false);
    Entry(NO_COINS, true, was.isFresh || (!coinbase && !was.isDirty))
  }

  /** BIP 30 is exactly what ModifyNewCoins needs: without it, FRESH is a lie. */
  lemma NewEntrySound(e: Option<Entry>, coinbase: bool, below: Option<Coins>)
    requires e.Some? ==> FlagsSound(e.value, below)
    requires e.Some? && !coinbase ==> e.value.coins.IsPruned()
    ensures FlagsSound(NewEntry(e, coinbase), below) <==> (!coinbase && e.None? ==> below.None?)
  {
  }

  /** A transaction that repeats an unspent one, created and spent in a cache: its entry is FRESH, the flush drops it, and the
      coins of the older one are back. */
  lemma RepeatedComesBack(older: Coins)
    requires !older.IsPruned()
    ensures var e := NewEntry(None, false);
            && !FlagsSound(e, Live(older)) && Shown(Some(e), Live(older)) == None
            && Shown(WriteBack(e, None), Live(older)) == Live(older) != None
  {
  }

  // ----- Whole levels -----

  function Overlay(entries: map<Uint256, Entry>, below: CoinsMap): (m: CoinsMap)
    ensures forall txid :: Get(m, txid) == Shown(Get(entries, txid), Get(below, txid))
  {
    map txid | txid in entries.Keys + below.Keys && Shown(Get(entries, txid), Get(below, txid)).Some?
      :: Shown(Get(entries, txid), Get(below, txid)).value
  }

  ghost predicate EntriesSound(entries: map<Uint256, Entry>, below: CoinsMap) {
    forall txid | txid in entries :: FlagsSound(entries[txid], Get(below, txid))
  }

  ghost predicate AllClean(entries: map<Uint256, Entry>, except: set<Uint256>) {
    forall txid | txid in entries && txid !in except :: entries[txid].coins.IsClean()
  }

  ghost predicate AllLast(entries: map<Uint256, Entry>) {
    forall txid | txid in entries :: entries[txid].coins.Lasts()
  }

  /** Set, overwrite or remove: the specification of every modification. */
  function Put(m: CoinsMap, txid: Uint256, c: Coins): CoinsMap {
    if c.IsPruned() then m - {txid} else m[txid := c.Reread()]
  }

  lemma PutTwice(m: CoinsMap, txid: Uint256, c: Coins)
    ensures Put(m - {txid}, txid, c) == Put(m, txid, c)
  {
  }

  lemma SameMap(a: CoinsMap, b: CoinsMap)
    requires forall txid :: Get(a, txid) == Get(b, txid)
    ensures a == b
  {
    forall txid ensures txid in a <==> txid in b {
      assert Get(a, txid) == Get(b, txid);
    }
    forall txid | txid in a ensures a[txid] == b[txid] {
      assert Get(a, txid) == Get(b, txid);
    }
  }

  /** Changing one entry changes the level's meaning at that id only. */
  lemma OverlayEntry(entries: map<Uint256, Entry>, below: CoinsMap, txid: Uint256, e: Entry)
    ensures Overlay(entries[txid := e], below) == Put(Overlay(entries, below), txid, e.coins)
  {
    SameMap(Overlay(entries[txid := e], below), Put(Overlay(entries, below), txid, e.coins));
  }

  /** Rewriting an entry without changing what it shows changes nothing. */
  lemma OverlaySame(entries: map<Uint256, Entry>, below: CoinsMap, txid: Uint256, e: Entry)
    requires txid in entries
    requires Live(e.coins) == Live(entries[txid].coins)
    ensures Overlay(entries[txid := e], below) == Overlay(entries, below)
  {
    SameMap(Overlay(entries[txid := e], below), Overlay(entries, below));
  }

  /** An entry that agrees with the level below may be dropped or loaded without trace. */
  lemma OverlayAgrees(entries: map<Uint256, Entry>, below: CoinsMap, txid: Uint256, e: Entry)
    requires txid !in entries
    requires Live(e.coins) == Get(below, txid)
    ensures Overlay(entries[txid := e], below) == Overlay(entries, below)
  {
    SameMap(Overlay(entries[txid := e], below), Overlay(entries, below));
  }

  /** What it takes for a level to show nothing. */
  lemma OverlayAbsent(entries: map<Uint256, Entry>, below: CoinsMap, txid: Uint256)
    ensures txid !in Overlay(entries, below) <==>
            (if txid in entries then entries[txid].coins.IsPruned() else txid !in below)
  {
    assert Get(Overlay(entries, below), txid) == Shown(Get(entries, txid), Get(below, txid));
  }

  /** Every entry of the child has been written back into the parent's entries. */
  ghost predicate Flushed(child: map<Uint256, Entry>, parent: map<Uint256, Entry>, parent': map<Uint256, Entry>) {
    forall txid ::
      Get(parent', txid) ==
      if txid in child then WriteBack(child[txid], Get(parent, txid)) else Get(parent, txid)
  }

  lemma FlushedStep(child: map<Uint256, Entry>, rest: map<Uint256, Entry>, txid: Uint256,
                    parent: map<Uint256, Entry>, now: map<Uint256, Entry>, now': map<Uint256, Entry>)
    requires txid in rest && txid in child
    requires Flushed(child - rest.Keys, parent, now)
    requires Get(now', txid) == WriteBack(child[txid], Get(now, txid))
    requires now' - {txid} == now - {txid}
    ensures Flushed(child - (rest - {txid}).Keys, parent, now')
  {
    assert Get(now, txid) == Get(parent, txid);
    forall t | t != txid ensures Get(now', t) == Get(now, t) {
      assert Get(now', t) == Get(now' - {txid}, t) && Get(now, t) == Get(now - {txid}, t);
    }
  }

  /** A flush only hands records on. */
  lemma FlushedLast(child: map<Uint256, Entry>, parent: map<Uint256, Entry>, parent': map<Uint256, Entry>)
    requires Flushed(child, parent, parent') && AllLast(child) && AllLast(parent)
    ensures AllLast(parent')
  {
    forall txid | txid in parent'
      ensures parent'[txid].coins.Lasts()
    {
      assert Get(parent', txid).Some?;
    }
  }

  /** Every dirty entry of the child has been stored in the database. */
  ghost predicate Stored(child: map<Uint256, Entry>, db: CoinsMap, db': CoinsMap) {
    forall txid ::
      Get(db', txid) ==
      if txid in child && child[txid].isDirty then Live(child[txid].coins) else Get(db, txid)
  }

  /** A flush gives the parent the child's meaning and keeps the parent's flags sound. */
  lemma FlushSound(child: map<Uint256, Entry>, parent: map<Uint256, Entry>, parent': map<Uint256, Entry>, grand: CoinsMap)
    requires EntriesSound(parent, grand)
    requires EntriesSound(child, Overlay(parent, grand))
    requires Flushed(child, parent, parent')
    ensures EntriesSound(parent', grand)
    ensures Overlay(parent', grand) == Overlay(child, Overlay(parent, grand))
    ensures forall txid | txid in child :: !Misapplied(child[txid], Get(parent, txid))
  {
    forall txid | txid in child {
      WriteBackSound(child[txid], Get(parent, txid), Get(grand, txid));
    }
    forall txid | txid in parent' ensures FlagsSound(parent'[txid], Get(grand, txid)) {
      assert Get(parent', txid).Some?;
    }
    forall txid ensures Get(Overlay(parent', grand), txid) == Get(Overlay(child, Overlay(parent, grand)), txid) {
      assert Get(parent', txid) ==
        if txid in child then WriteBack(child[txid], Get(parent, txid)) else Get(parent, txid);
    }
    SameMap(Overlay(parent', grand), Overlay(child, Overlay(parent, grand)));
  }

  /** A flush into the database. */
  lemma DatabaseSound(child: map<Uint256, Entry>, db: CoinsMap, db': CoinsMap)
    requires EntriesSound(child, db)
    requires Stored(child, db, db')
    ensures db' == Overlay(child, db)
  {
    SameMap(db', Overlay(child, db));
  }

  /** Everything Valid says about one level, given what the level below shows. */
  ghost predicate LevelSound(entries: map<Uint256, Entry>, below: CoinsMap, open: set<Uint256>) {
    && EntriesSound(entries, below)
    && AllClean(entries, open)
    && (forall txid | txid in open :: txid in entries && entries[txid].isDirty)
  }

  lemma LevelReplace(entries: map<Uint256, Entry>, below: CoinsMap, open: set<Uint256>, txid: Uint256, e: Entry, open': set<Uint256>)
    requires LevelSound(entries, below, open) && open <= {txid} && open' <= {txid}
    requires FlagsSound(e, Get(below, txid))
    requires txid in open' || e.coins.IsClean()
    requires txid in open' ==> e.isDirty
    ensures LevelSound(entries[txid := e], below, open')
    ensures txid !in open' ==> LevelSound(entries - {txid}, below, open')
  {
  }

  // ----- Runs -----

  /** The depth counts caches down from the top of the stack. */
  datatype Op =
    | Fetch(depth: nat, txid: Uint256)
    | Uncache(depth: nat, txid: Uint256)
    | Flush(depth: nat)
    | Modify(txid: Uint256, coins: Coins)
    | Create(txid: Uint256, coinbase: bool, coins: Coins)

  /** What an operation does to the plain map. */
  function Meaning(m: CoinsMap, op: Op): CoinsMap {
    match op
    case Modify(txid, coins) => Put(m, txid, coins)
    case Create(txid, _, coins) => Put(m, txid, coins)
    case _ => m
  }

  /** BIP 30: a transaction that is not a coinbase never repeats an unspent one. */
  predicate Allowed(m: CoinsMap, op: Op) {
    op.Create? && !op.coinbase ==> op.txid !in m
  }

  /** Nothing negative is written. */
  predicate Writes(op: Op) {
    op.Modify? || op.Create? ==> op.coins.Lasts()
  }

  ghost function MeaningAll(m: CoinsMap, ops: seq<Op>): CoinsMap
    decreases |ops|
  {
    if ops == [] then m else MeaningAll(Meaning(m, ops[0]), ops[1..])
  }

  ghost predicate AllAllowed(m: CoinsMap, ops: seq<Op>)
    decreases |ops|
  {
    ops == [] || (Allowed(m, ops[0]) && AllAllowed(Meaning(m, ops[0]), ops[1..]))
  }

  // ----- The views -----

  class CoinsDatabase {
    var coins: CoinsMap
    var bestBlock: Uint256

    ghost predicate Valid() reads this {
      forall txid | txid in coins :: !coins[txid].IsPruned() && coins[txid].IsClean() && coins[txid].Lasts()
    }

    method BatchWrite(mapCoins: map<Uint256, Entry>, hashBlock: Uint256)
      requires Valid()
      modifies this
      ensures Valid()
      ensures Stored(mapCoins, old(coins), coins)
      ensures bestBlock == if hashBlock == NULL_HASH then old(bestBlock) else hashBlock
    {
      var rest := mapCoins;
      while rest != map[]
        invariant Valid() && bestBlock == old(bestBlock)
        invariant forall txid | txid in rest :: txid in mapCoins && rest[txid] == mapCoins[txid]
        invariant Stored(mapCoins - rest.Keys, old(coins), coins)
        decreases rest.Keys
      {
        var txid :| txid in rest;
        var e := rest[txid];
        if e.isDirty {
          if e.coins.IsPruned() {
            coins := coins - {txid};
          } else {
            RereadFacts(e.coins);
            coins := coins[txid := e.coins.Reread()];  // the record in the form in which it is read back
          }
        }
        rest := rest - {txid};
      }
      if hashBlock != NULL_HASH {
        bestBlock := hashBlock;
      }
    }
  }

  datatype Backing = Database(db: CoinsDatabase) | Cache(cache: CoinsViewCache)

  class CoinsViewCache {
    const base: Backing
    var hasModifier: bool
    var hashBlock: Uint256
    var cacheCoins: map<Uint256, Entry>
    ghost var modifying: Uint256       // the id an open modifier points at
    ghost const Under: set<object>     // the views below
    ghost const level: nat
    ghost const exact: bool            // no negative version or height is ever written to the stack

    /** The stack is finite and every view occurs in it once. */
    ghost predicate Stacked()
      decreases level
    {
      && this !in Under
      && match base
         case Database(db) => Under == {db} && level == 0
         case Cache(c) => c.level < level && c.exact == exact && c.Stacked() && Under == {c} + c.Under
    }

    /** What the view below shows. */
    ghost function Below(): CoinsMap
      requires Stacked()
      reads Under
      decreases level, 0
    {
      match base
      case Database(db) => db.coins
      case Cache(c) => c.View()
    }

    /** What this view shows: the plain map it stands for. */
    ghost function View(): CoinsMap
      requires Stacked()
      reads this, Under
      decreases level, 1
    {
      Overlay(cacheCoins, Below())
    }

    /** Only the top of a stack is ever modified: no modifier is open below. */
    ghost predicate BaseValid()
      requires Stacked()
      reads Under
      decreases level, 0
    {
      match base
      case Database(db) => db.Valid()
      case Cache(c) => c.Valid() && !c.hasModifier
    }

    ghost predicate Valid()
      reads this, Under
      decreases level, 1
    {
      && Stacked()
      && BaseValid()
      && LevelSound(cacheCoins, Below(), if hasModifier then {modifying} else {})
      && (exact ==> AllLast(cacheCoins))
    }

    constructor (base: Backing, ghost exact: bool)
      requires match base case Database(db) => db.Valid() case Cache(c) => c.Valid() && !c.hasModifier && c.exact == exact
      ensures Valid() && !hasModifier && this.base == base && this.exact == exact && cacheCoins == map[] && hashBlock == NULL_HASH
      ensures View() == Below()
      ensures Under == match base case Database(db) => {db} case Cache(c) => {c} + c.Under
    {
      this.base := base;
      this.exact := exact;
      hasModifier := false;
      hashBlock := NULL_HASH;
      cacheCoins := map[];
      level := match base case Database(db) => 0 case Cache(c) => c.level + 1;
      Under := match base case Database(db) => {db} case Cache(c) => {c} + c.Under;
      new;
      SameMap(View(), Below());
    }

    /** Loads the entry for an id from the views below; no view changes its meaning. */
    method FetchCoins(txid: Uint256) returns (r: Option<Coins>)
      requires Valid()
      modifies this, Under
      ensures Valid() && View() == old(View()) && Below() == old(Below())
      ensures r.Some? <==> txid in cacheCoins
      ensures r.Some? ==> cacheCoins[txid].coins == r.value && Live(r.value) == Get(View(), txid)
      ensures r.Some? && exact ==> r.value.Lasts()
      ensures txid in old(cacheCoins) ==> r == Some(old(cacheCoins[txid].coins))
      ensures txid !in old(cacheCoins) && base.Database? ==> r == Get(Below(), txid)
      ensures r.None? ==> txid !in View()
      ensures hasModifier == old(hasModifier) && modifying == old(modifying) && hashBlock == old(hashBlock)
      ensures forall t :: t in old(cacheCoins) ==> t in cacheCoins && cacheCoins[t] == old(cacheCoins[t])
      decreases level, 1
    {
      if txid in cacheCoins {
        return Some(cacheCoins[txid].coins);
      }
      var tmp := BaseGetCoins(txid);
      if tmp.None? {
        return None;
      }
      var e := Entry(tmp.value, false, tmp.value.IsPruned());
      Loaded(txid, e);
      cacheCoins := cacheCoins[txid := e];
      r := tmp;
    }

    /** Loading an entry that agrees with the view below is invisible. */
    lemma Loaded(txid: Uint256, e: Entry)
      requires Valid() && txid !in cacheCoins
      requires e.coins.IsClean() && Live(e.coins) == Get(Below(), txid) && (e.isFresh ==> e.coins.IsPruned())
      ensures LevelSound(cacheCoins[txid := e], Below(), if hasModifier then {modifying} else {})
      ensures exact && e.coins.Lasts() ==> AllLast(cacheCoins[txid := e])
      ensures Overlay(cacheCoins[txid := e], Below()) == View()
    {
      OverlayAgrees(cacheCoins, Below(), txid, e);
    }

    /** The virtual call to the view below. */
    method BaseGetCoins(txid: Uint256) returns (r: Option<Coins>)
      requires Valid()
      modifies Under
      ensures Valid() && View() == old(View()) && Below() == old(Below())
      ensures r.Some? ==> r.value.IsClean() && Live(r.value) == Get(Below(), txid) && (exact ==> r.value.Lasts())
      ensures r.None? ==> txid !in Below()
      ensures base.Database? ==> r == Get(Below(), txid)
      decreases level, 0
    {
      match base
      case Database(db) =>
        r := Get(db.coins, txid);
        if r.Some? {
          RereadFacts(r.value);
        }
      case Cache(c) =>
        r := c.FetchCoins(txid);
    }

    method GetCoins(txid: Uint256) returns (r: Option<Coins>)
      requires Valid()
      modifies this, Under
      ensures Valid() && View() == old(View()) && Below() == old(Below())
      ensures hasModifier == old(hasModifier)
      ensures (if r.Some? then Live(r.value) else None) == Get(View(), txid)
      // Where nothing negative is written, that is the record itself.
      ensures exact && r.Some? && !r.value.IsPruned() ==> Get(View(), txid) == Some(r.value.Cleaned())
    {
      r := FetchCoins(txid);
      if r.Some? {
        RereadFacts(r.value);
      }
    }

    /** Tests for a non-empty output vector, which is exact because closed entries are trimmed. */
    method HaveCoins(txid: Uint256) returns (have: bool)
      requires Valid()
      modifies this, Under
      ensures Valid() && View() == old(View()) && Below() == old(Below())
      ensures hasModifier == old(hasModifier)
      ensures !(hasModifier && txid == modifying) ==> (have <==> txid in View())
    {
      var r := FetchCoins(txid);
      have := r.Some? && r.value.vout != [];
      if r.Some? {
        CleanedFacts(r.value);
        assert txid in View() <==> Get(View(), txid).Some?;
      }
    }

    method SetEntry(txid: Uint256, e: Entry)
      requires Valid() && !hasModifier && FlagsSound(e, Get(Below(), txid)) && e.coins.IsClean() && (exact ==> e.coins.Lasts())
      modifies this`cacheCoins
      ensures Valid() && cacheCoins == old(cacheCoins)[txid := e] && Below() == old(Below())
      ensures View() == Overlay(old(cacheCoins)[txid := e], Below())
    {
      LevelReplace(cacheCoins, Below(), {}, txid, e, {});
      cacheCoins := cacheCoins[txid := e];
    }

    /** The first half of ModifyCoins: insert the entry, filled from the view below. */
    method Insert(txid: Uint256)
      requires Valid() && !hasModifier
      modifies this, Under
      ensures Valid() && !hasModifier && View() == old(View()) && Below() == old(Below())
      ensures txid in cacheCoins
    {
      if txid !in cacheCoins {
        var got := BaseGetCoins(txid);
        var e := if got.None? then Entry(NO_COINS, false, true) else Entry(got.value, false, got.value.IsPruned());
        Loaded(txid, e);
        cacheCoins := cacheCoins[txid := e];
      }
    }

    /** Opens the entry for writing; until something is written the meaning is unchanged. */
    method ModifyCoins(txid: Uint256) returns (m: CoinsModifier)
      requires Valid() && !hasModifier
      modifies this, Under
      ensures Valid() && View() == old(View()) && Below() == old(Below())
      ensures m.Open() && m.cache == this && m.txid == txid && fresh(m)
      ensures Live(cacheCoins[txid].coins) == Get(View(), txid)
    {
      Insert(txid);
      var e := cacheCoins[txid].(isDirty := true);
      OverlaySame(cacheCoins, Below(), txid, e);
      SetEntry(txid, e);
      m := new CoinsModifier(this, txid);
    }

    /**
     Opens a cleared entry without asking the view below, and may mark it FRESH.  The caller
     guarantees BIP 30: an id this cache has not loaded has nothing unspent below.  None is
     the exception for coins that already exist in this cache.
     */
    method ModifyNewCoins(txid: Uint256, coinbase: bool) returns (m: Option<CoinsModifier>)
      requires Valid() && !hasModifier
      requires !coinbase && txid !in cacheCoins ==> txid !in Below()
      modifies this
      ensures Valid() && Below() == old(Below())
      ensures m.None? <==> !coinbase && txid in old(cacheCoins) && !old(cacheCoins[txid].coins).IsPruned()
      ensures m.None? ==> cacheCoins == old(cacheCoins) && !hasModifier
      ensures m.Some? ==> m.value.Open() && m.value.cache == this && m.value.txid == txid && fresh(m.value)
      ensures m.Some? ==> View() == old(View()) - {txid}
    {
      if !coinbase && txid in cacheCoins && !cacheCoins[txid].coins.IsPruned() {
        return None;
      }
      var e := if txid in cacheCoins then cacheCoins[txid] else Entry(NO_COINS, false, false);
      var isFresh := e.isFresh;
      if !coinbase && !e.isDirty {
        isFresh := true;
      }
      NewEntrySound(Get(cacheCoins, txid), coinbase, Get(Below(), txid));
      e := Entry(NO_COINS, true, isFresh);
      OverlayEntry(cacheCoins, Below(), txid, e);
      SetEntry(txid, e);
      var reference := new CoinsModifier(this, txid);
      m := Some(reference);
    }

    /** Drops an unmodified entry; no view changes its meaning. */
    method Uncache(txid: Uint256)
      requires Valid() && !hasModifier
      modifies this
      ensures Valid() && !hasModifier && hashBlock == old(hashBlock)
      ensures View() == old(View()) && Below() == old(Below())
      ensures txid in cacheCoins ==> cacheCoins[txid].isDirty || cacheCoins[txid].isFresh
    {
      if txid in cacheCoins && !cacheCoins[txid].isDirty && !cacheCoins[txid].isFresh {
        ghost var e := cacheCoins[txid];
        cacheCoins := cacheCoins - {txid};
        assert cacheCoins[txid := e] == old(cacheCoins);
        OverlayAgrees(cacheCoins, Below(), txid, e);
      }
    }

    /** Takes over a child's entries one by one; thrown is the "FRESH flag misapplied" exception. */
    method BatchWrite(mapCoins: map<Uint256, Entry>, hashBlockIn: Uint256) returns (thrown: bool)
      requires !hasModifier
      requires AllClean(mapCoins, {}) && AllClean(cacheCoins, {})
      modifies this
      ensures !hasModifier
      ensures thrown <==> exists txid :: txid in mapCoins && Misapplied(mapCoins[txid], Get(old(cacheCoins), txid))
      ensures !thrown ==> Flushed(mapCoins, old(cacheCoins), cacheCoins) && hashBlock == hashBlockIn
      ensures AllClean(cacheCoins, {})
    {
      var rest := mapCoins;
      while rest != map[]
        invariant !hasModifier
        invariant forall txid | txid in rest :: txid in mapCoins && rest[txid] == mapCoins[txid]
        invariant forall txid | txid in mapCoins && txid !in rest ::
                    !Misapplied(mapCoins[txid], Get(old(cacheCoins), txid))
        invariant Flushed(mapCoins - rest.Keys, old(cacheCoins), cacheCoins)
        invariant AllClean(cacheCoins, {})
        decreases rest.Keys
      {
        var txid :| txid in rest;
        var it := rest[txid];
        ghost var now := cacheCoins;
        assert Get(now, txid) == Get(old(cacheCoins), txid);
        if it.isDirty {
          if txid !in cacheCoins {
            if !(it.isFresh && it.coins.IsPruned()) {
              cacheCoins := cacheCoins[txid := Entry(it.coins, true, it.isFresh)];
            }
          } else {
            var us := cacheCoins[txid];
            if it.isFresh && !us.coins.IsPruned() {
              return true;
            }
            if us.isFresh && it.coins.IsPruned() {
              cacheCoins := cacheCoins - {txid};
            } else {
              cacheCoins := cacheCoins[txid := us.(coins := it.coins, isDirty := true)];
            }
          }
        }
        FlushedStep(mapCoins, rest, txid, old(cacheCoins), now, cacheCoins);
        rest := rest - {txid};
      }
      assert mapCoins - rest.Keys == mapCoins;
      hashBlock := hashBlockIn;
      thrown := false;
    }

    /** The block this view claims to be at: the first one set, from the top down. */
    ghost function BestBlock(): Uint256
      requires Stacked()
      reads this, Under
      decreases level, 1
    {
      if hashBlock != NULL_HASH then hashBlock else BestBlockBelow()
    }

    ghost function BestBlockBelow(): Uint256
      requires Stacked()
      reads Under
      decreases level, 0
    {
      match base
      case Database(db) => db.bestBlock
      case Cache(c) => c.BestBlock()
    }

    /** Looks the best block up through the stack, remembering it at every level on the way. */
    method GetBestBlock() returns (h: Uint256)
      requires Valid()
      modifies this`hashBlock, Under
      ensures Valid() && View() == old(View()) && Below() == old(Below())
      ensures h == BestBlock() == old(BestBlock()) && hashBlock == h
      decreases level
    {
      if hashBlock == NULL_HASH {
        match base
        case Database(db) => hashBlock := db.bestBlock;
        case Cache(c) =>
          assert BaseValid();
          var below := c.GetBestBlock();
          hashBlock := below;
      }
      h := hashBlock;
    }

    method SetBestBlock(hashBlockIn: Uint256)
      requires Valid()
      modifies this`hashBlock
      ensures Valid() && hashBlock == hashBlockIn && View() == old(View()) && BestBlockBelow() == old(BestBlockBelow())
    {
      hashBlock := hashBlockIn;
    }

    /** The virtual call that hands every entry to the view below. */
    method BaseBatchWrite() returns (thrown: bool)
      requires Valid() && !hasModifier
      modifies Under
      ensures !thrown
      ensures BaseValid() && Below() == old(View())
      ensures BestBlockBelow() ==
              if hashBlock != NULL_HASH then hashBlock
              else if base.Database? then old(base.db.bestBlock) else old(base.cache.BestBlockBelow())
    {
      match base
      case Database(db) =>
        db.BatchWrite(cacheCoins, hashBlock);
        DatabaseSound(cacheCoins, old(Below()), Below());
        thrown := false;
      case Cache(c) =>
        ghost var grand := c.Below();
        assert BaseValid() && c.Valid() && Below() == Overlay(c.cacheCoins, grand);
        thrown := c.BatchWrite(cacheCoins, hashBlock);
        FlushSound(cacheCoins, old(c.cacheCoins), c.cacheCoins, grand);
        if exact {
          FlushedLast(cacheCoins, old(c.cacheCoins), c.cacheCoins);
        }
        assert c.Below() == grand;
    }

    /**
     Pushes every modification to the view below, which then means what this view meant.  The
     exception is never thrown.  The best block survives too, except when this view never
     learnt it and the view below had set one of its own.
     */
    method Flush() returns (thrown: bool)
      requires Valid() && !hasModifier
      modifies this, Under
      ensures !thrown
      ensures Valid() && !hasModifier && cacheCoins == map[] && hashBlock == old(hashBlock)
      ensures View() == old(View()) && Below() == old(View())
      ensures BestBlock() == if hashBlock != NULL_HASH then hashBlock
              else if base.Database? then old(base.db.bestBlock) else old(base.cache.BestBlockBelow())
      ensures BestBlock() == old(BestBlock()) <==>
              old(hashBlock != NULL_HASH || base.Database? || base.cache.hashBlock == NULL_HASH
                  || base.cache.hashBlock == base.cache.BestBlockBelow())
    {
      assert old(BestBlock()) == if hashBlock != NULL_HASH then hashBlock else BestBlockBelow();
      assert base.Cache? ==> BestBlockBelow() == base.cache.BestBlock();
      thrown := BaseBatchWrite();
      cacheCoins := map[];
      SameMap(View(), Below());
      assert BestBlock() == if hashBlock != NULL_HASH then hashBlock else BestBlockBelow();
    }

    /** Housekeeping on the cache at a given depth of the stack; no view changes its meaning. */
    method Maintain(op: Op)
      requires Valid() && !hasModifier && !op.Modify? && !op.Create?
      modifies this, Under
      ensures Valid() && !hasModifier && View() == old(View())
      decreases level
    {
      if op.depth > 0 && base.Cache? {
        var c := base.cache;
        assert BaseValid() && Below() == c.View();
        c.Maintain(op.(depth := op.depth - 1));
        assert Below() == c.View();
      } else {
        match op
        case Fetch(_, txid) => var _ := FetchCoins(txid);
        case Uncache(_, txid) => Uncache(txid);
        case Flush(_) => var _ := Flush();
      }
    }

    /** The entry is a record, trimmed, unless that has nothing left to spend. */
    ghost predicate Holds(txid: Uint256, coins: Coins)
      reads this
    {
      coins.IsPruned() || (txid in cacheCoins && cacheCoins[txid].coins == coins.Cleaned())
    }

    /** A modifier's whole life: open, write, close. */
    method Replace(txid: Uint256, coins: Coins)
      requires Valid() && !hasModifier && (exact ==> coins.Lasts())
      modifies this, Under
      ensures Valid() && !hasModifier && View() == Put(old(View()), txid, coins) && Holds(txid, coins)
    {
      var m := ModifyCoins(txid);
      m.Write(coins);
      m.Close();
    }

    method CreateCoins(txid: Uint256, coinbase: bool, coins: Coins)
      requires Valid() && !hasModifier
      requires (!coinbase ==> txid !in View()) && (exact ==> coins.Lasts())
      modifies this, Under
      ensures Valid() && !hasModifier && View() == Put(old(View()), txid, coins) && Holds(txid, coins)
    {
      OverlayAbsent(cacheCoins, Below(), txid);
      var m := ModifyNewCoins(txid, coinbase);
      PutTwice(old(View()), txid, coins);
      m.value.Write(coins);
      m.value.Close();
    }

    /** One operation on the top of the stack. */
    method Apply(op: Op)
      requires Valid() && !hasModifier && Allowed(View(), op) && (exact ==> Writes(op))
      modifies this, Under
      ensures Valid() && !hasModifier && View() == Meaning(old(View()), op)
    {
      match op
      case Modify(txid, coins) => Replace(txid, coins);
      case Create(txid, coinbase, coins) => CreateCoins(txid, coinbase, coins);
      case _ => Maintain(op);
    }

    /** Every run on a stack of caches means what the same updates mean on a plain map of records as they are read back. */
    method Run(ops: seq<Op>)
      requires Valid() && !hasModifier && AllAllowed(View(), ops)
      requires exact ==> forall i | 0 <= i < |ops| :: Writes(ops[i])
      modifies this, Under
      ensures Valid() && !hasModifier && View() == MeaningAll(old(View()), ops)
    {
      for i := 0 to |ops|
        invariant Valid() && !hasModifier
        invariant AllAllowed(View(), ops[i..])
        invariant MeaningAll(View(), ops[i..]) == MeaningAll(old(View()), ops)
      {
        assert ops[i..][0] == ops[i] && ops[i..][1..] == ops[i + 1..];
        Apply(ops[i]);
      }
    }
  }

  /** Over an empty database a cache is told its block, and a cache on top of it, which never asked for it, is flushed:
      the block is lost. */
  method BestBlockLost(db: CoinsDatabase, h: Uint256) returns (ghost before: Uint256, after: Uint256)
    requires db.Valid() && h != NULL_HASH && db.bestBlock == NULL_HASH
    modifies db
    ensures before == h && after == NULL_HASH
  {
    var lower := new CoinsViewCache(Database(db), true);
    lower.SetBestBlock(h);
    var upper := new CoinsViewCache(Cache(lower), true);
    assert lower.BestBlock() == h && lower.BestBlockBelow() == NULL_HASH;
    before := upper.BestBlock();
    assert before == upper.BestBlockBelow() == lower.BestBlock();
    var thrown := upper.Flush();
    after := upper.GetBestBlock();
  }

  /** A record that goes through the database is the same afterwards if and only if it has no negative number. */
  method FlushThenGet(cache: CoinsViewCache, txid: Uint256) returns (before: Option<Coins>, after: Option<Coins>)
    requires cache.Valid() && !cache.hasModifier && cache.base.Database? && txid in cache.View()
    modifies cache, cache.Under
    ensures txid in old(cache.cacheCoins) ==> before == Some(old(cache.cacheCoins[txid].coins))
    ensures before.Some? && after.Some? && after.value == before.value.Reread()
    ensures before == after <==> before.value.version >= 0 && before.value.height >= 0
  {
    before := cache.FetchCoins(txid);
    assert before.value.IsClean() && Live(before.value) == Get(cache.View(), txid);
    var thrown := cache.Flush();
    after := cache.FetchCoins(txid);
    RereadFacts(before.value);
  }

  /** A new transaction of version minus one has version 127 once it has been flushed. */
  method NegativeVersion(db: CoinsDatabase, txid: Uint256, o: TxOut, height: nat)
    returns (before: Option<Coins>, after: Option<Coins>)
    requires db.Valid() && txid !in db.coins && !o.IsNull()
    modifies db
    ensures before == Some(Coins(false, [o], height, -1)) && after == Some(Coins(false, [o], height, 127))
  {
    var cache := new CoinsViewCache(Database(db), false);
    var coins := Coins(false, [o], height, -1);
    cache.CreateCoins(txid, false, coins);
    assert !coins.vout[0].IsNull();
    CleanedFacts(coins);
    before, after := FlushThenGet(cache, txid);
  }

  /** A reference to one cache entry that is being rewritten. */
  class CoinsModifier {
    const cache: CoinsViewCache
    const txid: Uint256

    ghost predicate Open() reads cache {
      cache.hasModifier && cache.modifying == txid
    }

    constructor (cache: CoinsViewCache, txid: Uint256)
      requires cache.Valid() && !cache.hasModifier && txid in cache.cacheCoins && cache.cacheCoins[txid].isDirty
      modifies cache`hasModifier, cache`modifying
      ensures this.cache == cache && this.txid == txid && Open()
      ensures cache.Valid() && cache.View() == old(cache.View()) && cache.Below() == old(cache.Below())
    {
      this.cache := cache;
      this.txid := txid;
      new;
      cache.hasModifier := true;
      cache.modifying := txid;
    }

    /** Any change made through the reference. */
    method Write(coins: Coins)
      requires cache.Valid() && Open() && (cache.exact ==> coins.Lasts())
      modifies cache`cacheCoins
      ensures cache.Valid() && Open() && cache.Below() == old(cache.Below())
      ensures cache.View() == Put(old(cache.View()), txid, coins)
      ensures txid in cache.cacheCoins && cache.cacheCoins[txid].coins == coins
    {
      var e := cache.cacheCoins[txid].(coins := coins);
      OverlayEntry(cache.cacheCoins, cache.Below(), txid, e);
      cache.cacheCoins := cache.cacheCoins[txid := e];
    }

    /** The destructor: trims the entry, and drops it when the level below has nothing either. */
    method Close()
      requires cache.Valid() && Open()
      modifies cache`hasModifier, cache`cacheCoins
      ensures cache.Valid() && !cache.hasModifier && cache.Below() == old(cache.Below())
      ensures cache.View() == old(cache.View())
      ensures cache.Holds(txid, old(cache.cacheCoins[txid].coins))
    {
      cache.hasModifier := false;
      var e := cache.cacheCoins[txid];
      var cleaned := Cleanup(e.coins);
      Closed(cache.cacheCoins, cache.Below(), txid, e);
      if e.isFresh && cleaned.IsPruned() {
        cache.cacheCoins := cache.cacheCoins - {txid};
      } else {
        cache.cacheCoins := cache.cacheCoins[txid := e.(coins := cleaned)];
      }
    }
  }

  /** Trimming an entry, or dropping it when it is fresh and has nothing left, changes nothing that the view shows. */
  lemma Closed(cacheCoins: map<Uint256, Entry>, below: CoinsMap, txid: Uint256, e: Entry)
    requires LevelSound(cacheCoins, below, {txid}) && txid in cacheCoins && cacheCoins[txid] == e
    ensures var e' := e.(coins := e.coins.Cleaned());
            var after := if e.isFresh && e.coins.Cleaned().IsPruned() then cacheCoins - {txid} else cacheCoins[txid := e'];
            && LevelSound(after, below, {}) && Overlay(after, below) == Overlay(cacheCoins, below)
            && (AllLast(cacheCoins) ==> AllLast(after))
  {
    CleanedFacts(e.coins);
    var e' := e.(coins := e.coins.Cleaned());
    LevelReplace(cacheCoins, below, {txid}, txid, e', {});
    if e.isFresh && e.coins.Cleaned().IsPruned() {
      var without := cacheCoins - {txid};
      assert without[txid := e] == cacheCoins;
      OverlayAgrees(without, below, txid, e);
    } else {
      OverlaySame(cacheCoins, below, txid, e');
    }
  }
}
