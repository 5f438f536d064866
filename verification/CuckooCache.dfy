/**
 The cuckoo cache: a table in which every element has eight possible slots.  Elements are
 erased by marking their slot as collectable; inserting may displace others along a chain of
 bounded length; two epochs bound how many elements can be live.
 */
module CuckooCache {
  import opened Bits
  import opened Numbers
  import opened Sets
  import opened Transactions

  // ----- Collection flags, eight to a byte -----

  lemma OneBitSet(mem: seq<bv8>, s: nat, i: nat)
    requires s < 8 * |mem| && i < 8 * |mem|
    ensures BitSet(mem[s / 8 := mem[s / 8] | Mask(s % 8)][i / 8], i % 8) == (i == s || BitSet(mem[i / 8], i % 8))
  {
    SetBit(mem[s / 8], s % 8, i % 8);
  }

  lemma OneBitCleared(mem: seq<bv8>, s: nat, i: nat)
    requires s < 8 * |mem| && i < 8 * |mem|
    ensures BitSet(mem[s / 8 := mem[s / 8] & !Mask(s % 8)][i / 8], i % 8) == (i != s && BitSet(mem[i / 8], i % 8))
  {
    ClearBit(mem[s / 8], s % 8, i % 8);
  }

  class BitPackedFlags {
    var mem: seq<bv8>
    ghost var bits: seq<bool>

    ghost predicate Valid() reads this {
      |bits| == 8 * |mem| && forall i {:trigger bits[i]} | 0 <= i < |bits| :: bits[i] == BitSet(mem[i / 8], i % 8)
    }

    /** Everything is collectable at first. */
    constructor (size: nat)
      ensures Valid() && |bits| >= size && forall i | 0 <= i < |bits| :: bits[i]
    {
      mem := seq((size + 7) / 8, _ => 0xFF as bv8);
      bits := seq(8 * ((size + 7) / 8), _ => true);
      new;
      forall i | 0 <= i < |bits| ensures bits[i] == BitSet(mem[i / 8], i % 8) {
        AllBits(i % 8);
      }
    }

    method Set(s: nat)
      requires Valid() && s < |bits|
      modifies this
      ensures Valid() && bits == old(bits)[s := true]
    {
      mem := mem[s / 8 := mem[s / 8] | Mask(s % 8)];
      bits := bits[s := true];
      forall i | 0 <= i < |bits| ensures bits[i] == BitSet(mem[i / 8], i % 8) {
        assert old(bits)[i] == BitSet(old(mem)[i / 8], i % 8);
        OneBitSet(old(mem), s, i);
      }
    }

    method Unset(s: nat)
      requires Valid() && s < |bits|
      modifies this
      ensures Valid() && bits == old(bits)[s := false]
    {
      mem := mem[s / 8 := mem[s / 8] & !Mask(s % 8)];
      bits := bits[s := false];
      forall i | 0 <= i < |bits| ensures bits[i] == BitSet(mem[i / 8], i % 8) {
        assert old(bits)[i] == BitSet(old(mem)[i / 8], i % 8);
        OneBitCleared(old(mem), s, i);
      }
    }

    method IsSet(s: nat) returns (b: bool)
      requires Valid() && s < |bits|
      ensures b == bits[s]
    {
      b := BitSet(mem[s / 8], s % 8);
    }
  }

  // ----- The live elements of a table -----

  /** How often an element is live in the first n slots. */
  ghost function Copies<E>(table: seq<E>, collected: seq<bool>, x: E, n: nat): nat
    requires n <= |table| && n <= |collected|
  {
    if n == 0 then 0
    else Copies(table, collected, x, n - 1) + Unit(!collected[n - 1] && table[n - 1] == x)
  }

  /** How many of the first n slots are live and of the given epoch. */
  ghost function Count(collected: seq<bool>, epoch: seq<bool>, recent: bool, n: nat): nat
    requires n <= |collected| && n <= |epoch|
  {
    if n == 0 then 0
    else Count(collected, epoch, recent, n - 1) + Unit(!collected[n - 1] && epoch[n - 1] == recent)
  }

  ghost function Unit(b: bool): nat {
    if b then 1 else 0
  }

  lemma {:induction false} CopiesSame<E>(table: seq<E>, collected: seq<bool>, table': seq<E>, collected': seq<bool>, x: E, n: nat)
    requires n <= |table| == |table'| && n <= |collected| == |collected'|
    requires forall i | 0 <= i < n :: table[i] == table'[i] && collected[i] == collected'[i]
    ensures Copies(table, collected, x, n) == Copies(table', collected', x, n)
  {
    if n > 0 {
      CopiesSame(table, collected, table', collected', x, n - 1);
    }
  }

  /** Overwriting one slot exchanges what it contributed. */
  lemma {:induction false} CopiesSet<E>(table: seq<E>, collected: seq<bool>, x: E, n: nat, i: nat, y: E, c: bool)
    requires i < n <= |table| && n <= |collected|
    ensures Copies(table[i := y], collected[i := c], x, n) + Unit(!collected[i] && table[i] == x)
            == Copies(table, collected, x, n) + Unit(!c && y == x)
  {
    var table', collected' := table[i := y], collected[i := c];
    if i == n - 1 {
      CopiesSame(table, collected, table', collected', x, n - 1);
    } else {
      CopiesSet(table, collected, x, n - 1, i, y, c);
    }
  }

  lemma {:induction false} CountSame(collected: seq<bool>, epoch: seq<bool>, collected': seq<bool>, epoch': seq<bool>, recent: bool, n: nat)
    requires n <= |collected| == |collected'| && n <= |epoch| == |epoch'|
    requires forall i | 0 <= i < n :: collected[i] == collected'[i] && epoch[i] == epoch'[i]
    ensures Count(collected, epoch, recent, n) == Count(collected', epoch', recent, n)
  {
    if n > 0 {
      CountSame(collected, epoch, collected', epoch', recent, n - 1);
    }
  }

  lemma {:induction false} CountSet(collected: seq<bool>, epoch: seq<bool>, recent: bool, n: nat, i: nat, c: bool, f: bool)
    requires i < n <= |collected| && n <= |epoch|
    ensures Count(collected[i := c], epoch[i := f], recent, n) + Unit(!collected[i] && epoch[i] == recent)
            == Count(collected, epoch, recent, n) + Unit(!c && f == recent)
  {
    var collected', epoch' := collected[i := c], epoch[i := f];
    if i == n - 1 {
      CountSame(collected, epoch, collected', epoch', recent, n - 1);
    } else {
      CountSet(collected, epoch, recent, n - 1, i, c, f);
    }
  }

  lemma {:induction false} CopiesAreStored<E>(table: seq<E>, collected: seq<bool>, x: E, n: nat)
    requires n <= |table| && n <= |collected|
    ensures Copies(table, collected, x, n) > 0 <==> exists i | 0 <= i < n :: table[i] == x && !collected[i]
  {
    if n > 0 {
      CopiesAreStored(table, collected, x, n - 1);
      assert Copies(table, collected, x, n) > 0 <==> Copies(table, collected, x, n - 1) > 0 || (table[n - 1] == x && !collected[n - 1]);
    }
  }

  // ----- States and what an insertion does to them -----

  datatype State<E> = State(table: seq<E>, collected: seq<bool>, epoch: seq<bool>) {
    ghost predicate Shaped() {
      |table| == |epoch| <= |collected|
    }

    ghost function Held(x: E): nat
      requires Shaped()
    {
      Copies(table, collected, x, |table|)
    }

    /** The live elements of one epoch. */
    ghost function Epoch(recent: bool): nat
      requires Shaped()
    {
      Count(collected, epoch, recent, |table|)
    }

    /** An element is put into a slot and marked to be kept. */
    ghost function Write(loc: nat, e: E, recent: bool): State<E>
      requires Shaped() && loc < |table|
    {
      State(table[loc := e], collected[loc := false], epoch[loc := recent])
    }
  }

  /** Live elements, and all that were ever inserted, are in one of their slots. */
  ghost predicate Placed<E>(st: State<E>, slots: E -> seq<nat>, empty: E) {
    st.Shaped() && forall i {:trigger st.table[i]} | 0 <= i < |st.table| ::
      (!st.collected[i] || st.table[i] != empty) ==> i in slots(st.table[i])
  }

  /** No element is stored twice. */
  ghost predicate Unique<E>(st: State<E>, empty: E) {
    forall i, j | 0 <= i < j < |st.table| :: st.table[i] == st.table[j] ==> st.table[i] == empty
  }

  ghost predicate Absent<E>(st: State<E>, e: E, empty: E) {
    forall i | 0 <= i < |st.table| :: st.table[i] == e ==> e == empty
  }

  ghost predicate Sound<E>(st: State<E>, slots: E -> seq<nat>, empty: E) {
    Placed(st, slots, empty) && Unique(st, empty)
  }

  lemma WriteSound<E>(st: State<E>, slots: E -> seq<nat>, empty: E, loc: nat, e: E, recent: bool)
    requires Sound(st, slots, empty) && loc < |st.table| && loc in slots(e)
    requires Absent(st, e, empty) || st.table[loc] == e
    ensures Sound(st.Write(loc, e, recent), slots, empty)
  {
    var st' := st.Write(loc, e, recent);
    forall i | 0 <= i < |st'.table| ensures (!st'.collected[i] || st'.table[i] != empty) ==> i in slots(st'.table[i]) {
      assert i != loc ==> st'.table[i] == st.table[i];
    }
    forall i, j | 0 <= i < j < |st'.table| ensures st'.table[i] == st'.table[j] ==> st'.table[i] == empty {
      assert i != loc ==> st'.table[i] == st.table[i];
      assert j != loc ==> st'.table[j] == st.table[j];
    }
  }

  /** What a write does to the counts: it adds one element and takes away what was live in the slot. */
  lemma WriteCounts<E>(st: State<E>, loc: nat, e: E, recent: bool, x: E, r: bool)
    requires st.Shaped() && loc < |st.table|
    ensures st.Write(loc, e, recent).Held(x) + Unit(!st.collected[loc] && st.table[loc] == x) == st.Held(x) + Unit(e == x)
    ensures st.Write(loc, e, recent).Epoch(r) + Unit(!st.collected[loc] && st.epoch[loc] == r) == st.Epoch(r) + Unit(recent == r)
  {
    CopiesSet(st.table, st.collected, x, |st.table|, loc, e, false);
    CountSet(st.collected, st.epoch, r, |st.table|, loc, false, recent);
  }

  /** While an element is in hand, the table and the hand hold what there was and the new element. */
  ghost predicate Carries<E(!new)>(st0: State<E>, e0: E, st: State<E>, e: E, recent: bool) {
    && st0.Shaped() && st.Shaped()
    && (forall x: E {:trigger st.Held(x)} :: st.Held(x) + Unit(x == e) == st0.Held(x) + Unit(x == e0))
    && st.Epoch(true) + Unit(recent) == st0.Epoch(true) + 1
    && st.Epoch(false) + Unit(!recent) == st0.Epoch(false)
  }

  /** Everything there was, and the new element, are in the table. */
  ghost predicate Stores<E(!new)>(st0: State<E>, e0: E, st: State<E>) {
    && st0.Shaped() && st.Shaped()
    && (forall x: E {:trigger st.Held(x)} :: st.Held(x) == st0.Held(x) + Unit(x == e0))
    && st.Epoch(true) + st.Epoch(false) == st0.Epoch(true) + st0.Epoch(false) + 1
    && st.Epoch(true) <= st0.Epoch(true) + 1 && st.Epoch(false) <= st0.Epoch(false)
  }

  lemma CarriesSwap<E(!new)>(st0: State<E>, e0: E, st: State<E>, e: E, recent: bool, loc: nat)
    requires Carries(st0, e0, st, e, recent) && loc < |st.table| && !st.collected[loc]
    ensures Carries(st0, e0, st.Write(loc, e, recent), st.table[loc], st.epoch[loc])
  {
    var st' := st.Write(loc, e, recent);
    forall x: E ensures st'.Held(x) + Unit(x == st.table[loc]) == st0.Held(x) + Unit(x == e0) {
      WriteCounts(st, loc, e, recent, x, true);
      assert st.Held(x) + Unit(x == e) == st0.Held(x) + Unit(x == e0);
    }
    WriteCounts(st, loc, e, recent, e, true);
    WriteCounts(st, loc, e, recent, e, false);
  }

  lemma CarriesOpen<E(!new)>(st0: State<E>, e0: E, st: State<E>, e: E, recent: bool, loc: nat)
    requires Carries(st0, e0, st, e, recent) && loc < |st.table| && st.collected[loc]
    ensures Stores(st0, e0, st.Write(loc, e, recent))
  {
    var st' := st.Write(loc, e, recent);
    forall x: E ensures st'.Held(x) == st0.Held(x) + Unit(x == e0) {
      WriteCounts(st, loc, e, recent, x, true);
      assert st.Held(x) + Unit(x == e) == st0.Held(x) + Unit(x == e0);
    }
    WriteCounts(st, loc, e, recent, e, true);
    WriteCounts(st, loc, e, recent, e, false);
  }

  /** Taking a live element out of its slot leaves no other copy of it. */
  lemma EvictedAbsent<E>(st: State<E>, slots: E -> seq<nat>, empty: E, loc: nat, e: E, recent: bool)
    requires Sound(st, slots, empty) && Absent(st, e, empty) && loc < |st.table|
    ensures Absent(st.Write(loc, e, recent), st.table[loc], empty)
  {
    var st', y := st.Write(loc, e, recent), st.table[loc];
    forall i | 0 <= i < |st'.table| ensures st'.table[i] == y ==> y == empty {
      assert i != loc ==> st'.table[i] == st.table[i];
      assert i < loc ==> (st.table[i] == st.table[loc] ==> st.table[i] == empty);
      assert loc < i ==> (st.table[loc] == st.table[i] ==> st.table[loc] == empty);
    }
  }

  // ----- Ageing -----

  /** What one epoch change does: the old epoch becomes collectable, and the recent one old. */
  ghost function AgedFlags(collected: seq<bool>, epoch: seq<bool>): seq<bool>
    requires |epoch| <= |collected|
  {
    seq(|collected|, i requires 0 <= i < |collected| => collected[i] || (i < |epoch| && !epoch[i]))
  }

  ghost function Aged<E>(st: State<E>): State<E>
    requires st.Shaped()
  {
    State(st.table, AgedFlags(st.collected, st.epoch), seq(|st.epoch|, _ => false))
  }

  lemma {:induction false} AgedCount(collected: seq<bool>, epoch: seq<bool>, n: nat)
    requires n <= |epoch| <= |collected|
    ensures Count(AgedFlags(collected, epoch), seq(|epoch|, _ => false), true, n) == 0
    ensures Count(AgedFlags(collected, epoch), seq(|epoch|, _ => false), false, n) == Count(collected, epoch, true, n)
  {
    if n > 0 {
      AgedCount(collected, epoch, n - 1);
    }
  }

  /** The state after the epoch check that precedes every insertion. */
  ghost function Checked<E>(st: State<E>, counter: nat, epochSize: nat): State<E>
    requires st.Shaped()
  {
    if counter == 0 && st.Epoch(true) >= epochSize then Aged(st) else st
  }

  lemma CheckedSound<E>(st: State<E>, slots: E -> seq<nat>, empty: E, counter: nat, epochSize: nat)
    requires Sound(st, slots, empty)
    ensures Sound(Checked(st, counter, epochSize), slots, empty)
  {
    var st' := Checked(st, counter, epochSize);
    forall i | 0 <= i < |st'.table| ensures (!st'.collected[i] || st'.table[i] != empty) ==> i in slots(st'.table[i]) {
      assert st'.table[i] == st.table[i];
    }
  }

  function Max(a: nat, b: nat): nat {
    if a < b then b else a
  }

  /** The most elements of one epoch that can be live. */
  function EpochBound(epochSize: nat): nat {
    epochSize + Max(1, epochSize / 16)
  }

  // ----- The cache -----

  /** 45 percent, in 32 bits. */
  function EpochPercent(n: nat): nat {
    45 * n % 0x1_0000_0000 / 100
  }

  lemma EpochExact(n: nat)
    ensures Max(1, EpochPercent(n)) == Max(1, 45 * n / 100) <==> 45 * n < 0x1_0000_0000
  {
  }

  /** With 2^27 slots, the size of four gigabytes of hashes, an epoch is 13 percent of the table. */
  lemma EpochShort()
    ensures Pow2(27) == 134217728 && EpochPercent(Pow2(27)) == 17448304 && 45 * Pow2(27) / 100 == 60397977
  {
    Pow2Values();
    assert Pow2(27) == 8 * Pow2(24);
  }

  class Cache<E(==,!new)> {
    const size: nat
    const depthLimit: nat
    const epochSize: nat
    const empty: E
    const hash: (nat, E) -> nat
    const collectionFlags: BitPackedFlags
    var table: seq<E>
    var epochFlags: seq<bool>
    var epochHeuristicCounter: nat

    /** The eight slots of an element. */
    function ComputeHashes(e: E): (locs: seq<nat>)
      ensures |locs| == 8 && (size > 0 ==> forall k | 0 <= k < 8 :: locs[k] < size)
    {
      seq(8, k requires 0 <= k < 8 => if size > 0 then hash(k, e) % size else 0)
    }

    ghost function Slots(): E -> seq<nat> {
      e => ComputeHashes(e)
    }

    ghost function Now(): State<E>
      reads this, collectionFlags
    {
      State(table, collectionFlags.bits, epochFlags)
    }

    ghost predicate Shaped()
      reads this, collectionFlags
    {
      && collectionFlags.Valid()
      && 0 < size == |table| == |epochFlags| <= |collectionFlags.bits|
      && depthLimit > 0 && epochSize > 0
    }

    ghost predicate Valid()
      reads this, collectionFlags
    {
      && Shaped() && Sound(Now(), Slots(), empty)
      && Now().Epoch(true) + epochHeuristicCounter <= EpochBound(epochSize)
      && Now().Epoch(false) <= EpochBound(epochSize)
    }

    /** A table of a power of two slots, all of them collectable. */
    constructor (depth: nat, empty: E, hash: (nat, E) -> nat)
      requires 1 <= depth <= 31
      ensures Valid() && fresh(collectionFlags) && forall x :: Now().Held(x) == 0
      ensures size == Pow2(depth) && depthLimit == depth && this.empty == empty && this.hash == hash
      // An epoch is 45 percent of the table if and only if 45 times its size fits into 32 bits.
      ensures epochSize == Max(1, EpochPercent(size))
      ensures epochSize == Max(1, 45 * size / 100) <==> 45 * size < 0x1_0000_0000
    {
      var n := Pow2(depth);
      size, depthLimit, this.empty, this.hash := n, depth, empty, hash;
      table := seq(n, _ => empty);
      epochFlags := seq(n, _ => false);
      var es := Max(1, EpochPercent(n));
      EpochExact(n);
      epochSize, epochHeuristicCounter := es, es;
      collectionFlags := new BitPackedFlags(n);
      new;
      NothingLive(collectionFlags.bits, epochFlags, size);
      forall x ensures Now().Held(x) == 0 {
        CopiesAreStored(table, collectionFlags.bits, x, size);
      }
    }

    static lemma {:induction false} NothingLive(collected: seq<bool>, epoch: seq<bool>, n: nat)
      requires n <= |collected| && n <= |epoch| && forall i | 0 <= i < n :: collected[i]
      ensures Count(collected, epoch, true, n) == 0 == Count(collected, epoch, false, n)
    {
      if n > 0 {
        NothingLive(collected, epoch, n - 1);
      }
    }

    /** The scan of the heuristic: how many elements of the recent epoch are live. */
    method CountRecent() returns (n: nat)
      requires Shaped()
      ensures n == Now().Epoch(true)
    {
      n := 0;
      for i := 0 to size
        invariant n == Count(collectionFlags.bits, epochFlags, true, i)
      {
        var collectable := collectionFlags.IsSet(i);
        if epochFlags[i] && !collectable {
          n := n + 1;
        }
      }
    }

    /** An epoch change. */
    method Age()
      requires Shaped()
      modifies this`epochFlags, collectionFlags
      ensures Shaped() && Now() == Aged(old(Now()))
    {
      ghost var bits0, epoch0 := collectionFlags.bits, epochFlags;
      for i := 0 to size
        invariant Shaped() && |collectionFlags.bits| == |bits0| && |epochFlags| == |epoch0|
        invariant forall j | 0 <= j < i :: !epochFlags[j] && collectionFlags.bits[j] == (bits0[j] || !epoch0[j])
        invariant forall j | i <= j < size :: epochFlags[j] == epoch0[j]
        invariant forall j | i <= j < |bits0| :: collectionFlags.bits[j] == bits0[j]
      {
        if epochFlags[i] {
          epochFlags := epochFlags[i := false];
        } else {
          collectionFlags.Set(i);
        }
      }
      assert collectionFlags.bits == AgedFlags(bits0, epoch0);
      assert epochFlags == seq(|epoch0|, _ => false);
    }

    /** Leaves room for one more recent element below the bound. */
    method EpochCheck()
      requires Valid()
      modifies this`epochFlags, this`epochHeuristicCounter, collectionFlags
      ensures Shaped() && Sound(Now(), Slots(), empty)
      ensures Now() == Checked(old(Now()), old(epochHeuristicCounter), epochSize)
      ensures Now().Epoch(true) + 1 + epochHeuristicCounter <= EpochBound(epochSize)
      ensures Now().Epoch(false) <= EpochBound(epochSize)
    {
      if epochHeuristicCounter != 0 {
        epochHeuristicCounter := epochHeuristicCounter - 1;
        return;
      }
      CheckedSound(Now(), Slots(), empty, epochHeuristicCounter, epochSize);
      var epochUnusedCount := CountRecent();
      if epochUnusedCount >= epochSize {
        AgedCount(collectionFlags.bits, epochFlags, size);
        Age();
        epochHeuristicCounter := epochSize;
      } else {
        epochHeuristicCounter := Max(1, Max(epochSize / 16, epochSize - epochUnusedCount));
      }
    }

    /** The first slot of an element that holds it, or eight. */
    method FindHeld(e: E) returns (k: nat)
      requires Shaped()
      ensures k <= 8 && (k < 8 ==> table[ComputeHashes(e)[k]] == e)
      ensures k == 8 ==> forall loc | loc in ComputeHashes(e) :: table[loc] != e
    {
      var locs := ComputeHashes(e);
      k := 0;
      while k < 8 && table[locs[k]] != e
        invariant k <= 8 && forall j | 0 <= j < k :: table[locs[j]] != e
      {
        k := k + 1;
      }
    }

    /** The first slot of an element that is collectable, or eight. */
    method FindOpen(e: E) returns (k: nat)
      requires Shaped()
      ensures k <= 8 && (k < 8 ==> collectionFlags.bits[ComputeHashes(e)[k]])
      ensures k == 8 ==> forall loc | loc in ComputeHashes(e) :: !collectionFlags.bits[loc]
    {
      var locs := ComputeHashes(e);
      k := 0;
      while k < 8
        invariant k <= 8 && forall j | 0 <= j < k :: !collectionFlags.bits[locs[j]]
      {
        var open := collectionFlags.IsSet(locs[k]);
        if open {
          return;
        }
        k := k + 1;
      }
    }

    /** Where the last slot is among the eight, or eight. */
    static ghost function Position(locs: seq<nat>, lastLoc: Option<nat>, i: nat): nat
      decreases |locs| - i
    {
      if i >= |locs| || lastLoc == Some(locs[i]) then i else Position(locs, lastLoc, i + 1)
    }

    ghost function NextLoc(e: E, lastLoc: Option<nat>): (loc: nat)
      ensures size > 0 ==> loc < size
    {
      ComputeHashes(e)[(1 + Position(ComputeHashes(e), lastLoc, 0)) % 8]
    }

    /** Within so many steps, an element in hand finds a collectable slot, or one of those displaced for it does. */
    ghost predicate ReachesOpen(st: State<E>, e: E, lastLoc: Option<nat>, recent: bool, depth: nat)
      requires st.Shaped() && 0 < size == |st.table|
      decreases depth
    {
      depth > 0 && (
        || (exists loc | loc in ComputeHashes(e) :: st.collected[loc])
        || var loc := NextLoc(e, lastLoc);
           ReachesOpen(st.Write(loc, e, recent), st.table[loc], Some(loc), st.epoch[loc], depth - 1))
    }

    /** The slot to displace: the one after the slot that was displaced last. */
    method NextSlot(locs: seq<nat>, lastLoc: Option<nat>) returns (k: nat)
      requires |locs| == 8
      ensures k == (1 + Position(locs, lastLoc, 0)) % 8
      ensures lastLoc.None? || lastLoc.value !in locs ==> k == 1
      ensures lastLoc.Some? && lastLoc.value in locs ==> locs[(k + 7) % 8] == lastLoc.value
      // Unless two of the slots coincide, what was just put in is not moved again.
      ensures Distinct(locs) ==> lastLoc != Some(locs[k])
    {
      var i := 0;
      while i < 8 && lastLoc != Some(locs[i])
        invariant 0 <= i <= 8 && (forall j | 0 <= j < i :: lastLoc != Some(locs[j])) && Position(locs, lastLoc, i) == Position(locs, lastLoc, 0)
      {
        i := i + 1;
      }
      k := (1 + i) % 8;
    }

    /** Marks an element that is already in the table to be kept. */
    method Refresh(e: E, loc: nat)
      requires Shaped() && Sound(Now(), Slots(), empty) && loc < size && table[loc] == e && loc in ComputeHashes(e)
      modifies this`epochFlags, collectionFlags
      ensures Shaped() && Sound(Now(), Slots(), empty) && Now() == old(Now()).Write(loc, e, true)
    {
      WriteSound(Now(), Slots(), empty, loc, e, true);
      assert table == table[loc := e];
      collectionFlags.Unset(loc);
      epochFlags := epochFlags[loc := true];
    }

    /** Puts an element into a collectable slot. */
    method Fill(e: E, loc: nat, recent: bool)
      requires Shaped() && Sound(Now(), Slots(), empty) && Absent(Now(), e, empty)
      requires loc < size && loc in ComputeHashes(e)
      modifies this`table, this`epochFlags, collectionFlags
      ensures Shaped() && Sound(Now(), Slots(), empty) && Now() == old(Now()).Write(loc, e, recent)
    {
      WriteSound(Now(), Slots(), empty, loc, e, recent);
      table := table[loc := e];
      collectionFlags.Unset(loc);
      epochFlags := epochFlags[loc := recent];
    }

    /** Exchanges an element with the live one in a slot. */
    method Swap(e: E, loc: nat, recent: bool) returns (out: E, outRecent: bool)
      requires Shaped() && Sound(Now(), Slots(), empty) && Absent(Now(), e, empty)
      requires loc < size && loc in ComputeHashes(e) && !collectionFlags.bits[loc]
      modifies this`table, this`epochFlags
      ensures Shaped() && Sound(Now(), Slots(), empty) && Now() == old(Now()).Write(loc, e, recent)
      ensures out == old(table[loc]) && outRecent == old(epochFlags[loc]) && Absent(Now(), out, empty)
    {
      WriteSound(Now(), Slots(), empty, loc, e, recent);
      EvictedAbsent(Now(), Slots(), empty, loc, e, recent);
      out, outRecent := table[loc], epochFlags[loc];
      table := table[loc := e];
      epochFlags := epochFlags[loc := recent];
      assert collectionFlags.bits == collectionFlags.bits[loc := false];
    }

    /**
     The chain of displacements.  If an open slot is reached nothing is lost; otherwise exactly the
     element in hand is.
     */
    method Displace(e0: E) returns (dropped: Option<E>)
      requires Shaped() && Sound(Now(), Slots(), empty) && Absent(Now(), e0, empty)
      modifies this`table, this`epochFlags, collectionFlags
      ensures Shaped() && Sound(Now(), Slots(), empty)
      ensures dropped.None? ==> Stores(old(Now()), e0, Now())
      ensures dropped.None? <==> ReachesOpen(old(Now()), e0, None, true, depthLimit)
      ensures dropped.Some? ==>
                && (exists recent :: Carries(old(Now()), e0, Now(), dropped.value, recent))
                && forall loc | loc in ComputeHashes(e0) :: !old(collectionFlags.bits)[loc]
    {
      ghost var st0 := Now();
      var e, lastLoc, lastEpoch := e0, None, true;
      for depth := 0 to depthLimit
        invariant InHand(st0, e0, e, lastEpoch)
        invariant ReachesOpen(st0, e0, None, true, depthLimit) <==> ReachesOpen(Now(), e, lastLoc, lastEpoch, depthLimit - depth)
        invariant depth == 0 ==> e == e0 && Now() == st0
        invariant depth > 0 ==> forall loc | loc in ComputeHashes(e0) :: !st0.collected[loc]
      {
        var k := FindOpen(e);
        if k < 8 {
          FillOpen(e, k, lastEpoch, st0, e0);
          return None;
        }
        ReachesNext(Now(), e, lastLoc, lastEpoch, depthLimit - depth);
        e, lastLoc, lastEpoch := DisplaceOne(e, lastLoc, lastEpoch, st0, e0);
      }
      dropped := Some(e);
    }

    /** An element in hand, for the sake of another one. */
    ghost predicate InHand(st0: State<E>, e0: E, e: E, recent: bool)
      reads this, collectionFlags
    {
      Shaped() && Sound(Now(), Slots(), empty) && Absent(Now(), e, empty) && Carries(st0, e0, Now(), e, recent)
    }

    /** The chain ends in an open slot. */
    method FillOpen(e: E, k: nat, lastEpoch: bool, ghost st0: State<E>, ghost e0: E)
      requires InHand(st0, e0, e, lastEpoch) && k < 8 && collectionFlags.bits[ComputeHashes(e)[k]]
      modifies this`table, this`epochFlags, collectionFlags
      ensures Shaped() && Sound(Now(), Slots(), empty) && Stores(st0, e0, Now())
    {
      var loc := ComputeHashes(e)[k];
      assert loc in ComputeHashes(e);
      CarriesOpen(st0, e0, Now(), e, lastEpoch, loc);
      Fill(e, loc, lastEpoch);
    }

    /** One step of the chain: the element takes the place of another one. */
    method DisplaceOne(e: E, lastLoc: Option<nat>, lastEpoch: bool, ghost st0: State<E>, ghost e0: E)
      returns (e': E, lastLoc': Option<nat>, lastEpoch': bool)
      requires InHand(st0, e0, e, lastEpoch) && forall loc | loc in ComputeHashes(e) :: !collectionFlags.bits[loc]
      modifies this`table, this`epochFlags
      ensures InHand(st0, e0, e', lastEpoch')
      ensures var loc := NextLoc(e, lastLoc);
              && Now() == old(Now()).Write(loc, e, lastEpoch) && lastLoc' == Some(loc)
              && e' == old(table[loc]) && lastEpoch' == old(epochFlags[loc])
    {
      var locs := ComputeHashes(e);
      var k := NextSlot(locs, lastLoc);
      assert locs[k] in locs;
      CarriesSwap(st0, e0, Now(), e, lastEpoch, locs[k]);
      lastLoc' := Some(locs[k]);
      e', lastEpoch' := Swap(e, locs[k], lastEpoch);
    }

    lemma ReachesNext(st: State<E>, e: E, lastLoc: Option<nat>, recent: bool, depth: nat)
      requires st.Shaped() && 0 < size == |st.table| && depth > 0 && forall loc | loc in ComputeHashes(e) :: !st.collected[loc]
      ensures var loc := NextLoc(e, lastLoc);
              ReachesOpen(st, e, lastLoc, recent, depth) <==>
              ReachesOpen(st.Write(loc, e, recent), st.table[loc], Some(loc), st.epoch[loc], depth - 1)
    {
    }

    /** An element that is in none of its slots is nowhere in the table. */
    lemma NotHeld(e: E)
      requires Shaped() && Sound(Now(), Slots(), empty) && forall loc | loc in ComputeHashes(e) :: table[loc] != e
      ensures Absent(Now(), e, empty) && Now().Held(e) == 0
    {
      forall i | 0 <= i < size ensures table[i] == e ==> e == empty && collectionFlags.bits[i] {
        assert Now().table[i] == table[i];
      }
      CopiesAreStored(table, collectionFlags.bits, e, size);
    }

    /** An element that is collectable where it is has no other copy. */
    lemma HeldOnce(e: E, loc: nat)
      requires Shaped() && Sound(Now(), Slots(), empty) && loc < size && table[loc] == e
      ensures !collectionFlags.bits[loc] ==> Now().Held(e) > 0
      ensures collectionFlags.bits[loc] && e != empty ==> Now().Held(e) == 0
    {
      CopiesAreStored(table, collectionFlags.bits, e, size);
      forall i | 0 <= i < size && i != loc ensures table[i] == e ==> e == empty {
        assert i < loc ==> (Now().table[i] == Now().table[loc] ==> Now().table[i] == empty);
        assert loc < i ==> (Now().table[loc] == Now().table[i] ==> Now().table[loc] == empty);
      }
    }

    /**
     Inserts an element.  After the epoch check, either the element was live already and nothing
     changes, or it becomes live and at most one element, possibly itself, disappears; none does if
     one of its own slots was collectable.
     */
    method Insert(e: E) returns (ghost known: bool, ghost dropped: Option<E>)
      requires Valid()
      modifies this`table, this`epochFlags, this`epochHeuristicCounter, collectionFlags
      ensures Valid()
      ensures var mid := Checked(old(Now()), old(epochHeuristicCounter), epochSize);
              && (forall x :: Now().Held(x) + Unit(dropped == Some(x)) == mid.Held(x) + Unit(x == e && !known))
              && (known ==> mid.Held(e) > 0 && dropped.None?)
              && (!known && e != empty ==> mid.Held(e) == 0)
              && (dropped.Some? ==> forall loc | loc in ComputeHashes(e) :: !mid.collected[loc])
              && mid.Shaped() && |mid.table| == size
              // Nothing is lost exactly if the element is there already, or the chain reaches an open slot.
              && (dropped.None? <==>
                  (exists loc | loc in ComputeHashes(e) :: mid.table[loc] == e) || ReachesOpen(mid, e, None, true, depthLimit))
    {
      EpochCheck();
      ghost var mid := Now();
      var k := FindHeld(e);
      if k < 8 {
        var loc := ComputeHashes(e)[k];
        HeldOnce(e, loc);
        known, dropped := !collectionFlags.bits[loc], None;
        forall x ensures mid.Write(loc, e, true).Held(x) == mid.Held(x) + Unit(x == e && !known) {
          WriteCounts(mid, loc, e, true, x, true);
        }
        WriteCounts(mid, loc, e, true, e, true);
        WriteCounts(mid, loc, e, true, e, false);
        Refresh(e, loc);
        return;
      }
      known := false;
      NotHeld(e);
      dropped := Displace(e);
    }

    /** Whether an element is in the table, and, if asked to, marking it as collectable. */
    method Contains(e: E, erase: bool) returns (found: bool)
      requires Valid()
      modifies collectionFlags
      ensures Valid()
      ensures found <==> exists loc | loc in ComputeHashes(e) :: table[loc] == e
      ensures e != empty ==> (found <==> e in table)
      ensures Now().Held(e) > 0 ==> old(Now()).Held(e) > 0
      ensures forall x | x != e :: Now().Held(x) == old(Now()).Held(x)
      ensures if erase && found then e != empty ==> Now().Held(e) == 0 else Now() == old(Now())
    {
      var k := FindHeld(e);
      found := k < 8;
      if found {
        var loc := ComputeHashes(e)[k];
        assert loc in ComputeHashes(e);
        if erase {
          EraseKeeps(loc, e);
          collectionFlags.Set(loc);
          HeldOnce(e, loc);
        }
      } else {
        NotHeld(e);
      }
    }

    lemma EraseKeeps(loc: nat, e: E)
      requires Valid() && loc < size && table[loc] == e
      ensures var st := State(table, collectionFlags.bits[loc := true], epochFlags);
              && Sound(st, Slots(), empty)
              && st.Epoch(true) <= Now().Epoch(true) && st.Epoch(false) <= Now().Epoch(false)
              && st.Held(e) <= Now().Held(e)
              && forall x | x != e :: st.Held(x) == Now().Held(x)
    {
      var st := State(table, collectionFlags.bits[loc := true], epochFlags);
      assert table[loc := e] == table && epochFlags[loc := epochFlags[loc]] == epochFlags;
      CountSet(collectionFlags.bits, epochFlags, true, size, loc, true, epochFlags[loc]);
      CountSet(collectionFlags.bits, epochFlags, false, size, loc, true, epochFlags[loc]);
      forall x ensures st.Held(x) + Unit(!collectionFlags.bits[loc] && x == e) == Now().Held(x) {
        CopiesSet(table, collectionFlags.bits, x, size, loc, e, true);
      }
      forall i | 0 <= i < size ensures (!st.collected[i] || st.table[i] != empty) ==> i in Slots()(st.table[i]) {
        assert Now().table[i] == st.table[i];
      }
    }

    /** Erasing does not hide an element: only a later insertion can. */
    method EraseThenLook(e: E) returns (before: bool, after: bool)
      requires Valid()
      modifies collectionFlags
      ensures Valid() && before == after
    {
      before := Contains(e, true);
      after := Contains(e, false);
    }
  }

  // ----- Whole runs -----

  datatype Op<E> = Insert(e: E) | Contains(e: E, erase: bool)

  /** In every run the number of live elements stays below twice the bound of an epoch. */
  method Run<E(==,!new)>(depth: nat, empty: E, hash: (nat, E) -> nat, ops: seq<Op<E>>) returns (cache: Cache<E>)
    requires 1 <= depth <= 31
    ensures fresh(cache) && cache.Valid()
    ensures cache.Now().Epoch(true) + cache.Now().Epoch(false) <= 2 * EpochBound(cache.epochSize)
  {
    cache := new Cache(depth, empty, hash);
    for i := 0 to |ops|
      invariant fresh(cache) && fresh(cache.collectionFlags) && cache.Valid()
    {
      match ops[i]
      case Insert(e) =>
        ghost var known, dropped := cache.Insert(e);
      case Contains(e, erase) =>
        var found := cache.Contains(e, erase);
    }
  }
}
