/**
 Compact blocks (BIP 152): a block is announced by short ids and a few transactions, and put
 together again from the memory pool and from what is asked for.
 */
module CompactBlocks {
  import opened Transactions
  import opened Sets

  const MAX_INDEX: nat := 0xFFFF

  /** What a 16-bit field keeps of a number. */
  function Low16(x: nat): nat {
    x % 0x1_0000
  }

  type Size = n: int | 0 <= n < 0x1_0000_0000_0000_0000

  /** What a 64-bit field keeps of a number. */
  function Low64(x: int): Size {
    x % 0x1_0000_0000_0000_0000
  }

  // ----- Lists of indexes as differences -----

  ghost predicate Ascending(s: seq<nat>) {
    forall i, j | 0 <= i < j < |s| :: s[i] < s[j]
  }

  ghost predicate Indexes(s: seq<nat>) {
    forall i | 0 <= i < |s| :: s[i] <= MAX_INDEX
  }

  /** What is written for an index: how far it is beyond the one after the previous index, as 64 bits. */
  function Difference(indexes: seq<nat>, i: nat): nat
    requires i < |indexes|
  {
    var difference: int := (indexes[i] as int) - if i == 0 then 0 else indexes[i - 1] + 1;
    Low64(difference)
  }

  method EncodeIndexes(indexes: seq<nat>) returns (s: seq<nat>)
    ensures |s| == |indexes| && forall i | 0 <= i < |s| :: s[i] == Difference(indexes, i)
  {
    s := [];
    for i := 0 to |indexes|
      invariant |s| == i && forall j | 0 <= j < i :: s[j] == Difference(indexes, j)
    {
      s := s + [Difference(indexes, i)];
    }
  }

  /** One more index, unless a number does not fit into 16 bits. */
  ghost function Extended(front: Option<seq<nat>>, difference: nat): Option<seq<nat>> {
    if front.None? then None
    else
      var next := difference + if front.value == [] then 0 else Low16(front.value[|front.value| - 1] + 1);
      if difference > MAX_INDEX || next > MAX_INDEX then None else Some(front.value + [next])
  }

  /** The indexes that the first n differences stand for. */
  ghost function Decoded(s: seq<nat>, n: nat): Option<seq<nat>>
    requires n <= |s|
  {
    if n == 0 then Some([]) else Extended(Decoded(s, n - 1), s[n - 1])
  }

  /** Reads 16-bit numbers, growing the list in batches. */
  method ReadIndexes(s: seq<nat>) returns (r: Option<seq<nat>>)
    ensures r == if Indexes(s) then Some(s) else None
  {
    var indexes: seq<nat> := [];
    var i := 0;
    while |indexes| < |s|
      invariant i == |indexes| <= |s| && indexes == s[..i] && Indexes(indexes)
      decreases |s| - |indexes|
    {
      var size := if 1000 + |indexes| < |s| then 1000 + |indexes| else |s|;
      indexes := indexes + seq(size - |indexes|, _ => 0);
      while i < |indexes|
        invariant i <= |indexes| == size <= |s| && indexes[..i] == s[..i] && Indexes(s[..i])
      {
        if s[i] > MAX_INDEX {
          return None;
        }
        indexes := indexes[i := s[i]];
        assert indexes[..i + 1] == s[..i + 1];
        i := i + 1;
      }
      assert indexes == indexes[..i];
    }
    assert s[..|s|] == s;
    r := Some(indexes);
  }

  /** Adds the differences up, in place; both passes may refuse. */
  method DecodeIndexes(s: seq<nat>) returns (r: Option<seq<nat>>)
    ensures r == Decoded(s, |s|)
  {
    var read := ReadIndexes(s);
    if read.None? {
      var i :| 0 <= i < |s| && s[i] > MAX_INDEX;
      TooLarge(s, i);
      return None;
    }
    var indexes := read.value;
    var offset := 0;
    for j := 0 to |s|
      invariant |indexes| == |s| && (forall k | j <= k < |s| :: indexes[k] == s[k])
      invariant Decoded(s, j) == Some(indexes[..j])
      invariant offset == if j == 0 then 0 else Low16(indexes[j - 1] + 1)
    {
      if indexes[j] + offset > MAX_INDEX {
        NoneStays(s, j + 1, |s|);
        return None;
      }
      ghost var was := indexes[..j];
      indexes := indexes[j := indexes[j] + offset];
      assert indexes[..j + 1] == was + [s[j] + offset];
      offset := Low16(indexes[j] + 1);
    }
    assert indexes[..|s|] == indexes;
    r := Some(indexes);
  }

  lemma {:induction false} NoneStays(s: seq<nat>, m: nat, n: nat)
    requires m <= n <= |s| && Decoded(s, m).None?
    ensures Decoded(s, n).None?
  {
    if m < n {
      NoneStays(s, m, n - 1);
    }
  }

  lemma TooLarge(s: seq<nat>, i: nat)
    requires i < |s| && s[i] > MAX_INDEX
    ensures Decoded(s, |s|).None?
  {
    NoneStays(s, i + 1, |s|);
  }

  /** Where the index after n differences would be, if nothing wrapped. */
  ghost function Reach(s: seq<nat>, n: nat): nat
    requires n <= |s|
  {
    if n == 0 then 0 else Reach(s, n - 1) + s[n - 1] + 1
  }

  ghost predicate WrapsAt(v: seq<nat>, i: nat) {
    i + 1 < |v| && v[i] == MAX_INDEX
  }

  lemma {:induction false} DecodedReach(s: seq<nat>, n: nat)
    requires n <= |s| && Decoded(s, n).Some?
    ensures var v := Decoded(s, n).value;
            && |v| == n && Indexes(v)
            && (Reach(s, n) <= MAX_INDEX + 1 ==> Ascending(v) && (n > 0 ==> v[n - 1] == Reach(s, n) - 1))
            && (Reach(s, n) > MAX_INDEX + 1 ==> exists i: nat :: WrapsAt(v, i))
  {
    if n > 0 {
      DecodedReach(s, n - 1);
      var before, v := Decoded(s, n - 1).value, Decoded(s, n).value;
      assert v[..n - 1] == before;
      if Reach(s, n - 1) > MAX_INDEX + 1 {
        var i: nat :| WrapsAt(before, i);
        assert WrapsAt(v, i);
      } else {
        ReachStep(before, v, Reach(s, n - 1), s[n - 1]);
      }
    }
  }

  /** One more difference goes up, or wraps. */
  lemma ReachStep(before: seq<nat>, v: seq<nat>, reach: nat, difference: nat)
    requires Ascending(before) && reach <= MAX_INDEX + 1 && (if before == [] then reach == 0 else before[|before| - 1] == reach - 1)
    requires v == before + [difference + if before == [] then 0 else Low16(before[|before| - 1] + 1)]
    ensures reach + difference + 1 <= MAX_INDEX + 1 ==> Ascending(v) && v[|before|] == reach + difference
    ensures v[|before|] <= MAX_INDEX && reach + difference + 1 > MAX_INDEX + 1 ==> WrapsAt(v, |before| - 1)
  {
  }

  /** What is decoded ascends strictly if and only if the differences do not reach beyond 65535: after that index the
      16-bit offset starts again at zero. */
  lemma DecodedAscends(s: seq<nat>, n: nat)
    requires n <= |s| && Decoded(s, n).Some?
    ensures Ascending(Decoded(s, n).value) <==> Reach(s, n) <= MAX_INDEX + 1
  {
    DecodedReach(s, n);
    var v := Decoded(s, n).value;
    if Reach(s, n) > MAX_INDEX + 1 {
      var i: nat :| WrapsAt(v, i);
      assert v[i + 1] <= v[i];
    }
  }

  /** A request for the last possible index and then for the first is accepted. */
  lemma NotAscending()
    ensures Decoded([MAX_INDEX, 0], 2) == Some([MAX_INDEX, 0]) && !Ascending([MAX_INDEX, 0])
  {
    var s := [MAX_INDEX, 0];
    assert Decoded(s, 0) == Some([]);
    var none: seq<nat> := [];
    assert none + [MAX_INDEX] == [MAX_INDEX] && [MAX_INDEX] + [0] == s;
    assert Decoded(s, 1) == Extended(Some(none), MAX_INDEX) == Some([MAX_INDEX]);
    assert Decoded(s, 2) == Extended(Some([MAX_INDEX]), 0);
    assert s[0] > s[1];
  }

  ghost function Differences(indexes: seq<nat>): seq<nat> {
    seq(|indexes|, i requires 0 <= i < |indexes| => Difference(indexes, i))
  }

  lemma AscendingFront(s: seq<nat>, n: nat)
    requires |s| == n + 1
    ensures Ascending(s) <==> Ascending(s[..n]) && (n == 0 || s[n - 1] < s[n])
  {
    if Ascending(s[..n]) && (n == 0 || s[n - 1] < s[n]) {
      forall i, j | 0 <= i < j <= n ensures s[i] < s[j] {
        assert i < n - 1 ==> s[..n][i] < s[..n][n - 1];
        assert j < n ==> s[..n][i] < s[..n][j];
      }
    }
    if Ascending(s) {
      forall i, j | 0 <= i < j < n ensures s[..n][i] < s[..n][j] {
        assert s[i] < s[j];
      }
    }
  }

  lemma {:induction false} RoundTripFront(indexes: seq<nat>, n: nat)
    requires Indexes(indexes) && n <= |indexes|
    ensures Decoded(Differences(indexes), n) == if Ascending(indexes[..n]) then Some(indexes[..n]) else None
  {
    if n > 0 {
      RoundTripFront(indexes, n - 1);
      ExtendDifference(indexes, n);
      AscendingFront(indexes[..n], n - 1);
      assert indexes[..n][..n - 1] == indexes[..n - 1];
    }
  }

  lemma ExtendDifference(indexes: seq<nat>, n: nat)
    requires Indexes(indexes) && 0 < n <= |indexes|
    ensures Extended(Some(indexes[..n - 1]), Difference(indexes, n - 1)) ==
            if n == 1 || indexes[n - 2] < indexes[n - 1] then Some(indexes[..n]) else None
  {
    assert indexes[..n] == indexes[..n - 1] + [indexes[n - 1]];
  }

  /** Encoding and decoding is the identity exactly on strictly ascending lists; others are refused. */
  lemma IndexRoundTrip(indexes: seq<nat>)
    requires Indexes(indexes)
    ensures Decoded(Differences(indexes), |indexes|) == if Ascending(indexes) then Some(indexes) else None
  {
    RoundTripFront(indexes, |indexes|);
    assert indexes[..|indexes|] == indexes;
  }

  // ----- Slots of a block -----

  datatype Tx = Tx(hash: Uint256, witnessHash: Uint256, isNull: bool, content: nat)

  type Slots = seq<Option<Tx>>

  /** The empty ones among the first n slots, in order. */
  ghost function Empty(a: Slots, n: nat): seq<nat>
    requires n <= |a|
    decreases |a|, n
  {
    if n == 0 then [] else Empty(a, n - 1) + if a[n - 1].None? then [n - 1] else []
  }

  lemma {:induction false} EmptyFacts(a: Slots, n: nat)
    requires n <= |a|
    ensures forall i, j | 0 <= i < j < |Empty(a, n)| :: Empty(a, n)[i] < Empty(a, n)[j]
    ensures forall i | 0 <= i < |Empty(a, n)| :: Empty(a, n)[i] < n && a[Empty(a, n)[i]].None?
  {
    if n > 0 {
      EmptyFacts(a, n - 1);
    }
  }

  lemma {:induction false} EmptySame(a: Slots, b: Slots, n: nat)
    requires n <= |a| && n <= |b| && forall i | 0 <= i < n :: a[i].None? <==> b[i].None?
    ensures Empty(a, n) == Empty(b, n)
  {
    if n > 0 {
      EmptySame(a, b, n - 1);
    }
  }

  lemma {:induction false} EmptyAll(a: Slots, n: nat)
    requires n <= |a| && forall i | 0 <= i < n :: a[i].None?
    ensures |Empty(a, n)| == n
  {
    if n > 0 {
      EmptyAll(a, n - 1);
    }
  }

  /** Filling an empty slot leaves one less. */
  lemma {:induction false} EmptyFilled(a: Slots, p: nat, tx: Tx, n: nat)
    requires p < n <= |a| && a[p].None?
    ensures |Empty(a[p := Some(tx)], n)| == |Empty(a, n)| - 1
  {
    if p == n - 1 {
      EmptySame(a, a[p := Some(tx)], n - 1);
    } else {
      EmptyFilled(a, p, tx, n - 1);
    }
  }

  /** The i-th empty slot is the next one after i empty ones. */
  lemma {:induction false} EmptyPrefix(a: Slots, m: nat, n: nat)
    requires m <= n <= |a|
    ensures Empty(a, m) <= Empty(a, n)
  {
    if m < n {
      EmptyPrefix(a, m, n - 1);
    }
  }

  // ----- Prefilled transactions -----

  datatype Prefilled = Prefilled(index: nat, tx: Tx)

  datatype Compact = Compact(headerNull: bool, shorttxids: seq<nat>, prefilledtxn: seq<Prefilled>)

  /** The index of the last of the first k prefilled transactions, or -1. */
  ghost function Last(pre: seq<Prefilled>, k: nat): int
    requires k <= |pre|
  {
    if k == 0 then -1 else Last(pre, k - 1) + pre[k - 1].index + 1
  }

  lemma {:induction false} LastAscends(pre: seq<Prefilled>, j: nat, k: nat)
    requires j < k <= |pre|
    ensures Last(pre, j) < Last(pre, k)
  {
    if j < k - 1 {
      LastAscends(pre, j, k - 1);
    }
  }

  /** The index of a prefilled transaction. */
  ghost function At(pre: seq<Prefilled>, i: nat): int
    requires i < |pre|
  {
    Last(pre, i + 1)
  }

  /** A prefilled transaction that the source accepts at its place. */
  ghost predicate Acceptable(c: Compact, i: nat)
    requires i < |c.prefilledtxn|
  {
    && !c.prefilledtxn[i].tx.isNull
    && At(c.prefilledtxn, i) <= MAX_INDEX
    && At(c.prefilledtxn, i) <= |c.shorttxids| + i
  }

  /** Exactly the first k prefilled transactions are in place. */
  ghost predicate Placed(c: Compact, a: Slots, k: nat)
    requires k <= |c.prefilledtxn|
  {
    && |a| == |c.shorttxids| + |c.prefilledtxn|
    && (forall i {:trigger At(c.prefilledtxn, i)} | 0 <= i < k ::
          0 <= At(c.prefilledtxn, i) < |a| && a[At(c.prefilledtxn, i)] == Some(c.prefilledtxn[i].tx))
    && (forall q {:trigger a[q]} | 0 <= q < |a| && a[q].Some? :: q <= Last(c.prefilledtxn, k))
    && |Empty(a, |a|)| == |a| - k
  }

  lemma PlaceNext(c: Compact, a: Slots, k: nat)
    requires k < |c.prefilledtxn| && Placed(c, a, k) && Acceptable(c, k)
    ensures 0 <= At(c.prefilledtxn, k) < |a|
    ensures Placed(c, a[At(c.prefilledtxn, k) := Some(c.prefilledtxn[k].tx)], k + 1)
  {
    var p := At(c.prefilledtxn, k);
    LastAscends(c.prefilledtxn, 0, k + 1);
    LastAscends(c.prefilledtxn, k, k + 1);
    assert a[p].None?;
    EmptyFilled(a, p, c.prefilledtxn[k].tx, |a|);
    var a' := a[p := Some(c.prefilledtxn[k].tx)];
    forall i | 0 <= i < k + 1
      ensures 0 <= At(c.prefilledtxn, i) < |a'| && a'[At(c.prefilledtxn, i)] == Some(c.prefilledtxn[i].tx)
    {
      if i < k {
        LastAscends(c.prefilledtxn, i + 1, k + 1);
      }
    }
  }

  method PlacePrefilled(c: Compact) returns (ok: bool, a: Slots)
    ensures ok <==> forall i | 0 <= i < |c.prefilledtxn| :: Acceptable(c, i)
    ensures ok ==> Placed(c, a, |c.prefilledtxn|)
  {
    a := seq(|c.shorttxids| + |c.prefilledtxn|, _ => None);
    EmptyAll(a, |a|);
    var lastprefilledindex := -1;
    for i := 0 to |c.prefilledtxn|
      invariant lastprefilledindex == Last(c.prefilledtxn, i) && Placed(c, a, i)
      invariant forall j | 0 <= j < i :: Acceptable(c, j)
    {
      if c.prefilledtxn[i].tx.isNull {
        assert !Acceptable(c, i);
        return false, a;
      }
      lastprefilledindex := lastprefilledindex + c.prefilledtxn[i].index + 1;
      if lastprefilledindex > MAX_INDEX {
        assert !Acceptable(c, i);
        return false, a;
      }
      if lastprefilledindex > |c.shorttxids| + i {
        assert !Acceptable(c, i);
        return false, a;
      }
      PlaceNext(c, a, i);
      a := a[lastprefilledindex := Some(c.prefilledtxn[i].tx)];
    }
    ok := true;
  }

  /** Announcements that are turned down. */
  ghost predicate Refused(c: Compact) {
    || c.headerNull || (c.shorttxids == [] && c.prefilledtxn == [])
    || |c.shorttxids| + |c.prefilledtxn| > MAX_TRANSACTIONS
    || exists i :: 0 <= i < |c.prefilledtxn| && !Acceptable(c, i)
  }

  lemma PlacedLow(c: Compact, a: Slots)
    requires Placed(c, a, |c.prefilledtxn|) && forall i | 0 <= i < |c.prefilledtxn| :: Acceptable(c, i)
    ensures FilledLow(a)
  {
    var n := |c.prefilledtxn|;
    if n > 0 {
      assert Acceptable(c, n - 1);
      assert At(c.prefilledtxn, n - 1) == Last(c.prefilledtxn, n);
    }
  }

  // ----- Short ids -----

  /** The first n of some numbers, as a set. */
  ghost function First(s: seq<nat>, n: nat): set<nat>
    requires n <= |s|
  {
    if n == 0 then {} else First(s, n - 1) + {s[n - 1]}
  }

  lemma {:induction false} FirstHolds(s: seq<nat>, n: nat, x: nat)
    requires n <= |s|
    ensures x in First(s, n) <==> exists i :: 0 <= i < n && s[i] == x
  {
    if n > 0 {
      FirstHolds(s, n - 1, x);
    }
  }

  lemma {:induction false} FirstAtMost(s: seq<nat>, n: nat)
    requires n <= |s|
    ensures |First(s, n)| <= n
  {
    if n > 0 {
      FirstAtMost(s, n - 1);
    }
  }

  /** There are as many numbers as positions exactly if no two are equal. */
  lemma {:induction false} FirstSize(s: seq<nat>, n: nat)
    requires n <= |s|
    ensures |First(s, n)| <= n
    ensures |First(s, n)| == n <==> forall i, j | 0 <= i < j < n :: s[i] != s[j]
  {
    if n > 0 {
      FirstSize(s, n - 1);
      FirstHolds(s, n - 1, s[n - 1]);
    }
  }

  ghost predicate SlotOf(ids: map<nat, nat>, id: nat, slot: nat) {
    id in ids && ids[id] == Low16(slot)
  }

  /** The short ids seen so far and, unless some coincide, the slot of each, as far as 16 bits can say. */
  ghost predicate Maps(ids: map<nat, nat>, shorttxids: seq<nat>, slots: seq<nat>, n: nat)
    requires n <= |shorttxids| && n <= |slots|
  {
    && ids.Keys == First(shorttxids, n)
    && (|ids| == n ==> forall i {:trigger SlotOf(ids, shorttxids[i], slots[i])} | 0 <= i < n :: SlotOf(ids, shorttxids[i], slots[i]))
  }

  lemma MapsNext(ids: map<nat, nat>, shorttxids: seq<nat>, slots: seq<nat>, n: nat)
    requires n < |shorttxids| && n < |slots| && Maps(ids, shorttxids, slots, n)
    ensures Maps(ids[shorttxids[n] := Low16(slots[n])], shorttxids, slots, n + 1)
  {
    var ids' := ids[shorttxids[n] := Low16(slots[n])];
    FirstAtMost(shorttxids, n);
    MapGrows(ids, shorttxids[n], Low16(slots[n]), n);
    if |ids'| == n + 1 {
      forall i | 0 <= i < n + 1 ensures SlotOf(ids', shorttxids[i], slots[i]) {
        assert i < n ==> SlotOf(ids, shorttxids[i], slots[i]);
      }
    }
  }

  lemma MapGrows(m: map<nat, nat>, x: nat, v: nat, n: nat)
    requires |m.Keys| <= n
    ensures m[x := v].Keys == m.Keys + {x}
    ensures |m[x := v]| == n + 1 ==> x !in m && |m| == n
  {
    var m' := m[x := v];
    assert m'.Keys == m.Keys + {x};
    assert |m'| == |m'.Keys| && |m| == |m.Keys|;
    assert x in m ==> m'.Keys == m.Keys;
  }

  /** How the scan for slots ends: with the slots, with a collision or a crowded bucket, or not at all. */
  datatype Mapped = Slotted(ids: map<nat, nat>) | Collision | Endless

  /** Filled slots have 16-bit indexes, as prefilled transactions do. */
  ghost predicate FilledLow(a: Slots) {
    forall q {:trigger a[q]} | 0 <= q < |a| && a[q].Some? :: q <= MAX_INDEX
  }

  /** Finds, for every short id in turn, the next empty slot.  The offset has 16 bits: with more filled
      slots than it can count it goes round for ever, and with fewer it never leaves the block. */
  method MapShortIds(shorttxids: seq<nat>, a: Slots, crowded: nat -> bool) returns (r: Mapped)
    requires |Empty(a, |a|)| == |shorttxids| && FilledLow(a)
    ensures r.Endless? <==> shorttxids != [] && |a| - |shorttxids| > MAX_INDEX
    ensures r.Collision? <==> !r.Endless? && (!Distinct(shorttxids) || Crowds(crowded, |shorttxids|))
    ensures r.Slotted? ==> Maps(r.ids, shorttxids, Empty(a, |a|), |shorttxids|)
  {
    ghost var slots := Empty(a, |a|);
    MappingStart(shorttxids, a, slots);
    r := MapLoop(shorttxids, a, crowded, slots);
  }

  method MapLoop(shorttxids: seq<nat>, a: Slots, crowded: nat -> bool, ghost slots: seq<nat>) returns (r: Mapped)
    requires |slots| == |shorttxids| && FilledLow(a)
    requires Mapping(map[], shorttxids, a, slots, 0, 0)
    ensures r.Endless? <==> shorttxids != [] && |a| - |shorttxids| > MAX_INDEX
    ensures r.Collision? <==> !r.Endless? && (!Distinct(shorttxids) || Crowds(crowded, |shorttxids|))
    ensures r.Slotted? ==> Maps(r.ids, shorttxids, slots, |shorttxids|)
  {
    var ids: map<nat, nat> := map[];
    var indexOffset: nat, i: nat := 0, 0;
    ghost var next: nat := 0;
    while i < |shorttxids|
      invariant i <= |shorttxids| && indexOffset <= MAX_INDEX && next == i + indexOffset
      invariant Mapping(ids, shorttxids, a, slots, next, i)
      invariant i > 0 ==> |a| - |shorttxids| <= MAX_INDEX
      invariant i == 0 ==> next == 0
      invariant forall j: nat | j < i :: !crowded(j)
    {
      var ends;
      ends, ids, indexOffset, next := MapOne(ids, shorttxids, a, i, indexOffset, slots, next);
      if !ends {
        return Endless;
      }
      if crowded(i) {
        return Collision;
      }
      i := i + 1;
    }
    MappingEnd(ids, shorttxids, a, slots, next);
    r := if |ids| == |shorttxids| then Slotted(ids) else Collision;
  }

  ghost predicate Crowds(crowded: nat -> bool, n: nat) {
    exists i: nat :: i < n && crowded(i)
  }

  lemma MappingStart(shorttxids: seq<nat>, a: Slots, slots: seq<nat>)
    requires slots == Empty(a, |a|)
    ensures Mapping(map[], shorttxids, a, slots, 0, 0)
  {
  }

  lemma MappingEnd(ids: map<nat, nat>, shorttxids: seq<nat>, a: Slots, slots: seq<nat>, next: nat)
    requires |shorttxids| <= |slots| && Mapping(ids, shorttxids, a, slots, next, |shorttxids|)
    ensures Maps(ids, shorttxids, slots, |shorttxids|) && (|ids| == |shorttxids| <==> Distinct(shorttxids))
  {
    FirstSize(shorttxids, |shorttxids|);
    assert |ids| == |ids.Keys|;
  }

  /** One short id gets the next empty slot. */
  method MapOne(ids: map<nat, nat>, shorttxids: seq<nat>, a: Slots, i: nat, indexOffset: nat, ghost slots: seq<nat>, ghost from: nat)
    returns (ends: bool, ids': map<nat, nat>, offset: nat, ghost next: nat)
    requires i < |shorttxids| == |slots| && from == i + indexOffset && indexOffset <= MAX_INDEX
    requires Mapping(ids, shorttxids, a, slots, from, i) && FilledLow(a)
    requires |a| - |slots| <= MAX_INDEX || from == 0
    ensures ends <==> |a| - |slots| <= MAX_INDEX
    ensures ends ==> next == i + 1 + offset && offset <= MAX_INDEX && Mapping(ids', shorttxids, a, slots, next, i + 1)
  {
    ends, offset := SkipFilled(a, i, indexOffset, from);
    ids', next := ids, from;
    if ends {
      var slot := i + offset;
      next := slot + 1;
      MapsNext(ids, shorttxids, slots, i);
      ids' := ids[shorttxids[i] := Low16(slot)];
    }
  }

  /** Where the scan stands. */
  ghost predicate Mapping(ids: map<nat, nat>, shorttxids: seq<nat>, a: Slots, slots: seq<nat>, next: nat, i: nat)
    requires i <= |shorttxids| && i <= |slots|
  {
    Lists(a, slots) && Passed(a, next, i) && Maps(ids, shorttxids, slots, i)
  }

  ghost predicate Lists(a: Slots, slots: seq<nat>) {
    slots == Empty(a, |a|)
  }

  /** Among the first n slots, i are empty. */
  ghost predicate Passed(a: Slots, n: nat, i: nat) {
    n <= |a| && |Empty(a, n)| == i
  }

  /** Moves the 16-bit offset on until it leads to an empty slot; it does not end where each of its
      65536 values leads to a filled one. */
  method SkipFilled(a: Slots, i: nat, indexOffset: nat, ghost from: nat) returns (ends: bool, offset: nat)
    requires from == i + indexOffset && indexOffset <= MAX_INDEX && Passed(a, from, i) && i < |Empty(a, |a|)| && FilledLow(a)
    requires |a| - |Empty(a, |a|)| <= MAX_INDEX || from == 0
    ensures ends <==> |a| - |Empty(a, |a|)| <= MAX_INDEX
    ensures ends ==> i + offset < |a| && Passed(a, i + offset + 1, i + 1) && Empty(a, |a|)[i] == i + offset && offset <= MAX_INDEX
    ensures !ends ==> |a| > MAX_INDEX && forall o | 0 <= o <= MAX_INDEX :: a[o].Some?
  {
    offset := indexOffset;
    ghost var few := |a| - |Empty(a, |a|)| <= MAX_INDEX;
    SomeEmptyLeft(a, from);
    if !few {
      AllLowFilled(a);
    }
    var tried := 1;
    while a[i + offset].Some?
      invariant offset <= MAX_INDEX && i + offset < |a| && 1 <= tried <= MAX_INDEX + 1
      invariant few ==> offset == indexOffset + tried - 1 && Passed(a, i + offset, i)
      invariant !few ==> offset == tried - 1
      decreases MAX_INDEX + 1 - tried
    {
      FilledSoFar(a, i + offset);
      if tried == MAX_INDEX + 1 {
        return false, offset;
      }
      offset := Low16(offset + 1);
      tried := tried + 1;
      if few {
        SomeEmptyLeft(a, i + offset);
      }
    }
    NextEmpty(a, i + offset);
    ends := true;
  }

  lemma SomeEmptyLeft(a: Slots, n: nat)
    requires n <= |a| && |Empty(a, n)| < |Empty(a, |a|)|
    ensures n < |a|
  {
  }

  lemma NextEmpty(a: Slots, n: nat)
    requires n < |a| && a[n].None?
    ensures |Empty(a, n)| < |Empty(a, |a|)| && Empty(a, |a|)[|Empty(a, n)|] == n
    ensures |Empty(a, n + 1)| == |Empty(a, n)| + 1
    // The slots passed over are those that are not empty.
    ensures n - |Empty(a, n)| <= |a| - |Empty(a, |a|)|
  {
    EmptyPrefix(a, n + 1, |a|);
    EmptyGap(a, n, |a|);
  }

  lemma {:induction false} EmptyGap(a: Slots, m: nat, n: nat)
    requires m <= n <= |a|
    ensures m - |Empty(a, m)| <= n - |Empty(a, n)|
  {
    if m < n {
      EmptyGap(a, m, n - 1);
    }
  }

  /** A filled slot and the filled ones before it are among all filled ones. */
  lemma FilledSoFar(a: Slots, n: nat)
    requires n < |a| && a[n].Some?
    ensures n + 1 - |Empty(a, n)| <= |a| - |Empty(a, |a|)|
  {
    EmptyGap(a, n + 1, |a|);
  }

  lemma {:induction false} NoneEmpty(a: Slots, n: nat)
    requires n <= |a| && |Empty(a, n)| == 0
    ensures forall q | 0 <= q < n :: a[q].Some?
  {
    if n > 0 {
      NoneEmpty(a, n - 1);
    }
  }

  lemma {:induction false} AllEmptyAfter(a: Slots, m: nat, n: nat)
    requires m <= n <= |a| && forall q | m <= q < n :: a[q].None?
    ensures n - |Empty(a, n)| == m - |Empty(a, m)|
  {
    if m < n {
      AllEmptyAfter(a, m, n - 1);
    }
  }

  /** More filled slots than 16 bits can count, all of them low, fill every low slot. */
  lemma AllLowFilled(a: Slots)
    requires FilledLow(a) && |a| - |Empty(a, |a|)| > MAX_INDEX
    ensures |a| > MAX_INDEX && forall o | 0 <= o <= MAX_INDEX :: a[o].Some?
  {
    var m := if |a| <= MAX_INDEX + 1 then |a| else MAX_INDEX + 1;
    forall q | m <= q < |a| ensures a[q].None? {
      assert a[q].Some? ==> q <= MAX_INDEX;
    }
    AllEmptyAfter(a, m, |a|);
    NoneEmpty(a, m);
  }

  /** The slots as 16 bits store them. */
  ghost function Stored(slots: seq<nat>): seq<nat> {
    seq(|slots|, k requires 0 <= k < |slots| => Low16(slots[k]))
  }

  /**
   The slots stored for short ids are the empty slots exactly if the block has at most 65536
   transactions: beyond that, 16 bits cannot tell the last of them.
   */
  lemma PlacementExact(c: Compact, a: Slots)
    requires Placed(c, a, |c.prefilledtxn|) && c.shorttxids != [] && FilledLow(a)
    ensures |Empty(a, |a|)| == |c.shorttxids|
    ensures Stored(Empty(a, |a|)) == Empty(a, |a|) <==> |a| <= MAX_INDEX + 1
  {
    EmptyFacts(a, |a|);
    var slots := Empty(a, |a|);
    if |a| > MAX_INDEX + 1 {
      assert a[|a| - 1].Some? ==> |a| - 1 <= MAX_INDEX;
      assert slots[|slots| - 1] == |a| - 1;
      assert Stored(slots)[|slots| - 1] < slots[|slots| - 1];
    }
  }

  /** With a first transaction and 65536 short ids, the last short id is stored with the first slot. */
  lemma LastSlotWraps(c: Compact, a: Slots)
    requires |c.prefilledtxn| == 1 && Placed(c, a, 1) && c.prefilledtxn[0].index == 0 && |c.shorttxids| == MAX_INDEX + 1
    ensures a[0] == Some(c.prefilledtxn[0].tx)
    ensures Empty(a, |a|)[MAX_INDEX] == MAX_INDEX + 1 && Stored(Empty(a, |a|))[MAX_INDEX] == 0
  {
    assert Last(c.prefilledtxn, 1) == Last(c.prefilledtxn, 0) + 1 == 0;
    assert At(c.prefilledtxn, 0) == 0;
    assert forall q | 0 < q < |a| :: a[q].None?;
    EmptyButFirst(a, |a|);
  }

  // ----- Filling slots from the memory pool -----

  /** How many of the first n of some slots are filled. */
  ghost function Filled(a: Slots, slots: seq<nat>, n: nat): nat
    requires n <= |slots|
  {
    if n == 0 then 0
    else Filled(a, slots, n - 1) + if slots[n - 1] < |a| && a[slots[n - 1]].Some? then 1 else 0
  }

  /** How many of the first n slots were filled by a scan. */
  ghost function Matched(a: Slots, have: seq<bool>, n: nat): nat
    requires n <= |a| && n <= |have|
    decreases |a|, n
  {
    if n == 0 then 0 else Matched(a, have, n - 1) + if have[n - 1] && a[n - 1].Some? then 1 else 0
  }

  /** Changing one slot changes the number by what the slot contributes. */
  lemma {:induction false} MatchedSet(a: Slots, have: seq<bool>, q: nat, v: Option<Tx>, n: nat)
    requires n <= |a| == |have| && q < |a|
    ensures Matched(a[q := v], have[q := true], n) ==
            Matched(a, have, n) + if q < n then (if v.Some? then 1 else 0) - (if have[q] && a[q].Some? then 1 else 0) else 0
  {
    if n > 0 {
      MatchedSet(a, have, q, v, n - 1);
    }
  }

  lemma {:induction false} NothingMatched(a: Slots, have: seq<bool>, n: nat)
    requires n <= |a| == |have| && forall q | 0 <= q < |have| :: !have[q]
    ensures Matched(a, have, n) == 0
  {
    if n > 0 {
      NothingMatched(a, have, n - 1);
    }
  }

  datatype Entry = Entry(hash: Uint256, tx: Tx)

  /** Short ids with the slots they are stored with, and how short ids are computed. */
  datatype Index = Index(ids: map<nat, nat>, shortId: Uint256 -> nat) {

    /** The entry matches the short id that is stored with slot q. */
    ghost predicate Hit(e: Entry, q: nat) {
      shortId(e.hash) in ids && ids[shortId(e.hash)] == q
    }

    ghost predicate HitBy(seen: seq<Entry>, q: nat) {
      exists i {:trigger seen[i]} :: 0 <= i < |seen| && Hit(seen[i], q)
    }

    ghost predicate Taken(seen: seq<Entry>, q: nat, tx: Tx) {
      exists i {:trigger seen[i]} :: 0 <= i < |seen| && Hit(seen[i], q) && seen[i].tx == tx
    }

    ghost predicate HitTwice(seen: seq<Entry>, q: nat) {
      exists i, j {:trigger seen[i], seen[j]} :: 0 <= i < j < |seen| && Hit(seen[i], q) && Hit(seen[j], q)
    }

    lemma SeenOneMore(seen: seq<Entry>, e: Entry, q: nat)
      ensures HitBy(seen + [e], q) <==> HitBy(seen, q) || Hit(e, q)
      ensures HitBy(seen, q) && Hit(e, q) ==> HitTwice(seen + [e], q)
      ensures HitTwice(seen, q) ==> HitTwice(seen + [e], q)
      ensures forall tx | Taken(seen, q, tx) :: Taken(seen + [e], q, tx)
      ensures Hit(e, q) ==> Taken(seen + [e], q, e.tx)
    {
      var more := seen + [e];
      assert more[|seen|] == e;
      assert forall i | 0 <= i < |seen| :: more[i] == seen[i];
    }

    /** Entries that come to lie further apart are still the same entries. */
    lemma SeenMore(seen: seq<Entry>, gap: seq<Entry>, tail: seq<Entry>, rest: seq<Entry>, q: nat)
      ensures var all := seen + gap + tail + rest;
              && (HitBy(seen + tail, q) ==> HitBy(all, q))
              && (HitTwice(seen + tail, q) ==> HitTwice(all, q))
              && forall tx | Taken(seen + tail, q, tx) :: Taken(all, q, tx)
    {
      var all, some := seen + gap + tail + rest, seen + tail;
      var f := i => Shifted(i, |seen|, |gap|);
      forall i | 0 <= i < |some| ensures Moved(some, all, i, f(i)) {
        MovedApart(seen, gap, tail, rest, i);
      }
      Carried(some, all, q, f);
    }

    lemma MovedApart(seen: seq<Entry>, gap: seq<Entry>, tail: seq<Entry>, rest: seq<Entry>, i: nat)
      requires i < |seen + tail|
      ensures Moved(seen + tail, seen + gap + tail + rest, i, Shifted(i, |seen|, |gap|))
    {
      var front := seen + gap;
      if i >= |seen| {
        assert (front + tail)[i + |gap|] == tail[i - |seen|];
      } else {
        assert (front + tail)[i] == front[i] == seen[i];
      }
    }

    ghost function Shifted(i: int, n: int, gap: int): int {
      if i < n then i else i + gap
    }

    ghost predicate Moved(some: seq<Entry>, all: seq<Entry>, i: int, j: int) {
      0 <= i < |some| && 0 <= j < |all| && some[i] == all[j]
    }

    lemma Carried(some: seq<Entry>, all: seq<Entry>, q: nat, f: int -> int)
      requires forall i | 0 <= i < |some| :: Moved(some, all, i, f(i))
      requires forall i, j | 0 <= i < j < |some| :: f(i) < f(j)
      ensures HitBy(some, q) ==> HitBy(all, q)
      ensures HitTwice(some, q) ==> HitTwice(all, q)
      ensures forall tx | Taken(some, q, tx) :: Taken(all, q, tx)
    {
      if HitBy(some, q) {
        var i :| 0 <= i < |some| && Hit(some[i], q);
        assert Moved(some, all, i, f(i));
      }
      if HitTwice(some, q) {
        var i, j :| 0 <= i < j < |some| && Hit(some[i], q) && Hit(some[j], q);
        assert Moved(some, all, i, f(i)) && Moved(some, all, j, f(j));
      }
      forall tx | Taken(some, q, tx) ensures Taken(all, q, tx) {
        var i :| 0 <= i < |some| && Hit(some[i], q) && some[i].tx == tx;
        assert Moved(some, all, i, f(i));
      }
    }
  }

  /** A slot without a match is as it was; with one match it holds it; with more it holds one of them or is empty again. */
  ghost predicate SlotScanned(before: Slots, a: Slots, have: seq<bool>, x: Index, seen: seq<Entry>, q: nat)
    requires q < |a| == |have| == |before|
  {
    && (have[q] <==> x.HitBy(seen, q))
    && (!have[q] ==> a[q] == before[q])
    && (have[q] ==> if a[q].Some? then x.Taken(seen, q, a[q].value) else x.HitTwice(seen, q))
  }

  /** What the entries seen so far made of the slots. */
  ghost predicate Scanned(before: Slots, a: Slots, have: seq<bool>, count: int, x: Index, seen: seq<Entry>) {
    && |a| == |have| == |before|
    && (forall id | id in x.ids :: x.ids[id] < |a|)
    && (forall q: nat {:trigger SlotScanned(before, a, have, x, seen, q)} | q < |a| :: SlotScanned(before, a, have, x, seen, q))
    && count == Matched(a, have, |a|)
  }

  lemma ScanFill(before: Slots, a: Slots, have: seq<bool>, count: int, x: Index, seen: seq<Entry>, e: Entry, p: nat)
    requires Scanned(before, a, have, count, x, seen) && x.Hit(e, p) && !have[p]
    ensures Scanned(before, a[p := Some(e.tx)], have[p := true], count + 1, x, seen + [e])
  {
    MatchedSet(a, have, p, Some(e.tx), |a|);
    var a', have' := a[p := Some(e.tx)], have[p := true];
    forall q: nat | q < |a'| ensures SlotScanned(before, a', have', x, seen + [e], q) {
      assert SlotScanned(before, a, have, x, seen, q);
      x.SeenOneMore(seen, e, q);
    }
  }

  lemma ScanReset(before: Slots, a: Slots, have: seq<bool>, count: int, x: Index, seen: seq<Entry>, e: Entry, p: nat)
    requires Scanned(before, a, have, count, x, seen) && x.Hit(e, p) && have[p] && a[p].Some?
    ensures Scanned(before, a[p := None], have, count - 1, x, seen + [e])
  {
    MatchedSet(a, have, p, None, |a|);
    assert have[p := true] == have;
    var a' := a[p := None];
    forall q: nat | q < |a'| ensures SlotScanned(before, a', have, x, seen + [e], q) {
      assert SlotScanned(before, a, have, x, seen, q);
      x.SeenOneMore(seen, e, q);
    }
  }

  /** An entry that matches nothing, or only a slot that was matched before, changes nothing. */
  lemma ScanSkip(before: Slots, a: Slots, have: seq<bool>, count: int, x: Index, seen: seq<Entry>, e: Entry)
    requires Scanned(before, a, have, count, x, seen)
    requires forall p: nat | x.Hit(e, p) :: p < |have| && have[p]
    ensures Scanned(before, a, have, count, x, seen + [e])
  {
    forall q: nat | q < |a| ensures SlotScanned(before, a, have, x, seen + [e], q) {
      assert SlotScanned(before, a, have, x, seen, q);
      x.SeenOneMore(seen, e, q);
    }
  }

  // ----- Which match stays -----

  /** Entry f is the first that matches the slot. */
  ghost predicate FirstHit(x: Index, seen: seq<Entry>, f: nat, q: nat) {
    f < |seen| && x.Hit(seen[f], q) && forall i | 0 <= i < f :: !x.Hit(seen[i], q)
  }

  /** Entry k contradicts it: another match of the memory pool, which the first n entries are from, or an extra
      transaction with another witness. */
  ghost predicate Contradicts(x: Index, seen: seq<Entry>, n: nat, f: nat, k: nat, q: nat)
    requires f < |seen|
  {
    f < k < |seen| && x.Hit(seen[k], q) && (k < n || seen[k].tx.witnessHash != seen[f].tx.witnessHash)
  }

  /** A matched slot holds the first match, unless another one contradicts it. */
  ghost predicate FirstStays(slot: Option<Tx>, x: Index, seen: seq<Entry>, n: nat, q: nat) {
    forall f: nat | FirstHit(x, seen, f, q) ::
      slot == if exists k: nat :: Contradicts(x, seen, n, f, k, q) then None else Some(seen[f].tx)
  }

  ghost predicate AllFirst(a: Slots, x: Index, seen: seq<Entry>, n: nat) {
    forall q: nat {:trigger FirstStays(a[q], x, seen, n, q)} | q < |a| :: FirstStays(a[q], x, seen, n, q)
  }

  /** What the next entry makes of a slot. */
  ghost function Matching(slot: Option<Tx>, had: bool, e: Entry, fromPool: bool): Option<Tx> {
    if !had then Some(e.tx)
    else if slot.Some? && (fromPool || slot.value.witnessHash != e.tx.witnessHash) then None
    else slot
  }

  lemma FirstStaysNext(slot: Option<Tx>, x: Index, seen: seq<Entry>, n: nat, q: nat, e: Entry, n': nat)
    requires FirstStays(slot, x, seen, n, q) && (n' == n || (n == |seen| && n' == n + 1)) && n <= |seen|
    ensures FirstStays(if x.Hit(e, q) then Matching(slot, x.HitBy(seen, q), e, n' > n) else slot, x, seen + [e], n', q)
  {
    var more := seen + [e];
    var slot' := if x.Hit(e, q) then Matching(slot, x.HitBy(seen, q), e, n' > n) else slot;
    forall f: nat | FirstHit(x, more, f, q)
      ensures slot' == if exists k: nat :: Contradicts(x, more, n', f, k, q) then None else Some(more[f].tx)
    {
      if f == |seen| {
        NotYet(x, seen, e, q);
      } else {
        FirstKept(slot, x, seen, n, q, e, n', f);
      }
    }
  }

  lemma NotYet(x: Index, seen: seq<Entry>, e: Entry, q: nat)
    requires FirstHit(x, seen + [e], |seen|, q)
    ensures !x.HitBy(seen, q)
  {
    var more := seen + [e];
    forall i | 0 <= i < |seen|
      ensures !x.Hit(seen[i], q)
    {
      assert more[i] == seen[i];
    }
  }

  /** The first match is the same as before. */
  lemma FirstKept(slot: Option<Tx>, x: Index, seen: seq<Entry>, n: nat, q: nat, e: Entry, n': nat, f: nat)
    requires FirstStays(slot, x, seen, n, q) && (n' == n || (n == |seen| && n' == n + 1)) && n <= |seen|
    requires f < |seen| && FirstHit(x, seen + [e], f, q)
    ensures (if x.Hit(e, q) then Matching(slot, x.HitBy(seen, q), e, n' > n) else slot)
            == if exists k: nat :: Contradicts(x, seen + [e], n', f, k, q) then None else Some((seen + [e])[f].tx)
  {
    var more := seen + [e];
    assert forall i | 0 <= i < |seen| :: more[i] == seen[i];
    assert more[|seen|] == e;
    assert x.Hit(seen[f], q) && FirstHit(x, seen, f, q);
    forall k: nat | k < |seen|
      ensures Contradicts(x, more, n', f, k, q) <==> Contradicts(x, seen, n, f, k, q)
    {
    }
    if k: nat :| Contradicts(x, seen, n, f, k, q) {
      assert Contradicts(x, more, n', f, k, q);
    } else {
      assert Contradicts(x, more, n', f, |seen|, q) <==> x.Hit(e, q) && (n' > n || e.tx.witnessHash != seen[f].tx.witnessHash);
    }
  }

  /** The slots after one more entry. */
  ghost predicate Matches(a: Slots, a': Slots, have: seq<bool>, x: Index, e: Entry, fromPool: bool) {
    && |a| == |a'| == |have|
    && forall q: nat | q < |a| :: a'[q] == if x.Hit(e, q) then Matching(a[q], have[q], e, fromPool) else a[q]
  }

  lemma AllFirstNext(before: Slots, a: Slots, have: seq<bool>, count: int, x: Index, seen: seq<Entry>, n: nat, e: Entry, a': Slots, n': nat)
    requires Scanned(before, a, have, count, x, seen) && AllFirst(a, x, seen, n)
    requires n <= |seen| && (n' == n || (n == |seen| && n' == n + 1)) && Matches(a, a', have, x, e, n' > n)
    ensures AllFirst(a', x, seen + [e], n')
  {
    forall q: nat | q < |a'|
      ensures FirstStays(a'[q], x, seen + [e], n', q)
    {
      assert SlotScanned(before, a, have, x, seen, q);
      FirstStaysNext(a[q], x, seen, n, q, e, n');
    }
  }

  /** What the scan of the memory pool left: it went to the end, or until all slots were filled. */
  ghost predicate PoolDone(before: Slots, a: Slots, have: seq<bool>, seen: seq<Entry>, toEnd: bool, x: Index) {
    && |a| == |have| && Scanned(before, a, have, Matched(a, have, |a|), x, seen)
    && (!toEnd ==> seen != [] && Matched(a, have, |a|) == |x.ids|)
  }

  /** A slot that no short id is stored with, or that nothing matched, is as it was. */
  lemma ScannedKept(before: Slots, a: Slots, have: seq<bool>, count: int, x: Index, seen: seq<Entry>)
    requires Scanned(before, a, have, count, x, seen)
    ensures forall q: nat | q < |a| && (forall id | id in x.ids :: x.ids[id] != q) :: a[q] == before[q]
  {
    forall q: nat | q < |a| && (forall id | id in x.ids :: x.ids[id] != q) ensures a[q] == before[q] {
      assert SlotScanned(before, a, have, x, seen, q);
    }
  }

  ghost predicate Grown(have: seq<bool>, have': seq<bool>) {
    |have| == |have'| && forall q | 0 <= q < |have| && have[q] :: have'[q]
  }

  /** Later entries leave a matched slot as it was, or empty it. */
  ghost predicate Later(a: Slots, have: seq<bool>, a': Slots, have': seq<bool>) {
    && |a| == |have| == |a'| && Grown(have, have')
    && forall q | 0 <= q < |have| && have[q] && a'[q].Some? :: a'[q] == a[q]
  }

  lemma LaterStill(a: Slots, have: seq<bool>, a': Slots, have': seq<bool>, a'': Slots, have'': seq<bool>)
    requires Later(a, have, a', have') && Later(a', have', a'', have'')
    ensures Later(a, have, a'', have'')
  {
    forall q | 0 <= q < |have| && have[q]
      ensures have''[q] && (a''[q].Some? ==> a''[q] == a[q])
    {
      assert have'[q];
    }
  }

  /** How many of the first n slots hold a transaction and were matched only later. */
  ghost function Gained(have: seq<bool>, a': Slots, have': seq<bool>, n: nat): nat
    requires n <= |have| == |a'| == |have'|
    decreases |have|, n
  {
    if n == 0 then 0 else Gained(have, a', have', n - 1) + if have'[n - 1] && !have[n - 1] && a'[n - 1].Some? then 1 else 0
  }

  /** The slot was filled before, and is empty now. */
  ghost predicate Emptied(a: Slots, have: seq<bool>, a': Slots, q: nat)
    requires q < |a| == |have| == |a'|
  {
    have[q] && a[q].Some? && a'[q].None?
  }

  ghost function Lost(a: Slots, have: seq<bool>, a': Slots, n: nat): nat
    requires n <= |a| == |have| == |a'|
    decreases |a|, n
  {
    if n == 0 then 0 else Lost(a, have, a', n - 1) + if Emptied(a, have, a', n - 1) then 1 else 0
  }

  lemma {:induction false} MatchedLater(a: Slots, have: seq<bool>, a': Slots, have': seq<bool>, n: nat)
    requires Later(a, have, a', have') && n <= |a|
    ensures Matched(a', have', n) - Matched(a, have, n) == Gained(have, a', have', n) - Lost(a, have, a', n)
    ensures Gained(have, a', have', n) <= n && Lost(a, have, a', n) <= n
  {
    if n > 0 {
      MatchedLater(a, have, a', have', n - 1);
    }
  }

  lemma {:induction false} NothingLost(a: Slots, have: seq<bool>, a': Slots, n: nat)
    requires n <= |a| == |have| == |a'|
    ensures Lost(a, have, a', n) == 0 <==> forall q: nat | q < n :: !Emptied(a, have, a', q)
  {
    if n > 0 {
      NothingLost(a, have, a', n - 1);
    }
  }

  // ----- Stopping early -----

  ghost function Having(have: seq<bool>, n: nat): set<nat>
    requires n <= |have|
    decreases |have|, n
  {
    if n == 0 then {} else Having(have, n - 1) + if have[n - 1] then {n - 1} else {}
  }

  lemma {:induction false} MatchedAtMost(a: Slots, have: seq<bool>, n: nat)
    requires n <= |a| == |have|
    ensures Matched(a, have, n) <= |Having(have, n)| && forall q | q in Having(have, n) :: q < n && have[q]
  {
    if n > 0 {
      MatchedAtMost(a, have, n - 1);
    }
  }

  ghost predicate AllHave(x: Index, have: seq<bool>) {
    forall id {:trigger x.ids[id]} | id in x.ids :: x.ids[id] < |have| && have[x.ids[id]]
  }

  /** Once the counter reaches the number of short ids, every one of their slots was matched. */
  lemma StoppedEarly(before: Slots, a: Slots, have: seq<bool>, count: int, x: Index, seen: seq<Entry>)
    requires Scanned(before, a, have, count, x, seen) && count == |x.ids|
    ensures AllHave(x, have)
  {
    MatchedAtMost(a, have, |a|);
    var held := Having(have, |a|);
    forall q | q in held ensures q in x.ids.Values {
      assert SlotScanned(before, a, have, x, seen, q);
      var i :| 0 <= i < |seen| && x.Hit(seen[i], q);
    }
    ValuesAtMost(x.ids);
    SubsetSize(held, x.ids.Values);
  }

  lemma {:induction false} ValuesAtMost(m: map<nat, nat>)
    ensures |m.Values| <= |m|
  {
    if m.Keys != {} {
      var id :| id in m.Keys;
      var rest := m - {id};
      ValuesAtMost(rest);
      forall v | v in m.Values ensures v in rest.Values + {m[id]} {
        var k :| k in m && m[k] == v;
        assert k != id ==> k in rest && rest[k] == v;
      }
      SubsetSize(m.Values, rest.Values + {m[id]});
      assert m.Keys == rest.Keys + {id};
      assert |m| == |m.Keys| && |rest| == |rest.Keys|;
    }
  }

  /** What a scan of some entries made of the slots is what a scan of all would have: it stopped only when nothing was left to match. */
  lemma ScannedAll(before: Slots, a: Slots, have: seq<bool>, count: int, x: Index, pool: seq<Entry>, extra: seq<Entry>, i: nat, j: nat)
    requires i <= |pool| && j <= |extra| && Scanned(before, a, have, count, x, pool[..i] + extra[..j])
    requires (i == |pool| && j == |extra|) || AllHave(x, have)
    ensures Scanned(before, a, have, count, x, pool + extra)
  {
    var seen, all := pool[..i] + extra[..j], pool + extra;
    assert all == pool[..i] + pool[i..] + extra[..j] + extra[j..];
    forall q: nat | q < |a| ensures SlotScanned(before, a, have, x, all, q) {
      assert SlotScanned(before, a, have, x, seen, q);
      x.SeenMore(pool[..i], pool[i..], extra[..j], extra[j..], q);
      if i == |pool| && j == |extra| {
        assert seen == all;
      } else if x.HitBy(all, q) {
        var m :| 0 <= m < |all| && x.Hit(all[m], q);
        assert x.ids[x.shortId(all[m].hash)] == q;
      }
    }
  }

  lemma {:induction false} FilledPrefix(a: Slots, s: seq<nat>, t: seq<nat>, n: nat)
    requires n <= |s| && s <= t
    ensures Filled(a, s, n) == Filled(a, t, n)
  {
    if n > 0 {
      FilledPrefix(a, s, t, n - 1);
      assert s[n - 1] == t[n - 1];
    }
  }

  /** The counter of the source counts the filled slots of short ids. */
  lemma {:induction false} MatchedIsFilled(before: Slots, a: Slots, have: seq<bool>, x: Index, seen: seq<Entry>, n: nat)
    requires |a| == |have| == |before| && n <= |a|
    requires forall q: nat {:trigger SlotScanned(before, a, have, x, seen, q)} | q < |a| :: SlotScanned(before, a, have, x, seen, q)
    requires forall id | id in x.ids :: x.ids[id] < |a| && before[x.ids[id]].None?
    ensures Matched(a, have, n) == Filled(a, Empty(before, n), |Empty(before, n)|)
  {
    if n > 0 {
      MatchedIsFilled(before, a, have, x, seen, n - 1);
      assert SlotScanned(before, a, have, x, seen, n - 1);
      FilledPrefix(a, Empty(before, n - 1), Empty(before, n), |Empty(before, n - 1)|);
    }
  }

  /** The entry has this short id. */
  ghost predicate HasId(shortId: Uint256 -> nat, e: Entry, id: nat) {
    shortId(e.hash) == id
  }

  /** What the pools make of the slot of a short id: it holds a matching transaction; or it is empty,
      and none matches or more than one. */
  ghost predicate Supplied(slot: Option<Tx>, id: nat, shortId: Uint256 -> nat, all: seq<Entry>) {
    if slot.Some? then
      exists i {:trigger all[i]} :: 0 <= i < |all| && HasId(shortId, all[i], id) && all[i].tx == slot.value
    else
      || (forall i {:trigger all[i]} | 0 <= i < |all| :: !HasId(shortId, all[i], id))
      || exists i, j {:trigger all[i], all[j]} :: 0 <= i < j < |all| && HasId(shortId, all[i], id) && HasId(shortId, all[j], id)
  }

  ghost predicate AllSupplied(a: Slots, slots: seq<nat>, shorttxids: seq<nat>, shortId: Uint256 -> nat, all: seq<Entry>)
    requires |slots| == |shorttxids|
  {
    forall k {:trigger slots[k]} | 0 <= k < |slots| :: slots[k] < |a| && Supplied(a[slots[k]], shorttxids[k], shortId, all)
  }

  datatype ReadStatus = Ok | Invalid | Failed | CheckBlockFailed

  /** What block validation says about a reassembled block. */
  datatype Verdict = Passes | Corrupt | Bad

  const MAX_TRANSACTIONS: nat := 100000

  /** Where the scan of the extra transactions starts: the slots before all scans and after that of the memory pool, the
      matched ones and their number, how many entries were looked at, and the counter of extra transactions. */
  datatype Start = Start(before: Slots, a: Slots, have: seq<bool>, count: int, n: nat, extraCount: Size)

  class PartiallyDownloadedBlock {
    const shortId: Uint256 -> nat
    var headerNull: bool
    var available: Slots
    var prefilledCount: nat
    var mempoolCount: int
    var extraCount: Size
    ghost var placed: Slots   // the slots before the pools were scanned
    ghost var matched: seq<bool>   // the slots that some pool transaction was found for
    ghost var slotted: map<nat, nat>   // the slots that short ids are stored with
    ghost var seenOf: (nat, nat)   // how many entries of the memory pool and of the extra ones were looked at
    ghost var pooled: (Slots, seq<bool>)   // the slots after the scan of the memory pool, and which of them it matched

    constructor (shortId: Uint256 -> nat)
      ensures headerNull && available == [] && mempoolCount == 0 && extraCount == 0 && this.shortId == shortId
    {
      this.shortId := shortId;
      headerNull, available, prefilledCount, mempoolCount, extraCount, placed, matched, slotted := true, [], 0, 0, 0, [], [], map[];
      pooled, seenOf := ([], []), (0, 0);
    }

    /** Every short id of the announcement is stored with its slot. */
    ghost predicate Ready(ids: map<nat, nat>, shorttxids: seq<nat>, slots: seq<nat>) {
      |slots| == |shorttxids| && Maps(ids, shorttxids, slots, |shorttxids|) && Distinct(shorttxids)
    }

    /** A short id of the announcement, and the slot it is stored with. */
    lemma Lookup(ids: map<nat, nat>, shorttxids: seq<nat>, slots: seq<nat>, id: nat) returns (k: nat)
      requires Ready(ids, shorttxids, slots) && id in ids
      ensures k < |shorttxids| == |slots| && shorttxids[k] == id && ids[id] == Stored(slots)[k]
    {
      FirstHolds(shorttxids, |shorttxids|, id);
      FirstSize(shorttxids, |shorttxids|);
      assert |ids| == |ids.Keys|;
      k :| 0 <= k < |shorttxids| && shorttxids[k] == id;
      assert SlotOf(ids, shorttxids[k], slots[k]);
    }

    /** One entry of the memory pool: a first match fills a slot, a second one empties it again. */
    method ScanMempool(e: Entry, x: Index, have: seq<bool>, ghost before: Slots, ghost seen: seq<Entry>) returns (have': seq<bool>)
      requires x.shortId == shortId && Scanned(before, available, have, mempoolCount, x, seen)
      modifies this`available, this`mempoolCount
      ensures Scanned(before, available, have', mempoolCount, x, seen + [e]) && Grown(have, have')
      ensures Matches(old(available), available, have, x, e, true)
    {
      have' := have;
      var id := shortId(e.hash);
      if id in x.ids && !have[x.ids[id]] {
        var slot := x.ids[id];
        ScanFill(before, available, have, mempoolCount, x, seen, e, slot);
        available := available[slot := Some(e.tx)];
        have' := have[slot := true];
        mempoolCount := mempoolCount + 1;
      } else if id in x.ids && available[x.ids[id]].Some? {
        var slot := x.ids[id];
        ScanReset(before, available, have, mempoolCount, x, seen, e, slot);
        available := available[slot := None];
        mempoolCount := mempoolCount - 1;
      } else {
        ScanSkip(before, available, have, mempoolCount, x, seen, e);
      }
    }

    /** One of the extra transactions: only a different transaction empties a slot again. */
    method ScanExtra(e: Entry, x: Index, have: seq<bool>, ghost before: Slots, ghost seen: seq<Entry>) returns (have': seq<bool>)
      requires x.shortId == shortId && Scanned(before, available, have, mempoolCount, x, seen)
      modifies this`available, this`mempoolCount, this`extraCount
      ensures Scanned(before, available, have', mempoolCount, x, seen + [e]) && Later(old(available), have, available, have')
      ensures extraCount == Low64(old(extraCount) + mempoolCount - old(mempoolCount))
      ensures Matches(old(available), available, have, x, e, false)
    {
      have' := have;
      var id := shortId(e.hash);
      if id in x.ids && !have[x.ids[id]] {
        var slot := x.ids[id];
        ScanFill(before, available, have, mempoolCount, x, seen, e, slot);
        available := available[slot := Some(e.tx)];
        have' := have[slot := true];
        mempoolCount := mempoolCount + 1;
        extraCount := Low64(extraCount + 1);
      } else if id in x.ids && available[x.ids[id]].Some? && available[x.ids[id]].value.witnessHash != e.tx.witnessHash {
        var slot := x.ids[id];
        ScanReset(before, available, have, mempoolCount, x, seen, e, slot);
        available := available[slot := None];
        mempoolCount := mempoolCount - 1;
        extraCount := Low64(extraCount - 1);
      } else {
        ScanSkip(before, available, have, mempoolCount, x, seen, e);
      }
    }

    /** The scan of the memory pool, which stops once every slot is filled. */
    method ScanPool(pool: seq<Entry>, x: Index) returns (have: seq<bool>, ghost i: nat)
      requires x.shortId == shortId && mempoolCount == 0 && forall id | id in x.ids :: x.ids[id] < |available|
      modifies this`available, this`mempoolCount
      ensures i <= |pool| && Scanned(old(available), available, have, mempoolCount, x, pool[..i])
      ensures i < |pool| ==> AllHave(x, have)
      ensures AllFirst(available, x, pool[..i], i) && (i < |pool| ==> 0 < i && mempoolCount == |x.ids|)
    {
      ghost var before := available;
      have := seq(|available|, _ => false);
      ScanStarts(before, have, x);
      var n := 0;
      i := 0;
      assert pool[..0] == [];
      while n < |pool|
        invariant i == n <= |pool| && Scanned(before, available, have, mempoolCount, x, pool[..n])
        invariant AllFirst(available, x, pool[..n], n)
      {
        assert pool[..n + 1] == pool[..n] + [pool[n]];
        ghost var a, held, count := available, have, mempoolCount;
        have := ScanMempool(pool[n], x, have, before, pool[..n]);
        AllFirstNext(before, a, held, count, x, pool[..n], n, pool[n], available, n + 1);
        n, i := n + 1, n + 1;
        if mempoolCount == |x.ids| {
          StoppedEarly(before, available, have, mempoolCount, x, pool[..n]);
          break;
        }
      }
    }

    /** The memory pool's slots, after some more entries. */
    ghost predicate Underway(start: Start, x: Index, seen: seq<Entry>, have: seq<bool>) reads this {
      && Scanned(start.before, available, have, mempoolCount, x, seen) && Later(start.a, start.have, available, have)
      && AllFirst(available, x, seen, start.n) && start.n <= |seen|
      && extraCount == Low64(start.extraCount + mempoolCount - start.count)
    }

    method ExtraRound(e: Entry, x: Index, have: seq<bool>, ghost start: Start, ghost seen: seq<Entry>) returns (have': seq<bool>)
      requires x.shortId == shortId && Underway(start, x, seen, have)
      modifies this`available, this`mempoolCount, this`extraCount
      ensures Underway(start, x, seen + [e], have') && Grown(have, have')
    {
      ghost var a, count := available, mempoolCount;
      have' := ScanExtra(e, x, have, start.before, seen);
      LaterStill(start.a, start.have, a, have, available, have');
      AllFirstNext(start.before, a, have, count, x, seen, start.n, e, available, start.n);
    }

    /** The scan of the extra transactions. */
    method ScanExtras(pool: seq<Entry>, extra: seq<Entry>, x: Index, have0: seq<bool>, ghost start: Start)
      returns (have: seq<bool>, ghost j: nat)
      requires x.shortId == shortId && start.n <= |pool| && Underway(start, x, pool[..start.n], have0)
      requires start.n < |pool| ==> AllHave(x, have0)
      modifies this`available, this`mempoolCount, this`extraCount
      ensures Scanned(start.before, available, have, mempoolCount, x, pool + extra)
      ensures j <= |extra| && Underway(start, x, pool[..start.n] + extra[..j], have) && (j < |extra| ==> 0 < j && mempoolCount == |x.ids|)
    {
      have := have0;
      ghost var i, seen := start.n, pool[..start.n];
      var n := 0;
      assert seen + extra[..0] == seen;
      while n < |extra|
        invariant n <= |extra| && Underway(start, x, seen + extra[..n], have)
        invariant i < |pool| ==> AllHave(x, have)
      {
        assert seen + extra[..n + 1] == seen + extra[..n] + [extra[n]];
        have := ExtraRound(extra[n], x, have, start, seen + extra[..n]);
        n := n + 1;
        if mempoolCount == |x.ids| {
          StoppedEarly(start.before, available, have, mempoolCount, x, seen + extra[..n]);
          break;
        }
      }
      ScannedAll(start.before, available, have, mempoolCount, x, pool, extra, i, n);
      j := n;
    }

    /** Both scans, each of which stops once every slot is filled. */
    method FillFromPools(pool: seq<Entry>, extra: seq<Entry>, x: Index)
      requires x.shortId == shortId && mempoolCount == 0 && forall id | id in x.ids :: x.ids[id] < |available|
      modifies this`available, this`mempoolCount, this`extraCount, this`matched, this`pooled, this`seenOf
      ensures Scanned(old(available), available, matched, mempoolCount, x, pool + extra) && Counted(old(extraCount))
      ensures FirstMatches(old(available), pool, extra, x)
    {
      ghost var before := available;
      var have, i := ScanPool(pool, x);
      pooled := (available, have);
      FillFromExtra(pool, extra, x, have, before, i);
    }

    method FillFromExtra(pool: seq<Entry>, extra: seq<Entry>, x: Index, have0: seq<bool>, ghost before: Slots, ghost i: nat)
      requires x.shortId == shortId && i <= |pool| && Scanned(before, available, have0, mempoolCount, x, pool[..i])
      requires AllFirst(available, x, pool[..i], i) && (i < |pool| ==> AllHave(x, have0) && 0 < i && mempoolCount == |x.ids|)
      requires pooled == (available, have0)
      modifies this`available, this`mempoolCount, this`extraCount, this`matched, this`seenOf
      ensures Scanned(before, available, matched, mempoolCount, x, pool + extra) && Counted(old(extraCount))
      ensures FirstMatches(before, pool, extra, x)
    {
      ghost var start := Start(before, available, have0, mempoolCount, i, extraCount);
      Starts(start, x, pool[..i]);
      var have;
      ghost var j;
      have, j := ScanExtras(pool, extra, x, have0, start);
      matched, seenOf := have, (i, j);
      Ends(start, x, pool[..i] + extra[..j]);
    }

    lemma Starts(start: Start, x: Index, seen: seq<Entry>)
      requires Scanned(start.before, available, start.have, mempoolCount, x, seen) && AllFirst(available, x, seen, |seen|)
      requires start == Start(start.before, available, start.have, mempoolCount, |seen|, extraCount)
      ensures Underway(start, x, seen, start.have)
    {
    }

    lemma Ends(start: Start, x: Index, seen: seq<Entry>)
      requires Underway(start, x, seen, matched) && pooled == (start.a, start.have)
      requires start.count == Matched(start.a, start.have, |start.a|)
      ensures Counted(start.extraCount)
    {
      MatchedLater(start.a, start.have, available, matched, |available|);
    }

    /** The scans went through the entries, each until all slots were filled; the first match of a slot stays unless a
        later one contradicts it. */
    ghost predicate FirstMatches(before: Slots, pool: seq<Entry>, extra: seq<Entry>, x: Index) reads this {
      var (i, j) := seenOf;
      && i <= |pool| && PoolDone(before, pooled.0, pooled.1, pool[..i], i == |pool|, x)
      && j <= |extra| && (j < |extra| ==> 0 < j && mempoolCount == |x.ids|)
      && AllFirst(available, x, pool[..i] + extra[..j], i)
    }

    /** The counter of extra transactions went up for every slot that an extra transaction now fills, and down for every
        slot of the memory pool that one emptied. */
    ghost predicate Counted(start: Size) reads this {
      && Later(pooled.0, pooled.1, available, matched)
      && extraCount == Low64(start + Gained(pooled.1, available, matched, |available|) - Lost(pooled.0, pooled.1, available, |available|))
    }

    /** From zero, the counter is right if and only if no slot that the memory pool had filled was emptied; it is beyond the
        number of transactions if and only if more slots were emptied than filled. */
    lemma CountExact()
      requires Counted(0) && |available| <= MAX_TRANSACTIONS
      ensures extraCount == Gained(pooled.1, available, matched, |available|) <==>
              forall q: nat | q < |available| :: !Emptied(pooled.0, pooled.1, available, q)
      ensures extraCount > |available| <==>
              Gained(pooled.1, available, matched, |available|) < Lost(pooled.0, pooled.1, available, |available|)
    {
      MatchedLater(pooled.0, pooled.1, available, matched, |available|);
      NothingLost(pooled.0, pooled.1, available, |available|);
    }

    lemma ScanStarts(before: Slots, have: seq<bool>, x: Index)
      requires |have| == |before| && (forall q | 0 <= q < |have| :: !have[q]) && forall id | id in x.ids :: x.ids[id] < |before|
      ensures Scanned(before, before, have, 0, x, [])
    {
      NothingMatched(before, have, |before|);
      forall q: nat | q < |before| ensures SlotScanned(before, before, have, x, [], q) {
      }
    }

    /** Takes an announcement: prefilled transactions are placed, and the pools fill what they can.
        Where the search for slots would never end, ends is false. */
    method InitData(c: Compact, pool: seq<Entry>, extra: seq<Entry>, crowded: nat -> bool) returns (ends: bool, status: ReadStatus)
      requires headerNull && available == [] && mempoolCount == 0
      modifies this
      ensures ends <==> Refused(c) || c.shorttxids == [] || |c.prefilledtxn| <= MAX_INDEX
      ensures ends ==> (status == Invalid <==> Refused(c))
      ensures ends ==> (status == Failed <==> !Refused(c) && (!Distinct(c.shorttxids) || Crowds(crowded, |c.shorttxids|)))
      ensures ends ==> status == Ok || status == Invalid || status == Failed
      ensures ends && status == Ok ==> !headerNull && Stocked(c, pool + extra) && Exact(c)
      ensures ends && status == Ok ==> Counted(old(extraCount)) && |available| <= MAX_TRANSACTIONS
      ensures ends && status == Ok ==> FirstMatches(placed, pool, extra, Index(slotted, shortId))
      ensures ends && status == Ok && |c.shorttxids| + |c.prefilledtxn| <= MAX_INDEX + 1 ==> Filling(c, pool + extra)
    {
      ends := true;
      if c.headerNull || (|c.shorttxids| == 0 && |c.prefilledtxn| == 0) {
        return true, Invalid;
      }
      if |c.shorttxids| + |c.prefilledtxn| > MAX_TRANSACTIONS {
        return true, Invalid;
      }
      headerNull := false;
      var ok;
      ok, available := PlacePrefilled(c);
      if !ok {
        return true, Invalid;
      }
      prefilledCount := |c.prefilledtxn|;
      placed := available;
      PlacedLow(c, placed);
      ends, status := MatchShortIds(c, pool, extra, crowded);
    }

    /** The second half: short ids get their slots, and the pools are scanned. */
    method MatchShortIds(c: Compact, pool: seq<Entry>, extra: seq<Entry>, crowded: nat -> bool) returns (ends: bool, status: ReadStatus)
      requires Placed(c, available, |c.prefilledtxn|) && FilledLow(available) && placed == available && mempoolCount == 0
      modifies this`available, this`mempoolCount, this`extraCount, this`matched, this`slotted, this`pooled, this`seenOf
      ensures ends <==> c.shorttxids == [] || |c.prefilledtxn| <= MAX_INDEX
      ensures ends ==> status == if Distinct(c.shorttxids) && !Crowds(crowded, |c.shorttxids|) then Ok else Failed
      ensures ends && status == Ok ==> Stocked(c, pool + extra) && Exact(c) && Counted(old(extraCount))
      ensures |available| == old(|available|) && (ends && status == Ok ==> FirstMatches(placed, pool, extra, Index(slotted, shortId)))
      ensures ends && status == Ok && |c.shorttxids| + |c.prefilledtxn| <= MAX_INDEX + 1 ==> Filling(c, pool + extra)
    {
      var mapped := MapShortIds(c.shorttxids, available, crowded);
      if mapped.Endless? {
        return false, Failed;
      }
      if mapped.Collision? {
        return true, Failed;
      }
      slotted := mapped.ids;
      SlotsInRange(c, available, mapped.ids);
      FillFromPools(pool, extra, Index(mapped.ids, shortId));
      if c.shorttxids != [] {
        PlacementExact(c, placed);
      }
      if |placed| <= MAX_INDEX + 1 {
        FillsExactly(c, pool + extra);
      }
      return true, Ok;
    }

    /** Every short id is stored with its slot, as far as 16 bits can say, and the pools did to every slot what its matches do. */
    ghost predicate Stocked(c: Compact, all: seq<Entry>) reads this {
      && Placed(c, placed, |c.prefilledtxn|) && |Empty(placed, |placed|)| == |c.shorttxids|
      && Ready(slotted, c.shorttxids, Empty(placed, |placed|))
      && Scanned(placed, available, matched, mempoolCount, Index(slotted, shortId), all)
    }

    /** Short ids are stored with the slots they stand for exactly in blocks of at most 65536 transactions. */
    ghost predicate Exact(c: Compact) reads this {
      c.shorttxids != [] ==>
        (Stored(Empty(placed, |placed|)) == Empty(placed, |placed|) <==> |c.shorttxids| + |c.prefilledtxn| <= MAX_INDEX + 1)
    }

    /** Prefilled slots are kept, and every other slot belongs to one short id and holds what the pools have for it. */
    ghost predicate Filling(c: Compact, all: seq<Entry>) reads this {
      && Placed(c, placed, |c.prefilledtxn|) && |placed| == |available| && |Empty(placed, |placed|)| == |c.shorttxids|
      && (forall q | 0 <= q < |available| && placed[q].Some? :: available[q] == placed[q])
      && AllSupplied(available, Empty(placed, |placed|), c.shorttxids, shortId, all)
      && mempoolCount == Filled(available, Empty(placed, |placed|), |c.shorttxids|)
    }

    /** With exact slots, matching a slot is matching its short id. */
    lemma HitIsId(shorttxids: seq<nat>, slots: seq<nat>, ids: map<nat, nat>, e: Entry, k: nat)
      requires Ready(ids, shorttxids, slots) && Stored(slots) == slots && Distinct(slots) && k < |slots|
      ensures Index(ids, shortId).Hit(e, slots[k]) <==> HasId(shortId, e, shorttxids[k])
    {
      var id := shortId(e.hash);
      if id in ids {
        var m := Lookup(ids, shorttxids, slots, id);
        assert Stored(slots)[m] == slots[m];
      }
      FirstSize(shorttxids, |shorttxids|);
      FirstHolds(shorttxids, |shorttxids|, shorttxids[k]);
      assert |ids| == |ids.Keys|;
      assert SlotOf(ids, shorttxids[k], slots[k]);
      assert Stored(slots)[k] == slots[k];
    }

    lemma SlotSupplied(c: Compact, all: seq<Entry>, slots: seq<nat>, k: nat)
      requires Stocked(c, all) && slots == Empty(placed, |placed|) && Stored(slots) == slots && k < |slots|
      requires Distinct(slots) && slots[k] < |placed| && placed[slots[k]].None?
      ensures Supplied(available[slots[k]], c.shorttxids[k], shortId, all)
    {
      var x, q := Index(slotted, shortId), slots[k];
      assert SlotScanned(placed, available, matched, x, all, q);
      forall e: Entry ensures x.Hit(e, q) <==> HasId(shortId, e, c.shorttxids[k]) {
        HitIsId(c.shorttxids, slots, slotted, e, k);
      }
    }

    lemma FillsExactly(c: Compact, all: seq<Entry>)
      requires Stocked(c, all) && |placed| <= MAX_INDEX + 1
      ensures Filling(c, all)
    {
      var slots := Empty(placed, |placed|);
      var x := Index(slotted, shortId);
      EmptyFacts(placed, |placed|);
      assert Stored(slots) == slots;
      forall id | id in slotted ensures slotted[id] < |placed| && placed[slotted[id]].None? {
        var k := Lookup(slotted, c.shorttxids, slots, id);
      }
      ScannedKept(placed, available, matched, mempoolCount, x, all);
      MatchedIsFilled(placed, available, matched, x, all, |placed|);
      forall k | 0 <= k < |slots| ensures Supplied(available[slots[k]], c.shorttxids[k], shortId, all) {
        SlotSupplied(c, all, slots, k);
      }
    }

    lemma SlotsInRange(c: Compact, a: Slots, ids: map<nat, nat>)
      requires |Empty(a, |a|)| == |c.shorttxids| && Ready(ids, c.shorttxids, Empty(a, |a|))
      ensures forall id | id in ids :: ids[id] < |a|
    {
      EmptyFacts(a, |a|);
      forall id | id in ids ensures ids[id] < |a| {
        var k := Lookup(ids, c.shorttxids, Empty(a, |a|), id);
      }
    }

    predicate IsTxAvailable(index: nat)
      requires !headerNull && index < |available|
      reads this
    {
      available[index].Some?
    }

    /** The indexes to ask for. */
    method MissingIndexes() returns (indexes: seq<nat>)
      requires !headerNull
      ensures indexes == Empty(available, |available|)
    {
      indexes := [];
      for i := 0 to |available|
        invariant indexes == Empty(available, i)
      {
        if !IsTxAvailable(i) {
          indexes := indexes + [i];
        }
      }
    }

    /** The block: available transactions in their slots, missing ones in order in the others. */
    method FillBlock(missing: seq<Tx>, verdict: Verdict) returns (status: ReadStatus, vtx: seq<Tx>)
      requires !headerNull
      modifies this
      ensures status == Invalid <==> |missing| != |Empty(old(available), |old(available)|)|
      ensures status != Invalid ==>
                && |vtx| == |old(available)|
                && forall i | 0 <= i < |vtx| :: vtx[i] == Chosen(old(available), missing, i)
      ensures status != Invalid ==>
                status == match verdict case Passes => Ok case Corrupt => Failed case Bad => CheckBlockFailed
      // A block can be filled only once.
      ensures |missing| >= |Empty(old(available), |old(available)|)| ==> headerNull && available == []
    {
      ghost var before := available;
      vtx := [];
      var txMissingOffset := 0;
      for i := 0 to |available|
        invariant |available| == |before| == |old(available)| && |vtx| == i && !headerNull
        invariant forall j | i <= j < |before| :: available[j] == before[j]
        invariant txMissingOffset == |Empty(before, i)| <= |missing|
        invariant forall j | 0 <= j < i :: |Empty(before, j)| <= |Empty(before, i)| && vtx[j] == Chosen(before, missing, j)
      {
        if available[i].None? {
          if |missing| <= txMissingOffset {
            EmptyPrefix(before, i + 1, |before|);
            return Invalid, vtx;
          }
          vtx := vtx + [missing[txMissingOffset]];
          txMissingOffset := txMissingOffset + 1;
        } else {
          vtx := vtx + [available[i].value];
          available := available[i := None];
        }
      }
      headerNull, available := true, [];
      if |missing| != txMissingOffset {
        return Invalid, vtx;
      }
      status := match verdict case Passes => Ok case Corrupt => Failed case Bad => CheckBlockFailed;
    }
  }

  /** The transaction for a slot: the one there, or the next of the missing ones. */
  ghost function Chosen(a: Slots, missing: seq<Tx>, i: nat): Tx
    requires i < |a|
  {
    if a[i].Some? then a[i].value
    else if |Empty(a, i)| < |missing| then missing[|Empty(a, i)|]
    else Tx(0, 0, true, 0)
  }

  /** Given the transactions of the empty slots in order, the whole block is put together again. */
  lemma Reassembles(vtx: seq<Tx>, a: Slots, missing: seq<Tx>, i: nat)
    requires |a| == |vtx| && i < |vtx| && |missing| == |Empty(a, |a|)|
    requires forall q | 0 <= q < |a| && a[q].Some? :: a[q].value == vtx[q]
    requires forall j | 0 <= j < |missing| :: Empty(a, |a|)[j] < |vtx| && missing[j] == vtx[Empty(a, |a|)[j]]
    ensures Chosen(a, missing, i) == vtx[i]
  {
    if a[i].None? {
      NextEmpty(a, i);
    }
  }

  // ----- From one node to another -----

  /** The announcement of a block: its first transaction, and short ids for the others. */
  function Announce(vtx: seq<Tx>, shortId: Uint256 -> nat): Compact
    requires vtx != []
  {
    Compact(false, seq<nat>(|vtx| - 1, i requires 0 <= i < |vtx| - 1 => shortId(vtx[i + 1].hash)), [Prefilled(0, vtx[0])])
  }

  lemma {:induction false} EmptyButFirst(a: Slots, n: nat)
    requires 0 < n <= |a| && a[0].Some? && forall q | 0 < q < n :: a[q].None?
    ensures |Empty(a, n)| == n - 1 && forall k | 0 <= k < n - 1 :: Empty(a, n)[k] == k + 1
  {
    if n > 1 {
      EmptyButFirst(a, n - 1);
    } else {
      assert Empty(a, 0) == [];
    }
  }

  /** Transactions of a pool that match a short id of the block are those of the block. */
  ghost predicate NoCollision(entries: seq<Entry>, vtx: seq<Tx>, shortId: Uint256 -> nat) {
    forall i, k | 0 <= i < |entries| && 0 < k < |vtx| && shortId(entries[i].hash) == shortId(vtx[k].hash) :: entries[i].tx == vtx[k]
  }

  /** What the receiver has so far agrees with the block. */
  lemma Agrees(p: PartiallyDownloadedBlock, vtx: seq<Tx>, all: seq<Entry>)
    requires vtx != [] && p.Filling(Announce(vtx, p.shortId), all) && NoCollision(all, vtx, p.shortId)
    ensures |p.available| == |vtx| && forall q | 0 <= q < |vtx| && p.available[q].Some? :: p.available[q].value == vtx[q]
  {
    var c := Announce(vtx, p.shortId);
    assert Last(c.prefilledtxn, 1) == Last(c.prefilledtxn, 0) + 1 == 0;
    assert At(c.prefilledtxn, 0) == 0;
    EmptyButFirst(p.placed, |p.placed|);
    var slots := Empty(p.placed, |p.placed|);
    forall q | 0 <= q < |vtx| && p.available[q].Some? ensures p.available[q].value == vtx[q] {
      if q > 0 {
        assert slots[q - 1] == q;
        assert Supplied(p.available[q], c.shorttxids[q - 1], p.shortId, all);
        var i :| 0 <= i < |all| && HasId(p.shortId, all[i], c.shorttxids[q - 1]) && all[i].tx == p.available[q].value;
      }
    }
  }

  /**
   A block travels as an announcement, a request for what is missing, and an answer.  Unless short
   ids coincide, the receiver ends up with exactly the block.
   */
  method Relay(vtx: seq<Tx>, pool: seq<Entry>, extra: seq<Entry>, shortId: Uint256 -> nat, crowded: nat -> bool, verdict: Verdict)
    returns (status: ReadStatus, block: seq<Tx>)
    requires 0 < |vtx| <= MAX_INDEX + 1 && !vtx[0].isNull
    requires NoCollision(pool + extra, vtx, shortId)
    ensures status == Failed <==>
              Crowds(crowded, |vtx| - 1) || !Distinct(Announce(vtx, shortId).shorttxids) || verdict == Corrupt
    ensures status != Failed ==> block == vtx && status == match verdict case Passes => Ok case Corrupt => Failed case Bad => CheckBlockFailed
  {
    var c := Announce(vtx, shortId);
    var p := new PartiallyDownloadedBlock(shortId);
    assert Last(c.prefilledtxn, 1) == Last(c.prefilledtxn, 0) + 1 == 0;
    assert Acceptable(c, 0);
    var ends;
    ends, status := p.InitData(c, pool, extra, crowded);
    block := [];
    if status != Ok {
      return;
    }
    Agrees(p, vtx, pool + extra);
    status, block := Complete(p, vtx, verdict);
  }

  /** The request, the answer and the completion. */
  method Complete(p: PartiallyDownloadedBlock, vtx: seq<Tx>, verdict: Verdict) returns (status: ReadStatus, block: seq<Tx>)
    requires !p.headerNull && |p.available| == |vtx| <= MAX_INDEX + 1
    requires forall q | 0 <= q < |vtx| && p.available[q].Some? :: p.available[q].value == vtx[q]
    modifies p
    ensures block == vtx && status == match verdict case Passes => Ok case Corrupt => Failed case Bad => CheckBlockFailed
  {
    ghost var a := p.available;
    var indexes := p.MissingIndexes();
    EmptyFacts(a, |a|);
    var coded := EncodeIndexes(indexes);
    assert coded == Differences(indexes);
    IndexRoundTrip(indexes);
    var request := DecodeIndexes(coded);
    var missing := seq(|request.value|, j requires 0 <= j < |request.value| && request.value[j] < |vtx| => vtx[request.value[j]]);
    forall i | 0 <= i < |vtx| ensures Chosen(a, missing, i) == vtx[i] {
      Reassembles(vtx, a, missing, i);
    }
    status, block := p.FillBlock(missing, verdict);
  }

  // ----- What 16 bits cannot do -----

  /** Each difference being zero, the transactions take the slots from the first on. */
  lemma {:induction false} LastOfZeros(pre: seq<Prefilled>, n: nat)
    requires n <= |pre| && forall i | 0 <= i < |pre| :: pre[i].index == 0
    ensures Last(pre, n) == n - 1
  {
    if n > 0 {
      LastOfZeros(pre, n - 1);
    }
  }

  /** An announcement of 65536 prefilled transactions and one short id is accepted, and the search never ends. */
  method EndlessSearch(tx: Tx, id: nat, shortId: Uint256 -> nat, crowded: nat -> bool) returns (ends: bool)
    requires !tx.isNull
    ensures !ends
  {
    var pre := seq(MAX_INDEX + 1, _ => Prefilled(0, tx));
    var c := Compact(false, [id], pre);
    forall i | 0 <= i < |pre| ensures Acceptable(c, i) {
      LastOfZeros(pre, i + 1);
    }
    var p := new PartiallyDownloadedBlock(shortId);
    var status;
    ends, status := p.InitData(c, [], [], crowded);
  }

  /** With one prefilled transaction and 65536 short ids, a pool transaction for the last short id takes the place
      of the prefilled one. */
  method PrefilledOverwritten(first: Tx, other: Tx) returns (p: PartiallyDownloadedBlock)
    requires !first.isNull
    ensures |p.available| == |p.placed| == MAX_INDEX + 2 && p.available[0] == Some(other) && p.placed[0] == Some(first)
  {
    var c := Compact(false, seq(MAX_INDEX + 1, i requires 0 <= i => i), [Prefilled(0, first)]);
    var pool := [Entry(MAX_INDEX, other)];
    p := new PartiallyDownloadedBlock((hash: Uint256) => hash);
    assert Last(c.prefilledtxn, 1) == Last(c.prefilledtxn, 0) + 1 == 0;
    assert Acceptable(c, 0);
    var ends, status := p.InitData(c, pool, [], (i: nat) => false);
    assert status == Ok;
    LastSlotWraps(c, p.placed);
    assert pool + [] == pool;
    ghost var slots := Empty(p.placed, |p.placed|);
    assert c.shorttxids[MAX_INDEX] == MAX_INDEX;
    FirstHolds(c.shorttxids, |c.shorttxids|, MAX_INDEX);
    ghost var k := p.Lookup(p.slotted, c.shorttxids, slots, MAX_INDEX);
    ghost var x := Index(p.slotted, p.shortId);
    assert x.Hit(pool[0], 0);
    assert SlotScanned(p.placed, p.available, p.matched, x, pool, 0);
  }

  /** One short id, a transaction of the memory pool that matches it, and an extra one with another witness: the counter of
      extra transactions ends below zero, which is the largest number of 64 bits. */
  method CounterBelowZero(first: Tx, pooled: Tx, other: Tx) returns (p: PartiallyDownloadedBlock)
    requires !first.isNull && pooled.witnessHash != other.witnessHash
    ensures p.available == [Some(first), None] && p.mempoolCount == 0 && p.extraCount == 0xFFFF_FFFF_FFFF_FFFF
  {
    var c := Compact(false, [7], [Prefilled(0, first)]);
    p := new PartiallyDownloadedBlock((hash: Uint256) => hash);
    var pool, extra := [Entry(7, pooled)], [Entry(7, other)];
    assert Last(c.prefilledtxn, 1) == Last(c.prefilledtxn, 0) + 1 == 0;
    assert Acceptable(c, 0) && At(c.prefilledtxn, 0) == 0;
    var ends, status := p.InitData(c, pool, extra, (i: nat) => false);
    EmptyButFirst(p.placed, 2);
    ghost var slots := Empty(p.placed, 2);
    assert c.shorttxids[0] == 7;
    FirstHolds(c.shorttxids, 1, 7);
    ghost var k := p.Lookup(p.slotted, c.shorttxids, slots, 7);
    assert p.slotted[7] == 1;
    OnlySlot(p, pool, extra);
  }

  lemma OnlySlot(p: PartiallyDownloadedBlock, pool: seq<Entry>, extra: seq<Entry>)
    requires |p.placed| == 2 && p.placed[0].Some? && |p.slotted| == 1 && 7 in p.slotted && p.slotted[7] == 1
    requires |pool| == 1 && |extra| == 1 && p.shortId(pool[0].hash) == 7 == p.shortId(extra[0].hash)
    requires pool[0].tx.witnessHash != extra[0].tx.witnessHash
    requires p.FirstMatches(p.placed, pool, extra, Index(p.slotted, p.shortId)) && p.Counted(0)
    requires Scanned(p.placed, p.available, p.matched, p.mempoolCount, Index(p.slotted, p.shortId), pool + extra)
    ensures p.available == [p.placed[0], None] && p.mempoolCount == 0 && p.extraCount == 0xFFFF_FFFF_FFFF_FFFF
  {
    var x := Index(p.slotted, p.shortId);
    assert pool[..1] == pool == [pool[0]] && extra[..1] == extra == [extra[0]] && p.seenOf == (1, 1);
    var (a, have) := p.pooled;
    OneMatch(p.placed, a, have, x, pool[0]);
    TwoMatches(p.placed, p.available, p.matched, p.mempoolCount, x, pool[0], extra[0]);
    TwoSlots(a, have, p.available, p.matched);
  }

  lemma OneMatch(before: Slots, a: Slots, have: seq<bool>, x: Index, e: Entry)
    requires |before| == 2 && x.Hit(e, 1) && |a| == |have| && Scanned(before, a, have, Matched(a, have, |a|), x, [e])
    ensures !have[0] && have[1] && a[1].Some?
  {
    assert SlotScanned(before, a, have, x, [e], 0) && SlotScanned(before, a, have, x, [e], 1);
    assert x.Hit([e][0], 1);
  }

  lemma TwoMatches(before: Slots, a: Slots, have: seq<bool>, count: int, x: Index, e: Entry, other: Entry)
    requires |before| == 2 && x.Hit(e, 1) && x.Hit(other, 1) && e.tx.witnessHash != other.tx.witnessHash
    requires Scanned(before, a, have, count, x, [e] + [other]) && AllFirst(a, x, [e] + [other], 1)
    ensures !have[0] && have[1] && a == [before[0], None] && count == Matched(a, have, 2)
  {
    var all := [e] + [other];
    assert all[0] == e && all[1] == other;
    assert SlotScanned(before, a, have, x, all, 0) && SlotScanned(before, a, have, x, all, 1);
    assert FirstStays(a[1], x, all, 1, 1);
    assert FirstHit(x, all, 0, 1) && Contradicts(x, all, 1, 0, 1, 1);
  }

  lemma TwoSlots(a: Slots, have: seq<bool>, a': Slots, have': seq<bool>)
    requires |a| == |have| == |a'| == |have'| == 2 && !have[0] && !have'[0] && have[1] && have'[1] && a[1].Some? && a'[1].None?
    ensures Matched(a', have', 2) == 0 && Gained(have, a', have', 2) == 0 && Lost(a, have, a', 2) == 1
  {
    assert Matched(a', have', 1) == 0 && Gained(have, a', have', 1) == 0 && Lost(a, have, a', 1) == 0;
  }
}
