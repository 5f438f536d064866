/**
 The rolling Bloom filter: positions carry a generation number of two bits, and starting a
 generation wipes the one whose number is reused.  It always remembers the most recent keys.
 */
module RollingBloom {
  import opened Numbers

  // ----- 64-bit words, as their bits -----

  type Word = w: seq<bool> | |w| == 64 witness seq(64, _ => false)

  function And(x: Word, y: Word): Word {
    seq(64, i requires 0 <= i < 64 => x[i] && y[i])
  }

  function Or(x: Word, y: Word): Word {
    seq(64, i requires 0 <= i < 64 => x[i] || y[i])
  }

  function Xor(x: Word, y: Word): Word {
    seq(64, i requires 0 <= i < 64 => x[i] != y[i])
  }

  function Not(x: Word): Word {
    seq(64, i requires 0 <= i < 64 => !x[i])
  }

  /** All bits equal: the negative of zero or one. */
  function Fill(b: bool): Word {
    seq(64, _ => b)
  }

  /** Zero or one, shifted. */
  function Shifted(b: bool, bit: nat): Word
    requires bit < 64
  {
    seq(64, i => i == bit && b)
  }

  // ----- Positions -----

  /** The two bits at a position, as a number from 0 to 3. */
  function Stored(data: seq<Word>, q: nat, bit: nat): nat
    requires 2 * q + 1 < |data| && bit < 64
  {
    (if data[2 * q][bit] then 1 else 0) + (if data[2 * q + 1][bit] then 2 else 0)
  }

  /** How a generation, counted from the beginning, is stored; negative means none. */
  function Code(age: int): nat {
    if age < 0 then 0 else 1 + age % 3
  }

  ghost predicate InRange(data: seq<Word>, q: int, bit: int) {
    0 <= q && 0 <= 2 * q && 2 * q + 1 < |data| && 0 <= bit < 64
  }

  /** Every position stores its generation, which is one of the last three. */
  ghost predicate Agrees(data: seq<Word>, ages: (int, int) -> int, now: nat) {
    forall q, bit {:trigger ages(q, bit)} | InRange(data, q, bit) ::
      && Stored(data, q, bit) == Code(ages(q, bit))
      && -1 <= ages(q, bit) <= now && (ages(q, bit) < 0 || now - 2 <= ages(q, bit))
  }

  type Ages = (int, int) -> int

  /** Where a filter of a given shape puts its keys. */
  datatype Layout<!K> = Layout(hash: (nat, nat, K) -> nat, tweak: nat, size: nat, hashFuncs: nat, perGeneration: nat) {
    ghost predicate Sound() {
      size > 0 && size % 2 == 0 && hashFuncs > 0 && perGeneration > 0
    }

    /** The pair of words for one hash of a key. */
    function Pair(n: nat, key: K): (q: nat)
      requires size > 0
      ensures size % 2 == 0 ==> 2 * q + 1 < size
    {
      hash(n, tweak, key) / 64 % size / 2
    }

    /** The bit in the pair of words. */
    function Bit(n: nat, key: K): (bit: nat)
      ensures bit < 64
    {
      hash(n, tweak, key) % 64
    }

    /** The generation in which the i-th key is inserted. */
    ghost function Born(i: nat): nat
      requires perGeneration > 0
    {
      i / perGeneration
    }
  }

  /** A key still marks its positions, with its own generation or a later one. */
  ghost predicate Marks<K>(l: Layout<K>, keys: seq<K>, ages: Ages, i: nat)
    requires l.Sound() && i < |keys|
  {
    forall n {:trigger l.Pair(n, keys[i])} | 0 <= n < l.hashFuncs :: ages(l.Pair(n, keys[i]), l.Bit(n, keys[i])) >= l.Born(i)
  }

  ghost predicate IsAt<K>(l: Layout<K>, key: K, n: nat, q: int, bit: int)
    requires l.Sound()
  {
    l.Pair(n, key) == q && l.Bit(n, key) == bit
  }

  /** A position that is set was set by a key of its generation. */
  ghost predicate Justified<K>(l: Layout<K>, keys: seq<K>, ages: Ages, q: int, bit: int)
    requires l.Sound()
  {
    exists i: nat, n: nat {:trigger IsAt(l, keys[i], n, q, bit)} ::
      i < |keys| && n < l.hashFuncs && l.Born(i) == ages(q, bit) && IsAt(l, keys[i], n, q, bit)
  }

  /** The positions remember the keys of the last three generations, and nothing else. */
  ghost predicate Tracks<K>(l: Layout<K>, keys: seq<K>, ages: Ages, now: nat) {
    && l.Sound()
    && (forall i {:trigger Marks(l, keys, ages, i)} | 0 <= i < |keys| && l.Born(i) >= now - 2 :: Marks(l, keys, ages, i))
    && (forall q, bit {:trigger Justified(l, keys, ages, q, bit)} | ages(q, bit) >= 0 :: Justified(l, keys, ages, q, bit))
  }

  /** What starting the next generation wipes. */
  ghost function Wiped(ages: Ages, now: nat): Ages {
    (q, bit) => if ages(q, bit) + 2 == now then -1 else ages(q, bit)
  }

  lemma WipedTracks<K>(l: Layout<K>, keys: seq<K>, ages: Ages, now: nat)
    requires Tracks(l, keys, ages, now)
    ensures Tracks(l, keys, Wiped(ages, now), now + 1)
  {
    var ages' := Wiped(ages, now);
    forall i | 0 <= i < |keys| && l.Born(i) >= now + 1 - 2 ensures Marks(l, keys, ages', i) {
      assert Marks(l, keys, ages, i);
    }
    forall q, bit | ages'(q, bit) >= 0 ensures Justified(l, keys, ages', q, bit) {
      assert Justified(l, keys, ages, q, bit);
    }
  }

  /** Among the last three generations only the oldest has the number that comes next. */
  lemma Reused(age: int, now: nat)
    requires -1 <= age <= now && (age < 0 || now - 2 <= age)
    ensures Code(age) == 1 + (now + 1) % 3 <==> age >= 0 && age == now - 2
  {
  }

  lemma WipedAgrees(before: seq<Word>, data: seq<Word>, ages: Ages, now: nat)
    requires Agrees(before, ages, now) && |data| == |before|
    requires forall q, bit {:trigger Stored(data, q, bit)} | InRange(data, q, bit) ::
               Stored(data, q, bit) == if Stored(before, q, bit) == 1 + (now + 1) % 3 then 0 else Stored(before, q, bit)
    ensures Agrees(data, Wiped(ages, now), now + 1)
  {
    forall q, bit | InRange(data, q, bit)
      ensures var age := Wiped(ages, now)(q, bit);
              Stored(data, q, bit) == Code(age) && -1 <= age <= now + 1 && (age < 0 || now - 1 <= age)
    {
      assert InRange(before, q, bit);
      Reused(ages(q, bit), now);
    }
  }

  /** A position is one of the first k of a key. */
  ghost predicate Hit<K>(l: Layout<K>, key: K, k: nat, q: int, bit: int)
    requires l.Sound()
  {
    k > 0 && (IsAt(l, key, k - 1, q, bit) || Hit(l, key, k - 1, q, bit))
  }

  lemma {:induction false} HitAt<K>(l: Layout<K>, key: K, k: nat, n: nat, q: int, bit: int)
    requires l.Sound() && n < k && IsAt(l, key, n, q, bit)
    ensures Hit(l, key, k, q, bit)
  {
    if n < k - 1 {
      HitAt(l, key, k - 1, n, q, bit);
    }
  }

  lemma {:induction false} HitBy<K>(l: Layout<K>, key: K, k: nat, q: int, bit: int) returns (n: nat)
    requires l.Sound() && Hit(l, key, k, q, bit)
    ensures n < k && IsAt(l, key, n, q, bit)
  {
    if IsAt(l, key, k - 1, q, bit) {
      n := k - 1;
    } else {
      n := HitBy(l, key, k - 1, q, bit);
    }
  }

  /** The positions after the first k hashes of a key have been marked. */
  ghost function Marked<K>(l: Layout<K>, ages: Ages, now: nat, key: K, k: nat): Ages
    requires l.Sound()
  {
    (q, bit) => if Hit(l, key, k, q, bit) then now else ages(q, bit)
  }

  /** A key inserted in the current generation is remembered, and no other is forgotten. */
  lemma MarkedTracks<K>(l: Layout<K>, keys: seq<K>, ages: Ages, now: nat, key: K)
    requires Tracks(l, keys, ages, now) && l.Born(|keys|) == now
    ensures Tracks(l, keys + [key], Marked(l, ages, now, key, l.hashFuncs), now)
  {
    var keys', ages' := keys + [key], Marked(l, ages, now, key, l.hashFuncs);
    forall i | 0 <= i < |keys'| && l.Born(i) >= now - 2 ensures Marks(l, keys', ages', i) {
      StillMarks(l, keys, ages, now, key, i);
    }
    forall q, bit | ages'(q, bit) >= 0 ensures Justified(l, keys', ages', q, bit) {
      StillJustified(l, keys, ages, now, key, q, bit);
    }
  }

  lemma StillMarks<K>(l: Layout<K>, keys: seq<K>, ages: Ages, now: nat, key: K, i: nat)
    requires Tracks(l, keys, ages, now) && l.Born(|keys|) == now && i <= |keys| && l.Born(i) >= now - 2
    ensures Marks(l, keys + [key], Marked(l, ages, now, key, l.hashFuncs), i)
  {
    var keys', ages' := keys + [key], Marked(l, ages, now, key, l.hashFuncs);
    assert i < |keys| ==> Marks(l, keys, ages, i);
    DivMono(i, |keys|, l.perGeneration);
    forall n | 0 <= n < l.hashFuncs ensures ages'(l.Pair(n, keys'[i]), l.Bit(n, keys'[i])) >= l.Born(i) {
      var q, bit := l.Pair(n, keys'[i]), l.Bit(n, keys'[i]);
      if i == |keys| {
        HitAt(l, key, l.hashFuncs, n, q, bit);
      } else {
        assert ages(q, bit) >= l.Born(i);
      }
    }
  }

  lemma StillJustified<K>(l: Layout<K>, keys: seq<K>, ages: Ages, now: nat, key: K, q: int, bit: int)
    requires Tracks(l, keys, ages, now) && l.Born(|keys|) == now
    requires Marked(l, ages, now, key, l.hashFuncs)(q, bit) >= 0
    ensures Justified(l, keys + [key], Marked(l, ages, now, key, l.hashFuncs), q, bit)
  {
    var keys' := keys + [key];
    if Hit(l, key, l.hashFuncs, q, bit) {
      var n := HitBy(l, key, l.hashFuncs, q, bit);
      assert IsAt(l, keys'[|keys|], n, q, bit);
    } else {
      assert Justified(l, keys, ages, q, bit);
      var i: nat, n: nat :| i < |keys| && n < l.hashFuncs && l.Born(i) == ages(q, bit) && IsAt(l, keys[i], n, q, bit);
      assert IsAt(l, keys'[i], n, q, bit);
    }
  }

  // ----- The filter -----

  class RollingBloomFilter<K(!new)> {
    const nHashFuncs: nat
    const nEntriesPerGeneration: nat
    const hash: (nat, nat, K) -> nat
    var nEntriesThisGeneration: nat
    var nGeneration: nat
    var data: seq<Word>
    var nTweak: nat
    ghost var keys: seq<K>   // everything inserted since the last reset
    ghost var now: nat       // the generation, counted from the last reset
    ghost var ages: Ages     // the generation at each position

    function L(): Layout<K> reads this {
      Layout(hash, nTweak, |data|, nHashFuncs, nEntriesPerGeneration)
    }

    ghost predicate Valid() reads this {
      && L().Sound()
      && nEntriesThisGeneration <= nEntriesPerGeneration
      && |keys| == now * nEntriesPerGeneration + nEntriesThisGeneration
      && nGeneration == 1 + now % 3
      && Agrees(data, ages, now)
      && Tracks(L(), keys, ages, now)
    }

    /** An empty filter of some size, for a number of elements. */
    constructor (nElements: nat, nHashFuncs: nat, pairs: nat, hash: (nat, nat, K) -> nat, nTweak: nat)
      requires nElements > 0 && nHashFuncs > 0 && pairs > 0
      ensures Valid() && keys == [] && 2 * nEntriesPerGeneration >= nElements
    {
      this.nHashFuncs, this.hash, this.nTweak := nHashFuncs, hash, nTweak;
      nEntriesPerGeneration := (nElements + 1) / 2;
      nEntriesThisGeneration, nGeneration := 0, 1;
      data := seq(2 * pairs, _ => Fill(false));
      keys, now, ages := [], 0, (q, bit) => -1;
    }

    method Reset(tweak: nat)
      requires Valid()
      modifies this
      ensures Valid() && keys == []
    {
      nTweak := tweak;
      nEntriesThisGeneration, nGeneration := 0, 1;
      for p := 0 to |data|
        invariant |data| == old(|data|) && nTweak == tweak && nEntriesThisGeneration == 0 && nGeneration == 1
        invariant forall i | 0 <= i < p :: data[i] == Fill(false)
      {
        data := data[p := Fill(false)];
      }
      keys, now, ages := [], 0, (q, bit) => -1;
    }

    /** Clears exactly the positions that carry the current generation number. */
    method Wipe()
      requires |data| % 2 == 0 && 1 <= nGeneration <= 3
      modifies this`data
      ensures |data| == old(|data|)
      ensures forall q, bit {:trigger Stored(data, q, bit)} | InRange(data, q, bit) ::
                Stored(data, q, bit) == if old(Stored(data, q, bit)) == nGeneration then 0 else old(Stored(data, q, bit))
    {
      var mask1, mask2 := Fill(nGeneration % 2 == 1), Fill(nGeneration / 2 == 1);
      ghost var before := data;
      var p := 0;
      while p < |data|
        invariant 0 <= p <= |data| == |before| && p % 2 == 0
        invariant forall q, bit {:trigger Stored(data, q, bit)} | InRange(data, q, bit) ::
                    Stored(data, q, bit) ==
                    if 2 * q < p && Stored(before, q, bit) == nGeneration then 0 else Stored(before, q, bit)
        invariant forall j | p <= j < |data| :: data[j] == before[j]
      {
        var p1, p2 := data[p], data[p + 1];
        var mask := Or(Xor(p1, mask1), Xor(p2, mask2));
        ghost var was := data;
        data := data[p := And(p1, mask)][p + 1 := And(p2, mask)];
        forall q, bit | InRange(data, q, bit)
          ensures Stored(data, q, bit) ==
                  if 2 * q < p + 2 && Stored(before, q, bit) == nGeneration then 0 else Stored(before, q, bit)
        {
          assert Stored(was, q, bit) == if 2 * q < p && Stored(before, q, bit) == nGeneration then 0 else Stored(before, q, bit);
          if 2 * q == p {
            assert mask[bit] <==> Stored(before, q, bit) != nGeneration;
          }
        }
        p := p + 2;
      }
    }

    /** Starts a generation: everything from the oldest of the last three is forgotten. */
    method NextGeneration()
      requires Valid() && nEntriesThisGeneration == nEntriesPerGeneration
      modifies this
      ensures Valid() && keys == old(keys) && L() == old(L()) && now == old(now) + 1 && nEntriesThisGeneration == 0
    {
      NextCounts(now, nEntriesPerGeneration);
      nEntriesThisGeneration := 0;
      nGeneration := nGeneration + 1;
      if nGeneration == 4 {
        nGeneration := 1;
      }
      Wipe();
      WipedAgrees(old(data), data, ages, now);
      WipedTracks(L(), keys, ages, now);
      ages := Wiped(ages, now);
      now := now + 1;
    }

    static lemma NextCounts(now: nat, e: nat)
      ensures now * e + e == (now + 1) * e
      ensures (now + 1) % 3 == if now % 3 == 2 then 0 else now % 3 + 1
    {
    }

    /** Sets one position to the current generation. */
    method Mark(n: nat, key: K)
      requires L().Sound() && 1 <= nGeneration <= 3
      modifies this`data
      ensures |data| == old(|data|)
      ensures forall q, bit {:trigger Stored(data, q, bit)} | InRange(data, q, bit) ::
                Stored(data, q, bit) == if IsAt(L(), key, n, q, bit) then nGeneration else old(Stored(data, q, bit))
    {
      var h := hash(n, nTweak, key);
      var bit := h % 64;
      var pos := h / 64 % |data|;
      var low, high := pos / 2 * 2, pos / 2 * 2 + 1;
      ghost var before := data;
      data := data[low := Or(And(data[low], Not(Shifted(true, bit))), Shifted(nGeneration % 2 == 1, bit))];
      data := data[high := Or(And(data[high], Not(Shifted(true, bit))), Shifted(nGeneration / 2 == 1, bit))];
      forall q, b | InRange(data, q, b)
        ensures Stored(data, q, b) == if IsAt(L(), key, n, q, b) then nGeneration else Stored(before, q, b)
      {
        assert 2 * q == low <==> q == pos / 2;
      }
    }

    /** Marks all positions of a key. */
    method MarkKey(key: K)
      requires L().Sound() && nGeneration == 1 + now % 3 && Agrees(data, ages, now)
      modifies this`data
      ensures L() == old(L()) && Agrees(data, Marked(L(), ages, now, key, nHashFuncs), now)
    {
      for n := 0 to nHashFuncs
        invariant L() == old(L()) && Agrees(data, Marked(L(), ages, now, key, n), now)
      {
        ghost var before, was := data, Marked(L(), ages, now, key, n);
        Mark(n, key);
        ghost var next := Marked(L(), ages, now, key, n + 1);
        forall q, bit | InRange(data, q, bit)
          ensures Stored(data, q, bit) == Code(next(q, bit)) && -1 <= next(q, bit) <= now && (next(q, bit) < 0 || now - 2 <= next(q, bit))
        {
          assert Stored(before, q, bit) == Code(was(q, bit)) && -1 <= was(q, bit) <= now;
        }
      }
    }

    method Insert(key: K)
      requires Valid()
      modifies this
      ensures Valid() && keys == old(keys) + [key] && L() == old(L())
    {
      if nEntriesThisGeneration == nEntriesPerGeneration {
        NextGeneration();
      }
      DivUnique(|keys|, nEntriesPerGeneration, now, nEntriesThisGeneration);
      nEntriesThisGeneration := nEntriesThisGeneration + 1;
      MarkedTracks(L(), keys, ages, now, key);
      MarkKey(key);
      ages := Marked(L(), ages, now, key, nHashFuncs);
      keys := keys + [key];
    }

    /** Whether a key may be among the recent ones: all of its positions are set. */
    method Contains(key: K) returns (found: bool)
      requires Valid()
      ensures found <==> forall n {:trigger L().Pair(n, key)} | 0 <= n < nHashFuncs :: ages(L().Pair(n, key), L().Bit(n, key)) >= 0
    {
      for n := 0 to nHashFuncs
        invariant forall m {:trigger L().Pair(m, key)} | 0 <= m < n :: ages(L().Pair(m, key), L().Bit(m, key)) >= 0
      {
        var h := hash(n, nTweak, key);
        var bit := h % 64;
        var pos := h / 64 % |data|;
        ghost var q := L().Pair(n, key);
        assert InRange(data, q, bit) && Stored(data, q, bit) == Code(ages(q, bit));
        if !Or(data[pos / 2 * 2], data[pos / 2 * 2 + 1])[bit] {
          return false;
        }
      }
      found := true;
    }

    /** The keys inserted most recently belong to the last three generations. */
    lemma RecentGenerations(i: nat)
      requires Valid() && i < |keys| <= i + 2 * nEntriesPerGeneration
      ensures L().Born(i) >= now - 2
    {
      if now >= 2 {
        MulDistr(nEntriesPerGeneration, now - 2, 2);
        DivMono((now - 2) * nEntriesPerGeneration, i, nEntriesPerGeneration);
        DivUnique((now - 2) * nEntriesPerGeneration, nEntriesPerGeneration, now - 2, 0);
      }
    }

    /** Each of the last keys, at least as many as the filter was made for, is found. */
    method FindRecent(key: K, ghost i: nat) returns (found: bool)
      requires Valid() && i < |keys| <= i + 2 * nEntriesPerGeneration && keys[i] == key
      ensures found
    {
      RecentGenerations(i);
      assert Marks(L(), keys, ages, i);
      found := Contains(key);
    }

    /** A position is covered by a key of the last three generations. */
    ghost predicate Covered(q: int, bit: int)
      requires L().Sound()
      reads this
    {
      exists i: nat, n: nat {:trigger IsAt(L(), keys[i], n, q, bit)} ::
        i < |keys| && n < nHashFuncs && L().Born(i) >= now - 2 && IsAt(L(), keys[i], n, q, bit)
    }

    /** A position is set exactly if a key of the last three generations covers it. */
    lemma SetIsCovered(q: int, bit: int)
      requires Valid() && InRange(data, q, bit)
      ensures ages(q, bit) >= 0 <==> Covered(q, bit)
    {
      if ages(q, bit) >= 0 {
        assert Justified(L(), keys, ages, q, bit);
        var i: nat, n: nat :| i < |keys| && n < nHashFuncs && L().Born(i) == ages(q, bit) && IsAt(L(), keys[i], n, q, bit);
      }
      if Covered(q, bit) {
        var i: nat, n: nat :| i < |keys| && n < nHashFuncs && L().Born(i) >= now - 2 && IsAt(L(), keys[i], n, q, bit);
        assert Marks(L(), keys, ages, i);
        assert L().Pair(n, keys[i]) == q;
      }
    }

    /** Nothing is found in an empty filter, and only what recent keys cover is found in any other. */
    method FoundMeans(key: K) returns (found: bool)
      requires Valid()
      ensures found <==> forall n {:trigger L().Pair(n, key)} | 0 <= n < nHashFuncs :: Covered(L().Pair(n, key), L().Bit(n, key))
      ensures keys == [] ==> !found
    {
      forall n | 0 <= n < nHashFuncs
        ensures ages(L().Pair(n, key), L().Bit(n, key)) >= 0 <==> Covered(L().Pair(n, key), L().Bit(n, key))
      {
        SetIsCovered(L().Pair(n, key), L().Bit(n, key));
      }
      found := Contains(key);
      assert L().Pair(0, key) >= 0;
    }
  }
}
