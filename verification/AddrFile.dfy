/**
 The file form of the address manager, as values: what is written, what reading makes of any
 stream, and the proof that reading what was written restores everything.
 */
module AddrFile {
  import opened Transactions
  import opened Sets
  import opened AddrTables

  // ----- Listing a set of ids in ascending order -----

  function Listed(s: set<int>, n: nat): seq<int> {
    if n == 0 then [] else Listed(s, n - 1) + if n - 1 in s then [n - 1] else []
  }

  /** The number an id gets: how many smaller ids are listed. */
  function Rank(s: set<int>, id: nat): nat {
    |Listed(s, id)|
  }

  lemma {:induction false} ListedPrefix(s: set<int>, m: nat, n: nat)
    requires m <= n
    ensures Listed(s, m) <= Listed(s, n)
  {
    if m < n {
      ListedPrefix(s, m, n - 1);
    }
  }

  lemma {:induction false} ListedAt(s: set<int>, n: nat, i: nat)
    requires i < |Listed(s, n)|
    ensures 0 <= Listed(s, n)[i] < n && Listed(s, n)[i] in s
    ensures Rank(s, Listed(s, n)[i]) == i
  {
    if i < |Listed(s, n - 1)| {
      ListedAt(s, n - 1, i);
    }
  }

  lemma RankInRange(s: set<int>, n: nat, id: nat)
    requires id in s && id < n
    ensures Rank(s, id) < |Listed(s, n)| && Listed(s, n)[Rank(s, id)] == id
  {
    ListedPrefix(s, id + 1, n);
    assert Listed(s, id + 1) == Listed(s, id) + [id];
    assert Listed(s, n)[Rank(s, id)] == Listed(s, id + 1)[Rank(s, id)];
  }

  lemma ListedCount(s: set<int>, n: nat)
    requires forall id | id in s :: 0 <= id < n
    ensures |Listed(s, n)| == |s|
  {
    var l := Listed(s, n);
    forall id | id in s
      ensures id in l
    {
      RankInRange(s, n, id);
    }
    forall i | 0 <= i < |l|
      ensures l[i] in s
    {
      ListedAt(s, n, i);
    }
    forall i, j | 0 <= i < j < |l|
      ensures l[i] != l[j]
    {
      ListedAt(s, n, i);
      ListedAt(s, n, j);
    }
    var elems := set id | id in l;
    SubsetSize(elems, s);
    SubsetSize(s, elems);
    DistinctCount(l, elems);
  }

  // ----- A table holds no more entries than it has slots -----

  lemma {:induction false} RowCount(row: seq<int>, s: set<int>)
    requires forall id | id in s :: id in row
    ensures |s| <= |row|
  {
    if row == [] {
      assert forall id :: id !in s;
      assert s == {};
    } else {
      var last := row[|row| - 1];
      RowCount(row[..|row| - 1], s - {last});
    }
  }

  ghost predicate InRows(t: Table, n: nat, id: int)
    requires n <= |t|
  {
    exists b :: 0 <= b < n && id in t[b]
  }

  lemma {:induction false} TableCount(t: Table, n: nat, width: nat, s: set<int>)
    requires n <= |t| && forall b | 0 <= b < |t| :: |t[b]| == width
    requires forall id | id in s :: InRows(t, n, id)
    ensures |s| <= n * width
  {
    if n == 0 {
      assert forall id :: id in s ==> InRows(t, n, id);
      assert forall id :: id !in s;
      assert s == {};
    } else {
      var here := set id | id in s && id in t[n - 1];
      RowCount(t[n - 1], here);
      forall id | id in s - here
        ensures InRows(t, n - 1, id)
      {
        assert InRows(t, n, id);
      }
      TableCount(t, n - 1, width, s - here);
      assert |s| == |here| + |s - here| by {
        assert s == here + (s - here);
      }
      assert n * width == (n - 1) * width + width;
    }
  }

  // ----- What is written -----

  /** The fields of an entry that the file keeps. */
  datatype Saved = Saved(addr: Service, services: set<nat>, time: int, source: NetAddr, lastSuccess: int, attempts: int)

  function Save(e: AddrInfo): Saved {
    Saved(e.addr, e.services, e.time, e.source, e.lastSuccess, e.attempts)
  }

  /** An entry as read: the rest of its fields start from scratch. */
  function Fresh(s: Saved, pos: int, tried: bool): AddrInfo {
    AddrInfo(s.addr, s.services, s.time, s.source, s.lastSuccess, 0, 0, s.attempts, 0, tried, pos)
  }

  datatype Token = Byte(n: nat) | Key(k: Uint256) | Int(i: int) | Entry(e: Saved)

  const FLAG: int := 0x4000_0000

  /** Exclusive or with 2^30, on 32-bit two's complement numbers. */
  function Flip(n: int): int {
    if n / FLAG % 2 == 0 then n + FLAG else n - FLAG
  }

  lemma FlipTwice(n: int)
    ensures Flip(Flip(n)) == n
  {
    var q := n / FLAG;
    assert (n + FLAG) / FLAG == q + 1 && (n - FLAG) / FLAG == q - 1;
  }

  /** The state of an address manager. */
  datatype State = State(
    key: Uint256, idCount: int, info: InfoMap, byAddr: map<NetAddr, int>, random: seq<int>,
    nTried: int, tTried: Table, nNew: int, tNew: Table)

  function Entries(info: InfoMap, ids: seq<int>): seq<Token>
    requires forall i | 0 <= i < |ids| :: ids[i] in info
  {
    seq(|ids|, i requires 0 <= i < |ids| => Entry(Save(info[ids[i]])))
  }

  /** The ids in the first p slots of a row, in order. */
  function Held(row: seq<int>, p: nat): seq<int>
    requires p <= |row|
    decreases |row|, p
  {
    if p == 0 then [] else Held(row, p - 1) + if row[p - 1] != EMPTY then [row[p - 1]] else []
  }

  function Number(unk: map<int, int>, id: int): int {
    if id in unk then unk[id] else 0
  }

  function RowTokens(row: seq<int>, unk: map<int, int>): seq<Token> {
    var held := Held(row, |row|);
    [Int(|held|)] + seq(|held|, i requires 0 <= i < |held| => Int(Number(unk, held[i])))
  }

  function TableTokens(t: Table, unk: map<int, int>, n: nat): seq<Token>
    requires n <= |t|
    decreases |t|, n
  {
    if n == 0 then [] else TableTokens(t, unk, n - 1) + RowTokens(t[n - 1], unk)
  }

  /** The numbers that the new entries get in the file. */
  ghost function NewNumbers(info: InfoMap, n: nat): map<int, int> {
    map id | 0 <= id < n && id in info :: Rank(NewIds(info), id)
  }

  ghost predicate Sound(k: Bucketing, st: State, floating: set<int>) {
    && IndexSound(st.info, st.byAddr, st.random, st.idCount)
    && NewSound(k, st.info, st.tNew, floating)
    && TriedSound(k, st.info, st.tTried)
  }

  /** A state between two operations. */
  ghost predicate Whole(k: Bucketing, st: State) {
    Sound(k, st, {}) && st.nTried == |TriedIds(st.info)| && st.nNew == |NewIds(st.info)| && k.key == st.key
  }

  ghost function NewList(st: State): seq<int>
    requires st.idCount >= 0
  {
    Listed(NewIds(st.info), st.idCount)
  }

  ghost function TriedList(st: State): seq<int>
    requires st.idCount >= 0
  {
    Listed(TriedIds(st.info), st.idCount)
  }

  lemma Lists(k: Bucketing, st: State)
    requires Whole(k, st)
    ensures |NewList(st)| == st.nNew && |TriedList(st)| == st.nTried
    ensures forall i | 0 <= i < st.nNew :: NewList(st)[i] in NewIds(st.info) && NewList(st)[i] in st.info
    ensures forall i | 0 <= i < st.nTried :: TriedList(st)[i] in TriedIds(st.info) && TriedList(st)[i] in st.info
  {
    forall id | id in st.info
      ensures 0 <= id < st.idCount
    {
      assert IdSound(st.info, st.byAddr, st.random, st.idCount, id);
    }
    ListedCount(NewIds(st.info), st.idCount);
    ListedCount(TriedIds(st.info), st.idCount);
    forall i | 0 <= i < st.nNew
      ensures NewList(st)[i] in NewIds(st.info)
    {
      ListedAt(NewIds(st.info), st.idCount, i);
    }
    forall i | 0 <= i < st.nTried
      ensures TriedList(st)[i] in TriedIds(st.info)
    {
      ListedAt(TriedIds(st.info), st.idCount, i);
    }
  }

  /** The limits that a reader imposes are never exceeded by a sound state. */
  lemma WithinLimits(k: Bucketing, st: State)
    requires Whole(k, st)
    ensures st.nNew <= NEW_BUCKET_COUNT * BUCKET_SIZE && st.nTried <= TRIED_BUCKET_COUNT * BUCKET_SIZE
  {
    forall id | id in NewIds(st.info)
      ensures InRows(st.tNew, NEW_BUCKET_COUNT, id)
    {
      HasSlot(k, st.info, st.tNew, id);
    }
    TableCount(st.tNew, NEW_BUCKET_COUNT, BUCKET_SIZE, NewIds(st.info));
    forall id | id in TriedIds(st.info)
      ensures InRows(st.tTried, TRIED_BUCKET_COUNT, id)
    {
      assert InTriedSlot(k, st.tTried, id, st.info[id].addr);
    }
    TableCount(st.tTried, TRIED_BUCKET_COUNT, BUCKET_SIZE, TriedIds(st.info));
  }

  function Head(st: State): seq<Token> {
    [Byte(1), Byte(32), Key(st.key), Int(st.nNew), Int(st.nTried), Int(Flip(NEW_BUCKET_COUNT))]
  }

  ghost function NewTokens(k: Bucketing, st: State): seq<Token>
    requires Whole(k, st)
  {
    Lists(k, st);
    Entries(st.info, NewList(st))
  }

  ghost function TriedTokens(k: Bucketing, st: State): seq<Token>
    requires Whole(k, st)
  {
    Lists(k, st);
    Entries(st.info, TriedList(st))
  }

  /** Everything the file holds. */
  ghost function Written(k: Bucketing, st: State): seq<Token>
    requires Whole(k, st)
  {
    Head(st) + (NewTokens(k, st) + (TriedTokens(k, st) + TableTokens(st.tNew, NewNumbers(st.info, st.idCount), NEW_BUCKET_COUNT)))
  }

  // ----- What is read -----

  datatype Read<T> = Fail | Got(value: T, next: nat)

  ghost predicate Shaped(st: State) {
    Shape(st.tNew, NEW_BUCKET_COUNT) && Shape(st.tTried, TRIED_BUCKET_COUNT)
  }

  /** A new entry is numbered in order; without usable table data it gets its first bucket at once. */
  ghost function AddNew(k: Bucketing, st: State, s: Saved, n: int, fallback: bool): (r: State)
    requires Shaped(st)
    ensures Shaped(r)
  {
    var e := Fresh(s, |st.random|, false);
    var b := k.New(s.addr, s.source);
    var p := k.Position(true, b, s.addr);
    var placed := fallback && st.tNew[b][p] == EMPTY;
    st.(info := st.info[n := if placed then e.(refCount := 1) else e],
        byAddr := st.byAddr[s.addr.ip := n], random := st.random + [n],
        tNew := if placed then SetSlot(st.tNew, b, p, n) else st.tNew)
  }

  ghost function ReadNew(k: Bucketing, st: State, ts: seq<Token>, pos: nat, n: int, fallback: bool): (r: Read<State>)
    requires Shaped(st)
    ensures r.Got? ==> Shaped(r.value)
    decreases st.nNew - n
  {
    if n >= st.nNew then Got(st.(idCount := st.nNew), pos)
    else if pos >= |ts| || !ts[pos].Entry? then Fail
    else ReadNew(k, AddNew(k, st, ts[pos].e, n, fallback), ts, pos + 1, n + 1, fallback)
  }

  /** A tried entry takes its slot, or is lost if the slot is taken. */
  ghost function AddTried(k: Bucketing, st: State, s: Saved): (r: State)
    requires Shaped(st)
    ensures Shaped(r)
  {
    var b := k.Tried(s.addr);
    var p := k.Position(false, b, s.addr);
    if st.tTried[b][p] != EMPTY then st.(nTried := st.nTried - 1)
    else
      st.(info := st.info[st.idCount := Fresh(s, |st.random|, true)], byAddr := st.byAddr[s.addr.ip := st.idCount],
          random := st.random + [st.idCount], tTried := SetSlot(st.tTried, b, p, st.idCount), idCount := st.idCount + 1)
  }

  ghost function ReadTried(k: Bucketing, st: State, ts: seq<Token>, pos: nat, left: int): (r: Read<State>)
    requires Shaped(st)
    ensures r.Got? ==> Shaped(r.value)
    decreases left
  {
    if left <= 0 then Got(st, pos)
    else if pos >= |ts| || !ts[pos].Entry? then Fail
    else ReadTried(k, AddTried(k, st, ts[pos].e), ts, pos + 1, left - 1)
  }

  /** One more reference, if the table data is usable, the slot is free and the entry may have more. */
  ghost function Place(k: Bucketing, st: State, usable: bool, bucket: int, index: int): (r: State)
    requires Shaped(st)
    requires usable ==> 0 <= bucket < NEW_BUCKET_COUNT
    ensures Shaped(r)
  {
    if usable && 0 <= index < st.nNew && index in st.info
       && st.tNew[bucket][k.Position(true, bucket, st.info[index].addr)] == EMPTY
       && st.info[index].refCount < NEW_BUCKETS_PER_ADDRESS
    then
      var e := st.info[index];
      st.(info := st.info[index := e.(refCount := e.refCount + 1)],
          tNew := SetSlot(st.tNew, bucket, k.Position(true, bucket, e.addr), index))
    else st
  }

  ghost function ReadRow(k: Bucketing, st: State, ts: seq<Token>, pos: nat, usable: bool, bucket: int, left: int): (r: Read<State>)
    requires Shaped(st)
    requires usable ==> 0 <= bucket < NEW_BUCKET_COUNT
    ensures r.Got? ==> Shaped(r.value)
    decreases left
  {
    if left <= 0 then Got(st, pos)
    else if pos >= |ts| || !ts[pos].Int? then Fail
    else ReadRow(k, Place(k, st, usable, bucket, ts[pos].i), ts, pos + 1, usable, bucket, left - 1)
  }

  ghost function ReadRows(k: Bucketing, st: State, ts: seq<Token>, pos: nat, usable: bool, bucket: int, buckets: int): (r: Read<State>)
    requires Shaped(st)
    requires usable ==> 0 <= bucket && buckets == NEW_BUCKET_COUNT
    ensures r.Got? ==> Shaped(r.value)
    decreases |ts|, buckets - bucket
  {
    if bucket >= buckets then Got(st, pos)
    else if pos >= |ts| || !ts[pos].Int? then Fail
    else
      var row := ReadRow(k, st, ts, pos + 1, usable, bucket, ts[pos].i);
      if row.Fail? then Fail
      else ReadRows(k, row.value, ts, row.next, usable, bucket + 1, buckets)
  }

  predicate HasHeader(ts: seq<Token>) {
    && |ts| >= 6 && ts[0].Byte? && ts[1] == Byte(32) && ts[2].Key? && ts[3].Int? && ts[4].Int? && ts[5].Int?
    && ts[3].i <= NEW_BUCKET_COUNT * BUCKET_SIZE && ts[4].i <= TRIED_BUCKET_COUNT * BUCKET_SIZE
  }

  function Blank(buckets: nat): (t: Table)
    ensures Shape(t, buckets)
    ensures forall b, p | 0 <= b < buckets && 0 <= p < BUCKET_SIZE :: t[b][p] == EMPTY
  {
    seq(buckets, _ => seq(BUCKET_SIZE, _ => EMPTY))
  }

  ghost function Cleared(key: Uint256, nNew: int, nTried: int): (st: State)
    ensures Shaped(st)
  {
    State(key, 0, map[], map[], [], nTried, Blank(TRIED_BUCKET_COUNT), nNew, Blank(NEW_BUCKET_COUNT))
  }

  /** The number of new buckets that a file announces. */
  function Buckets(ts: seq<Token>): int
    requires HasHeader(ts)
  {
    if ts[0].n != 0 then Flip(ts[5].i) else ts[5].i
  }

  /** Whether the positions in the new table can be taken over. */
  predicate Usable(ts: seq<Token>)
    requires HasHeader(ts)
  {
    ts[0].n == 1 && Buckets(ts) == NEW_BUCKET_COUNT
  }

  /** The new entries and then the tried entries. */
  ghost function ReadEntries(k: Bucketing, st: State, ts: seq<Token>, base: nat, fallback: bool): (r: Read<State>)
    requires Shaped(st)
    ensures r.Got? ==> Shaped(r.value)
  {
    var new' := ReadNew(k, st, ts, base, 0, fallback);
    if new'.Fail? then Fail else ReadTried(k, new'.value, ts, new'.next, st.nTried)
  }

  /** What follows the header: the entries, then their positions in the new table. */
  ghost function ReadBody(k: Bucketing, st: State, ts: seq<Token>, base: nat, usable: bool, buckets: int): (r: Read<State>)
    requires Shaped(st)
    requires usable ==> buckets == NEW_BUCKET_COUNT
    ensures r.Got? ==> Shaped(r.value)
  {
    var entries := ReadEntries(k, st, ts, base, !usable);
    if entries.Fail? then Fail else ReadRows(k, entries.value, ts, entries.next, usable, 0, buckets)
  }

  /** What reading makes of a stream, before entries without any slot are dropped. */
  ghost function Decoded(hashes: Hashes, ts: seq<Token>): (r: Read<State>)
    ensures r.Got? ==> Shaped(r.value)
  {
    if !HasHeader(ts) then Fail
    else
      ReadBody(Bucketing(hashes, ts[2].k), Cleared(ts[2].k, ts[3].i, ts[4].i), ts, 6, Usable(ts), Buckets(ts))
  }

  // ----- The round trip: entries -----

  predicate IsBelow(i: int, n: nat) {
    0 <= i < n
  }

  function Below(n: nat): set<int> {
    set i: int | 0 <= i < n && IsBelow(i, n)
  }

  /** The ids in the order in which the file lists their entries. */
  ghost function Order(o: State): seq<int>
    requires o.idCount >= 0
  {
    NewList(o) + TriedList(o)
  }

  lemma OrderFacts(k: Bucketing, o: State)
    requires Whole(k, o)
    ensures |Order(o)| == o.nNew + o.nTried && |NewList(o)| == o.nNew
    ensures forall i | 0 <= i < |Order(o)| ::
              Order(o)[i] in o.info && (o.info[Order(o)[i]].inTried <==> i >= o.nNew)
    ensures forall i, j | 0 <= i < j < |Order(o)| :: Order(o)[i] != Order(o)[j]
  {
    Lists(k, o);
    forall i, j | 0 <= i < j < |Order(o)|
      ensures Order(o)[i] != Order(o)[j]
    {
      if j < o.nNew {
        ListedAt(NewIds(o.info), o.idCount, i);
        ListedAt(NewIds(o.info), o.idCount, j);
      } else if i >= o.nNew {
        ListedAt(TriedIds(o.info), o.idCount, i - o.nNew);
        ListedAt(TriedIds(o.info), o.idCount, j - o.nNew);
      }
    }
  }

  ghost predicate Restored(o: State, st: State, j: nat)
    requires o.idCount >= 0 && j < |Order(o)| && Order(o)[j] in o.info
  {
    j in st.info && st.info[j] == Fresh(Save(o.info[Order(o)[j]]), j, j >= o.nNew).(refCount := st.info[j].refCount)
  }

  /** The first m entries of the file were restored, and all indexes agree about them. */
  ghost predicate Loaded(k: Bucketing, o: State, st: State, m: nat)
    requires Whole(k, o)
  {
    OrderFacts(k, o);
    && m <= |Order(o)| && |st.random| == m
    && st.key == o.key && st.nNew == o.nNew && st.nTried == o.nTried
    && st.info.Keys == Below(m)
    && (forall j | 0 <= j < m :: Restored(o, st, j))
    && Sound(k, st.(idCount := m), Below(o.nNew))
  }

  /** Addresses of entries are distinct, so none is taken yet. */
  lemma FreshAddress(k: Bucketing, o: State, st: State, m: nat)
    requires Whole(k, o) && Loaded(k, o, st, m) && m < |Order(o)|
    ensures Order(o)[m] in o.info && o.info[Order(o)[m]].addr.ip !in st.byAddr
  {
    OrderFacts(k, o);
    var ip := o.info[Order(o)[m]].addr.ip;
    assert IdSound(o.info, o.byAddr, o.random, o.idCount, Order(o)[m]);
    forall taken | taken in st.byAddr
      ensures taken != ip
    {
      assert AddrSound(st.info, st.byAddr, taken);
      var j := st.byAddr[taken];
      assert j in Below(m);
      assert Restored(o, st, j);
      assert IdSound(o.info, o.byAddr, o.random, o.idCount, Order(o)[j]);
    }
  }

  lemma RestoredOneMore(k: Bucketing, o: State, st: State, m: nat, st': State)
    requires Whole(k, o) && Loaded(k, o, st, m) && m < |Order(o)|
    requires Order(o)[m] in o.info && st'.info == st.info[m := Fresh(Save(o.info[Order(o)[m]]), m, m >= o.nNew)]
    ensures st'.info.Keys == Below(m + 1)
    ensures forall j | 0 <= j < m + 1 :: Order(o)[j] in o.info && Restored(o, st', j)
  {
    OrderFacts(k, o);
    forall j | 0 <= j < m + 1
      ensures Restored(o, st', j)
    {
      assert j < m ==> Restored(o, st, j);
    }
  }

  lemma NewStep(k: Bucketing, o: State, st: State, m: nat)
    requires Whole(k, o) && Loaded(k, o, st, m) && m < o.nNew
    ensures |Order(o)| > m && Order(o)[m] in o.info
    ensures var st' := AddNew(k, st, Save(o.info[Order(o)[m]]), m, false);
            Loaded(k, o, st', m + 1) && st'.tNew == st.tNew && st'.idCount == st.idCount
  {
    OrderFacts(k, o);
    FreshAddress(k, o, st, m);
    var e := Fresh(Save(o.info[Order(o)[m]]), m, false);
    var st' := AddNew(k, st, Save(o.info[Order(o)[m]]), m, false);
    IndexPushed(st.info, st.byAddr, st.random, m, e);
    EntryAdded(k, st.info, st.tNew, st.tTried, Below(o.nNew), m, e);
    assert Below(o.nNew) + {m as int} == Below(o.nNew);
    RestoredOneMore(k, o, st, m, st');
  }

  /** The slots of tried entries are distinct, so none is lost. */
  lemma FreshSlot(k: Bucketing, o: State, st: State, m: nat)
    requires Whole(k, o) && Loaded(k, o, st, m) && o.nNew <= m < |Order(o)|
    ensures Order(o)[m] in o.info && InTriedSlot(k, st.tTried, EMPTY, o.info[Order(o)[m]].addr)
  {
    OrderFacts(k, o);
    var a := o.info[Order(o)[m]].addr;
    var b := k.Tried(a);
    var p := k.Position(false, b, a);
    var j := st.tTried[b][p];
    assert InTriedSlot(k, o.tTried, Order(o)[m], a);
    assert TriedSlotSound(k, st.info, b, p, j);
    forall i | 0 <= i < m && st.info[i].inTried
      ensures !(b == k.Tried(st.info[i].addr) && p == k.Position(false, b, st.info[i].addr))
    {
      assert Restored(o, st, i);
      assert InTriedSlot(k, o.tTried, Order(o)[i], o.info[Order(o)[i]].addr);
    }
    assert j in st.info ==> j in Below(m);
  }

  lemma TriedStep(k: Bucketing, o: State, st: State, m: nat)
    requires Whole(k, o) && Loaded(k, o, st, m) && o.nNew <= m < |Order(o)| && st.idCount == m
    ensures Order(o)[m] in o.info
    ensures var st' := AddTried(k, st, Save(o.info[Order(o)[m]]));
            Loaded(k, o, st', m + 1) && st'.tNew == st.tNew && st'.idCount == m + 1
  {
    OrderFacts(k, o);
    FreshAddress(k, o, st, m);
    FreshSlot(k, o, st, m);
    var e := Fresh(Save(o.info[Order(o)[m]]), m, true);
    var e0 := e.(inTried := false);
    var st' := AddTried(k, st, Save(o.info[Order(o)[m]]));
    IndexPushed(st.info, st.byAddr, st.random, m, e);
    EntryAdded(k, st.info, st.tNew, st.tTried, Below(o.nNew), m, e0);
    var info0 := st.info[m as int := e0];
    TriedEntered(k, info0, st.tNew, st.tTried, Below(o.nNew) + {m as int}, m);
    assert info0[m as int := info0[m].(inTried := true)] == st'.info;
    assert Below(o.nNew) + {m as int} - {m as int} == Below(o.nNew);
    RestoredOneMore(k, o, st, m, st');
  }

  /** The entries lie in the stream from base on. */
  ghost predicate EntriesAt(k: Bucketing, o: State, ts: seq<Token>, base: nat)
    requires Whole(k, o)
  {
    OrderFacts(k, o);
    forall i | 0 <= i < |Order(o)| :: base + i < |ts| && ts[base + i] == Entry(Save(o.info[Order(o)[i]]))
  }

  lemma LoadedCounted(k: Bucketing, o: State, st: State, m: nat)
    requires Whole(k, o) && Loaded(k, o, st, m)
    ensures Loaded(k, o, st.(idCount := m), m)
  {
    OrderFacts(k, o);
    forall j | 0 <= j < m
      ensures Restored(o, st.(idCount := m), j)
    {
      assert Restored(o, st, j);
    }
  }

  lemma {:induction false} ReadsNew(k: Bucketing, o: State, st: State, ts: seq<Token>, base: nat, n: nat)
    requires Whole(k, o) && EntriesAt(k, o, ts, base)
    requires Shaped(st) && Loaded(k, o, st, n) && n <= o.nNew
    ensures var r := ReadNew(k, st, ts, base + n, n, false);
            && r.Got? && r.next == base + o.nNew && Loaded(k, o, r.value, o.nNew)
            && r.value.tNew == st.tNew && r.value.idCount == o.nNew
    decreases o.nNew - n
  {
    OrderFacts(k, o);
    if n < o.nNew {
      NewStep(k, o, st, n);
      assert ts[base + n] == Entry(Save(o.info[Order(o)[n]]));
      ReadsNew(k, o, AddNew(k, st, Save(o.info[Order(o)[n]]), n, false), ts, base, n + 1);
    } else {
      LoadedCounted(k, o, st, n);
    }
  }

  lemma {:induction false} ReadsTried(k: Bucketing, o: State, st: State, ts: seq<Token>, base: nat, m: nat)
    requires Whole(k, o) && EntriesAt(k, o, ts, base)
    requires Shaped(st) && Loaded(k, o, st, m) && o.nNew <= m && st.idCount == m
    ensures var r := ReadTried(k, st, ts, base + m, o.nNew + o.nTried - m);
            && r.Got? && r.next == base + |Order(o)| && Loaded(k, o, r.value, |Order(o)|)
            && r.value.tNew == st.tNew && r.value.idCount == |Order(o)|
    decreases o.nNew + o.nTried - m
  {
    OrderFacts(k, o);
    if m < |Order(o)| {
      TriedStep(k, o, st, m);
      assert ts[base + m] == Entry(Save(o.info[Order(o)[m]]));
      ReadsTried(k, o, AddTried(k, st, Save(o.info[Order(o)[m]])), ts, base, m + 1);
    }
  }

  // ----- The round trip: positions in the new table -----

  /** The number under which a slot of the new table is restored. */
  ghost function NewSlot(o: State, id: int): int {
    if id < 0 then EMPTY else Rank(NewIds(o.info), id)
  }

  ghost predicate Before(b: int, p: int, b': int, p': int) {
    b' < b || (b' == b && p' < p)
  }

  ghost predicate SlotDone(o: State, t: Table, b: int, p: int, b': int, p': int)
    requires Shape(o.tNew, NEW_BUCKET_COUNT) && Shape(t, NEW_BUCKET_COUNT)
    requires 0 <= b' < NEW_BUCKET_COUNT && 0 <= p' < BUCKET_SIZE
  {
    t[b'][p'] == if Before(b, p, b', p') then NewSlot(o, o.tNew[b'][p']) else EMPTY
  }

  /** The slots before position p of bucket b were restored; the others are still empty. */
  ghost predicate Progress(o: State, t: Table, b: int, p: int) {
    && Shape(o.tNew, NEW_BUCKET_COUNT) && Shape(t, NEW_BUCKET_COUNT)
    && forall b', p' {:trigger SlotDone(o, t, b, p, b', p')} | 0 <= b' < NEW_BUCKET_COUNT && 0 <= p' < BUCKET_SIZE ::
         SlotDone(o, t, b, p, b', p')
  }

  /** The holder of a new slot, its number, and its place. */
  lemma Holder(k: Bucketing, o: State, b: nat, p: nat)
    requires Whole(k, o) && b < NEW_BUCKET_COUNT && p < BUCKET_SIZE && o.tNew[b][p] != EMPTY
    ensures var id := o.tNew[b][p]; var j := NewSlot(o, id);
            && 0 <= id < o.idCount && id in o.info && !o.info[id].inTried && p == k.Position(true, b, o.info[id].addr)
            && 0 <= j < o.nNew && j < |Order(o)| && Order(o)[j] == id && Number(NewNumbers(o.info, o.idCount), id) == j
  {
    var id := o.tNew[b][p];
    assert NewSlotSound(k, o.info, b, p, id);
    assert IdSound(o.info, o.byAddr, o.random, o.idCount, id);
    OrderFacts(k, o);
    RankInRange(NewIds(o.info), o.idCount, id);
  }

  /** A restored slot holds a number exactly where the original holds that entry. */
  lemma SlotOf(k: Bucketing, o: State, b: nat, p: nat, j: nat)
    requires Whole(k, o) && b < NEW_BUCKET_COUNT && p < BUCKET_SIZE && j < o.nNew
    ensures j < |Order(o)| && (NewSlot(o, o.tNew[b][p]) == j <==> o.tNew[b][p] == Order(o)[j])
  {
    OrderFacts(k, o);
    ListedAt(NewIds(o.info), o.idCount, j);
    if o.tNew[b][p] != EMPTY {
      Holder(k, o, b, p);
    }
  }

  /** An entry whose next slot is still empty has fewer references than it will have. */
  lemma FewerReferences(k: Bucketing, o: State, st: State, b: nat, p: nat, j: nat)
    requires Whole(k, o) && Loaded(k, o, st, |Order(o)|) && Progress(o, st.tNew, b, p)
    requires b < NEW_BUCKET_COUNT && p < BUCKET_SIZE && o.tNew[b][p] != EMPTY && j == NewSlot(o, o.tNew[b][p])
    ensures j in st.info && st.info[j].refCount < NEW_BUCKETS_PER_ADDRESS
  {
    Holder(k, o, b, p);
    OrderFacts(k, o);
    var id := o.tNew[b][p];
    assert Restored(o, st, j);
    var a := o.info[id].addr;
    var now, final := NewBuckets(k, st.tNew, a, j), NewBuckets(k, o.tNew, a, id);
    forall b' | b' in now
      ensures b' in final - {b as int}
    {
      var p' := k.Position(true, b', a);
      assert SlotDone(o, st.tNew, b, p, b', p');
      SlotOf(k, o, b', p', j);
    }
    assert b in final;
    SubsetSize(now, final - {b as int});
    assert RefCountSound(k, o.tNew, id, o.info[id], {});
    assert RefCountSound(k, st.tNew, j, st.info[j], Below(o.nNew));
  }

  lemma ProgressFilled(o: State, t: Table, b: nat, p: nat)
    requires Progress(o, t, b, p) && b < NEW_BUCKET_COUNT && p < BUCKET_SIZE
    ensures Progress(o, SetSlot(t, b, p, NewSlot(o, o.tNew[b][p])), b, p + 1)
  {
    var t' := SetSlot(t, b, p, NewSlot(o, o.tNew[b][p]));
    var q := p + 1;
    forall b', p' | 0 <= b' < NEW_BUCKET_COUNT && 0 <= p' < BUCKET_SIZE
      ensures SlotDone(o, t', b, q, b', p')
    {
      assert SlotDone(o, t, b, p, b', p');
    }
  }

  lemma ProgressSkipped(o: State, t: Table, b: nat, p: nat)
    requires Progress(o, t, b, p) && b < NEW_BUCKET_COUNT && p < BUCKET_SIZE && o.tNew[b][p] == EMPTY
    ensures Progress(o, t, b, p + 1)
  {
    var q := p + 1;
    forall b', p' | 0 <= b' < NEW_BUCKET_COUNT && 0 <= p' < BUCKET_SIZE
      ensures SlotDone(o, t, b, q, b', p')
    {
      assert SlotDone(o, t, b, p, b', p');
    }
  }

  lemma ProgressRow(o: State, t: Table, b: nat)
    requires Progress(o, t, b, BUCKET_SIZE)
    ensures Progress(o, t, b + 1, 0)
  {
    var c := b + 1;
    forall b', p' | 0 <= b' < NEW_BUCKET_COUNT && 0 <= p' < BUCKET_SIZE
      ensures SlotDone(o, t, c, 0, b', p')
    {
      assert SlotDone(o, t, b, BUCKET_SIZE, b', p');
    }
  }

  lemma PlaceStep(k: Bucketing, o: State, st: State, b: nat, p: nat)
    requires Whole(k, o) && Shaped(st) && Loaded(k, o, st, |Order(o)|) && Progress(o, st.tNew, b, p)
    requires b < NEW_BUCKET_COUNT && p < BUCKET_SIZE && o.tNew[b][p] != EMPTY
    ensures var st' := Place(k, st, true, b, NewSlot(o, o.tNew[b][p]));
            Loaded(k, o, st', |Order(o)|) && Progress(o, st'.tNew, b, p + 1) && st'.idCount == st.idCount
  {
    Holder(k, o, b, p);
    OrderFacts(k, o);
    var j := NewSlot(o, o.tNew[b][p]);
    FewerReferences(k, o, st, b, p, j);
    assert Restored(o, st, j);
    assert SlotDone(o, st.tNew, b, p, b, p);
    var st' := Place(k, st, true, b, j);
    SlotFilled(k, st.info, st.tNew, Below(o.nNew), b, j);
    NewGrow(k, st'.info, st'.tNew, Below(o.nNew) - {j}, Below(o.nNew));
    IndexKept(st.info, st'.info, st.byAddr, st.random, |Order(o)|);
    TriedKept(k, st.info, st'.info, st.tTried);
    ProgressFilled(o, st.tNew, b, p);
    forall i | 0 <= i < |Order(o)|
      ensures Restored(o, st', i)
    {
      assert Restored(o, st, i);
    }
  }

  lemma {:induction false} HeldPrefix(row: seq<int>, p: nat, q: nat)
    requires p <= q <= |row|
    ensures Held(row, p) <= Held(row, q)
    ensures p < q && row[p] != EMPTY ==> |Held(row, p)| < |Held(row, q)| && Held(row, q)[|Held(row, p)|] == row[p]
  {
    if p < q {
      HeldPrefix(row, p, q - 1);
    }
  }

  /** The numbers of a row lie in the stream from start on. */
  ghost predicate RowAt(o: State, ts: seq<Token>, start: nat, b: nat)
    requires Shape(o.tNew, NEW_BUCKET_COUNT) && b < NEW_BUCKET_COUNT && o.idCount >= 0
  {
    var held := Held(o.tNew[b], BUCKET_SIZE);
    forall i | 0 <= i < |held| :: start + i < |ts| && ts[start + i] == Int(Number(NewNumbers(o.info, o.idCount), held[i]))
  }

  ghost predicate Filling(k: Bucketing, o: State, st: State, b: int, p: int)
    requires Whole(k, o)
  {
    Shaped(st) && Loaded(k, o, st, |Order(o)|) && Progress(o, st.tNew, b, p) && st.idCount == |Order(o)|
  }

  ghost predicate RowRead(k: Bucketing, o: State, r: Read<State>, next: nat, b: nat)
    requires Whole(k, o)
  {
    r.Got? && r.next == next && Filling(k, o, r.value, b, BUCKET_SIZE)
  }

  lemma FillingSkipped(k: Bucketing, o: State, st: State, b: nat, p: nat)
    requires Whole(k, o) && b < NEW_BUCKET_COUNT && p < BUCKET_SIZE && Filling(k, o, st, b, p) && o.tNew[b][p] == EMPTY
    ensures Filling(k, o, st, b, p + 1)
  {
    ProgressSkipped(o, st.tNew, b, p);
  }

  lemma FillingPlaced(k: Bucketing, o: State, st: State, b: nat, p: nat)
    requires Whole(k, o) && b < NEW_BUCKET_COUNT && p < BUCKET_SIZE && Filling(k, o, st, b, p) && o.tNew[b][p] != EMPTY
    ensures Filling(k, o, Place(k, st, true, b, NewSlot(o, o.tNew[b][p])), b, p + 1)
    ensures Number(NewNumbers(o.info, o.idCount), o.tNew[b][p]) == NewSlot(o, o.tNew[b][p])
  {
    PlaceStep(k, o, st, b, p);
    Holder(k, o, b, p);
  }

  lemma {:induction false} ReadsRow(k: Bucketing, o: State, st: State, ts: seq<Token>, start: nat, b: nat, p: nat)
    requires Whole(k, o) && b < NEW_BUCKET_COUNT && p <= BUCKET_SIZE && RowAt(o, ts, start, b)
    requires Filling(k, o, st, b, p)
    ensures var held := |Held(o.tNew[b], BUCKET_SIZE)|; var seen := |Held(o.tNew[b], p)|;
            RowRead(k, o, ReadRow(k, st, ts, start + seen, true, b, held - seen), start + held, b)
    decreases BUCKET_SIZE - p
  {
    var row := o.tNew[b];
    HeldPrefix(row, p, BUCKET_SIZE);
    if p < BUCKET_SIZE {
      var seen := |Held(row, p)|;
      if row[p] == EMPTY {
        FillingSkipped(k, o, st, b, p);
        ReadsRow(k, o, st, ts, start, b, p + 1);
      } else {
        FillingPlaced(k, o, st, b, p);
        assert ts[start + seen] == Int(Number(NewNumbers(o.info, o.idCount), row[p]));
        ReadsRow(k, o, Place(k, st, true, b, NewSlot(o, row[p])), ts, start, b, p + 1);
      }
    }
  }

  ghost predicate At(ts: seq<Token>, pos: nat, part: seq<Token>) {
    pos + |part| <= |ts| && forall j | 0 <= j < |part| :: ts[pos + j] == part[j]
  }

  lemma AtSplit(ts: seq<Token>, pos: nat, a: seq<Token>, b: seq<Token>)
    requires At(ts, pos, a + b)
    ensures At(ts, pos, a) && At(ts, pos + |a|, b)
  {
    var c := a + b;
    forall j | 0 <= j < |a|
      ensures ts[pos + j] == a[j]
    {
      assert c[j] == a[j];
    }
    forall j | 0 <= j < |b|
      ensures ts[pos + |a| + j] == b[j]
    {
      assert c[|a| + j] == b[j] && ts[pos + (|a| + j)] == c[|a| + j];
    }
  }

  lemma {:induction false} RowTokensAt(ts: seq<Token>, base: nat, t: Table, unk: map<int, int>, b: nat, n: nat)
    requires b < n <= |t| && At(ts, base, TableTokens(t, unk, n))
    ensures At(ts, base + |TableTokens(t, unk, b)|, RowTokens(t[b], unk))
  {
    AtSplit(ts, base, TableTokens(t, unk, n - 1), RowTokens(t[n - 1], unk));
    if b < n - 1 {
      RowTokensAt(ts, base, t, unk, b, n - 1);
    }
  }

  lemma RowFound(k: Bucketing, o: State, ts: seq<Token>, base: nat, b: nat)
    requires Whole(k, o) && b < NEW_BUCKET_COUNT
    requires At(ts, base, TableTokens(o.tNew, NewNumbers(o.info, o.idCount), NEW_BUCKET_COUNT))
    ensures var pos := base + |TableTokens(o.tNew, NewNumbers(o.info, o.idCount), b)|;
            && pos < |ts| && ts[pos] == Int(|Held(o.tNew[b], BUCKET_SIZE)|) && RowAt(o, ts, pos + 1, b)
            && base + |TableTokens(o.tNew, NewNumbers(o.info, o.idCount), b + 1)| == pos + 1 + |Held(o.tNew[b], BUCKET_SIZE)|
  {
    var unk := NewNumbers(o.info, o.idCount);
    RowTokensAt(ts, base, o.tNew, unk, b, NEW_BUCKET_COUNT);
    var pos := base + |TableTokens(o.tNew, unk, b)|;
    var held := Held(o.tNew[b], BUCKET_SIZE);
    var row := RowTokens(o.tNew[b], unk);
    assert ts[pos + 0] == row[0];
    forall i | 0 <= i < |held|
      ensures pos + 1 + i < |ts| && ts[pos + 1 + i] == Int(Number(unk, held[i]))
    {
      assert ts[pos + (1 + i)] == row[1 + i];
    }
  }

  ghost function RowPos(o: State, base: nat, b: nat): nat
    requires b <= |o.tNew| && o.idCount >= 0
  {
    base + |TableTokens(o.tNew, NewNumbers(o.info, o.idCount), b)|
  }

  /** The row that a position in the stream announces. */
  ghost function RowAfter(k: Bucketing, st: State, ts: seq<Token>, pos: nat, b: nat): Read<State>
    requires Shaped(st) && b < NEW_BUCKET_COUNT
  {
    if pos < |ts| && ts[pos].Int? then ReadRow(k, st, ts, pos + 1, true, b, ts[pos].i) else Fail
  }

  /** The first n rows were read and restored. */
  ghost predicate RowsRead(k: Bucketing, o: State, r: Read<State>, base: nat, n: nat)
    requires Whole(k, o) && n <= NEW_BUCKET_COUNT
  {
    r.Got? && r.next == RowPos(o, base, n) && Filling(k, o, r.value, n, 0)
  }

  lemma RowStep(k: Bucketing, o: State, st: State, ts: seq<Token>, base: nat, b: nat)
    requires Whole(k, o) && b < NEW_BUCKET_COUNT
    requires At(ts, base, TableTokens(o.tNew, NewNumbers(o.info, o.idCount), NEW_BUCKET_COUNT))
    requires Filling(k, o, st, b, 0)
    ensures RowsRead(k, o, RowAfter(k, st, ts, RowPos(o, base, b), b), base, b + 1)
  {
    RowFound(k, o, ts, base, b);
    var pos := RowPos(o, base, b);
    ReadsRow(k, o, st, ts, pos + 1, b, 0);
    RowEnds(k, o, RowAfter(k, st, ts, pos, b).value, b);
  }

  lemma RowEnds(k: Bucketing, o: State, st: State, b: nat)
    requires Whole(k, o) && Filling(k, o, st, b, BUCKET_SIZE)
    ensures Filling(k, o, st, b + 1, 0)
  {
    ProgressRow(o, st.tNew, b);
  }

  lemma {:induction false} ReadsRows(k: Bucketing, o: State, st: State, ts: seq<Token>, base: nat, b: nat, n: nat)
    requires Whole(k, o) && b <= n == NEW_BUCKET_COUNT
    requires At(ts, base, TableTokens(o.tNew, NewNumbers(o.info, o.idCount), n))
    requires Filling(k, o, st, b, 0)
    ensures RowsRead(k, o, ReadRows(k, st, ts, RowPos(o, base, b), true, b, n), base, n)
    decreases n - b
  {
    if b < n {
      RowStep(k, o, st, ts, base, b);
      ReadsRows(k, o, RowAfter(k, st, ts, RowPos(o, base, b), b).value, ts, base, b + 1, n);
    }
  }

  // ----- The round trip: everything -----

  /** An entry keeps its references: it is in as many new buckets as it was. */
  lemma SameReferences(k: Bucketing, o: State, st: State, j: nat)
    requires Whole(k, o) && Filling(k, o, st, NEW_BUCKET_COUNT, 0) && j < |Order(o)|
    ensures j in st.info && Order(o)[j] in o.info && st.info[j].refCount == o.info[Order(o)[j]].refCount
    ensures j < o.nNew ==> st.info[j].refCount > 0
  {
    OrderFacts(k, o);
    assert Restored(o, st, j);
    var id := Order(o)[j];
    var a := o.info[id].addr;
    assert RefCountSound(k, o.tNew, id, o.info[id], {});
    assert RefCountSound(k, st.tNew, j, st.info[j], Below(o.nNew));
    if j < o.nNew {
      forall b | 0 <= b < NEW_BUCKET_COUNT
        ensures b in NewBuckets(k, st.tNew, a, j) <==> b in NewBuckets(k, o.tNew, a, id)
      {
        var p := k.Position(true, b, a);
        assert SlotDone(o, st.tNew, NEW_BUCKET_COUNT, 0, b, p);
        SlotOf(k, o, b, p, j);
      }
      assert NewBuckets(k, st.tNew, a, j) == NewBuckets(k, o.tNew, a, id);
    }
  }

  /** Nothing is between the tables any more. */
  lemma NothingFloats(k: Bucketing, o: State, st: State)
    requires Whole(k, o) && Filling(k, o, st, NEW_BUCKET_COUNT, 0)
    ensures NewSound(k, st.info, st.tNew, {})
  {
    forall j | j in st.info
      ensures RefCountSound(k, st.tNew, j, st.info[j], {})
    {
      assert j in Below(|Order(o)|);
      SameReferences(k, o, st, j);
      OrderFacts(k, o);
      assert Restored(o, st, j);
      assert RefCountSound(k, st.tNew, j, st.info[j], Below(o.nNew));
    }
  }

  lemma {:induction false} BelowCount(n: nat)
    ensures |Below(n)| == n
  {
    if n == 0 {
      assert Below(0) == {};
    } else {
      BelowCount(n - 1);
      assert Below(n) == Below(n - 1) + {n - 1};
    }
  }

  lemma SameIds(k: Bucketing, o: State, st: State)
    requires Whole(k, o) && Filling(k, o, st, NEW_BUCKET_COUNT, 0)
    ensures NewIds(st.info) == Below(o.nNew) && TriedIds(st.info) == Below(|Order(o)|) - Below(o.nNew)
  {
    OrderFacts(k, o);
    forall j | j in st.info
      ensures st.info[j].inTried <==> j !in Below(o.nNew)
    {
      assert j in Below(|Order(o)|);
      assert Restored(o, st, j);
    }
  }

  lemma SameCounts(k: Bucketing, o: State, st: State)
    requires Whole(k, o) && Filling(k, o, st, NEW_BUCKET_COUNT, 0)
    ensures |NewIds(st.info)| == o.nNew && |TriedIds(st.info)| == o.nTried && |st.info| == |o.info|
  {
    OrderFacts(k, o);
    SameIds(k, o, st);
    BelowCount(|Order(o)|);
    BelowCount(o.nNew);
    var all, few := Below(|Order(o)|), Below(o.nNew);
    assert all == few + (all - few);
    assert o.info.Keys == NewIds(o.info) + TriedIds(o.info);
    assert |o.info.Keys| == |NewIds(o.info)| + |TriedIds(o.info)|;
  }

  /** The id under which an entry is restored. */
  ghost function Renumbered(o: State, id: int): int {
    if id < 0 then EMPTY
    else if id in TriedIds(o.info) then o.nNew + Rank(TriedIds(o.info), id)
    else Rank(NewIds(o.info), id)
  }

  ghost predicate SameEntry(e: AddrInfo, e': AddrInfo) {
    Save(e) == Save(e') && e.inTried == e'.inTried && e.refCount == e'.refCount
  }

  ghost predicate SameSlot(o: State, t: Table, t': Table, b: int, p: int)
    requires 0 <= b < |t| == |t'| && 0 <= p < |t[b]| == |t'[b]|
  {
    t'[b][p] == Renumbered(o, t[b][p])
  }

  ghost predicate SameTable(o: State, t: Table, t': Table, buckets: nat) {
    && Shape(t, buckets) && Shape(t', buckets)
    && forall b, p {:trigger SameSlot(o, t, t', b, p)} | 0 <= b < buckets && 0 <= p < BUCKET_SIZE :: SameSlot(o, t, t', b, p)
  }

  /** The same manager, but for the ids: nothing lost, nothing added, everything where it was. */
  ghost predicate SameButIds(o: State, st: State) {
    && st.key == o.key && st.nNew == o.nNew && st.nTried == o.nTried
    && |st.info| == |o.info|
    && (forall id {:trigger Renumbered(o, id)} | id in o.info ::
          Renumbered(o, id) in st.info && SameEntry(o.info[id], st.info[Renumbered(o, id)]))
    && (forall id, id' {:trigger Renumbered(o, id), Renumbered(o, id')} | id in o.info && id' in o.info && id != id' ::
          Renumbered(o, id) != Renumbered(o, id'))
    && SameTable(o, o.tNew, st.tNew, NEW_BUCKET_COUNT)
    && SameTable(o, o.tTried, st.tTried, TRIED_BUCKET_COUNT)
  }

  lemma RenumberedAt(k: Bucketing, o: State, id: int)
    requires Whole(k, o) && id in o.info
    ensures var j := Renumbered(o, id); 0 <= j < |Order(o)| && Order(o)[j] == id && (j >= o.nNew <==> o.info[id].inTried)
  {
    OrderFacts(k, o);
    assert IdSound(o.info, o.byAddr, o.random, o.idCount, id);
    if id in TriedIds(o.info) {
      RankInRange(TriedIds(o.info), o.idCount, id);
    } else {
      RankInRange(NewIds(o.info), o.idCount, id);
    }
  }

  lemma SameNewTable(k: Bucketing, o: State, st: State)
    requires Whole(k, o) && Filling(k, o, st, NEW_BUCKET_COUNT, 0)
    ensures SameTable(o, o.tNew, st.tNew, NEW_BUCKET_COUNT)
  {
    forall b, p | 0 <= b < NEW_BUCKET_COUNT && 0 <= p < BUCKET_SIZE
      ensures SameSlot(o, o.tNew, st.tNew, b, p)
    {
      assert SlotDone(o, st.tNew, NEW_BUCKET_COUNT, 0, b, p);
      assert NewSlotSound(k, o.info, b, p, o.tNew[b][p]);
    }
  }

  lemma NotTaken(k: Bucketing, o: State, st: State, b: nat, p: nat)
    requires Whole(k, o) && Filling(k, o, st, NEW_BUCKET_COUNT, 0)
    requires b < TRIED_BUCKET_COUNT && p < BUCKET_SIZE && o.tTried[b][p] == EMPTY
    ensures st.tTried[b][p] == EMPTY
  {
    OrderFacts(k, o);
    var j := st.tTried[b][p];
    assert TriedSlotSound(k, st.info, b, p, j);
    forall i | 0 <= i < |Order(o)| && st.info[i].inTried
      ensures !(b == k.Tried(st.info[i].addr) && p == k.Position(false, b, st.info[i].addr))
    {
      assert Restored(o, st, i);
      assert InTriedSlot(k, o.tTried, Order(o)[i], o.info[Order(o)[i]].addr);
    }
    assert j in st.info ==> j in Below(|Order(o)|);
  }

  lemma SameTriedTable(k: Bucketing, o: State, st: State)
    requires Whole(k, o) && Filling(k, o, st, NEW_BUCKET_COUNT, 0)
    ensures SameTable(o, o.tTried, st.tTried, TRIED_BUCKET_COUNT)
  {
    OrderFacts(k, o);
    forall b, p | 0 <= b < TRIED_BUCKET_COUNT && 0 <= p < BUCKET_SIZE
      ensures SameSlot(o, o.tTried, st.tTried, b, p)
    {
      var id, j := o.tTried[b][p], st.tTried[b][p];
      assert TriedSlotSound(k, o.info, b, p, id);
      assert TriedSlotSound(k, st.info, b, p, j);
      if id != EMPTY {
        RenumberedAt(k, o, id);
        var r := Renumbered(o, id);
        assert Restored(o, st, r);
        assert InTriedSlot(k, st.tTried, r, st.info[r].addr);
      } else {
        NotTaken(k, o, st, b, p);
      }
    }
  }

  lemma SameEntries(k: Bucketing, o: State, st: State, id: int)
    requires Whole(k, o) && Filling(k, o, st, NEW_BUCKET_COUNT, 0) && id in o.info
    ensures Renumbered(o, id) in st.info && SameEntry(o.info[id], st.info[Renumbered(o, id)])
  {
    RenumberedAt(k, o, id);
    OrderFacts(k, o);
    SameReferences(k, o, st, Renumbered(o, id));
    assert Restored(o, st, Renumbered(o, id));
  }

  lemma Finished(k: Bucketing, o: State, st: State)
    requires Whole(k, o) && Filling(k, o, st, NEW_BUCKET_COUNT, 0)
    ensures Whole(k, st) && SameButIds(o, st)
  {
    NothingFloats(k, o, st);
    SameCounts(k, o, st);
    SameNewTable(k, o, st);
    SameTriedTable(k, o, st);
    forall id | id in o.info
      ensures Renumbered(o, id) in st.info && SameEntry(o.info[id], st.info[Renumbered(o, id)])
    {
      SameEntries(k, o, st, id);
    }
    forall id, id' | id in o.info && id' in o.info && id != id'
      ensures Renumbered(o, id) != Renumbered(o, id')
    {
      RenumberedAt(k, o, id);
      RenumberedAt(k, o, id');
    }
  }

  lemma ClearedLoaded(k: Bucketing, o: State)
    requires Whole(k, o)
    ensures var st := Cleared(o.key, o.nNew, o.nTried);
            Shaped(st) && Loaded(k, o, st, 0) && Progress(o, st.tNew, 0, 0)
  {
    OrderFacts(k, o);
    var st := Cleared(o.key, o.nNew, o.nTried);
    assert st.info.Keys == Below(0);
    forall b, p | 0 <= b < NEW_BUCKET_COUNT && 0 <= p < BUCKET_SIZE
      ensures SlotDone(o, st.tNew, 0, 0, b, p)
    {
    }
  }

  lemma HeaderFound(o: State, ts: seq<Token>)
    requires o.nNew <= NEW_BUCKET_COUNT * BUCKET_SIZE && o.nTried <= TRIED_BUCKET_COUNT * BUCKET_SIZE
    requires At(ts, 0, Head(o))
    ensures HasHeader(ts) && Usable(ts) && ts[2].k == o.key && ts[3].i == o.nNew && ts[4].i == o.nTried
  {
    FlipTwice(NEW_BUCKET_COUNT);
    var head := Head(o);
    assert ts[0 + 0] == head[0] && ts[0 + 1] == head[1] && ts[0 + 2] == head[2];
    assert ts[0 + 3] == head[3] && ts[0 + 4] == head[4] && ts[0 + 5] == head[5];
  }

  lemma EntriesFound(k: Bucketing, o: State, ts: seq<Token>, base: nat)
    requires Whole(k, o)
    requires At(ts, base, NewTokens(k, o)) && At(ts, base + o.nNew, TriedTokens(k, o))
    ensures EntriesAt(k, o, ts, base)
  {
    OrderFacts(k, o);
    Lists(k, o);
    var new', tried := NewTokens(k, o), TriedTokens(k, o);
    forall i | 0 <= i < |Order(o)|
      ensures base + i < |ts| && ts[base + i] == Entry(Save(o.info[Order(o)[i]]))
    {
      if i < o.nNew {
        assert ts[base + i] == new'[i];
      } else {
        assert ts[base + o.nNew + (i - o.nNew)] == tried[i - o.nNew];
      }
    }
  }

  lemma FourParts(ts: seq<Token>, a: seq<Token>, b: seq<Token>, c: seq<Token>, d: seq<Token>)
    requires a + (b + (c + d)) <= ts
    ensures At(ts, 0, a) && At(ts, |a|, b) && At(ts, |a| + |b|, c) && At(ts, |a| + |b| + |c|, d)
  {
    assert At(ts, 0, a + (b + (c + d)));
    AtSplit(ts, 0, a, b + (c + d));
    AtSplit(ts, |a|, b, c + d);
    AtSplit(ts, |a| + |b|, c, d);
  }

  lemma WrittenParts(k: Bucketing, o: State, ts: seq<Token>)
    requires Whole(k, o) && Written(k, o) <= ts
    ensures At(ts, 0, Head(o)) && EntriesAt(k, o, ts, 6)
    ensures At(ts, 6 + |Order(o)|, TableTokens(o.tNew, NewNumbers(o.info, o.idCount), NEW_BUCKET_COUNT))
    ensures |Written(k, o)| == RowPos(o, 6 + |Order(o)|, NEW_BUCKET_COUNT)
  {
    OrderFacts(k, o);
    Lists(k, o);
    var head, new', tried := Head(o), NewTokens(k, o), TriedTokens(k, o);
    var table := TableTokens(o.tNew, NewNumbers(o.info, o.idCount), NEW_BUCKET_COUNT);
    FourParts(ts, head, new', tried, table);
    EntriesFound(k, o, ts, 6);
  }

  lemma EntriesRead(k: Bucketing, o: State, st: State, ts: seq<Token>, base: nat)
    requires Whole(k, o) && EntriesAt(k, o, ts, base)
    requires Shaped(st) && Loaded(k, o, st, 0)
    ensures var r := ReadEntries(k, st, ts, base, false);
            && r.Got? && r.next == base + |Order(o)| && Loaded(k, o, r.value, |Order(o)|)
            && r.value.tNew == st.tNew && r.value.idCount == |Order(o)|
  {
    OrderFacts(k, o);
    ReadsNew(k, o, st, ts, base, 0);
    ReadsTried(k, o, ReadNew(k, st, ts, base, 0, false).value, ts, base, o.nNew);
  }

  lemma BodyRead(k: Bucketing, o: State, st: State, ts: seq<Token>, base: nat, n: nat)
    requires Whole(k, o) && EntriesAt(k, o, ts, base) && n == NEW_BUCKET_COUNT
    requires At(ts, base + |Order(o)|, TableTokens(o.tNew, NewNumbers(o.info, o.idCount), n))
    requires Shaped(st) && Loaded(k, o, st, 0) && Progress(o, st.tNew, 0, 0)
    ensures RowsRead(k, o, ReadBody(k, st, ts, base, true, n), base + |Order(o)|, n)
  {
    EntriesRead(k, o, st, ts, base);
    var st' := ReadEntries(k, st, ts, base, false).value;
    assert RowPos(o, base + |Order(o)|, 0) == base + |Order(o)|;
    ReadsRows(k, o, st', ts, base + |Order(o)|, 0, n);
  }

  /** Reading what was written, whatever follows it, restores the whole manager up to renumbering. */
  lemma RoundTrip(k: Bucketing, o: State, ts: seq<Token>)
    requires Whole(k, o) && Written(k, o) <= ts
    ensures var r := Decoded(k.hashes, ts);
            r.Got? && r.next == |Written(k, o)| && Whole(k, r.value) && SameButIds(o, r.value)
  {
    WrittenParts(k, o, ts);
    WithinLimits(k, o);
    HeaderFound(o, ts);
    ClearedLoaded(k, o);
    assert k == Bucketing(k.hashes, ts[2].k);
    var st := Cleared(o.key, o.nNew, o.nTried);
    BodyRead(k, o, st, ts, 6, Buckets(ts));
    Finished(k, o, ReadBody(k, st, ts, 6, true, Buckets(ts)).value);
  }
}
