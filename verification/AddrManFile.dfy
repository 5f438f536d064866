/** Writing an address manager to a file and reading it back into a fresh one. */
module AddrManFile {
  import opened Transactions
  import opened Sets
  import opened AddrTables
  import opened AddrMan
  import opened AddrFile

  ghost function StateOf(m: CAddrMan): State
    reads m
  {
    State(m.nKey, m.nIdCount, m.mapInfo, m.mapAddr, m.vRandom, m.nTried, m.vvTried, m.nNew, m.vvNew)
  }

  // ----- Writing -----

  /** The entries of the listed ids, one id after the other. */
  function EntriesUpTo(info: InfoMap, s: set<int>, n: nat): seq<Token> {
    if n == 0 then []
    else EntriesUpTo(info, s, n - 1) + if n - 1 in s && n - 1 in info then [Entry(Save(info[n - 1]))] else []
  }

  lemma {:induction false} EntriesListed(info: InfoMap, s: set<int>, n: nat)
    requires forall id | id in s :: id in info
    ensures |EntriesUpTo(info, s, n)| == |Listed(s, n)|
    ensures forall i | 0 <= i < |Listed(s, n)| ::
              Listed(s, n)[i] in info && EntriesUpTo(info, s, n)[i] == Entry(Save(info[Listed(s, n)[i]]))
  {
    if n > 0 {
      EntriesListed(info, s, n - 1);
    }
  }

  /** The new entries in the order of their ids, and the number that each id gets. */
  method WriteNew(m: CAddrMan) returns (s: seq<Token>, mapUnkIds: map<int, int>)
    requires m.Valid()
    ensures Whole(m.K(), StateOf(m))
    ensures s == NewTokens(m.K(), StateOf(m)) && mapUnkIds == NewNumbers(m.mapInfo, m.nIdCount)
  {
    ghost var ids := NewIds(m.mapInfo);
    Lists(m.K(), StateOf(m));
    s, mapUnkIds := [], map[];
    var nIds := 0;
    for id := 0 to m.nIdCount
      invariant nIds == Rank(ids, id)
      invariant s == EntriesUpTo(m.mapInfo, ids, id)
      invariant mapUnkIds == NewNumbers(m.mapInfo, id)
    {
      if id in m.mapInfo {
        mapUnkIds := mapUnkIds[id := nIds];
        var info := m.mapInfo[id];
        assert RefCountSound(m.K(), m.vvNew, id, info, {});
        if info.refCount != 0 {
          RankInRange(ids, m.nIdCount, id);
          assert nIds != m.nNew;
          s := s + [Entry(Save(info))];
          nIds := nIds + 1;
        }
      }
    }
    EntriesListed(m.mapInfo, ids, m.nIdCount);
  }

  method WriteTried(m: CAddrMan) returns (s: seq<Token>)
    requires m.Valid()
    ensures Whole(m.K(), StateOf(m))
    ensures s == TriedTokens(m.K(), StateOf(m))
  {
    ghost var ids := TriedIds(m.mapInfo);
    Lists(m.K(), StateOf(m));
    s := [];
    var nIds := 0;
    for id := 0 to m.nIdCount
      invariant nIds == Rank(ids, id)
      invariant s == EntriesUpTo(m.mapInfo, ids, id)
    {
      if id in m.mapInfo {
        var info := m.mapInfo[id];
        if info.inTried {
          RankInRange(ids, m.nIdCount, id);
          assert nIds != m.nTried;
          s := s + [Entry(Save(info))];
          nIds := nIds + 1;
        }
      }
    }
    EntriesListed(m.mapInfo, ids, m.nIdCount);
  }

  method WriteRow(row: seq<int>, mapUnkIds: map<int, int>) returns (s: seq<Token>)
    ensures s == RowTokens(row, mapUnkIds)
  {
    var nSize := 0;
    for i := 0 to |row|
      invariant nSize == |Held(row, i)|
    {
      if row[i] != EMPTY {
        nSize := nSize + 1;
      }
    }
    s := [Int(nSize)];
    for i := 0 to |row|
      invariant |s| == 1 + |Held(row, i)| && s[0] == Int(nSize)
      invariant forall j | 0 <= j < |Held(row, i)| :: s[1 + j] == Int(Number(mapUnkIds, Held(row, i)[j]))
    {
      if row[i] != EMPTY {
        var nIndex := Number(mapUnkIds, row[i]);
        s := s + [Int(nIndex)];
      }
    }
  }

  method WriteTable(t: Table, mapUnkIds: map<int, int>) returns (s: seq<Token>)
    ensures s == TableTokens(t, mapUnkIds, |t|)
  {
    s := [];
    for bucket := 0 to |t|
      invariant s == TableTokens(t, mapUnkIds, bucket)
    {
      var row := WriteRow(t[bucket], mapUnkIds);
      s := s + row;
    }
  }

  method Serialize(m: CAddrMan) returns (s: seq<Token>)
    requires m.Valid()
    ensures Whole(m.K(), StateOf(m)) && s == Written(m.K(), StateOf(m))
  {
    var new', mapUnkIds := WriteNew(m);
    var tried := WriteTried(m);
    var table := WriteTable(m.vvNew, mapUnkIds);
    s := [Byte(1), Byte(32), Key(m.nKey), Int(m.nNew), Int(m.nTried), Int(Flip(NEW_BUCKET_COUNT))] + (new' + (tried + table));
  }

  // ----- Reading -----

  /** Empties everything but the two maps, which the source leaves alone. */
  method Clear(m: CAddrMan, key: Uint256)
    modifies m
    ensures StateOf(m) == Cleared(key, 0, 0).(info := old(m.mapInfo), byAddr := old(m.mapAddr)) && m.nLastGood == 1
  {
    m.vRandom := [];
    m.nKey := key;
    m.vvNew := Blank(NEW_BUCKET_COUNT);
    m.vvTried := Blank(TRIED_BUCKET_COUNT);
    m.nIdCount, m.nTried, m.nNew, m.nLastGood := 0, 0, 0, 1;
  }

  /** What holds of the indexes while a stream of any content is read: ids from low up to high, all of them placed. */
  ghost predicate Indexed(m: CAddrMan, low: int, high: int)
    reads m
  {
    RandomIndex(m.mapInfo, m.vRandom) && forall id {:trigger id in m.mapInfo} :: id in m.mapInfo ==> low <= id < high
  }

  method ReadNewEntry(m: CAddrMan, s: Saved, n: nat, fallback: bool)
    requires Shaped(StateOf(m)) && Indexed(m, 0, n)
    modifies m
    ensures StateOf(m) == AddNew(m.K(), old(StateOf(m)), s, n, fallback)
    ensures Indexed(m, 0, n + 1)
  {
    var info := Fresh(s, |m.vRandom|, false);
    m.mapAddr := m.mapAddr[info.addr.ip := n];
    var nUBucket := m.K().New(info.addr, info.source);
    var nUBucketPos := m.K().Position(true, nUBucket, info.addr);
    if fallback && m.vvNew[nUBucket][nUBucketPos] == EMPTY {
      m.vvNew := SetSlot(m.vvNew, nUBucket, nUBucketPos, n);
      info := info.(refCount := info.refCount + 1);
    }
    RandomPushed(m.mapInfo, m.vRandom, n, info);
    m.mapInfo := m.mapInfo[n as int := info];
    m.vRandom := m.vRandom + [n];
  }

  method ReadNewEntries(m: CAddrMan, ts: seq<Token>, start: nat, fallback: bool) returns (ok: bool, pos: nat)
    requires Shaped(StateOf(m)) && m.mapInfo == map[] && m.vRandom == []
    modifies m
    ensures var r := ReadNew(m.K(), old(StateOf(m)), ts, start, 0, fallback);
            ok == r.Got? && (ok ==> StateOf(m) == r.value && pos == r.next)
    ensures m.nKey == old(m.nKey) && m.nNew == old(m.nNew) && m.nTried == old(m.nTried)
    ensures ok ==> Reading(m, if m.nNew < 0 then m.nNew else 0) && m.nIdCount == m.nNew
  {
    pos := start;
    var n: nat := 0;
    while n < m.nNew
      invariant m.nKey == old(m.nKey) && m.nNew == old(m.nNew) && m.nTried == old(m.nTried)
      invariant n <= if m.nNew > 0 then m.nNew else 0
      invariant Shaped(StateOf(m)) && Indexed(m, 0, n)
      invariant forall i | 0 <= i < n :: i in m.mapInfo
      invariant ReadNew(m.K(), old(StateOf(m)), ts, start, 0, fallback) == ReadNew(m.K(), StateOf(m), ts, pos, n, fallback)
    {
      if pos >= |ts| || !ts[pos].Entry? {
        return false, pos;
      }
      ReadNewEntry(m, ts[pos].e, n, fallback);
      pos := pos + 1;
      n := n + 1;
    }
    m.nIdCount := m.nNew;
    ok := true;
  }

  /** The state between two steps after the new entries were read. */
  ghost predicate Reading(m: CAddrMan, low: int)
    reads m
  {
    && Shaped(StateOf(m)) && Indexed(m, low, m.nIdCount) && low <= m.nIdCount
    && forall i | 0 <= i < m.nNew :: i in m.mapInfo
  }

  /** A tried entry; its slot may be taken already. */
  method ReadTriedEntry(m: CAddrMan, s: Saved, ghost low: int) returns (lost: bool)
    requires Reading(m, low)
    modifies m
    ensures StateOf(m).(nTried := m.nTried - if lost then 1 else 0) == AddTried(m.K(), old(StateOf(m)), s)
    ensures m.nTried == old(m.nTried) && Reading(m, low)
  {
    var info := Fresh(s, |m.vRandom|, true);
    var nKBucket := m.K().Tried(info.addr);
    var nKBucketPos := m.K().Position(false, nKBucket, info.addr);
    if m.vvTried[nKBucket][nKBucketPos] == EMPTY {
      RandomPushed(m.mapInfo, m.vRandom, m.nIdCount, info);
      m.vRandom := m.vRandom + [m.nIdCount];
      m.mapInfo := m.mapInfo[m.nIdCount := info];
      m.mapAddr := m.mapAddr[info.addr.ip := m.nIdCount];
      m.vvTried := SetSlot(m.vvTried, nKBucket, nKBucketPos, m.nIdCount);
      m.nIdCount := m.nIdCount + 1;
      lost := false;
    } else {
      lost := true;
    }
  }

  /** How much of the tried entries was read: what is left gives the same result. */
  ghost predicate TriedLeft(m: CAddrMan, ts: seq<Token>, whole: Read<State>, pos: nat, nLost: int, n: int)
    requires Shaped(StateOf(m))
    reads m
  {
    whole == ReadTried(m.K(), StateOf(m).(nTried := m.nTried - nLost), ts, pos, m.nTried - n)
  }

  method ReadTriedEntries(m: CAddrMan, ts: seq<Token>, start: nat, ghost low: int) returns (ok: bool, pos: nat)
    requires Reading(m, low)
    modifies m
    ensures var r := ReadTried(m.K(), old(StateOf(m)), ts, start, old(m.nTried));
            ok == r.Got? && (ok ==> StateOf(m) == r.value && pos == r.next)
    ensures m.nKey == old(m.nKey) && m.nNew == old(m.nNew) && Reading(m, low)
  {
    pos := start;
    ghost var whole := ReadTried(m.K(), StateOf(m), ts, start, m.nTried);
    var nLost, n := 0, 0;
    while n < m.nTried
      invariant m.nKey == old(m.nKey) && m.nNew == old(m.nNew)
      invariant Reading(m, low) && TriedLeft(m, ts, whole, pos, nLost, n)
    {
      if pos >= |ts| || !ts[pos].Entry? {
        return false, pos;
      }
      var lost := ReadTriedEntry(m, ts[pos].e, low);
      nLost := nLost + if lost then 1 else 0;
      pos := pos + 1;
      n := n + 1;
    }
    m.nTried := m.nTried - nLost;
    ok := true;
  }

  /** One position in the new table, if it can be taken over. */
  method ReadIndex(m: CAddrMan, usable: bool, bucket: int, nIndex: int, ghost low: int)
    requires Reading(m, low) && (usable ==> 0 <= bucket < NEW_BUCKET_COUNT)
    modifies m
    ensures StateOf(m) == Place(m.K(), old(StateOf(m)), usable, bucket, nIndex) && Reading(m, low)
    ensures m.nKey == old(m.nKey) && m.nNew == old(m.nNew)
  {
    if 0 <= nIndex < m.nNew {
      var info := m.mapInfo[nIndex];
      var nUBucketPos := m.K().Position(true, bucket, info.addr);
      if usable && m.vvNew[bucket][nUBucketPos] == EMPTY && info.refCount < NEW_BUCKETS_PER_ADDRESS {
        info := info.(refCount := info.refCount + 1);
        RandomKept(m.mapInfo, m.mapInfo[nIndex := info], m.vRandom);
        m.mapInfo := m.mapInfo[nIndex := info];
        m.vvNew := SetSlot(m.vvNew, bucket, nUBucketPos, nIndex);
      }
    }
  }

  method ReadBucket(m: CAddrMan, ts: seq<Token>, start: nat, usable: bool, bucket: int, nSize: int, ghost low: int)
    returns (ok: bool, pos: nat)
    requires Reading(m, low) && (usable ==> 0 <= bucket < NEW_BUCKET_COUNT)
    modifies m
    ensures var r := ReadRow(m.K(), old(StateOf(m)), ts, start, usable, bucket, nSize);
            ok == r.Got? && (ok ==> StateOf(m) == r.value && pos == r.next)
    ensures m.nKey == old(m.nKey) && m.nNew == old(m.nNew) && Reading(m, low)
  {
    pos := start;
    ghost var whole := ReadRow(m.K(), StateOf(m), ts, start, usable, bucket, nSize);
    var n := 0;
    while n < nSize
      invariant m.nKey == old(m.nKey) && m.nNew == old(m.nNew) && Reading(m, low)
      invariant whole == ReadRow(m.K(), StateOf(m), ts, pos, usable, bucket, nSize - n)
    {
      if pos >= |ts| || !ts[pos].Int? {
        return false, pos;
      }
      ReadIndex(m, usable, bucket, ts[pos].i, low);
      pos := pos + 1;
      n := n + 1;
    }
    ok := true;
  }

  method ReadBuckets(m: CAddrMan, ts: seq<Token>, start: nat, usable: bool, nUBuckets: int, ghost low: int)
    returns (ok: bool, pos: nat)
    requires Reading(m, low) && (usable ==> nUBuckets == NEW_BUCKET_COUNT)
    modifies m
    ensures var r := ReadRows(m.K(), old(StateOf(m)), ts, start, usable, 0, nUBuckets);
            ok == r.Got? && (ok ==> StateOf(m) == r.value && pos == r.next)
    ensures m.nKey == old(m.nKey) && m.nNew == old(m.nNew) && Reading(m, low)
  {
    pos := start;
    ghost var whole := ReadRows(m.K(), StateOf(m), ts, start, usable, 0, nUBuckets);
    var bucket: nat := 0;
    while bucket < nUBuckets
      invariant m.nKey == old(m.nKey) && m.nNew == old(m.nNew) && Reading(m, low)
      invariant whole == ReadRows(m.K(), StateOf(m), ts, pos, usable, bucket, nUBuckets)
    {
      if pos >= |ts| || !ts[pos].Int? {
        return false, pos;
      }
      var nSize := ts[pos].i;
      ok, pos := ReadBucket(m, ts, pos + 1, usable, bucket, nSize, low);
      if !ok {
        return;
      }
      bucket := bucket + 1;
    }
    ok := true;
  }

  // ----- Dropping entries that got no slot -----

  ghost predicate Unplaced(e: AddrInfo) {
    !e.inTried && e.refCount == 0
  }

  /** The entries below n that neither table holds. */
  ghost function Dropped(info: InfoMap, n: int): set<int> {
    set id | id in info && id < n && Unplaced(info[id])
  }

  ghost function Addresses(info: InfoMap, ids: set<int>): set<NetAddr> {
    set id | id in ids && id in info :: info[id].addr.ip
  }

  /** The state without some of its entries; if there are none to drop, the very same state. */
  ghost predicate Pruned(st: State, st': State, gone: set<int>) {
    && OnlyPositions(st.info - gone, st'.info)
    && RandomIndex(st'.info, st'.random)
    && st'.byAddr == st.byAddr - Addresses(st.info, gone)
    && st'.nNew == st.nNew - |gone|
    && st'.key == st.key && st'.idCount == st.idCount && st'.nTried == st.nTried
    && st'.tNew == st.tNew && st'.tTried == st.tTried
    && (gone == {} ==> st' == st)
  }

  lemma PrunedNext(st: State, st1: State, st2: State, gone: set<int>, id: int)
    requires Pruned(st, st1, gone) && gone <= st.info.Keys && id in st1.info
    requires OnlyPositions(st1.info - {id}, st2.info) && RandomIndex(st2.info, st2.random)
    requires st2.byAddr == st1.byAddr - {st1.info[id].addr.ip} && st2.nNew == st1.nNew - 1
    requires st2.(info := st1.info, random := st1.random, byAddr := st1.byAddr, nNew := st1.nNew) == st1
    ensures Pruned(st, st2, gone + {id}) && id in st.info
  {
    assert id in st.info - gone;
    assert Addresses(st.info, gone + {id}) == Addresses(st.info, gone) + {st.info[id].addr.ip};
    assert st2.byAddr == st.byAddr - Addresses(st.info, gone + {id});
    assert (st.info - gone) - {id} == st.info - (gone + {id});
  }

  method PruneOne(m: CAddrMan, ghost st: State, id: int)
    requires Pruned(st, StateOf(m), Dropped(st.info, id))
    modifies m
    ensures Pruned(st, StateOf(m), Dropped(st.info, id + 1))
  {
    ghost var next, before := id + 1, StateOf(m);
    if id in m.mapInfo && m.mapInfo[id].inTried == false && m.mapInfo[id].refCount == 0 {
      m.Delete(id, {}, 0);
      PrunedNext(st, before, StateOf(m), Dropped(st.info, id), id);
      assert Dropped(st.info, next) == Dropped(st.info, id) + {id};
    } else {
      assert Dropped(st.info, next) == Dropped(st.info, id);
    }
  }

  /** Drops every entry that neither table holds, one id after the other. */
  method Prune(m: CAddrMan, low: int)
    requires Reading(m, low)
    modifies m
    ensures Pruned(old(StateOf(m)), StateOf(m), Dropped(old(m.mapInfo), old(m.nIdCount)))
  {
    ghost var st := StateOf(m);
    var high := m.nIdCount;
    assert Dropped(st.info, low) == {};
    assert st.info - {} == st.info;
    assert m.mapAddr - Addresses(st.info, {}) == m.mapAddr;
    for id := low to high
      invariant Pruned(st, StateOf(m), Dropped(st.info, id))
    {
      PruneOne(m, st, id);
    }
  }

  // ----- The whole file -----

  /** Key, counts and everything after them, into a cleared manager. */
  method ReadAfterHeader(m: CAddrMan, ts: seq<Token>, start: nat, usable: bool, nUBuckets: int) returns (ok: bool, pos: nat)
    requires Shaped(StateOf(m)) && m.mapInfo == map[] && m.vRandom == [] && (usable ==> nUBuckets == NEW_BUCKET_COUNT)
    modifies m
    ensures var r := ReadBody(m.K(), old(StateOf(m)), ts, start, usable, nUBuckets);
            ok == r.Got? && (ok ==> StateOf(m) == r.value && pos == r.next)
    ensures m.nKey == old(m.nKey) && (ok ==> Reading(m, if m.nNew < 0 then m.nNew else 0))
  {
    ok, pos := ReadNewEntries(m, ts, start, !usable);
    if !ok {
      return;
    }
    ghost var low := if m.nNew < 0 then m.nNew else 0;
    ok, pos := ReadTriedEntries(m, ts, pos, low);
    if !ok {
      return;
    }
    ok, pos := ReadBuckets(m, ts, pos, usable, nUBuckets, low);
  }

  /** Reads any stream into a fresh manager: it fails exactly where the format is broken, and otherwise
      the manager holds what the stream says, without the entries that got no slot. */
  method Unserialize(m: CAddrMan, ts: seq<Token>, junk: Uint256) returns (ok: bool, pos: nat)
    requires m.mapInfo == map[] && m.mapAddr == map[]
    modifies m
    ensures ok <==> Decoded(m.hashes, ts).Got?
    ensures ok ==> var r := Decoded(m.hashes, ts);
                   pos == r.next && Pruned(r.value, StateOf(m), Dropped(r.value.info, r.value.idCount))
  {
    pos := 0;
    Clear(m, junk);
    if !HasHeader(ts) {
      return false, pos;
    }
    m.nKey, m.nNew, m.nTried := ts[2].k, ts[3].i, ts[4].i;
    assert StateOf(m) == Cleared(ts[2].k, ts[3].i, ts[4].i);
    ok, pos := ReadAfterHeader(m, ts, 6, Usable(ts), Buckets(ts));
    if ok {
      Prune(m, if m.nNew < 0 then m.nNew else 0);
    }
  }

  /** In a manager between two operations every entry has a slot, so there is nothing to drop. */
  lemma NothingDropped(k: Bucketing, st: State)
    requires Whole(k, st)
    ensures Dropped(st.info, st.idCount) == {}
  {
    forall id | id in st.info
      ensures !Unplaced(st.info[id])
    {
      assert RefCountSound(k, st.tNew, id, st.info[id], {});
    }
  }

  /** Writing any manager and reading it into a fresh one, whatever follows in the stream, loses nothing. */
  method SaveThenLoad(m: CAddrMan, key: Uint256, junk: Uint256, after: seq<Token>) returns (n: CAddrMan)
    requires m.Valid()
    ensures fresh(n) && n.Valid() && SameButIds(StateOf(m), StateOf(n))
  {
    var s := Serialize(m);
    n := new CAddrMan(m.hashes, key);
    RoundTrip(m.K(), StateOf(m), s + after);
    ghost var r := Decoded(m.hashes, s + after);
    NothingDropped(m.K(), r.value);
    var ok, pos := Unserialize(n, s + after, junk);
    assert StateOf(n) == r.value && n.K() == m.K();
  }
}
