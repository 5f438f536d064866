/**
 The stochastic address manager: an object whose every operation updates several redundant
 indexes in place.
 */
module AddrMan {
  import opened Transactions
  import opened Sets
  import opened Numbers
  import opened AddrTables

  const HORIZON_DAYS := 30
  const RETRIES := 3
  const MAX_FAILURES := 10
  const MIN_FAIL_DAYS := 7
  const GETADDR_MAX_PCT := 23
  const GETADDR_MAX := 2500

  /** The statistics are bad enough for the entry to be dropped. */
  predicate IsTerrible(e: AddrInfo, now: int) {
    if e.lastTry != 0 && e.lastTry >= now - 60 then false
    else
      || e.time > now + 10 * 60
      || e.time == 0
      || now - e.time > HORIZON_DAYS * 24 * 60 * 60
      || (e.lastSuccess == 0 && e.attempts >= RETRIES)
      || (now - e.lastSuccess > MIN_FAIL_DAYS * 24 * 60 * 60 && e.attempts >= MAX_FAILURES)
  }

  /** Whether a newcomer may take the slot of a holder. */
  predicate Replaceable(info: InfoMap, holder: int, newcomerRefs: int, now: int) {
    holder in info && (IsTerrible(info[holder], now) || (info[holder].refCount > 1 && newcomerRefs == 0))
  }

  /** An address as a peer announces it. */
  datatype Address = Address(service: Service, services: set<nat>, time: int, routable: bool)

  /** A known entry after an announcement: its time and services are refreshed, and it may have one reference more. */
  ghost predicate Updated(e: AddrInfo, e': AddrInfo, addr: Address, penalty: int, now: int) {
    && e' == Refreshed(e, addr, penalty, now).(refCount := e'.refCount, randomPos := e'.randomPos)
    && e.refCount <= e'.refCount <= e.refCount + 1
  }

  /** A new entry after the announcement that brought it. */
  ghost predicate Newcomer(e: AddrInfo, addr: Address, source: NetAddr, penalty: int) {
    && e.addr == addr.service && e.services == addr.services && e.source == source && e.refCount == 1 && !e.inTried
    && e.lastTry == 0 == e.lastSuccess && e.attempts == 0
    && e.time == if addr.time - penalty > 0 then addr.time - penalty else 0
  }

  /** With n references already, one draw in 2^n allows another. */
  method Lucky(refCount: nat, luck: nat) returns (lucky: bool)
    ensures lucky <==> luck % Pow2(refCount) == 0
  {
    var factor := 1;
    for n := 0 to refCount
      invariant factor == Pow2(n)
    {
      factor := factor * 2;
    }
    lucky := factor == 1 || luck % factor == 0;
  }

  /** A repeated announcement moves the time forward, in steps, and adds services. */
  function Refreshed(e: AddrInfo, addr: Address, penalty: int, now: int): AddrInfo {
    var interval := if now - addr.time < 24 * 60 * 60 then 60 * 60 else 24 * 60 * 60;
    var time :=
      if addr.time != 0 && (e.time == 0 || e.time < addr.time - interval - penalty)
      then (if addr.time - penalty > 0 then addr.time - penalty else 0)
      else e.time;
    e.(time := time, services := e.services + addr.services)
  }

  datatype Op =
    | Announced(addr: Address, source: NetAddr, penalty: int, now: int, luck: nat)
    | Succeeded(service: Service, time: int, rnd: nat)
    | Attempted(service: Service, countFailure: bool, time: int)
    | StillConnected(service: Service, time: int)
    | ServicesLearnt(service: Service, services: set<nat>)
    | GetSample(now: int, draws: nat -> nat)

  /** The clock never reads zero or less. */
  predicate SaneClock(op: Op) {
    && (op.Succeeded? ==> op.time > 0)
    && (op.Attempted? ==> op.time > 0)
  }

  class CAddrMan {
    const hashes: Hashes
    var nKey: Uint256
    var nIdCount: int
    var mapInfo: InfoMap
    var mapAddr: map<NetAddr, int>
    var vRandom: seq<int>
    var nTried: int
    var vvTried: Table
    var nNew: int
    var vvNew: Table
    var nLastGood: int

    function K(): Bucketing reads this {
      Bucketing(hashes, nKey)
    }

    /**
     The invariant, in the middle of an operation: entries in floating are between tables, and
     uncounted of the entries outside the tried table are not in nNew yet.
     */
    ghost predicate Inv(floating: set<int>, uncounted: int) reads this {
      && IndexSound(mapInfo, mapAddr, vRandom, nIdCount)
      && NewSound(K(), mapInfo, vvNew, floating)
      && TriedSound(K(), mapInfo, vvTried)
      && nTried == |TriedIds(mapInfo)|
      && nNew + uncounted == |NewIds(mapInfo)|
    }

    ghost predicate Valid() reads this {
      Inv({}, 0)
    }

    /** A fresh object, cleared. */
    constructor (hashes: Hashes, key: Uint256)
      ensures Valid() && mapInfo == map[] && mapAddr == map[] && nKey == key && this.hashes == hashes && nLastGood == 1
      ensures forall b, p | 0 <= b < NEW_BUCKET_COUNT && 0 <= p < BUCKET_SIZE :: vvNew[b][p] == EMPTY
      ensures forall b, p | 0 <= b < TRIED_BUCKET_COUNT && 0 <= p < BUCKET_SIZE :: vvTried[b][p] == EMPTY
    {
      this.hashes := hashes;
      nKey := key;
      nIdCount, nTried, nNew, nLastGood := 0, 0, 0, 1;
      mapInfo, mapAddr, vRandom := map[], map[], [];
      var emptyBucket := seq(BUCKET_SIZE, _ => EMPTY);
      vvNew := seq(NEW_BUCKET_COUNT, _ => emptyBucket);
      vvTried := seq(TRIED_BUCKET_COUNT, _ => emptyBucket);
      new;
      assert TriedIds(mapInfo) == {} && NewIds(mapInfo) == {};
    }

    function Find(ip: NetAddr): (r: Option<int>)
      requires Valid()
      reads this
      ensures r.Some? <==> ip in mapAddr
      ensures r.Some? ==> r.value in mapInfo && mapInfo[r.value].addr.ip == ip
    {
      if ip in mapAddr then
        assert AddrSound(mapInfo, mapAddr, ip);
        Some(mapAddr[ip])
      else None
    }

    method Create(addr: Service, services: set<nat>, time: int, source: NetAddr) returns (nId: int)
      requires Valid() && addr.ip !in mapAddr
      modifies this`nIdCount, this`mapInfo, this`mapAddr, this`vRandom
      ensures Inv({nId}, 1) && nId !in old(mapInfo) && nId != EMPTY
      ensures mapInfo == old(mapInfo)[nId := AddrInfo(addr, services, time, source, 0, 0, 0, 0, 0, false, |old(vRandom)|)]
    {
      var e := AddrInfo(addr, services, time, source, 0, 0, 0, 0, 0, false, |vRandom|);
      IndexPushed(mapInfo, mapAddr, vRandom, nIdCount, e);
      EntryAdded(K(), mapInfo, vvNew, vvTried, {}, nIdCount, e);
      nId := nIdCount;
      nIdCount := nIdCount + 1;
      mapInfo := mapInfo[nId := e];
      mapAddr := mapAddr[addr.ip := nId];
      vRandom := vRandom + [nId];
      assert {} + {nId} == {nId};
    }

    /** Exchanges two positions of the random-order vector; nothing else is affected. */
    method SwapRandom(pos1: nat, pos2: nat)
      requires RandomIndex(mapInfo, vRandom)
      requires pos1 < |vRandom| && pos2 < |vRandom|
      modifies this`mapInfo, this`vRandom
      ensures RandomIndex(mapInfo, vRandom)
      ensures old(IndexSound(mapInfo, mapAddr, vRandom, nIdCount)) ==> IndexSound(mapInfo, mapAddr, vRandom, nIdCount)
      ensures vRandom == old(vRandom)[pos1 := old(vRandom[pos2])][pos2 := old(vRandom[pos1])]
      ensures OnlyPositions(old(mapInfo), mapInfo)
    {
      if pos1 == pos2 {
        return;
      }
      RandomSwapped(mapInfo, vRandom, pos1, pos2);
      if IndexSound(mapInfo, mapAddr, vRandom, nIdCount) {
        IndexSwapped(mapInfo, mapAddr, vRandom, nIdCount, pos1, pos2);
      }
      var id1, id2 := vRandom[pos1], vRandom[pos2];
      mapInfo := mapInfo[id1 := mapInfo[id1].(randomPos := pos2)];
      mapInfo := mapInfo[id2 := mapInfo[id2].(randomPos := pos1)];
      vRandom := vRandom[pos1 := id2];
      vRandom := vRandom[pos2 := id1];
    }

    /** Forgets an entry that has no slot in any table. */
    method Delete(nId: int, ghost floating: set<int>, ghost uncounted: int)
      requires RandomIndex(mapInfo, vRandom) && nId in mapInfo
      requires !mapInfo[nId].inTried && mapInfo[nId].refCount == 0
      modifies this`mapInfo, this`mapAddr, this`vRandom, this`nNew
      ensures RandomIndex(mapInfo, vRandom) && nNew == old(nNew) - 1
      ensures old(Inv(floating, uncounted)) ==> Inv(floating - {nId}, uncounted)
      ensures OnlyPositions(old(mapInfo) - {nId}, mapInfo)
      ensures mapAddr == old(mapAddr) - {old(mapInfo[nId]).addr.ip}
    {
      var gone := mapInfo[nId];
      assert IdPlaced(mapInfo, vRandom, nId);
      SwapRandom(gone.randomPos, |vRandom| - 1);
      RandomPopped(mapInfo, vRandom, nId);
      if old(Inv(floating, uncounted)) {
        Forgotten(K(), old(mapInfo), mapInfo, vvNew, vvTried, floating, nId);
        IndexPopped(mapInfo, mapAddr, vRandom, nIdCount, nId);
      }
      vRandom := vRandom[..|vRandom| - 1];
      mapAddr := mapAddr - {gone.addr.ip};
      mapInfo := mapInfo - {nId};
      nNew := nNew - 1;
    }

    /** Empties a new slot; its holder loses a reference and is forgotten with the last one. */
    method ClearNew(b: nat, p: nat, ghost floating: set<int>, ghost uncounted: int)
      requires Inv(floating, uncounted) && b < NEW_BUCKET_COUNT && p < BUCKET_SIZE
      requires vvNew[b][p] !in floating
      modifies this`mapInfo, this`mapAddr, this`vRandom, this`nNew, this`vvNew
      ensures Inv(floating, uncounted)
      ensures vvNew == SetSlot(old(vvNew), b, p, EMPTY)
      ensures LostReference(old(mapInfo), mapInfo, old(vvNew[b][p]))
    {
      if vvNew[b][p] != EMPTY {
        var nId := vvNew[b][p];
        SlotEmptied(K(), mapInfo, vvNew, floating, b, p, nId);
        var e := mapInfo[nId].(refCount := mapInfo[nId].refCount - 1);
        IndexKept(mapInfo, mapInfo[nId := e], mapAddr, vRandom, nIdCount);
        TriedKept(K(), mapInfo, mapInfo[nId := e], vvTried);
        mapInfo := mapInfo[nId := e];
        vvNew := SetSlot(vvNew, b, p, EMPTY);
        if e.refCount == 0 {
          IndexIsRandom(mapInfo, mapAddr, vRandom, nIdCount);
          Delete(nId, floating + {nId}, uncounted);
          assert floating + {nId} - {nId} == floating;
        }
      } else {
        assert vvNew[b][p := EMPTY] == vvNew[b];
        assert SetSlot(vvNew, b, p, EMPTY) == vvNew;
      }
    }

    /** Takes an entry out of every new bucket that holds it. */
    method RemoveFromNew(nId: int)
      requires Valid() && nId in mapInfo && !mapInfo[nId].inTried
      modifies this`mapInfo, this`vvNew
      ensures Inv({nId}, 0)
      ensures mapInfo == old(mapInfo)[nId := old(mapInfo[nId]).(refCount := 0)]
      ensures vvNew == Erased(old(vvNew), nId)
    {
      NewGrow(K(), mapInfo, vvNew, {}, {nId});
      for bucket := 0 to NEW_BUCKET_COUNT
        invariant Inv({nId}, 0) && nId in mapInfo && !mapInfo[nId].inTried
        invariant mapInfo == old(mapInfo)[nId := old(mapInfo[nId]).(refCount := mapInfo[nId].refCount)]
        invariant ErasedBelow(old(vvNew), vvNew, nId, bucket)
      {
        RemoveFromBucket(nId, bucket, old(vvNew));
      }
      ErasedIs(old(vvNew), vvNew, nId);
      assert RefCountSound(K(), vvNew, nId, mapInfo[nId], {nId});
      assert NewBuckets(K(), vvNew, mapInfo[nId].addr, nId) == {};
    }

    /** Takes an entry out of one new bucket, if it is there. */
    method RemoveFromBucket(nId: int, bucket: nat, ghost t: Table)
      requires Inv({nId}, 0) && nId in mapInfo && !mapInfo[nId].inTried && bucket < NEW_BUCKET_COUNT
      requires ErasedBelow(t, vvNew, nId, bucket)
      modifies this`mapInfo, this`vvNew
      ensures Inv({nId}, 0) && nId in mapInfo
      ensures mapInfo == old(mapInfo)[nId := old(mapInfo[nId]).(refCount := mapInfo[nId].refCount)]
      ensures ErasedBelow(t, vvNew, nId, bucket + 1)
    {
      var pos := K().Position(true, bucket, mapInfo[nId].addr);
      OnlyThere(K(), mapInfo, vvNew, {nId}, bucket, nId);
      ErasedNext(t, vvNew, nId, bucket, pos);
      if vvNew[bucket][pos] == nId {
        SlotEmptied(K(), mapInfo, vvNew, {nId}, bucket, pos, nId);
        assert {nId} + {nId} == {nId};
        var e := mapInfo[nId].(refCount := mapInfo[nId].refCount - 1);
        IndexKept(mapInfo, mapInfo[nId := e], mapAddr, vRandom, nIdCount);
        TriedKept(K(), mapInfo, mapInfo[nId := e], vvTried);
        vvNew := SetSlot(vvNew, bucket, pos, EMPTY);
        mapInfo := mapInfo[nId := e];
      }
    }

    /** Puts an entry into its slot of a new bucket, evicting whatever is there. */
    method PlaceNew(nId: int, b: nat, ghost floating: set<int>, ghost uncounted: int)
      requires Inv(floating, uncounted) && nId in mapInfo && b < NEW_BUCKET_COUNT
      requires !mapInfo[nId].inTried && mapInfo[nId].refCount < NEW_BUCKETS_PER_ADDRESS
      requires vvNew[b][K().Position(true, b, mapInfo[nId].addr)] !in floating + {nId}
      modifies this`mapInfo, this`mapAddr, this`vRandom, this`nNew, this`vvNew
      ensures Inv(floating - {nId}, uncounted)
      ensures nId in mapInfo
      ensures var e := old(mapInfo[nId]);
              mapInfo[nId] == e.(refCount := e.refCount + 1, randomPos := mapInfo[nId].randomPos)
      ensures var p := K().Position(true, b, old(mapInfo[nId]).addr);
              && vvNew == SetSlot(old(vvNew), b, p, nId)
              && LostReference(old(mapInfo) - {nId}, mapInfo - {nId}, old(vvNew[b][p]))
    {
      var p := K().Position(true, b, mapInfo[nId].addr);
      ClearNew(b, p, floating, uncounted);
      LostOther(old(mapInfo), mapInfo, old(vvNew[b][p]), nId);
      assert IdSound(mapInfo, mapAddr, vRandom, nIdCount, nId);
      SlotFilled(K(), mapInfo, vvNew, floating, b, nId);
      var e := mapInfo[nId].(refCount := mapInfo[nId].refCount + 1);
      IndexKept(mapInfo, mapInfo[nId := e], mapAddr, vRandom, nIdCount);
      TriedKept(K(), mapInfo, mapInfo[nId := e], vvTried);
      assert mapInfo[nId := e] - {nId} == mapInfo - {nId};
      assert vvNew[b][p := nId] == old(vvNew)[b][p := nId];
      mapInfo := mapInfo[nId := e];
      vvNew := SetSlot(vvNew, b, p, nId);
    }

    /** Takes the holder out of a tried slot; it is then between the tables. */
    method LeaveTried(kb: nat, kp: nat, ghost floating: set<int>, ghost uncounted: int) returns (id: int)
      requires Inv(floating, uncounted)
      requires kb < TRIED_BUCKET_COUNT && kp < BUCKET_SIZE && vvTried[kb][kp] != EMPTY
      modifies this`mapInfo, this`nTried, this`vvTried
      ensures id == old(vvTried[kb][kp]) && id in old(mapInfo) && old(mapInfo[id]).inTried
      ensures Inv(floating + {id}, uncounted + 1)
      ensures vvTried == SetSlot(old(vvTried), kb, kp, EMPTY)
      ensures mapInfo == old(mapInfo)[id := old(mapInfo[id]).(inTried := false)] && mapInfo[id].refCount == 0
    {
      id := vvTried[kb][kp];
      TriedEvicted(K(), mapInfo, vvNew, vvTried, floating, kb, kp, id);
      var e := mapInfo[id].(inTried := false);
      IndexKept(mapInfo, mapInfo[id := e], mapAddr, vRandom, nIdCount);
      mapInfo := mapInfo[id := e];
      vvTried := SetSlot(vvTried, kb, kp, EMPTY);
      nTried := nTried - 1;
    }

    /** Puts an entry that is between the tables into its empty tried slot. */
    method EnterTried(nId: int)
      requires Inv({nId}, 1) && nId in mapInfo && !mapInfo[nId].inTried && mapInfo[nId].refCount == 0
      requires InTriedSlot(K(), vvTried, EMPTY, mapInfo[nId].addr)
      modifies this`mapInfo, this`nTried, this`vvTried
      ensures Valid()
      ensures mapInfo == old(mapInfo)[nId := old(mapInfo[nId]).(inTried := true)]
      ensures mapInfo - {nId} == old(mapInfo) - {nId}
      ensures var a := old(mapInfo[nId]).addr;
              vvTried == SetSlot(old(vvTried), K().Tried(a), K().Position(false, K().Tried(a), a), nId)
    {
      var e := mapInfo[nId].(inTried := true);
      var kb := K().Tried(e.addr);
      TriedEntered(K(), mapInfo, vvNew, vvTried, {nId}, nId);
      IndexKept(mapInfo, mapInfo[nId := e], mapAddr, vRandom, nIdCount);
      assert {nId} - {nId} == {};
      vvTried := SetSlot(vvTried, kb, K().Position(false, kb, e.addr), nId);
      nTried := nTried + 1;
      mapInfo := mapInfo[nId := e];
    }

    /** Sends the holder of a tried slot back to the new bucket its source chose for it. */
    method Evict(kb: nat, kp: nat, ghost nId: int)
      requires Inv({nId}, 1) && nId in mapInfo && !mapInfo[nId].inTried && mapInfo[nId].refCount == 0
      requires kb < TRIED_BUCKET_COUNT && kp < BUCKET_SIZE && vvTried[kb][kp] != EMPTY
      modifies this`mapInfo, this`mapAddr, this`vRandom, this`nNew, this`nTried, this`vvNew, this`vvTried
      ensures Inv({nId}, 1)
      ensures vvTried == SetSlot(old(vvTried), kb, kp, EMPTY)
      ensures var id := old(vvTried[kb][kp]);
              && id in old(mapInfo) && id != nId
              && SentBack(K(), old(mapInfo), mapInfo, old(vvNew), vvNew, id)
    {
      var id := LeaveTried(kb, kp, {nId}, 1);
      var e := mapInfo[id];
      NoSlot(K(), mapInfo, vvNew, {nId} + {id}, id);
      NoSlot(K(), mapInfo, vvNew, {nId} + {id}, nId);
      assert mapInfo - {id} == old(mapInfo) - {id};
      PlaceNew(id, K().New(e.addr, e.source), {nId} + {id}, 2);
      assert {nId} + {id} - {id} == {nId};
      nNew := nNew + 1;
    }

    /** Moves an entry from the new table to its slot in the tried table. */
    method MakeTried(nId: int)
      requires Valid() && nId in mapInfo && !mapInfo[nId].inTried
      modifies this`mapInfo, this`mapAddr, this`vRandom, this`nNew, this`nTried, this`vvNew, this`vvTried
      ensures Valid()
      ensures MovedToTried(K(), old(mapInfo), mapInfo, old(vvNew), vvNew, old(vvTried), vvTried, nId)
    {
      RemoveFromNew(nId);
      nNew := nNew - 1;

      var kb := K().Tried(mapInfo[nId].addr);
      var kp := K().Position(false, kb, mapInfo[nId].addr);
      ghost var mid := mapInfo;
      assert mid - {nId} == old(mapInfo) - {nId};
      if vvTried[kb][kp] != EMPTY {
        ghost var was := vvNew;
        ghost var victim := vvTried[kb][kp];
        NoSlot(K(), mapInfo, vvNew, {nId}, nId);
        Evict(kb, kp, nId);
        SentBackOther(K(), mid, mapInfo, was, vvNew, victim, nId);
      }
      assert vvTried[kb][kp := nId] == old(vvTried)[kb][kp := nId];
      EnterTried(nId);
    }

    /** Rewrites the statistics of one entry. */
    method SetInfo(nId: int, e: AddrInfo)
      requires Valid() && nId in mapInfo
      requires var was := mapInfo[nId];
               && e.addr == was.addr && e.source == was.source && e.refCount == was.refCount
               && e.inTried == was.inTried && e.randomPos == was.randomPos
      modifies this`mapInfo
      ensures Valid() && mapInfo == old(mapInfo)[nId := e]
    {
      PlacementKept(K(), mapInfo, mapInfo[nId := e], vvNew, {});
      TriedKept(K(), mapInfo, mapInfo[nId := e], vvTried);
      IndexKept(mapInfo, mapInfo[nId := e], mapAddr, vRandom, nIdCount);
      mapInfo := mapInfo[nId := e];
    }

    /** The entry for exactly this service, port included. */
    function FindService(addr: Service): (r: Option<int>)
      requires Valid()
      reads this
      ensures r.Some? ==> r.value in mapInfo && mapInfo[r.value].addr == addr
      ensures r.None? ==> forall id | id in mapInfo :: mapInfo[id].addr != addr
    {
      var found := Find(addr.ip);
      assert forall id | id in mapInfo :: IdSound(mapInfo, mapAddr, vRandom, nIdCount, id);
      if found.Some? && mapInfo[found.value].addr == addr then found else None
    }

    /** Searches the new buckets, from a random one on, for one that holds the entry. */
    method FindBucket(nId: int, nRnd: nat) returns (nUBucket: int)
      requires Valid() && nId in mapInfo && !mapInfo[nId].inTried
      ensures 0 <= nUBucket < NEW_BUCKET_COUNT
      ensures vvNew[nUBucket][K().Position(true, nUBucket, mapInfo[nId].addr)] == nId
    {
      nUBucket := -1;
      for n := 0 to NEW_BUCKET_COUNT
        invariant nUBucket == -1
        invariant forall m: nat | m < n ::
                    var nB := Rotated(m, nRnd); vvNew[nB][K().Position(true, nB, mapInfo[nId].addr)] != nId
      {
        var nB := Rotated(n, nRnd);
        if vvNew[nB][K().Position(true, nB, mapInfo[nId].addr)] == nId {
          return nB;
        }
      }
      HasSlot(K(), mapInfo, vvNew, nId);
      ghost var b: nat :| b < NEW_BUCKET_COUNT && vvNew[b][K().Position(true, b, mapInfo[nId].addr)] == nId;
      ghost var n := Rotation(b, nRnd);
      assert false;
    }

    /** A connection succeeded: the entry moves to the tried table unless it is there already. */
    method Good(addr: Service, nTime: int, nRnd: nat)
      requires Valid()
      modifies this
      ensures Valid() && nKey == old(nKey) && nLastGood == nTime
      ensures
        var nId := old(FindService(addr));
        if nId.None? then mapInfo == old(mapInfo) && vvNew == old(vvNew) && vvTried == old(vvTried)
        else
          var was := old(mapInfo);
          var stamped := was[nId.value := was[nId.value].(lastSuccess := nTime, lastTry := nTime, attempts := 0)];
          if was[nId.value].inTried then mapInfo == stamped && vvNew == old(vvNew) && vvTried == old(vvTried)
          else MovedToTried(K(), stamped, mapInfo, old(vvNew), vvNew, old(vvTried), vvTried, nId.value)
      ensures old(TimesSound(mapInfo)) ==> (TimesSound(mapInfo) <==> old(FindService(addr)).None? || nTime > 0)
    {
      nLastGood := nTime;
      var found := FindService(addr);
      if found.None? {
        return;
      }
      var nId := found.value;
      SetInfo(nId, mapInfo[nId].(lastSuccess := nTime, lastTry := nTime, attempts := 0));
      if mapInfo[nId].inTried {
        return;
      }
      var nUBucket := FindBucket(nId, nRnd);  // always finds one, so the source never bails out here
      assert mapInfo - {nId} == old(mapInfo) - {nId};
      Promote(nId, old(mapInfo));
    }

    /** Moves an entry whose success was just stamped. */
    method Promote(nId: int, ghost was: InfoMap)
      requires Valid() && nId in mapInfo && !mapInfo[nId].inTried && mapInfo - {nId} == was - {nId}
      modifies this`mapInfo, this`mapAddr, this`vRandom, this`nNew, this`nTried, this`vvNew, this`vvTried
      ensures Valid()
      ensures MovedToTried(K(), old(mapInfo), mapInfo, old(vvNew), vvNew, old(vvTried), vvTried, nId)
      ensures TimesSound(was) ==> (TimesSound(mapInfo) <==> old(mapInfo[nId]).lastTry >= 0 && old(mapInfo[nId]).lastSuccess > 0)
    {
      ghost var stamped, tNew, tTried := mapInfo, vvNew, vvTried;
      MakeTried(nId);
      if TimesSound(was) {
        MovedTimes(K(), stamped, mapInfo, tNew, vvNew, tTried, vvTried, nId);
      }
    }

    /** The second half of Add: gives an entry a reference in the bucket its announcer chose. */
    method Reference(nId: int, source: NetAddr, now: int)
      requires Inv({nId}, 0) && nId in mapInfo && !mapInfo[nId].inTried
      requires mapInfo[nId].refCount < NEW_BUCKETS_PER_ADDRESS
      modifies this`mapInfo, this`mapAddr, this`vRandom, this`nNew, this`vvNew
      ensures Valid()
      ensures Referenced(K(), old(mapInfo), mapInfo, old(vvNew), vvNew, nId, source, now)
    {
      var e := mapInfo[nId];
      var b := K().New(e.addr, source);
      var p := K().Position(true, b, e.addr);
      assert NewSlotSound(K(), mapInfo, b, p, vvNew[b][p]);
      assert RefCountSound(K(), vvNew, nId, e, {nId});
      assert vvNew[b][p] == nId ==> b in NewBuckets(K(), vvNew, e.addr, nId);
      assert {nId} - {nId} == {};
      if vvNew[b][p] != nId {
        var insert := vvNew[b][p] == EMPTY;
        if !insert {
          var existing := mapInfo[vvNew[b][p]];
          if IsTerrible(existing, now) || (existing.refCount > 1 && e.refCount == 0) {
            insert := true;
          }
        }
        if insert {
          PlaceNew(nId, b, {nId}, 0);
        } else if e.refCount == 0 {
          IndexIsRandom(mapInfo, mapAddr, vRandom, nIdCount);
          Delete(nId, {nId}, 0);
        } else {
          NewShrink(K(), mapInfo, vvNew, {nId}, nId);
        }
      } else {
        NewShrink(K(), mapInfo, vvNew, {nId}, nId);
      }
    }

    /** The first half of Add for a known address: refresh it, and decide whether to go on. */
    method Refresh(nId: int, addr: Address, penalty: int, now: int, luck: nat) returns (more: bool)
      requires Valid() && nId in mapInfo
      modifies this`mapInfo
      ensures Valid()
      ensures mapInfo == old(mapInfo)[nId := Refreshed(old(mapInfo[nId]), addr, penalty, now)]
      ensures more ==> !mapInfo[nId].inTried && mapInfo[nId].refCount < NEW_BUCKETS_PER_ADDRESS
    {
      var e := Refreshed(mapInfo[nId], addr, penalty, now);
      SetInfo(nId, e);
      if addr.time == 0 || (e.time != 0 && addr.time <= e.time) {
        return false;
      }
      if e.inTried {
        return false;
      }
      assert RefCountSound(K(), vvNew, nId, mapInfo[nId], {});
      if e.refCount == NEW_BUCKETS_PER_ADDRESS {
        return false;
      }
      more := Lucky(e.refCount, luck);
    }

    /** A known address was announced again. */
    method AddKnown(nId: int, addr: Address, source: NetAddr, penalty: int, now: int, luck: nat)
      requires Valid() && nId in mapInfo
      modifies this`mapInfo, this`mapAddr, this`vRandom, this`nNew, this`vvNew
      ensures Valid() && nId in mapInfo && mapInfo[nId].addr == old(mapInfo[nId]).addr
      ensures Updated(old(mapInfo[nId]), mapInfo[nId], addr, penalty, now)
      ensures forall id | id in mapInfo :: id in old(mapInfo) && mapInfo[id].addr == old(mapInfo[id]).addr
      ensures OneTerribleLost(old(mapInfo), mapInfo, now)
      ensures old(TimesSound(mapInfo)) ==> TimesSound(mapInfo)
    {
      var more := Refresh(nId, addr, penalty, now, luck);
      if more {
        ghost var mid, t := mapInfo, vvNew;
        assert RefCountSound(K(), vvNew, nId, mapInfo[nId], {});
        NewGrow(K(), mapInfo, vvNew, {}, {nId});
        Refer(nId, source, now);
        ReferencedLoses(K(), mid, mapInfo, t, vvNew, nId, source, now);
      }
    }

    /** The entry has the slot that its announcer chose. */
    ghost predicate Slotted(nId: int, service: Service, source: NetAddr)
      requires Shape(vvNew, NEW_BUCKET_COUNT)
      reads this
    {
      var b := K().New(service, source);
      vvNew[b][K().Position(true, b, service)] == nId
    }

    /** An unknown address was announced. */
    method AddUnknown(addr: Address, source: NetAddr, penalty: int, now: int) returns (nId: int)
      requires Valid() && addr.service.ip !in mapAddr
      modifies this`mapInfo, this`mapAddr, this`vRandom, this`nNew, this`vvNew, this`nIdCount
      ensures Valid() && nId !in old(mapInfo)
      ensures OneTerribleLost(old(mapInfo), mapInfo, now)
      ensures old(TimesSound(mapInfo)) ==> TimesSound(mapInfo)
      ensures
        var b := K().New(addr.service, source);
        var holder := old(vvNew)[b][K().Position(true, b, addr.service)];
        nId in mapInfo <==> holder == EMPTY || Replaceable(old(mapInfo), holder, 0, now)
      ensures nId in mapInfo ==> mapInfo[nId].addr == addr.service && Newcomer(mapInfo[nId], addr, source, penalty)
      ensures nId in mapInfo ==> Slotted(nId, addr.service, source)
      ensures forall id | id in mapInfo && id != nId :: id in old(mapInfo) && mapInfo[id].addr == old(mapInfo[id]).addr
    {
      nId := Create(addr.service, addr.services, addr.time, source);
      var time := if addr.time - penalty > 0 then addr.time - penalty else 0;
      Restamp(nId, time);
      nNew := nNew + 1;
      ghost var mid, t := mapInfo, vvNew;
      NoSlot(K(), mapInfo, vvNew, {nId}, nId);
      Refer(nId, source, now);
      ReferencedLoses(K(), mid, mapInfo, t, vvNew, nId, source, now);
    }

    /** The second half of Add, and what it does to whoever holds the slot. */
    method Refer(nId: int, source: NetAddr, now: int)
      requires Inv({nId}, 0) && nId in mapInfo && !mapInfo[nId].inTried
      requires mapInfo[nId].refCount < NEW_BUCKETS_PER_ADDRESS
      modifies this`mapInfo, this`mapAddr, this`vRandom, this`nNew, this`vvNew
      ensures Valid()
      ensures Referenced(K(), old(mapInfo), mapInfo, old(vvNew), vvNew, nId, source, now)
      ensures old(TimesSound(mapInfo)) ==> TimesSound(mapInfo)
      ensures var b := K().New(old(mapInfo[nId]).addr, source);
              var holder := old(vvNew)[b][K().Position(true, b, old(mapInfo[nId]).addr)];
              holder != EMPTY && holder != nId ==> holder in old(mapInfo) && old(mapInfo)[holder].refCount >= 1
    {
      HolderCounted(source, nId);
      ghost var mid, t := mapInfo, vvNew;
      Reference(nId, source, now);
      if TimesSound(mid) {
        ReferencedTimes(K(), mid, mapInfo, t, vvNew, nId, source, now);
      }
    }

    /**
     An address was announced.  The result says whether the address was unknown; it does not
     say that the address is known now, because a newcomer without a slot is dropped again.
     */
    method Add(addr: Address, source: NetAddr, nTimePenalty: int, now: int, luck: nat) returns (isNew: bool)
      requires Valid()
      modifies this`mapInfo, this`mapAddr, this`vRandom, this`nNew, this`vvNew, this`nIdCount
      ensures Valid()
      ensures isNew <==> addr.routable && addr.service.ip !in old(mapAddr)
      ensures !addr.routable ==> mapInfo == old(mapInfo) && vvNew == old(vvNew)
      ensures OneTerribleLost(old(mapInfo), mapInfo, now)
      ensures old(TimesSound(mapInfo)) ==> TimesSound(mapInfo)
      // A known address stays known; a newcomer stays exactly if its slot can be had.
      ensures addr.service.ip in old(mapAddr) ==> addr.service.ip in mapAddr
      ensures mapAddr.Keys <= old(mapAddr).Keys + {addr.service.ip}
      ensures isNew ==>
                var b := K().New(addr.service, source);
                var holder := old(vvNew)[b][K().Position(true, b, addr.service)];
                addr.service.ip in mapAddr <==> holder == EMPTY || Replaceable(old(mapInfo), holder, 0, now)
      // What is known of it is brought up to date; no penalty is set for an announcement of oneself.
      ensures var penalty := if addr.service.ip == source then 0 else nTimePenalty;
              && (addr.routable && !isNew ==> var nId := old(mapAddr)[addr.service.ip];
                  nId in old(mapInfo) && nId in mapInfo && Updated(old(mapInfo)[nId], mapInfo[nId], addr, penalty, now))
              && (isNew && addr.service.ip in mapAddr ==> var nId := mapAddr[addr.service.ip];
                  nId in mapInfo && Newcomer(mapInfo[nId], addr, source, penalty) && Slotted(nId, addr.service, source))
    {
      if !addr.routable {
        return false;
      }
      var penalty := if addr.service.ip == source then 0 else nTimePenalty;
      var found := Find(addr.service.ip);
      if found.Some? {
        AddKnown(found.value, addr, source, penalty, now, luck);
        KnownFrom(old(mapInfo), old(mapAddr), old(vRandom), old(nIdCount), mapInfo, mapAddr, vRandom, nIdCount, EMPTY);
        assert IdSound(mapInfo, mapAddr, vRandom, nIdCount, found.value);
        return false;
      }
      Unknown(addr.service.ip);
      var nId := AddUnknown(addr, source, penalty, now);
      KnownAs(addr.service.ip, nId);
      KnownFrom(old(mapInfo), old(mapAddr), old(vRandom), old(nIdCount), mapInfo, mapAddr, vRandom, nIdCount, nId);
      return true;
    }

    /** No entry has an address that is not known. */
    lemma Unknown(ip: NetAddr)
      requires Valid() && ip !in mapAddr
      ensures forall id | id in mapInfo :: mapInfo[id].addr.ip != ip
    {
      forall id | id in mapInfo
        ensures mapInfo[id].addr.ip != ip
      {
        assert IdSound(mapInfo, mapAddr, vRandom, nIdCount, id);
      }
    }

    /** An address that at most one entry can have is known exactly if that entry exists. */
    lemma KnownAs(ip: NetAddr, nId: int)
      requires Valid() && (nId in mapInfo ==> mapInfo[nId].addr.ip == ip)
      requires forall id | id in mapInfo && id != nId :: mapInfo[id].addr.ip != ip
      ensures ip in mapAddr <==> nId in mapInfo
      ensures ip in mapAddr ==> mapAddr[ip] == nId
    {
      if nId in mapInfo {
        assert IdSound(mapInfo, mapAddr, vRandom, nIdCount, nId);
      }
      if ip in mapAddr {
        var id := mapAddr[ip];
        assert AddrSound(mapInfo, mapAddr, ip);
        assert mapInfo[id].addr.ip == ip;
      }
    }

    /** Whoever holds the slot that an entry wants has a reference to lose. */
    lemma HolderCounted(source: NetAddr, nId: int)
      requires Inv({nId}, 0) && nId in mapInfo
      ensures var a := mapInfo[nId].addr;
              var b := K().New(a, source);
              var holder := vvNew[b][K().Position(true, b, a)];
              holder != EMPTY && holder != nId ==> holder in mapInfo && mapInfo[holder].refCount >= 1
    {
      var a := mapInfo[nId].addr;
      var b := K().New(a, source);
      var p := K().Position(true, b, a);
      assert NewSlotSound(K(), mapInfo, b, p, vvNew[b][p]);
      if vvNew[b][p] != EMPTY {
        assert RefCountSound(K(), vvNew, vvNew[b][p], mapInfo[vvNew[b][p]], {nId});
      }
    }

    /** Applies the time penalty to an entry that was just created. */
    method Restamp(nId: int, time: int)
      requires Inv({nId}, 1) && nId in mapInfo
      modifies this`mapInfo
      ensures Inv({nId}, 1) && mapInfo == old(mapInfo)[nId := old(mapInfo[nId]).(time := time)]
    {
      var e := mapInfo[nId].(time := time);
      PlacementKept(K(), mapInfo, mapInfo[nId := e], vvNew, {nId});
      TriedKept(K(), mapInfo, mapInfo[nId := e], vvTried);
      IndexKept(mapInfo, mapInfo[nId := e], mapAddr, vRandom, nIdCount);
      mapInfo := mapInfo[nId := e];
    }

    /** A connection was attempted. */
    method Attempt(addr: Service, fCountFailure: bool, nTime: int)
      requires Valid()
      modifies this`mapInfo
      ensures Valid()
      ensures
        var nId := old(FindService(addr));
        if nId.None? then mapInfo == old(mapInfo)
        else
          var e := old(mapInfo[nId.value]);
          mapInfo == old(mapInfo)[nId.value :=
            if fCountFailure && e.lastCountAttempt < nLastGood
            then e.(lastTry := nTime, lastCountAttempt := nTime, attempts := e.attempts + 1)
            else e.(lastTry := nTime)]
    {
      var found := FindService(addr);
      if found.None? {
        return;
      }
      var e := mapInfo[found.value].(lastTry := nTime);
      if fCountFailure && e.lastCountAttempt < nLastGood {
        e := e.(lastCountAttempt := nTime, attempts := e.attempts + 1);
      }
      SetInfo(found.value, e);
    }

    /** Still connected: the time moves, but not more often than every twenty minutes. */
    method Connected(addr: Service, nTime: int)
      requires Valid()
      modifies this`mapInfo
      ensures Valid()
      ensures
        var nId := old(FindService(addr));
        if nId.None? || nTime - old(mapInfo)[nId.value].time <= 20 * 60 then mapInfo == old(mapInfo)
        else mapInfo == old(mapInfo)[nId.value := old(mapInfo)[nId.value].(time := nTime)]
    {
      var found := FindService(addr);
      if found.Some? && nTime - mapInfo[found.value].time > 20 * 60 {
        SetInfo(found.value, mapInfo[found.value].(time := nTime));
      }
    }

    /**
     A random sample of the addresses that are not terrible, by partly shuffling the
     random-order vector; rnd supplies the draws.
     */
    method GetAddr(now: int, rnd: nat -> nat) returns (vAddr: seq<Service>)
      requires Valid()
      modifies this`mapInfo, this`vRandom
      ensures Valid() && OnlyPositions(old(mapInfo), mapInfo)
      ensures |vAddr| <= GETADDR_MAX && 100 * |vAddr| <= GETADDR_MAX_PCT * |mapInfo|
      ensures exists picked :: Sampled(old(mapInfo), vRandom, picked, vAddr, now)
      ensures forall i, j | 0 <= i < j < |vAddr| :: vAddr[i] != vAddr[j]
    {
      var nNodes := GETADDR_MAX_PCT * |vRandom| / 100;
      if nNodes > GETADDR_MAX {
        nNodes := GETADDR_MAX;
      }
      vAddr := [];
      ghost var picked: seq<int> := [];
      var n := 0;
      while n < |vRandom| && |vAddr| < nNodes
        invariant Valid() && OnlyPositions(old(mapInfo), mapInfo) && |vRandom| == old(|vRandom|)
        invariant 0 <= n <= |vRandom| && |vAddr| <= nNodes
        invariant Sampled(mapInfo, vRandom[..n], picked, vAddr, now)
      {
        var pos := rnd(n) % (|vRandom| - n) + n;
        ghost var was, m := vRandom, mapInfo;
        Shuffle(n, pos);
        assert vRandom[..n] == was[..n] && vRandom[..n + 1] == vRandom[..n] + [vRandom[n]];
        SampledKept(m, mapInfo, was[..n], picked, vAddr, now);
        var ai := mapInfo[vRandom[n]];
        if !IsTerrible(ai, now) {
          vAddr := vAddr + [ai.addr];
          picked := picked + [vRandom[n]];
        }
        n := n + 1;
      }
      SampledAll(mapInfo, mapAddr, vRandom, nIdCount, vRandom[..n], picked, vAddr, now);
      SampledKept(mapInfo, old(mapInfo), vRandom[..n], picked, vAddr, now);
      assert forall id | id in vRandom[..n] :: id in vRandom;
      assert Sampled(old(mapInfo), vRandom, picked, vAddr, now);
      RandomIsPermutation(mapInfo, mapAddr, vRandom, nIdCount);
    }

    /** One step of a shuffle. */
    method Shuffle(n: nat, pos: nat)
      requires Valid() && n < |vRandom| && pos < |vRandom|
      modifies this`mapInfo, this`vRandom
      ensures Valid() && OnlyPositions(old(mapInfo), mapInfo)
      ensures vRandom == old(vRandom)[n := old(vRandom[pos])][pos := old(vRandom[n])]
      ensures vRandom[n] in mapInfo && vRandom[n] !in vRandom[..n]
    {
      IndexIsRandom(mapInfo, mapAddr, vRandom, nIdCount);
      SwapRandom(n, pos);
      PlacementKept(K(), old(mapInfo), mapInfo, vvNew, {});
      TriedKept(K(), old(mapInfo), mapInfo, vvTried);
      RandomIsPermutation(mapInfo, mapAddr, vRandom, nIdCount);
      assert RandomSound(mapInfo, vRandom, n);
    }

    // ----- The consistency check -----

    /** What the consistency check establishes. */
    ghost predicate Consistent() reads this
    {
      && |vRandom| == nTried + nNew
      && (forall id | id in mapInfo :: EntryConsistent(mapInfo[id], id, mapAddr, vRandom))
      && TimesSound(mapInfo)
      && nTried == |TriedIds(mapInfo)| && nNew == |NewIds(mapInfo)|
      && TriedSound(K(), mapInfo, vvTried)
      && NewSound(K(), mapInfo, vvNew, {})
      && nKey != NULL_HASH
    }

    /** Every state that the operations reach is consistent, given sane clocks and a key. */
    lemma ValidIsConsistent()
      requires Valid() && TimesSound(mapInfo) && nKey != NULL_HASH
      ensures Consistent()
    {
      RandomIsPermutation(mapInfo, mapAddr, vRandom, nIdCount);
      assert TriedIds(mapInfo) + NewIds(mapInfo) == mapInfo.Keys && TriedIds(mapInfo) !! NewIds(mapInfo);
      forall id | id in mapInfo ensures EntryConsistent(mapInfo[id], id, mapAddr, vRandom) {
        assert IdSound(mapInfo, mapAddr, vRandom, nIdCount, id);
      }
    }

    /** The first loop of the consistency check: every entry by itself, and two worklists for the tables. */
    method CheckEntries() returns (code: int, setTried: set<int>, mapNew: map<int, int>)
      requires Shape(vvNew, NEW_BUCKET_COUNT)
      ensures Consistent() ==> code == 0
      ensures code == 0 ==>
                && TimesSound(mapInfo)
                && (forall id | id in mapInfo :: EntryConsistent(mapInfo[id], id, mapAddr, vRandom))
                && setTried == TriedIds(mapInfo)
                && mapNew.Keys == NewIds(mapInfo)
                && (forall id | id in mapNew :: mapNew[id] == mapInfo[id].refCount)
                && (forall id | id in mapInfo :: CountInRange(mapInfo[id]))
    {
      setTried, mapNew := {}, map[];
      var todo := mapInfo.Keys;
      while todo != {}
        invariant todo <= mapInfo.Keys
        invariant forall id | id in mapInfo && id !in todo ::
                    && EntryConsistent(mapInfo[id], id, mapAddr, vRandom) && CountInRange(mapInfo[id])
                    && mapInfo[id].lastTry >= 0 && mapInfo[id].lastSuccess >= 0
                    && (mapInfo[id].inTried ==> mapInfo[id].lastSuccess != 0)
        invariant setTried == set id | id in mapInfo && id !in todo && mapInfo[id].inTried
        invariant mapNew.Keys == set id | id in mapInfo && id !in todo && !mapInfo[id].inTried
        invariant forall id | id in mapNew :: mapNew[id] == mapInfo[id].refCount
      {
        var n := AnyOf(todo);
        var info := mapInfo[n];
        assert NewSound(K(), mapInfo, vvNew, {}) ==> RefCountSound(K(), vvNew, n, mapInfo[n], {});
        if info.inTried {
          if info.lastSuccess == 0 {
            return -1, setTried, mapNew;
          }
          if info.refCount != 0 {
            return -2, setTried, mapNew;
          }
          setTried := setTried + {n};
        } else {
          if info.refCount < 0 || info.refCount > NEW_BUCKETS_PER_ADDRESS {
            return -3, setTried, mapNew;
          }
          if info.refCount == 0 {
            return -4, setTried, mapNew;
          }
          mapNew := mapNew[n := info.refCount];
        }
        if (if info.addr.ip in mapAddr then mapAddr[info.addr.ip] else 0) != n {
          return -5, setTried, mapNew;
        }
        if info.randomPos < 0 || info.randomPos >= |vRandom| || vRandom[info.randomPos] != n {
          return -14, setTried, mapNew;
        }
        if info.lastTry < 0 {
          return -6, setTried, mapNew;
        }
        if info.lastSuccess < 0 {
          return -8, setTried, mapNew;
        }
        todo := todo - {n};
      }
      code := 0;
    }

    /** The second loop: every tried slot holds a tried entry that belongs there. */
    method CheckTried(pending: set<int>) returns (code: int, setTried: set<int>)
      requires Shape(vvTried, TRIED_BUCKET_COUNT) && EMPTY !in mapInfo && pending == TriedIds(mapInfo)
      ensures code == 0 && setTried == {} <==> TriedSound(K(), mapInfo, vvTried)
    {
      setTried := pending;
      for n := 0 to TRIED_BUCKET_COUNT
        invariant forall b, p | 0 <= b < n && 0 <= p < BUCKET_SIZE :: TriedSlotSound(K(), mapInfo, b, p, vvTried[b][p])
        invariant forall id :: id in setTried <==> id in pending && !HeldBefore(vvTried, id, n, 0)
      {
        for i := 0 to BUCKET_SIZE
          invariant forall b, p | 0 <= b < n && 0 <= p < BUCKET_SIZE :: TriedSlotSound(K(), mapInfo, b, p, vvTried[b][p])
          invariant forall p | 0 <= p < i :: TriedSlotSound(K(), mapInfo, n, p, vvTried[n][p])
          invariant forall id :: id in setTried <==> id in pending && !HeldBefore(vvTried, id, n, i)
        {
          var id := vvTried[n][i];
          HeldNext(vvTried, n, i);
          if id != EMPTY {
            if id !in setTried {
              assert !TriedSlotSound(K(), mapInfo, n, i, vvTried[n][i]);
              return -11, setTried;
            }
            if K().Tried(mapInfo[id].addr) != n {
              assert !TriedSlotSound(K(), mapInfo, n, i, vvTried[n][i]);
              return -17, setTried;
            }
            if K().Position(false, n, mapInfo[id].addr) != i {
              assert !TriedSlotSound(K(), mapInfo, n, i, vvTried[n][i]);
              return -18, setTried;
            }
            setTried := setTried - {id};
          }
        }
        HeldRow(vvTried, n);
      }
      code := 0;
      forall id | id in mapInfo && mapInfo[id].inTried
        ensures id !in setTried <==> InTriedSlot(K(), vvTried, id, mapInfo[id].addr)
      {
        if id !in setTried {
          var b, p :| 0 <= b < TRIED_BUCKET_COUNT && 0 <= p < BUCKET_SIZE && vvTried[b][p] == id;
          assert TriedSlotSound(K(), mapInfo, b, p, vvTried[b][p]);
        } else {
          var b := K().Tried(mapInfo[id].addr);
          assert vvTried[b][K().Position(false, b, mapInfo[id].addr)] != id;
        }
      }
      assert forall id | id in setTried :: id in mapInfo && mapInfo[id].inTried;
    }

    /** One slot of the new table: its holder is crossed off once. */
    method CheckNewSlot(n: nat, i: nat, left: map<int, int>) returns (code: int, mapNew: map<int, int>)
      requires n < NEW_BUCKET_COUNT && i < BUCKET_SIZE && EMPTY !in mapInfo && Scanned(K(), mapInfo, vvNew, n, i, left)
      ensures code == 0 ==> Scanned(K(), mapInfo, vvNew, n, i + 1, mapNew)
      ensures code != 0 ==> !NewSound(K(), mapInfo, vvNew, {})
    {
      mapNew := left;
      var id := vvNew[n][i];
      if id != EMPTY {
        if id !in mapNew {
          NotCounted(K(), mapInfo, vvNew, n, i, left);
          return -12, mapNew;
        }
        if K().Position(true, n, mapInfo[id].addr) != i {
          assert !NewSlotSound(K(), mapInfo, n, i, vvNew[n][i]);
          return -19, mapNew;
        }
        mapNew := mapNew[id := mapNew[id] - 1];
        if mapNew[id] == 0 {
          mapNew := mapNew - {id};
        }
        CrossedOff(left, mapNew, id);
      }
      ScannedNext(K(), mapInfo, vvNew, n, i, left);
      code := 0;
    }

    method CheckNewRow(n: nat, left: map<int, int>) returns (code: int, mapNew: map<int, int>)
      requires n < NEW_BUCKET_COUNT && EMPTY !in mapInfo && Scanned(K(), mapInfo, vvNew, n, 0, left)
      ensures code == 0 ==> Scanned(K(), mapInfo, vvNew, n + 1, 0, mapNew)
      ensures code != 0 ==> !NewSound(K(), mapInfo, vvNew, {})
    {
      mapNew := left;
      for i := 0 to BUCKET_SIZE
        invariant Scanned(K(), mapInfo, vvNew, n, i, mapNew)
      {
        code, mapNew := CheckNewSlot(n, i, mapNew);
        if code != 0 {
          return;
        }
      }
      ScannedRow(K(), mapInfo, vvNew, n, mapNew);
      code := 0;
    }

    /** The third loop: the new table holds each new entry as often as it is counted. */
    method CheckNew(counts: map<int, int>) returns (code: int, mapNew: map<int, int>)
      requires Shape(vvNew, NEW_BUCKET_COUNT) && EMPTY !in mapInfo && counts.Keys == NewIds(mapInfo)
      requires forall id | id in counts :: counts[id] == mapInfo[id].refCount
      requires forall id | id in mapInfo :: CountInRange(mapInfo[id])
      ensures code == 0 && mapNew == map[] <==> NewSound(K(), mapInfo, vvNew, {})
    {
      mapNew := counts;
      ScannedNothing(K(), mapInfo, vvNew, counts);
      for n := 0 to NEW_BUCKET_COUNT
        invariant Scanned(K(), mapInfo, vvNew, n, 0, mapNew)
      {
        code, mapNew := CheckNewRow(n, mapNew);
        if code != 0 {
          return;
        }
      }
      code := 0;
      ScannedAll(K(), mapInfo, vvNew, mapNew);
    }

    /** The whole check: it returns zero exactly on consistent states. */
    method Check() returns (code: int)
      requires Shape(vvNew, NEW_BUCKET_COUNT) && Shape(vvTried, TRIED_BUCKET_COUNT) && EMPTY !in mapInfo
      ensures code == 0 <==> Consistent()
    {
      if |vRandom| != nTried + nNew {
        return -7;
      }
      var setTried: set<int>, mapNew: map<int, int>;
      code, setTried, mapNew := CheckEntries();
      if code != 0 {
        return;
      }
      if |setTried| != nTried {
        return -9;
      }
      if |mapNew| != nNew {
        assert |mapNew| == |mapNew.Keys|;
        return -10;
      }
      assert |mapNew| == |mapNew.Keys|;
      code, setTried := CheckTried(setTried);
      if code != 0 {
        return;
      }
      code, mapNew := CheckNew(mapNew);
      if code != 0 {
        return;
      }
      if |setTried| != 0 {
        return -13;
      }
      if |mapNew| != 0 {
        return -15;
      }
      if nKey == NULL_HASH {
        return -16;
      }
    }

    method SetServices(addr: Service, services: set<nat>)
      requires Valid()
      modifies this`mapInfo
      ensures Valid()
      ensures
        var nId := old(FindService(addr));
        mapInfo == if nId.None? then old(mapInfo) else old(mapInfo)[nId.value := old(mapInfo)[nId.value].(services := services)]
    {
      var found := FindService(addr);
      if found.Some? {
        SetInfo(found.value, mapInfo[found.value].(services := services));
      }
    }

    method Apply(op: Op)
      requires Valid() && SaneClock(op)
      modifies this
      ensures Valid() && nKey == old(nKey)
      ensures old(TimesSound(mapInfo)) ==> TimesSound(mapInfo)
    {
      match op
      case Announced(addr, source, penalty, now, luck) => var _ := Add(addr, source, penalty, now, luck);
      case Succeeded(addr, time, rnd) => Good(addr, time, rnd);
      case Attempted(addr, count, time) => Attempt(addr, count, time);
      case StillConnected(addr, time) => Connected(addr, time);
      case ServicesLearnt(addr, services) => SetServices(addr, services);
      case GetSample(now, rnd) => var _ := GetAddr(now, rnd);
    }

    /** After every run of operations on a sound address manager, the consistency check returns zero. */
    method Run(ops: seq<Op>) returns (code: int)
      requires Valid() && TimesSound(mapInfo) && nKey != NULL_HASH
      requires forall i | 0 <= i < |ops| :: SaneClock(ops[i])
      modifies this
      ensures Valid() && TimesSound(mapInfo) && nKey == old(nKey)
      ensures code == 0
    {
      for i := 0 to |ops|
        invariant Valid() && TimesSound(mapInfo) && nKey == old(nKey)
      {
        Apply(ops[i]);
      }
      ValidIsConsistent();
      code := Check();
    }
  }

  /** An id occurs in a table before a slot, in reading order. */
  ghost predicate HeldBefore(t: Table, id: int, n: int, i: int) {
    exists b, p :: 0 <= b < |t| && 0 <= p < |t[b]| && t[b][p] == id && (b < n || (b == n && p < i))
  }

  lemma HeldNext(t: Table, n: int, i: int)
    requires 0 <= n < |t| && 0 <= i < |t[n]|
    ensures forall id :: HeldBefore(t, id, n, i + 1) <==> HeldBefore(t, id, n, i) || t[n][i] == id
  {
    forall id ensures HeldBefore(t, id, n, i + 1) <==> HeldBefore(t, id, n, i) || t[n][i] == id {
      if HeldBefore(t, id, n, i + 1) {
        var b, p :| 0 <= b < |t| && 0 <= p < |t[b]| && t[b][p] == id && (b < n || (b == n && p < i + 1));
        assert b < n || (b == n && p < i) ==> HeldBefore(t, id, n, i);
      }
    }
  }

  lemma HeldRow(t: Table, n: int)
    requires 0 <= n < |t|
    ensures forall id :: HeldBefore(t, id, n + 1, 0) <==> HeldBefore(t, id, n, |t[n]|)
  {
  }

  // ----- Counting occurrences during the consistency check -----

  /** The buckets holding an entry whose slots come before a slot, in reading order. */
  ghost function SeenBuckets(k: Bucketing, t: Table, a: Service, id: int, n: int, i: int): set<int>
    requires Shape(t, NEW_BUCKET_COUNT)
  {
    set b | b in NewBuckets(k, t, a, id) && (b < n || (b == n && k.Position(true, b, a) < i))
  }

  /** The worklist holds what is left of each count, and drops an entry at zero. */
  ghost predicate Remaining(k: Bucketing, info: InfoMap, t: Table, n: int, i: int, left: map<int, int>) {
    && Shape(t, NEW_BUCKET_COUNT)
    && left.Keys <= NewIds(info)
    && forall id | id in NewIds(info) ::
         var seen := |SeenBuckets(k, t, info[id].addr, id, n, i)|;
         && seen <= info[id].refCount
         && (id in left <==> seen < info[id].refCount)
         && (id in left ==> left[id] == info[id].refCount - seen)
  }

  /** One occurrence of an id is crossed off. */
  ghost function Crossed(left: map<int, int>, id: int): map<int, int> {
    if id !in left then left else if left[id] == 1 then left - {id} else left[id := left[id] - 1]
  }

  /** The slots before position i of bucket n hold what belongs there. */
  ghost predicate SlotsSound(k: Bucketing, info: InfoMap, t: Table, n: int, i: int) {
    && Shape(t, NEW_BUCKET_COUNT)
    && forall b, p {:trigger NewSlotSound(k, info, b, p, t[b][p])} |
         0 <= b < NEW_BUCKET_COUNT && 0 <= p < BUCKET_SIZE && (b < n || (b == n && p < i)) :: NewSlotSound(k, info, b, p, t[b][p])
  }

  /** How far the third loop has come. */
  ghost predicate Scanned(k: Bucketing, info: InfoMap, t: Table, n: int, i: int, left: map<int, int>) {
    Remaining(k, info, t, n, i, left) && SlotsSound(k, info, t, n, i)
  }

  lemma ScannedNothing(k: Bucketing, info: InfoMap, t: Table, counts: map<int, int>)
    requires Shape(t, NEW_BUCKET_COUNT) && counts.Keys == NewIds(info)
    requires forall id | id in counts :: counts[id] == info[id].refCount
    requires forall id | id in info :: CountInRange(info[id])
    ensures Scanned(k, info, t, 0, 0, counts)
  {
    NothingSeen(k, info, t, counts);
  }

  lemma ScannedNext(k: Bucketing, info: InfoMap, t: Table, n: int, i: int, left: map<int, int>)
    requires Scanned(k, info, t, n, i, left) && 0 <= n < NEW_BUCKET_COUNT && 0 <= i < BUCKET_SIZE && EMPTY !in info
    requires t[n][i] == EMPTY || (t[n][i] in left && k.Position(true, n, info[t[n][i]].addr) == i)
    ensures Scanned(k, info, t, n, i + 1, Crossed(left, t[n][i]))
  {
    SeenNext(k, info, t, n, i, left);
    assert t[n][i] != EMPTY ==> t[n][i] in NewIds(info);
    assert NewSlotSound(k, info, n, i, t[n][i]);
  }

  lemma ScannedRow(k: Bucketing, info: InfoMap, t: Table, n: int, left: map<int, int>)
    requires Scanned(k, info, t, n, BUCKET_SIZE, left)
    ensures Scanned(k, info, t, n + 1, 0, left)
  {
    SeenRow(k, info, t, n, left);
  }

  lemma ScannedAll(k: Bucketing, info: InfoMap, t: Table, left: map<int, int>)
    requires Scanned(k, info, t, NEW_BUCKET_COUNT, 0, left) && EMPTY !in info
    requires forall id | id in info :: CountInRange(info[id])
    ensures left == map[] <==> NewSound(k, info, t, {})
  {
    SeenAll(k, info, t, left);
  }

  /** An id that is not left to be crossed off is one too many. */
  lemma NotCounted(k: Bucketing, info: InfoMap, t: Table, n: int, i: int, left: map<int, int>)
    requires Scanned(k, info, t, n, i, left) && 0 <= n < NEW_BUCKET_COUNT && 0 <= i < BUCKET_SIZE
    requires t[n][i] != EMPTY && t[n][i] !in left
    ensures !NewSound(k, info, t, {})
  {
    if NewSound(k, info, t, {}) {
      SeenTooOften(k, info, t, n, i, left);
      assert false;
    }
  }

  lemma CrossedOff(left: map<int, int>, mapNew: map<int, int>, id: int)
    requires id in left && mapNew == if left[id] - 1 == 0 then left[id := 0] - {id} else left[id := left[id] - 1]
    ensures mapNew == Crossed(left, id)
  {
  }

  lemma NothingSeen(k: Bucketing, info: InfoMap, t: Table, counts: map<int, int>)
    requires Shape(t, NEW_BUCKET_COUNT) && counts.Keys == NewIds(info)
    requires forall id | id in counts :: counts[id] == info[id].refCount
    requires forall id | id in info :: CountInRange(info[id])
    ensures Remaining(k, info, t, 0, 0, counts)
  {
    forall id | id in NewIds(info) ensures SeenBuckets(k, t, info[id].addr, id, 0, 0) == {} {
    }
  }

  lemma SeenNext(k: Bucketing, info: InfoMap, t: Table, n: int, i: int, left: map<int, int>)
    requires Remaining(k, info, t, n, i, left) && 0 <= n < NEW_BUCKET_COUNT && 0 <= i < BUCKET_SIZE && EMPTY !in info
    requires t[n][i] == EMPTY || (t[n][i] in left && k.Position(true, n, info[t[n][i]].addr) == i)
    ensures Remaining(k, info, t, n, i + 1, Crossed(left, t[n][i]))
  {
    forall other | other in NewIds(info)
      ensures |SeenBuckets(k, t, info[other].addr, other, n, i + 1)| ==
              |SeenBuckets(k, t, info[other].addr, other, n, i)| + (if other == t[n][i] then 1 else 0)
    {
      SeenSlot(k, t, info[other].addr, other, n, i);
    }
  }

  lemma SeenSlot(k: Bucketing, t: Table, a: Service, id: int, n: int, i: int)
    requires Shape(t, NEW_BUCKET_COUNT) && 0 <= n < NEW_BUCKET_COUNT && 0 <= i < BUCKET_SIZE
    requires t[n][i] == id ==> k.Position(true, n, a) == i
    ensures |SeenBuckets(k, t, a, id, n, i + 1)| == |SeenBuckets(k, t, a, id, n, i)| + (if id == t[n][i] then 1 else 0)
  {
    var seen := SeenBuckets(k, t, a, id, n, i);
    assert SeenBuckets(k, t, a, id, n, i + 1) == if id == t[n][i] then seen + {n} else seen;
    assert k.Position(true, n, a) == i ==> n !in seen;
  }

  lemma SeenRow(k: Bucketing, info: InfoMap, t: Table, n: int, left: map<int, int>)
    requires Remaining(k, info, t, n, BUCKET_SIZE, left)
    ensures Remaining(k, info, t, n + 1, 0, left)
  {
    forall id | id in NewIds(info)
      ensures SeenBuckets(k, t, info[id].addr, id, n + 1, 0) == SeenBuckets(k, t, info[id].addr, id, n, BUCKET_SIZE)
    {
    }
  }

  lemma SeenTooOften(k: Bucketing, info: InfoMap, t: Table, n: int, i: int, left: map<int, int>)
    requires NewSound(k, info, t, {}) && Remaining(k, info, t, n, i, left)
    requires 0 <= n < NEW_BUCKET_COUNT && 0 <= i < BUCKET_SIZE && t[n][i] != EMPTY
    ensures t[n][i] in left
  {
    var id := t[n][i];
    assert NewSlotSound(k, info, n, i, t[n][i]);
    assert RefCountSound(k, t, id, info[id], {});
    var all, seen := NewBuckets(k, t, info[id].addr, id), SeenBuckets(k, t, info[id].addr, id, n, i);
    assert n in all && seen <= all - {n};
    SubsetSize(seen, all - {n});
  }

  lemma SeenAll(k: Bucketing, info: InfoMap, t: Table, left: map<int, int>)
    requires Remaining(k, info, t, NEW_BUCKET_COUNT, 0, left) && EMPTY !in info
    requires forall b, p | 0 <= b < NEW_BUCKET_COUNT && 0 <= p < BUCKET_SIZE :: NewSlotSound(k, info, b, p, t[b][p])
    requires forall id | id in info :: CountInRange(info[id])
    ensures left == map[] <==> NewSound(k, info, t, {})
  {
    forall id | id in NewIds(info)
      ensures SeenBuckets(k, t, info[id].addr, id, NEW_BUCKET_COUNT, 0) == NewBuckets(k, t, info[id].addr, id)
    {
    }
    if left == map[] {
      forall id | id in info ensures RefCountSound(k, t, id, info[id], {}) {
        assert !info[id].inTried ==> id in NewIds(info);
      }
    }
    if NewSound(k, info, t, {}) {
      forall id | id in NewIds(info) ensures |NewBuckets(k, t, info[id].addr, id)| == info[id].refCount {
        assert RefCountSound(k, t, id, info[id], {});
      }
      assert left.Keys == {};
    }
  }

  /** The address index names the entry (a missing address reads as id 0), and so does the vector. */
  predicate EntryConsistent(e: AddrInfo, id: int, byAddr: map<NetAddr, int>, random: seq<int>) {
    && (if e.addr.ip in byAddr then byAddr[e.addr.ip] else 0) == id
    && 0 <= e.randomPos < |random| && random[e.randomPos] == id
  }

  predicate CountInRange(e: AddrInfo) {
    if e.inTried then e.refCount == 0 else 0 < e.refCount <= NEW_BUCKETS_PER_ADDRESS
  }

  /** One entry has one reference less, or is gone if that was its last; nothing else happened. */
  ghost predicate LostReference(info: InfoMap, info': InfoMap, id: int) {
    if id == EMPTY then info' == info
    else
      && id in info
      && OnlyPositions(info - {id}, info' - {id})
      && (id in info' <==> info[id].refCount > 1)
      && (id in info' ==>
            info'[id] == info[id].(refCount := info[id].refCount - 1, randomPos := info'[id].randomPos))
  }

  /** At most one entry was forgotten, and only a terrible one with its last reference. */
  /** Addresses are known from before, or are the newcomer's. */
  lemma KnownFrom(info: InfoMap, byAddr: map<NetAddr, int>, random: seq<int>, count: int,
                  info': InfoMap, byAddr': map<NetAddr, int>, random': seq<int>, count': int, nId: int)
    requires IndexSound(info, byAddr, random, count) && IndexSound(info', byAddr', random', count')
    requires forall id | id in info' && id != nId :: id in info && info'[id].addr == info[id].addr
    ensures forall ip | ip in byAddr' :: ip in byAddr || (nId in info' && info'[nId].addr.ip == ip)
  {
    forall ip | ip in byAddr'
      ensures ip in byAddr || (nId in info' && info'[nId].addr.ip == ip)
    {
      assert AddrSound(info', byAddr', ip);
      var id := byAddr'[ip];
      if id != nId {
        assert info'[id].addr == info[id].addr;
        assert IdSound(info, byAddr, random, count, id);
      }
    }
  }

  ghost predicate OneTerribleLost(info: InfoMap, info': InfoMap, now: int) {
    && (forall id | id in info && id !in info' :: IsTerrible(info[id], now) && info[id].refCount == 1)
    && (forall id, id' | id in info && id !in info' && id' in info && id' !in info' :: id == id')
  }

  /** A new bucket of the announcer's choice now holds the entry, or the entry is gone, or neither. */
  ghost predicate Referenced(k: Bucketing, info: InfoMap, info': InfoMap, t: Table, t': Table,
                             id: int, source: NetAddr, now: int)
    requires id in info && Shape(t, NEW_BUCKET_COUNT)
  {
    var e := info[id];
    var b := k.New(e.addr, source);
    var p := k.Position(true, b, e.addr);
    var holder := t[b][p];
    if holder == id then info' == info && t' == t
    else if holder == EMPTY || Replaceable(info, holder, e.refCount, now) then
      && t' == SetSlot(t, b, p, id)
      && id in info'
      && info'[id] == e.(refCount := e.refCount + 1, randomPos := info'[id].randomPos)
      && LostReference(info - {id}, info' - {id}, holder)
    else
      && t' == t
      && if e.refCount == 0 then OnlyPositions(info - {id}, info') else info' == info
  }

  lemma ReferencedLoses(k: Bucketing, info: InfoMap, info': InfoMap, t: Table, t': Table,
                        id: int, source: NetAddr, now: int)
    requires id in info && Shape(t, NEW_BUCKET_COUNT)
    requires Referenced(k, info, info', t, t', id, source, now)
    ensures var b := k.New(info[id].addr, source);
            var holder := t[b][k.Position(true, b, info[id].addr)];
            && (forall other | other in info && other !in info' && other != id ::
                  other == holder && IsTerrible(info[other], now) && info[other].refCount <= 1)
            && (info[id].refCount == 0 && holder != id ==>
                  (id in info' <==> holder == EMPTY || Replaceable(info, holder, 0, now)))
            && (info[id].refCount != 0 ==> id in info')
            && (forall other | other in info' && other != id :: other in info && info'[other].addr == info[other].addr)
  {
    var b := k.New(info[id].addr, source);
    var holder := t[b][k.Position(true, b, info[id].addr)];
    forall other | other in info && other !in info' && other != id
      ensures other == holder && IsTerrible(info[other], now) && info[other].refCount <= 1
    {
      assert other in info - {id} && other !in info' - {id};
      if other != holder {
        LostOther(info - {id}, info' - {id}, holder, other);
      }
    }
    forall other | other in info' && other != id ensures other in info && info'[other].addr == info[other].addr {
      assert other in info' - {id};
      assert other != holder ==> other in info' - {id} - {holder};
    }
  }

  /** An entry that is not the one losing the reference keeps everything but its position. */
  lemma LostOther(info: InfoMap, info': InfoMap, lost: int, id: int)
    requires LostReference(info, info', lost) && id in info && id != lost
    ensures id in info' && info'[id] == info[id].(randomPos := info'[id].randomPos)
    ensures LostReference(info - {id}, info' - {id}, lost)
  {
    if lost != EMPTY {
      var m, m' := info - {lost}, info' - {lost};
      assert id in m && id in m' && m'[id] == info'[id] && m[id] == info[id];
      assert info - {id} - {lost} == m - {id} && info' - {id} - {lost} == m' - {id};
    }
  }

  /** A tried entry is back in the new table, in the slot its source chose, with one reference. */
  ghost predicate SentBack(k: Bucketing, info: InfoMap, info': InfoMap, t: Table, t': Table, id: int)
    requires id in info && Shape(t, NEW_BUCKET_COUNT)
  {
    var e := info[id];
    var b := k.New(e.addr, e.source);
    var p := k.Position(true, b, e.addr);
    && t' == SetSlot(t, b, p, id)
    && id in info' && info'[id] == e.(inTried := false, refCount := 1, randomPos := info'[id].randomPos)
    && LostReference(info - {id}, info' - {id}, t[b][p])
  }

  /** What sending an entry back to the new table means for a bystander without a slot. */
  lemma SentBackOther(k: Bucketing, info: InfoMap, info': InfoMap, t: Table, t': Table, id: int, other: int)
    requires Shape(t, NEW_BUCKET_COUNT) && id in info && SentBack(k, info, info', t, t', id)
    requires other in info && other != id
    requires forall b, p | 0 <= b < NEW_BUCKET_COUNT && 0 <= p < BUCKET_SIZE :: t[b][p] != other
    ensures other in info' && info'[other] == info[other].(randomPos := info'[other].randomPos)
    ensures SentBack(k, info - {other}, info' - {other}, t, t', id)
  {
    var b := k.New(info[id].addr, info[id].source);
    LostOther(info - {id}, info' - {id}, t[b][k.Position(true, b, info[id].addr)], other);
    assert info - {other} - {id} == info - {id} - {other} && info' - {other} - {id} == info' - {id} - {other};
  }

  /** The table with one id's slots emptied. */
  ghost function Erased(t: Table, id: int): Table {
    seq(|t|, b requires 0 <= b < |t| =>
      seq(|t[b]|, p requires 0 <= p < |t[b]| => if t[b][p] == id then EMPTY else t[b][p]))
  }

  /** The buckets below n hold one id no more; the others are as they were. */
  ghost predicate ErasedBelow(t: Table, t': Table, id: int, n: int) {
    && Shape(t, NEW_BUCKET_COUNT) && Shape(t', NEW_BUCKET_COUNT)
    && (forall b, p | 0 <= b < NEW_BUCKET_COUNT && b < n && 0 <= p < BUCKET_SIZE :: t'[b][p] == if t[b][p] == id then EMPTY else t[b][p])
    && forall b | 0 <= b < NEW_BUCKET_COUNT && n <= b :: t'[b] == t[b]
  }

  lemma ErasedNext(t: Table, t': Table, id: int, n: nat, pos: nat)
    requires ErasedBelow(t, t', id, n) && n < NEW_BUCKET_COUNT && pos < BUCKET_SIZE
    requires forall p | 0 <= p < BUCKET_SIZE && t'[n][p] == id :: p == pos
    ensures ErasedBelow(t, if t'[n][pos] == id then SetSlot(t', n, pos, EMPTY) else t', id, n + 1)
  {
  }

  /** An entry is in a bucket at its own position or not at all. */
  lemma OnlyThere(k: Bucketing, info: InfoMap, t: Table, floating: set<int>, b: nat, id: int)
    requires NewSound(k, info, t, floating) && id in info && b < NEW_BUCKET_COUNT
    ensures forall p | 0 <= p < BUCKET_SIZE && t[b][p] == id :: p == k.Position(true, b, info[id].addr)
  {
    forall p | 0 <= p < BUCKET_SIZE && t[b][p] == id ensures p == k.Position(true, b, info[id].addr) {
      assert NewSlotSound(k, info, b, p, t[b][p]);
    }
  }

  lemma ErasedIs(t: Table, t': Table, id: int)
    requires ErasedBelow(t, t', id, NEW_BUCKET_COUNT)
    ensures t' == Erased(t, id)
  {
    forall b | 0 <= b < |t| ensures t'[b] == Erased(t, id)[b] {
    }
  }

  /** An entry has moved to its tried slot; the holder of that slot, if any, is back in the new table. */
  ghost predicate MovedToTried(k: Bucketing, info: InfoMap, info': InfoMap, tNew: Table, tNew': Table,
                               tTried: Table, tTried': Table, id: int)
    requires id in info && Shape(tNew, NEW_BUCKET_COUNT) && Shape(tTried, TRIED_BUCKET_COUNT)
  {
    var e := info[id];
    var b := k.Tried(e.addr);
    var p := k.Position(false, b, e.addr);
    var victim := tTried[b][p];
    && id in info' && info'[id] == e.(inTried := true, refCount := 0, randomPos := info'[id].randomPos)
    && tTried' == SetSlot(tTried, b, p, id)
    && (if victim == EMPTY then info' - {id} == info - {id} && tNew' == Erased(tNew, id)
        else victim in info - {id} && SentBack(k, info - {id}, info' - {id}, Erased(tNew, id), tNew', victim))
  }

  lemma LostTimes(info: InfoMap, info': InfoMap, lost: int)
    requires LostReference(info, info', lost) && TimesSound(info)
    ensures TimesSound(info')
  {
    forall id | id in info'
      ensures info'[id].lastTry >= 0 && info'[id].lastSuccess >= 0 && (info'[id].inTried ==> info'[id].lastSuccess != 0)
    {
      assert id != lost && lost != EMPTY ==> id in info' - {lost};
    }
  }

  lemma MovedTimes(k: Bucketing, info: InfoMap, info': InfoMap, tNew: Table, tNew': Table,
                   tTried: Table, tTried': Table, id: int)
    requires id in info && Shape(tNew, NEW_BUCKET_COUNT) && Shape(tTried, TRIED_BUCKET_COUNT)
    requires MovedToTried(k, info, info', tNew, tNew', tTried, tTried', id)
    requires TimesSound(info - {id})
    ensures var e := info[id];
            TimesSound(info') <==> e.lastTry >= 0 && e.lastSuccess > 0
  {
    var b := k.Tried(info[id].addr);
    var victim := tTried[b][k.Position(false, b, info[id].addr)];
    if victim == EMPTY {
      assert TimesSound(info' - {id});
    } else {
      var m, m' := info - {id}, info' - {id};
      assert TimesSound(m - {victim});
      var b' := k.New(m[victim].addr, m[victim].source);
      LostTimes(m - {victim}, m' - {victim}, Erased(tNew, id)[b'][k.Position(true, b', m[victim].addr)]);
      assert forall other | other in m' && other != victim :: other in m' - {victim};
    }
    forall other | other in info' && other != id
      ensures && info'[other].lastTry >= 0 && info'[other].lastSuccess >= 0
              && (info'[other].inTried ==> info'[other].lastSuccess != 0)
    {
      assert other in info' - {id};
    }
  }

  lemma ReferencedTimes(k: Bucketing, info: InfoMap, info': InfoMap, t: Table, t': Table,
                        id: int, source: NetAddr, now: int)
    requires id in info && Shape(t, NEW_BUCKET_COUNT)
    requires Referenced(k, info, info', t, t', id, source, now)
    requires TimesSound(info)
    ensures TimesSound(info')
  {
    var b := k.New(info[id].addr, source);
    var holder := t[b][k.Position(true, b, info[id].addr)];
    if holder != id && (holder == EMPTY || Replaceable(info, holder, info[id].refCount, now)) {
      LostTimes(info - {id}, info' - {id}, holder);
      assert forall other | other in info' && other != id :: other in info' - {id};
    }
  }

  /** The addresses of distinct entries, none of them terrible, drawn from a list of ids. */
  ghost predicate Sampled(info: InfoMap, from: seq<int>, picked: seq<int>, addrs: seq<Service>, now: int) {
    && |picked| == |addrs|
    && (forall i | 0 <= i < |picked| ::
          picked[i] in from && picked[i] in info && info[picked[i]].addr == addrs[i] && !IsTerrible(info[picked[i]], now))
    && (forall i, j | 0 <= i < j < |picked| :: picked[i] != picked[j])
  }

  lemma SampledKept(info: InfoMap, info': InfoMap, from: seq<int>, picked: seq<int>, addrs: seq<Service>, now: int)
    requires Sampled(info, from, picked, addrs, now)
    requires OnlyPositions(info, info') || OnlyPositions(info', info)
    ensures Sampled(info', from, picked, addrs, now)
  {
    forall i | 0 <= i < |picked| ensures picked[i] in info' && info'[picked[i]].addr == addrs[i] && !IsTerrible(info'[picked[i]], now) {
      var id := picked[i];
      assert id in info && id in info';
    }
  }

  lemma SampledAll(info: InfoMap, byAddr: map<NetAddr, int>, random: seq<int>, idCount: int,
                   from: seq<int>, picked: seq<int>, addrs: seq<Service>, now: int)
    requires IndexSound(info, byAddr, random, idCount)
    requires Sampled(info, from, picked, addrs, now)
    ensures forall i, j | 0 <= i < j < |addrs| :: addrs[i] != addrs[j]
  {
    forall i, j | 0 <= i < j < |addrs| ensures addrs[i] != addrs[j] {
      assert IdSound(info, byAddr, random, idCount, picked[i]);
      assert IdSound(info, byAddr, random, idCount, picked[j]);
    }
  }

  /** Same entries, except for positions in the random-order vector. */
  ghost predicate OnlyPositions(info: InfoMap, info': InfoMap) {
    && info.Keys == info'.Keys
    && forall id | id in info :: info'[id] == info[id].(randomPos := info'[id].randomPos)
  }

  /** Forgetting an entry without a slot keeps the tables sound. */
  lemma Forgotten(k: Bucketing, info: InfoMap, swapped: InfoMap, tNew: Table, tTried: Table, floating: set<int>, id: int)
    requires NewSound(k, info, tNew, floating) && TriedSound(k, info, tTried) && OnlyPositions(info, swapped)
    requires id in info && !info[id].inTried && info[id].refCount == 0
    ensures NewSound(k, swapped - {id}, tNew, floating - {id}) && TriedSound(k, swapped - {id}, tTried)
    ensures |TriedIds(swapped - {id})| == |TriedIds(info)| && |NewIds(swapped - {id})| == |NewIds(info)| - 1
  {
    PlacementKept(k, info, swapped, tNew, floating);
    TriedKept(k, info, swapped, tTried);
    EntryRemoved(k, swapped, tNew, tTried, floating, id);
    assert id in NewIds(swapped);
  }

  /** Two addresses that want the same slot: the second is announced as new, and is not known afterwards. */
  method AddedAndGone(first: Service, second: Service) returns (m: CAddrMan, isNew: bool)
    requires first.ip != second.ip
    ensures isNew && second.ip !in m.mapAddr
  {
    var hashes := Hashes((_, _) => 0, (_, _, _) => 0, (_, _, _, _) => 0);
    m := new CAddrMan(hashes, 0);
    var now := 1500000000;
    var known := m.Add(Address(first, {}, now, true), first.ip, 0, now, 0);
    ghost var nId := m.mapAddr[first.ip];
    assert !IsTerrible(m.mapInfo[nId], now) && m.vvNew[0][0] == nId;
    isNew := m.Add(Address(second, {}, now, true), first.ip, 0, now, 0);
  }
}
