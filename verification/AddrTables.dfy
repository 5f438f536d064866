/**
 The redundant indexes of the address manager, as values: which entries exist, where each one
 sits in the random-order vector and in the bucket tables, and what it means for all of these
 to agree.
 */
module AddrTables {
  import opened Transactions
  import opened Sets

  const TRIED_BUCKET_COUNT: nat := 256
  const NEW_BUCKET_COUNT: nat := 1024
  const BUCKET_SIZE: nat := 64
  const NEW_BUCKETS_PER_ADDRESS: nat := 8

  type NetAddr = nat

  datatype Service = Service(ip: NetAddr, port: nat)

  datatype AddrInfo = AddrInfo(
    addr: Service, services: set<nat>, time: int, source: NetAddr,
    lastSuccess: int, lastTry: int, lastCountAttempt: int, attempts: int,
    refCount: int, inTried: bool, randomPos: int)

  /** The keyed hashes that choose buckets and positions; any functions will do. */
  datatype Hashes = Hashes(
    tried: (Uint256, Service) -> nat,
    newBucket: (Uint256, Service, NetAddr) -> nat,
    position: (Uint256, bool, int, Service) -> nat)

  /** The hashes under one secret key. */
  datatype Bucketing = Bucketing(hashes: Hashes, key: Uint256) {
    function Tried(a: Service): (b: nat)
      ensures b < TRIED_BUCKET_COUNT
    {
      hashes.tried(key, a) % TRIED_BUCKET_COUNT
    }

    function New(a: Service, source: NetAddr): (b: nat)
      ensures b < NEW_BUCKET_COUNT
    {
      hashes.newBucket(key, a, source) % NEW_BUCKET_COUNT
    }

    function Position(isNew: bool, bucket: int, a: Service): (p: nat)
      ensures p < BUCKET_SIZE
    {
      hashes.position(key, isNew, bucket, a) % BUCKET_SIZE
    }
  }

  type Table = seq<seq<int>>
  type InfoMap = map<int, AddrInfo>

  const EMPTY: int := -1

  ghost predicate Shape(t: Table, buckets: nat) {
    |t| == buckets && forall b | 0 <= b < |t| :: |t[b]| == BUCKET_SIZE
  }

  function SetSlot(t: Table, b: nat, p: nat, v: int): Table
    requires b < |t| && p < |t[b]|
  {
    t[b := t[b][p := v]]
  }

  /** The new buckets that hold an entry. */
  ghost function NewBuckets(k: Bucketing, t: Table, a: Service, id: int): set<int>
    requires Shape(t, NEW_BUCKET_COUNT)
  {
    set b: int | 0 <= b < NEW_BUCKET_COUNT && t[b][k.Position(true, b, a)] == id
  }

  lemma SlotChanges(k: Bucketing, t: Table, b: nat, p: nat, v: int, a: Service, id: int)
    requires Shape(t, NEW_BUCKET_COUNT) && b < NEW_BUCKET_COUNT && p < BUCKET_SIZE
    ensures Shape(SetSlot(t, b, p, v), NEW_BUCKET_COUNT)
    ensures NewBuckets(k, SetSlot(t, b, p, v), a, id) ==
            if k.Position(true, b, a) != p then NewBuckets(k, t, a, id)
            else if v == id then NewBuckets(k, t, a, id) + {b}
            else NewBuckets(k, t, a, id) - {b}
  {
  }

  // ----- The four parts of the invariant -----

  ghost predicate IdSound(info: InfoMap, byAddr: map<NetAddr, int>, random: seq<int>, idCount: int, id: int)
    requires id in info
  {
    var e := info[id];
    && 0 <= id < idCount
    && e.addr.ip in byAddr && byAddr[e.addr.ip] == id
    && 0 <= e.randomPos < |random| && random[e.randomPos] == id
  }

  ghost predicate AddrSound(info: InfoMap, byAddr: map<NetAddr, int>, ip: NetAddr)
    requires ip in byAddr
  {
    byAddr[ip] in info && info[byAddr[ip]].addr.ip == ip
  }

  ghost predicate RandomSound(info: InfoMap, random: seq<int>, i: int)
    requires 0 <= i < |random|
  {
    random[i] in info && info[random[i]].randomPos == i
  }

  /** Addresses, ids and the random-order vector name each other consistently. */
  ghost predicate IndexSound(info: InfoMap, byAddr: map<NetAddr, int>, random: seq<int>, idCount: int) {
    && 0 <= idCount
    && (forall id {:trigger IdSound(info, byAddr, random, idCount, id)} | id in info ::
          IdSound(info, byAddr, random, idCount, id))
    && (forall ip {:trigger AddrSound(info, byAddr, ip)} | ip in byAddr :: AddrSound(info, byAddr, ip))
    && (forall i {:trigger RandomSound(info, random, i)} | 0 <= i < |random| :: RandomSound(info, random, i))
  }

  ghost predicate IdPlaced(info: InfoMap, random: seq<int>, id: int)
    requires id in info
  {
    0 <= info[id].randomPos < |random| && random[info[id].randomPos] == id
  }

  /** Ids and the random-order vector alone agree, as they do while a file of any content is read. */
  ghost predicate RandomIndex(info: InfoMap, random: seq<int>) {
    && (forall id {:trigger IdPlaced(info, random, id)} | id in info :: IdPlaced(info, random, id))
    && (forall i {:trigger RandomSound(info, random, i)} | 0 <= i < |random| :: RandomSound(info, random, i))
  }

  lemma IndexIsRandom(info: InfoMap, byAddr: map<NetAddr, int>, random: seq<int>, idCount: int)
    requires IndexSound(info, byAddr, random, idCount)
    ensures RandomIndex(info, random)
  {
    forall id | id in info ensures IdPlaced(info, random, id) {
      assert IdSound(info, byAddr, random, idCount, id);
    }
  }

  lemma RandomSwapped(info: InfoMap, random: seq<int>, i: nat, j: nat)
    requires RandomIndex(info, random)
    requires i < |random| && j < |random| && i != j
    ensures random[i] in info && random[j] in info && random[i] != random[j]
    ensures var info1 := info[random[i] := info[random[i]].(randomPos := j)];
            RandomIndex(info1[random[j] := info1[random[j]].(randomPos := i)], random[i := random[j]][j := random[i]])
  {
    assert RandomSound(info, random, i) && RandomSound(info, random, j);
    var info1 := info[random[i] := info[random[i]].(randomPos := j)];
    var info2 := info1[random[j] := info1[random[j]].(randomPos := i)];
    var random2 := random[i := random[j]][j := random[i]];
    forall id | id in info2 ensures IdPlaced(info2, random2, id) {
      assert IdPlaced(info, random, id);
    }
    forall n | 0 <= n < |random2| ensures RandomSound(info2, random2, n) {
      assert RandomSound(info, random, n);
    }
  }

  lemma RandomPopped(info: InfoMap, random: seq<int>, id: int)
    requires RandomIndex(info, random)
    requires random != [] && random[|random| - 1] == id && id in info
    ensures RandomIndex(info - {id}, random[..|random| - 1])
  {
    var info', random' := info - {id}, random[..|random| - 1];
    assert RandomSound(info, random, |random| - 1);
    forall n | n in info' ensures IdPlaced(info', random', n) {
      assert IdPlaced(info, random, n);
    }
    forall n | 0 <= n < |random'| ensures RandomSound(info', random', n) {
      assert RandomSound(info, random, n);
    }
  }

  lemma RandomKept(info: InfoMap, info': InfoMap, random: seq<int>)
    requires RandomIndex(info, random) && info'.Keys == info.Keys
    requires forall id | id in info :: info'[id].randomPos == info[id].randomPos
    ensures RandomIndex(info', random)
  {
    forall n | n in info' ensures IdPlaced(info', random, n) {
      assert IdPlaced(info, random, n);
    }
    forall n | 0 <= n < |random| ensures RandomSound(info', random, n) {
      assert RandomSound(info, random, n);
      var id := random[n];
      assert id in info;
    }
  }

  lemma RandomPushed(info: InfoMap, random: seq<int>, id: int, e: AddrInfo)
    requires RandomIndex(info, random) && id !in info && e.randomPos == |random|
    ensures RandomIndex(info[id := e], random + [id])
  {
    var info', random' := info[id := e], random + [id];
    forall n | n in info' ensures IdPlaced(info', random', n) {
      assert n != id ==> IdPlaced(info, random, n);
    }
    forall n | 0 <= n < |random'| ensures RandomSound(info', random', n) {
      assert n < |random| ==> RandomSound(info, random, n);
    }
  }

  /** The random-order vector lists every id exactly once. */
  lemma RandomIsPermutation(info: InfoMap, byAddr: map<NetAddr, int>, random: seq<int>, idCount: int)
    requires IndexSound(info, byAddr, random, idCount)
    ensures (set id | id in random) == info.Keys
    ensures forall i, j | 0 <= i < j < |random| :: random[i] != random[j]
    ensures |random| == |info|
  {
    forall i, j | 0 <= i < j < |random| ensures random[i] != random[j] {
      assert RandomSound(info, random, i) && RandomSound(info, random, j);
    }
    forall id | id in info ensures id in random {
      assert IdSound(info, byAddr, random, idCount, id);
    }
    forall id | id in random ensures id in info {
      var i :| 0 <= i < |random| && random[i] == id;
      assert RandomSound(info, random, i);
    }
    DistinctCount(random, info.Keys);

  }

  /** Exchanging two ids of the vector, together with their recorded positions. */
  lemma IndexSwapped(info: InfoMap, byAddr: map<NetAddr, int>, random: seq<int>, idCount: int, i: nat, j: nat)
    requires IndexSound(info, byAddr, random, idCount)
    requires i < |random| && j < |random| && i != j
    ensures random[i] in info && random[j] in info && random[i] != random[j]
    ensures var info1 := info[random[i] := info[random[i]].(randomPos := j)];
            IndexSound(info1[random[j] := info1[random[j]].(randomPos := i)], byAddr,
                       random[i := random[j]][j := random[i]], idCount)
  {
    assert RandomSound(info, random, i) && RandomSound(info, random, j);
    var info1 := info[random[i] := info[random[i]].(randomPos := j)];
    var info2 := info1[random[j] := info1[random[j]].(randomPos := i)];
    var random2 := random[i := random[j]][j := random[i]];
    forall id | id in info2 ensures IdSound(info2, byAddr, random2, idCount, id) {
      assert IdSound(info, byAddr, random, idCount, id);
    }
    forall ip | ip in byAddr ensures AddrSound(info2, byAddr, ip) {
      assert AddrSound(info, byAddr, ip);
    }
    forall n | 0 <= n < |random2| ensures RandomSound(info2, random2, n) {
      assert RandomSound(info, random, n);
    }
  }

  /** Dropping the last id of the vector. */
  lemma IndexPopped(info: InfoMap, byAddr: map<NetAddr, int>, random: seq<int>, idCount: int, id: int)
    requires IndexSound(info, byAddr, random, idCount)
    requires random != [] && random[|random| - 1] == id && id in info
    ensures IndexSound(info - {id}, byAddr - {info[id].addr.ip}, random[..|random| - 1], idCount)
  {
    var info', byAddr', random' := info - {id}, byAddr - {info[id].addr.ip}, random[..|random| - 1];
    assert IdSound(info, byAddr, random, idCount, id) && RandomSound(info, random, |random| - 1);
    forall n | n in info' ensures IdSound(info', byAddr', random', idCount, n) {
      assert IdSound(info, byAddr, random, idCount, n);
    }
    forall ip | ip in byAddr' ensures AddrSound(info', byAddr', ip) {
      assert AddrSound(info, byAddr, ip);
    }
    forall n | 0 <= n < |random'| ensures RandomSound(info', random', n) {
      assert RandomSound(info, random, n);
    }
  }

  /** Appending a new id. */
  lemma IndexPushed(info: InfoMap, byAddr: map<NetAddr, int>, random: seq<int>, idCount: int, e: AddrInfo)
    requires IndexSound(info, byAddr, random, idCount)
    requires e.addr.ip !in byAddr && e.randomPos == |random|
    ensures idCount !in info
    ensures IndexSound(info[idCount := e], byAddr[e.addr.ip := idCount], random + [idCount], idCount + 1)
  {
    var info', byAddr', random' := info[idCount := e], byAddr[e.addr.ip := idCount], random + [idCount];
    assert idCount in info ==> IdSound(info, byAddr, random, idCount, idCount);
    forall n | n in info' ensures IdSound(info', byAddr', random', idCount + 1, n) {
      assert n != idCount ==> IdSound(info, byAddr, random, idCount, n);
    }
    forall ip | ip in byAddr' ensures AddrSound(info', byAddr', ip) {
      assert ip != e.addr.ip ==> AddrSound(info, byAddr, ip);
    }
    forall n | 0 <= n < |random'| ensures RandomSound(info', random', n) {
      assert n < |random| ==> RandomSound(info, random, n);
    }
  }

  /** The index does not depend on anything but addresses and positions. */
  lemma IndexKept(info: InfoMap, info': InfoMap, byAddr: map<NetAddr, int>, random: seq<int>, idCount: int)
    requires IndexSound(info, byAddr, random, idCount)
    requires info'.Keys == info.Keys
    requires forall id | id in info :: info'[id].addr == info[id].addr && info'[id].randomPos == info[id].randomPos
    ensures IndexSound(info', byAddr, random, idCount)
  {
    forall id | id in info' ensures IdSound(info', byAddr, random, idCount, id) {
      assert IdSound(info, byAddr, random, idCount, id);
    }
    forall ip | ip in byAddr ensures AddrSound(info', byAddr, ip) {
      assert AddrSound(info, byAddr, ip);
      var id := byAddr[ip];
      assert id in info;
    }
    forall n | 0 <= n < |random| ensures RandomSound(info', random, n) {
      assert RandomSound(info, random, n);
      var id := random[n];
      assert id in info;
    }
  }

  ghost predicate NewSlotSound(k: Bucketing, info: InfoMap, b: int, p: int, id: int) {
    id == EMPTY || (id in info && !info[id].inTried && p == k.Position(true, b, info[id].addr))
  }

  ghost predicate RefCountSound(k: Bucketing, t: Table, id: int, e: AddrInfo, floating: set<int>)
    requires Shape(t, NEW_BUCKET_COUNT)
  {
    if e.inTried then e.refCount == 0
    else
      && e.refCount == |NewBuckets(k, t, e.addr, id)| <= NEW_BUCKETS_PER_ADDRESS
      && (e.refCount == 0 ==> id in floating)
  }

  /**
   The new table and the reference counts agree.  Entries in floating are between tables and
   may have no slot.
   */
  ghost predicate NewSound(k: Bucketing, info: InfoMap, t: Table, floating: set<int>) {
    && Shape(t, NEW_BUCKET_COUNT)
    && EMPTY !in info
    && (forall b, p {:trigger NewSlotSound(k, info, b, p, t[b][p])} |
          0 <= b < NEW_BUCKET_COUNT && 0 <= p < BUCKET_SIZE :: NewSlotSound(k, info, b, p, t[b][p]))
    && (forall id {:trigger RefCountSound(k, t, id, info[id], floating)} |
          id in info :: RefCountSound(k, t, id, info[id], floating))
  }

  ghost predicate TriedSlotSound(k: Bucketing, info: InfoMap, b: int, p: int, id: int) {
    id == EMPTY ||
    (id in info && info[id].inTried && b == k.Tried(info[id].addr) && p == k.Position(false, b, info[id].addr))
  }

  ghost predicate InTriedSlot(k: Bucketing, t: Table, id: int, a: Service)
    requires Shape(t, TRIED_BUCKET_COUNT)
  {
    t[k.Tried(a)][k.Position(false, k.Tried(a), a)] == id
  }

  /** Each tried entry sits in its own slot of the tried table, and nothing else does. */
  ghost predicate TriedSound(k: Bucketing, info: InfoMap, t: Table) {
    && Shape(t, TRIED_BUCKET_COUNT)
    && (forall b, p {:trigger TriedSlotSound(k, info, b, p, t[b][p])} |
          0 <= b < TRIED_BUCKET_COUNT && 0 <= p < BUCKET_SIZE :: TriedSlotSound(k, info, b, p, t[b][p]))
    && (forall id {:trigger InTriedSlot(k, t, id, info[id].addr)} |
          id in info && info[id].inTried :: InTriedSlot(k, t, id, info[id].addr))
  }

  ghost function TriedIds(info: InfoMap): set<int> {
    set id | id in info && info[id].inTried
  }

  ghost function NewIds(info: InfoMap): set<int> {
    set id | id in info && !info[id].inTried
  }

  /** Clock readings are sane: what the consistency check says about times. */
  ghost predicate TimesSound(info: InfoMap) {
    forall id | id in info ::
      info[id].lastTry >= 0 && info[id].lastSuccess >= 0 && (info[id].inTried ==> info[id].lastSuccess != 0)
  }

  // ----- Changes that the invariant does not see -----

  /** Same entries, except for statistics and positions in the random-order vector. */
  ghost predicate SamePlacement(info: InfoMap, info': InfoMap) {
    && info.Keys == info'.Keys
    && forall id | id in info ::
         && info'[id].addr == info[id].addr && info'[id].source == info[id].source
         && info'[id].refCount == info[id].refCount && info'[id].inTried == info[id].inTried
  }

  lemma PlacementKept(k: Bucketing, info: InfoMap, info': InfoMap, tNew: Table, floating: set<int>)
    requires SamePlacement(info, info')
    ensures NewSound(k, info, tNew, floating) ==> NewSound(k, info', tNew, floating)
  {
    if NewSound(k, info, tNew, floating) {
      forall b, p | 0 <= b < NEW_BUCKET_COUNT && 0 <= p < BUCKET_SIZE
        ensures NewSlotSound(k, info', b, p, tNew[b][p])
      {
        assert NewSlotSound(k, info, b, p, tNew[b][p]);
      }
      forall id | id in info' ensures RefCountSound(k, tNew, id, info'[id], floating) {
        assert RefCountSound(k, tNew, id, info[id], floating);
      }
    }
  }

  lemma TriedKept(k: Bucketing, info: InfoMap, info': InfoMap, tTried: Table)
    requires info.Keys == info'.Keys
    requires forall id | id in info :: info'[id].addr == info[id].addr && info'[id].inTried == info[id].inTried
    ensures TriedSound(k, info, tTried) ==> TriedSound(k, info', tTried)
    ensures TriedIds(info') == TriedIds(info) && NewIds(info') == NewIds(info)
  {
    if TriedSound(k, info, tTried) {
      forall b, p | 0 <= b < TRIED_BUCKET_COUNT && 0 <= p < BUCKET_SIZE
        ensures TriedSlotSound(k, info', b, p, tTried[b][p])
      {
        assert TriedSlotSound(k, info, b, p, tTried[b][p]);
      }
    }
    assert forall id :: id in TriedIds(info') <==> id in TriedIds(info);
    assert forall id :: id in NewIds(info') <==> id in NewIds(info);
  }

  // ----- The structural changes -----

  /** Emptying a slot and dropping one reference of its holder. */
  lemma SlotEmptied(k: Bucketing, info: InfoMap, t: Table, floating: set<int>, b: nat, p: nat, id: int)
    requires NewSound(k, info, t, floating)
    requires b < NEW_BUCKET_COUNT && p < BUCKET_SIZE && t[b][p] == id != EMPTY
    ensures id in info && !info[id].inTried && info[id].refCount > 0
    ensures p == k.Position(true, b, info[id].addr)
    ensures NewSound(k, info[id := info[id].(refCount := info[id].refCount - 1)], SetSlot(t, b, p, EMPTY), floating + {id})
    ensures info[id].refCount > 1 ==>
              NewSound(k, info[id := info[id].(refCount := info[id].refCount - 1)], SetSlot(t, b, p, EMPTY), floating)
  {
    assert NewSlotSound(k, info, b, p, id);
    assert RefCountSound(k, t, id, info[id], floating);
    assert b in NewBuckets(k, t, info[id].addr, id);
    var t' := SetSlot(t, b, p, EMPTY);
    var info' := info[id := info[id].(refCount := info[id].refCount - 1)];
    SlotChanges(k, t, b, p, EMPTY, info[id].addr, id);
    forall b', p' | 0 <= b' < NEW_BUCKET_COUNT && 0 <= p' < BUCKET_SIZE
      ensures NewSlotSound(k, info', b', p', t'[b'][p'])
    {
      assert NewSlotSound(k, info, b', p', t[b'][p']);
    }
    forall other | other in info'
      ensures RefCountSound(k, t', other, info'[other], floating + {id})
      ensures info[id].refCount > 1 ==> RefCountSound(k, t', other, info'[other], floating)
    {
      assert RefCountSound(k, t, other, info[other], floating);
      SlotChanges(k, t, b, p, EMPTY, info[other].addr, other);
      if other != id {
        assert NewBuckets(k, t', info[other].addr, other) == NewBuckets(k, t, info[other].addr, other);
      }
    }
  }

  /** Putting an entry that is not tried into an empty slot of its own. */
  lemma SlotFilled(k: Bucketing, info: InfoMap, t: Table, floating: set<int>, b: nat, id: int)
    requires NewSound(k, info, t, floating)
    requires id in info && id != EMPTY && !info[id].inTried && b < NEW_BUCKET_COUNT
    requires info[id].refCount < NEW_BUCKETS_PER_ADDRESS
    requires t[b][k.Position(true, b, info[id].addr)] == EMPTY
    ensures NewSound(k, info[id := info[id].(refCount := info[id].refCount + 1)],
                     SetSlot(t, b, k.Position(true, b, info[id].addr), id), floating - {id})
  {
    var p := k.Position(true, b, info[id].addr);
    var t' := SetSlot(t, b, p, id);
    var info' := info[id := info[id].(refCount := info[id].refCount + 1)];
    SlotChanges(k, t, b, p, id, info[id].addr, id);
    assert RefCountSound(k, t, id, info[id], floating);
    assert b !in NewBuckets(k, t, info[id].addr, id);
    forall b', p' | 0 <= b' < NEW_BUCKET_COUNT && 0 <= p' < BUCKET_SIZE
      ensures NewSlotSound(k, info', b', p', t'[b'][p'])
    {
      assert NewSlotSound(k, info, b', p', t[b'][p']);
    }
    forall other | other in info' ensures RefCountSound(k, t', other, info'[other], floating - {id}) {
      assert RefCountSound(k, t, other, info[other], floating);
      SlotChanges(k, t, b, p, id, info[other].addr, other);
      if other != id {
        assert NewBuckets(k, t', info[other].addr, other) == NewBuckets(k, t, info[other].addr, other);
      }
    }
  }
  /** Forgetting an entry without references. */
  lemma EntryRemoved(k: Bucketing, info: InfoMap, tNew: Table, tTried: Table, floating: set<int>, id: int)
    requires NewSound(k, info, tNew, floating) && TriedSound(k, info, tTried)
    requires id in info && !info[id].inTried && info[id].refCount == 0
    ensures NewSound(k, info - {id}, tNew, floating - {id}) && TriedSound(k, info - {id}, tTried)
    ensures TriedIds(info - {id}) == TriedIds(info) && NewIds(info - {id}) == NewIds(info) - {id}
  {
    NoSlot(k, info, tNew, floating, id);
    forall b, p | 0 <= b < NEW_BUCKET_COUNT && 0 <= p < BUCKET_SIZE
      ensures NewSlotSound(k, info - {id}, b, p, tNew[b][p])
    {
      assert NewSlotSound(k, info, b, p, tNew[b][p]);
    }
    forall other | other in info - {id} ensures RefCountSound(k, tNew, other, info[other], floating - {id}) {
      assert RefCountSound(k, tNew, other, info[other], floating);
    }
    forall b, p | 0 <= b < TRIED_BUCKET_COUNT && 0 <= p < BUCKET_SIZE
      ensures TriedSlotSound(k, info - {id}, b, p, tTried[b][p])
    {
      assert TriedSlotSound(k, info, b, p, tTried[b][p]);
    }
    assert forall other :: other in TriedIds(info - {id}) <==> other in TriedIds(info);
    assert forall other :: other in NewIds(info - {id}) <==> other in NewIds(info) - {id};
  }

  /** An entry without references has no slot in the new table. */
  lemma NoSlot(k: Bucketing, info: InfoMap, t: Table, floating: set<int>, id: int)
    requires NewSound(k, info, t, floating)
    requires id in info && info[id].refCount == 0
    ensures forall b, p | 0 <= b < NEW_BUCKET_COUNT && 0 <= p < BUCKET_SIZE :: t[b][p] != id
    ensures NewBuckets(k, t, info[id].addr, id) == {}
  {
    assert RefCountSound(k, t, id, info[id], floating);
    forall b, p | 0 <= b < NEW_BUCKET_COUNT && 0 <= p < BUCKET_SIZE ensures t[b][p] != id {
      assert NewSlotSound(k, info, b, p, t[b][p]);
      assert b in NewBuckets(k, t, info[id].addr, id) <==> t[b][k.Position(true, b, info[id].addr)] == id;
    }
  }

  /** A new entry starts out without references. */
  lemma EntryAdded(k: Bucketing, info: InfoMap, tNew: Table, tTried: Table, floating: set<int>, id: int, e: AddrInfo)
    requires NewSound(k, info, tNew, floating) && TriedSound(k, info, tTried)
    requires id !in info && id != EMPTY && !e.inTried && e.refCount == 0
    ensures NewSound(k, info[id := e], tNew, floating + {id}) && TriedSound(k, info[id := e], tTried)
    ensures TriedIds(info[id := e]) == TriedIds(info) && NewIds(info[id := e]) == NewIds(info) + {id}
  {
    var info' := info[id := e];
    forall b, p | 0 <= b < NEW_BUCKET_COUNT && 0 <= p < BUCKET_SIZE
      ensures NewSlotSound(k, info', b, p, tNew[b][p]) && tNew[b][p] != id
    {
      assert NewSlotSound(k, info, b, p, tNew[b][p]);
    }
    assert NewBuckets(k, tNew, e.addr, id) == {};
    forall other | other in info' ensures RefCountSound(k, tNew, other, info'[other], floating + {id}) {
      assert other != id ==> RefCountSound(k, tNew, other, info[other], floating);
    }
    forall b, p | 0 <= b < TRIED_BUCKET_COUNT && 0 <= p < BUCKET_SIZE
      ensures TriedSlotSound(k, info', b, p, tTried[b][p])
    {
      assert TriedSlotSound(k, info, b, p, tTried[b][p]);
    }
    assert forall other :: other in TriedIds(info') <==> other in TriedIds(info);
    assert forall other :: other in NewIds(info') <==> other in NewIds(info) + {id};
  }

  /** Taking the entry out of a tried slot leaves it between the tables. */
  lemma TriedEvicted(k: Bucketing, info: InfoMap, tNew: Table, tTried: Table, floating: set<int>, b: nat, p: nat, id: int)
    requires NewSound(k, info, tNew, floating) && TriedSound(k, info, tTried)
    requires b < TRIED_BUCKET_COUNT && p < BUCKET_SIZE && tTried[b][p] == id != EMPTY
    ensures id in info && info[id].inTried && info[id].refCount == 0
    ensures NewSound(k, info[id := info[id].(inTried := false)], tNew, floating + {id})
    ensures TriedSound(k, info[id := info[id].(inTried := false)], SetSlot(tTried, b, p, EMPTY))
    ensures TriedIds(info[id := info[id].(inTried := false)]) == TriedIds(info) - {id}
    ensures NewIds(info[id := info[id].(inTried := false)]) == NewIds(info) + {id}
  {
    assert TriedSlotSound(k, info, b, p, id);
    assert RefCountSound(k, tNew, id, info[id], floating);
    NoSlot(k, info, tNew, floating, id);
    var info' := info[id := info[id].(inTried := false)];
    var t' := SetSlot(tTried, b, p, EMPTY);
    forall b', p' | 0 <= b' < NEW_BUCKET_COUNT && 0 <= p' < BUCKET_SIZE
      ensures NewSlotSound(k, info', b', p', tNew[b'][p'])
    {
      assert NewSlotSound(k, info, b', p', tNew[b'][p']);
    }
    forall other | other in info' ensures RefCountSound(k, tNew, other, info'[other], floating + {id}) {
      assert RefCountSound(k, tNew, other, info[other], floating);
    }
    forall b', p' | 0 <= b' < TRIED_BUCKET_COUNT && 0 <= p' < BUCKET_SIZE
      ensures TriedSlotSound(k, info', b', p', t'[b'][p'])
    {
      assert TriedSlotSound(k, info, b', p', tTried[b'][p']);
    }
    forall other | other in info' && info'[other].inTried ensures InTriedSlot(k, t', other, info'[other].addr) {
      assert InTriedSlot(k, tTried, other, info[other].addr);
    }
    assert forall other :: other in TriedIds(info') <==> other in TriedIds(info) - {id};
    assert forall other :: other in NewIds(info') <==> other in NewIds(info) + {id};
  }

  /** Putting an entry that is between the tables into its empty tried slot. */
  lemma TriedEntered(k: Bucketing, info: InfoMap, tNew: Table, tTried: Table, floating: set<int>, id: int)
    requires NewSound(k, info, tNew, floating) && TriedSound(k, info, tTried)
    requires id in info && !info[id].inTried && info[id].refCount == 0
    requires var b := k.Tried(info[id].addr); tTried[b][k.Position(false, b, info[id].addr)] == EMPTY
    ensures NewSound(k, info[id := info[id].(inTried := true)], tNew, floating - {id})
    ensures var b := k.Tried(info[id].addr);
            TriedSound(k, info[id := info[id].(inTried := true)], SetSlot(tTried, b, k.Position(false, b, info[id].addr), id))
    ensures TriedIds(info[id := info[id].(inTried := true)]) == TriedIds(info) + {id}
    ensures NewIds(info[id := info[id].(inTried := true)]) == NewIds(info) - {id}
  {
    NoSlot(k, info, tNew, floating, id);
    var info' := info[id := info[id].(inTried := true)];
    var b := k.Tried(info[id].addr);
    var t' := SetSlot(tTried, b, k.Position(false, b, info[id].addr), id);
    forall b', p' | 0 <= b' < NEW_BUCKET_COUNT && 0 <= p' < BUCKET_SIZE
      ensures NewSlotSound(k, info', b', p', tNew[b'][p'])
    {
      assert NewSlotSound(k, info, b', p', tNew[b'][p']);
    }
    forall other | other in info' ensures RefCountSound(k, tNew, other, info'[other], floating - {id}) {
      assert RefCountSound(k, tNew, other, info[other], floating);
    }
    forall b', p' | 0 <= b' < TRIED_BUCKET_COUNT && 0 <= p' < BUCKET_SIZE
      ensures TriedSlotSound(k, info', b', p', t'[b'][p'])
    {
      assert TriedSlotSound(k, info, b', p', tTried[b'][p']);
    }
    forall other | other in info' && info'[other].inTried ensures InTriedSlot(k, t', other, info'[other].addr) {
      assert other != id ==> InTriedSlot(k, tTried, other, info[other].addr);
    }
    assert forall other :: other in TriedIds(info') <==> other in TriedIds(info) + {id};
    assert forall other :: other in NewIds(info') <==> other in NewIds(info) - {id};
  }
  lemma NewGrow(k: Bucketing, info: InfoMap, t: Table, floating: set<int>, floating': set<int>)
    requires NewSound(k, info, t, floating) && floating <= floating'
    ensures NewSound(k, info, t, floating')
  {
    forall id | id in info ensures RefCountSound(k, t, id, info[id], floating') {
      assert RefCountSound(k, t, id, info[id], floating);
    }
  }
  /** An entry with a slot is not between the tables. */
  lemma NewShrink(k: Bucketing, info: InfoMap, t: Table, floating: set<int>, id: int)
    requires NewSound(k, info, t, floating) && id in info && info[id].refCount != 0
    ensures NewSound(k, info, t, floating - {id})
  {
    forall other | other in info ensures RefCountSound(k, t, other, info[other], floating - {id}) {
      assert RefCountSound(k, t, other, info[other], floating);
    }
  }

  /** Every new entry has a slot, so a search of all buckets finds it. */
  lemma HasSlot(k: Bucketing, info: InfoMap, t: Table, id: int)
    requires NewSound(k, info, t, {}) && id in info && !info[id].inTried
    ensures exists b :: 0 <= b < NEW_BUCKET_COUNT && t[b][k.Position(true, b, info[id].addr)] == id
  {
    assert RefCountSound(k, t, id, info[id], {});
    var b :| b in NewBuckets(k, t, info[id].addr, id);
  }

  function Rotated(n: nat, start: nat): (b: nat)
    ensures b < NEW_BUCKET_COUNT
  {
    (n + start) % NEW_BUCKET_COUNT
  }

  /** A search that starts anywhere and wraps around still visits every bucket. */
  lemma Rotation(b: nat, start: nat) returns (n: nat)
    requires b < NEW_BUCKET_COUNT
    ensures n < NEW_BUCKET_COUNT && Rotated(n, start) == b
  {
    var s := start % NEW_BUCKET_COUNT;
    n := if b >= s then b - s else b + NEW_BUCKET_COUNT - s;
  }
}
