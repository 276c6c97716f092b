// The tables of the address manager as values, and the invariant that ties
// its redundant structures together.
module AddrTables {

  const TRIED_BUCKET_COUNT := 64
  const TRIED_BUCKET_SIZE := 64
  const NEW_BUCKET_COUNT := 256
  const NEW_BUCKET_SIZE := 64
  const NEW_BUCKETS_PER_ADDRESS := 4
  const TRIED_ENTRIES_INSPECT_ON_EVICT := 4
  const HORIZON_DAYS := 30
  const RETRIES := 3
  const MAX_FAILURES := 10
  const MIN_FAIL_DAYS := 7
  const GETADDR_MAX_PCT := 23
  const GETADDR_MAX := 2500
  const DAY := 86400
  const NOBODY := -1  // not an id

  // CNetAddr: an address without its port.
  type NetAddr = int

  // CService
  datatype Service = Service(ip: NetAddr, port: nat)

  // CAddress; nServices is a set of flags, nTime an unsigned 32-bit time.
  datatype Address = Address(svc: Service, nServices: set<nat>, nTime: nat)

  datatype Info = Info(
    svc: Service,
    nServices: set<nat>,
    nTime: nat,
    source: NetAddr,
    nLastSuccess: int,
    nLastTry: int,
    nAttempts: int,
    nRefCount: int,
    fInTried: bool,
    nRandomPos: int)
  {
    predicate IsTerrible(nNow: int) {
      if nLastTry != 0 && nLastTry >= nNow - 60 then false
      else
        || nTime > nNow + 10 * 60
        || nTime == 0 || nNow - nTime > HORIZON_DAYS * DAY
        || (nLastSuccess == 0 && nAttempts >= RETRIES)
        || (nNow - nLastSuccess > MIN_FAIL_DAYS * DAY && nAttempts >= MAX_FAILURES)
    }
  }

  // An entry is worth keeping if it was tried in the last minute, or if its
  // time is neither in the future nor a month old and it has not failed three
  // times without, or ten times in a week after, a success.
  lemma TerribleRule(i: Info, nNow: int)
    ensures var tried, age, idle := i.nLastTry != 0 && nNow - i.nLastTry <= 60, nNow - i.nTime, nNow - i.nLastSuccess;
      && (tried ==> !i.IsTerrible(nNow))
      && (!tried && i.nTime == 0 ==> i.IsTerrible(nNow))
      && (!tried && (age < -600 || age > 2_592_000) ==> i.IsTerrible(nNow))
      && (!tried && i.nLastSuccess == 0 && i.nAttempts >= 3 ==> i.IsTerrible(nNow))
      && (!tried && idle > 604_800 && i.nAttempts >= 10 ==> i.IsTerrible(nNow))
      && (i.nTime != 0 && -600 <= age <= 2_592_000 && i.nAttempts < (if i.nLastSuccess == 0 then 3 else 10) ==>
            !i.IsTerrible(nNow))
      && (i.nTime != 0 && -600 <= age <= 2_592_000 && i.nLastSuccess != 0 && idle <= 604_800 ==> !i.IsTerrible(nNow))
  {
  }

  // nKey: it only serves to pick buckets by hashing.
  datatype Key = Key(triedHash: Service -> nat, newHash: (NetAddr, NetAddr) -> nat) {
    function TriedBucket(svc: Service): (b: nat)
      ensures b < TRIED_BUCKET_COUNT
    {
      triedHash(svc) % TRIED_BUCKET_COUNT
    }

    function NewBucket(svc: Service, src: NetAddr): (b: nat)
      ensures b < NEW_BUCKET_COUNT
    {
      newHash(svc.ip, src) % NEW_BUCKET_COUNT
    }
  }

  type InfoMap = map<int, Info>

  // ----------------------------------------------------------- the invariant

  // nRandomPos and vRandom are inverse to each other.
  ghost predicate RandomOk(mapInfo: InfoMap, vRandom: seq<int>) {
    && (forall i | 0 <= i < |vRandom| :: vRandom[i] in mapInfo && mapInfo[vRandom[i]].nRandomPos == i)
    && (forall id | id in mapInfo ::
          0 <= mapInfo[id].nRandomPos < |vRandom| && vRandom[mapInfo[id].nRandomPos] == id)
  }

  // mapAddr is the inverse of mapInfo.
  ghost predicate AddrOk(mapInfo: InfoMap, mapAddr: map<NetAddr, int>) {
    && (forall id | id in mapInfo :: mapInfo[id].svc.ip in mapAddr && mapAddr[mapInfo[id].svc.ip] == id)
    && (forall ip | ip in mapAddr :: mapAddr[ip] in mapInfo && mapInfo[mapAddr[ip]].svc.ip == ip)
  }

  ghost predicate Distinct(v: seq<int>) {
    forall i, j | 0 <= i < j < |v| :: v[i] != v[j]
  }

  // Tried ids, and no others, sit once in the tried bucket they hash to.
  ghost predicate TriedOk(k: Key, mapInfo: InfoMap, vvTried: seq<seq<int>>) {
    && |vvTried| == TRIED_BUCKET_COUNT
    && (forall b | 0 <= b < |vvTried| :: |vvTried[b]| <= TRIED_BUCKET_SIZE && Distinct(vvTried[b]))
    && (forall b, id | 0 <= b < |vvTried| && id in vvTried[b] ::
          id in mapInfo && mapInfo[id].fInTried && k.TriedBucket(mapInfo[id].svc) == b)
    && (forall id | id in mapInfo && mapInfo[id].fInTried :: id in vvTried[k.TriedBucket(mapInfo[id].svc)])
  }

  // In how many new buckets an id sits.
  function Count(vvNew: seq<set<int>>, id: int): nat {
    if |vvNew| == 0 then 0
    else Count(vvNew[..|vvNew| - 1], id) + if id in vvNew[|vvNew| - 1] then 1 else 0
  }

  // New ids, and no others, sit in as many new buckets as they are counted.
  // The id x, if it is one, is counted for one more bucket.
  ghost predicate NewOk(mapInfo: InfoMap, vvNew: seq<set<int>>, x: int) {
    && |vvNew| == NEW_BUCKET_COUNT
    && (forall b | 0 <= b < |vvNew| :: |vvNew[b]| <= NEW_BUCKET_SIZE)
    && (forall b, id | 0 <= b < |vvNew| && id in vvNew[b] :: id in mapInfo && !mapInfo[id].fInTried)
    && (forall id | id in mapInfo :: CountedOk(mapInfo[id], vvNew, id, x))
  }

  ghost predicate CountedOk(info: Info, vvNew: seq<set<int>>, id: int, x: int) {
    && info.nRefCount == Count(vvNew, id) + (if id == x then 1 else 0)
    && if info.fInTried then info.nRefCount == 0 else 1 <= info.nRefCount <= NEW_BUCKETS_PER_ADDRESS
  }

  function TriedIds(mapInfo: InfoMap): set<int> { set id | id in mapInfo && mapInfo[id].fInTried }

  function NewIds(mapInfo: InfoMap): set<int> { set id | id in mapInfo && !mapInfo[id].fInTried }

  lemma IdsSplit(m: InfoMap)
    ensures |m.Keys| == |TriedIds(m)| + |NewIds(m)|
  {
    assert m.Keys == TriedIds(m) + NewIds(m);
    assert TriedIds(m) !! NewIds(m);
  }

  ghost predicate CountersOk(mapInfo: InfoMap, nRandom: nat, nTried: int, nNew: int) {
    |TriedIds(mapInfo)| == nTried && |NewIds(mapInfo)| == nNew && nRandom == nTried + nNew
  }

  ghost predicate StatsOk(mapInfo: InfoMap, nIdCount: int) {
    && 0 <= nIdCount
    && forall id | id in mapInfo ::
      && 0 <= id < nIdCount
      && mapInfo[id].nLastTry >= 0 && mapInfo[id].nLastSuccess >= 0
      && (mapInfo[id].fInTried ==> mapInfo[id].nLastSuccess > 0)
  }

  // All of them at once.
  ghost predicate TablesOk(k: Key, nIdCount: int, mapInfo: InfoMap, mapAddr: map<NetAddr, int>, vRandom: seq<int>,
                           nTried: int, vvTried: seq<seq<int>>, nNew: int, vvNew: seq<set<int>>, x: int)
  {
    && RandomOk(mapInfo, vRandom) && AddrOk(mapInfo, mapAddr) && TriedOk(k, mapInfo, vvTried)
    && NewOk(mapInfo, vvNew, x) && CountersOk(mapInfo, |vRandom|, nTried, nNew) && StatsOk(mapInfo, nIdCount)
  }

  // -------------------------------------------------------------- counting

  lemma {:induction false} CountAppend(v: seq<set<int>>, w: seq<set<int>>, id: int)
    ensures Count(v + w, id) == Count(v, id) + Count(w, id)
  {
    if |w| == 0 {
      assert v + w == v;
    } else {
      CountAppend(v, w[..|w| - 1], id);
      assert (v + w)[..|v + w| - 1] == v + w[..|w| - 1];
    }
  }

  lemma CountUpdate(v: seq<set<int>>, b: nat, s: set<int>, id: int)
    requires b < |v|
    ensures Count(v[b := s], id) == Count(v, id) - (if id in v[b] then 1 else 0) + (if id in s then 1 else 0)
  {
    var w := v[b := s];
    assert v == v[..b] + ([v[b]] + v[b + 1..]) && w == v[..b] + ([s] + v[b + 1..]);
    CountAppend(v[..b], [v[b]] + v[b + 1..], id);
    CountAppend(v[..b], [s] + v[b + 1..], id);
    CountAppend([v[b]], v[b + 1..], id);
    CountAppend([s], v[b + 1..], id);
    assert [v[b]][..0] == [] && [s][..0] == [];
  }

  lemma {:induction false} CountZero(v: seq<set<int>>, id: int)
    ensures Count(v, id) == 0 <==> forall b | 0 <= b < |v| :: id !in v[b]
  {
    if |v| != 0 {
      CountZero(v[..|v| - 1], id);
    }
  }

  // ------------------------------------------- changes that keep the tables

  ghost predicate SameTable(a: Info, b: Info) {
    a.svc == b.svc && a.nRefCount == b.nRefCount && a.fInTried == b.fInTried
  }

  // Only bookkeeping fields and nRandomPos differ.
  ghost predicate SameTables(m: InfoMap, m': InfoMap) {
    m.Keys == m'.Keys && forall id | id in m' :: SameTable(m[id], m'[id])
  }

  lemma SameIds(m: InfoMap, m': InfoMap)
    requires SameTables(m, m')
    ensures TriedIds(m') == TriedIds(m) && NewIds(m') == NewIds(m)
  {
    forall id ensures id in m <==> id in m' {
      assert id in m <==> id in m.Keys;
      assert id in m' <==> id in m'.Keys;
    }
    forall id | id in m' ensures m[id].fInTried == m'[id].fInTried {
      assert SameTable(m[id], m'[id]);
    }
  }

  lemma SameTablesKeep(k: Key, m: InfoMap, m': InfoMap, mapAddr: map<NetAddr, int>, vvTried: seq<seq<int>>,
                       vvNew: seq<set<int>>, x: int)
    requires SameTables(m, m')
    ensures AddrOk(m, mapAddr) ==> AddrOk(m', mapAddr)
    ensures TriedOk(k, m, vvTried) ==> TriedOk(k, m', vvTried)
    ensures NewOk(m, vvNew, x) ==> NewOk(m', vvNew, x)
  {
    forall id ensures id in m <==> id in m' {
      assert id in m <==> id in m.Keys;
      assert id in m' <==> id in m'.Keys;
    }
    forall id | id in m'
      ensures SameTable(m[id], m'[id]) && (CountedOk(m[id], vvNew, id, x) ==> CountedOk(m'[id], vvNew, id, x))
    {
    }
  }

  // m' is m without one reference to id; id is gone if it was the last one.
  ghost predicate Unreferenced(m: InfoMap, m': InfoMap, id: int) {
    && id in m
    && m'.Keys == (if m[id].nRefCount == 1 then m.Keys - {id} else m.Keys)
    && (forall g | g in m' && g != id :: SameTable(m[g], m'[g]))
    && (id in m' ==> SameTable(m[id].(nRefCount := m[id].nRefCount - 1), m'[id]))
  }

  lemma NewOkUnref(m: InfoMap, m': InfoMap, vvNew: seq<set<int>>, b: nat, id: int, x: int)
    requires NewOk(m, vvNew, x) && b < |vvNew| && id in vvNew[b] && id != x && Unreferenced(m, m', id)
    ensures NewOk(m', vvNew[b := vvNew[b] - {id}], x)
  {
    var v := vvNew[b := vvNew[b] - {id}];
    assert CountedOk(m[id], vvNew, id, x);
    CountUpdate(vvNew, b, vvNew[b] - {id}, id);
    CountZero(v, id);
    forall g | g in m' ensures CountedOk(m'[g], v, g, x) {
      assert g in m'.Keys;
      assert CountedOk(m[g], vvNew, g, x);
      CountUpdate(vvNew, b, vvNew[b] - {id}, g);
    }
    forall c, g | 0 <= c < |v| && g in v[c] ensures g in m' && !m'[g].fInTried {
      assert g in vvNew[c];
      assert g in m.Keys && (g == id ==> m[id].nRefCount != 1);
      assert g in m'.Keys;
    }
  }

  ghost predicate SameStats(a: Info, b: Info) {
    a.nLastTry == b.nLastTry && a.nLastSuccess == b.nLastSuccess && a.fInTried == b.fInTried
  }

  lemma StatsKeep(m: InfoMap, m': InfoMap, nIdCount: int)
    requires StatsOk(m, nIdCount) && m'.Keys <= m.Keys && forall g | g in m' :: SameStats(m[g], m'[g])
    ensures StatsOk(m', nIdCount)
  {
    forall g | g in m' ensures g in m && SameStats(m[g], m'[g]) {
      assert g in m'.Keys;
    }
  }

  lemma RandomUpdate(m: InfoMap, vRandom: seq<int>, id: int, info: Info)
    requires RandomOk(m, vRandom) && id in m && info.nRandomPos == m[id].nRandomPos
    ensures RandomOk(m[id := info], vRandom)
  {
  }

  lemma AddrOkUnref(m: InfoMap, m': InfoMap, mapAddr: map<NetAddr, int>, id: int)
    requires AddrOk(m, mapAddr) && Unreferenced(m, m', id)
    ensures AddrOk(m', if m[id].nRefCount == 1 then mapAddr - {m[id].svc.ip} else mapAddr)
  {
    forall g | g in m' ensures g in m && m'[g].svc == m[g].svc {
      assert g in m'.Keys && g in m.Keys;
    }
    forall ip | ip in mapAddr && (m[id].nRefCount == 1 ==> ip != m[id].svc.ip) ensures mapAddr[ip] in m' {
      assert mapAddr[ip] in m.Keys;
      assert mapAddr[ip] in m'.Keys;
    }
  }

  lemma TriedOkUnref(k: Key, m: InfoMap, m': InfoMap, vvTried: seq<seq<int>>, id: int)
    requires TriedOk(k, m, vvTried) && Unreferenced(m, m', id) && !m[id].fInTried
    ensures TriedOk(k, m', vvTried)
  {
    forall b, g | 0 <= b < |vvTried| && g in vvTried[b]
      ensures g in m' && m'[g].fInTried && k.TriedBucket(m'[g].svc) == b
    {
      assert g in m.Keys && g != id;
      assert g in m'.Keys;
    }
    forall g | g in m' && m'[g].fInTried ensures g in vvTried[k.TriedBucket(m'[g].svc)] {
      assert g in m'.Keys && g in m.Keys;
    }
  }

  lemma IdsUnref(m: InfoMap, m': InfoMap, id: int)
    requires Unreferenced(m, m', id) && !m[id].fInTried
    ensures TriedIds(m') == TriedIds(m) && id in NewIds(m)
    ensures NewIds(m') == if m[id].nRefCount == 1 then NewIds(m) - {id} else NewIds(m)
  {
    forall g ensures (g in m <==> g in m.Keys) && (g in m' <==> g in m'.Keys) {
    }
    forall g | g in m' ensures g in m && m'[g].fInTried == m[g].fInTried {
      assert g in m'.Keys && g in m.Keys;
    }
  }

  lemma CountersUnref(m: InfoMap, m': InfoMap, id: int, nRandom: nat, nTried: int, nNew: int)
    requires Unreferenced(m, m', id) && !m[id].fInTried && CountersOk(m, nRandom, nTried, nNew)
    ensures if m[id].nRefCount == 1 then nRandom > 0 && CountersOk(m', nRandom - 1, nTried, nNew - 1)
            else CountersOk(m', nRandom, nTried, nNew)
  {
    IdsUnref(m, m', id);
  }

  // Dropping one reference keeps the invariant.
  lemma TablesUnref(k: Key, nIdCount: int, m: InfoMap, mapAddr: map<NetAddr, int>, vRandom: seq<int>, nTried: int,
                    vvTried: seq<seq<int>>, nNew: int, vvNew: seq<set<int>>, x: int,
                    b: nat, id: int, m': InfoMap, vRandom': seq<int>)
    requires TablesOk(k, nIdCount, m, mapAddr, vRandom, nTried, vvTried, nNew, vvNew, x)
    requires b < |vvNew| && id in vvNew[b] && id != x && Unreferenced(m, m', id)
    requires forall g | g in m' :: SameStats(m[g], m'[g])
    requires RandomOk(m', vRandom') && |vRandom'| == |vRandom| - if m[id].nRefCount == 1 then 1 else 0
    ensures var last := m[id].nRefCount == 1;
      TablesOk(k, nIdCount, m', if last then mapAddr - {m[id].svc.ip} else mapAddr, vRandom', nTried, vvTried,
               if last then nNew - 1 else nNew, vvNew[b := vvNew[b] - {id}], x)
  {
    hide RandomOk, AddrOk, TriedOk, CountersOk, StatsOk;
    assert !m[id].fInTried;
    hide NewOk;
    NewOkUnref(m, m', vvNew, b, id, x);
    AddrOkUnref(m, m', mapAddr, id);
    TriedOkUnref(k, m, m', vvTried, id);
    CountersUnref(m, m', id, |vRandom|, nTried, nNew);
    StatsKeep(m, m', nIdCount);
  }

  // The id x enters bucket b, and is then counted exactly.
  lemma NewOkInsert(m: InfoMap, vvNew: seq<set<int>>, b: nat, x: int)
    requires NewOk(m, vvNew, x) && b < |vvNew| && x in m && !m[x].fInTried && x !in vvNew[b]
    requires |vvNew[b]| < NEW_BUCKET_SIZE && NOBODY !in m
    ensures NewOk(m, vvNew[b := vvNew[b] + {x}], NOBODY)
  {
    var v := vvNew[b := vvNew[b] + {x}];
    forall g | g in m ensures CountedOk(m[g], v, g, NOBODY) {
      assert CountedOk(m[g], vvNew, g, x);
      CountUpdate(vvNew, b, vvNew[b] + {x}, g);
    }
  }

  // --------------------------------------------- moving between the tables

  lemma AddrKeep(m: InfoMap, m': InfoMap, mapAddr: map<NetAddr, int>)
    requires AddrOk(m, mapAddr) && m'.Keys == m.Keys && forall g | g in m' :: m'[g].svc == m[g].svc
    ensures AddrOk(m', mapAddr)
  {
    forall g ensures g in m <==> g in m' {
      assert (g in m <==> g in m.Keys) && (g in m' <==> g in m'.Keys);
    }
  }

  lemma RandomKeep(m: InfoMap, m': InfoMap, vRandom: seq<int>)
    requires RandomOk(m, vRandom) && m'.Keys == m.Keys && forall g | g in m' :: m'[g].nRandomPos == m[g].nRandomPos
    ensures RandomOk(m', vRandom)
  {
    forall g ensures g in m <==> g in m' {
      assert (g in m <==> g in m.Keys) && (g in m' <==> g in m'.Keys);
    }
    forall i | 0 <= i < |vRandom| ensures vRandom[i] in m' && m'[vRandom[i]].nRandomPos == i {
      var g := vRandom[i];
      assert g in m;
      assert g in m' && m'[g].nRandomPos == m[g].nRandomPos;
    }
  }

  lemma TriedKeep(k: Key, m: InfoMap, m': InfoMap, vvTried: seq<seq<int>>)
    requires TriedOk(k, m, vvTried) && m'.Keys == m.Keys
    requires forall g | g in m' :: m'[g].svc == m[g].svc && m'[g].fInTried == m[g].fInTried
    ensures TriedOk(k, m', vvTried)
    ensures TriedIds(m') == TriedIds(m) && NewIds(m') == NewIds(m)
  {
    forall g ensures g in m <==> g in m' {
      assert (g in m <==> g in m.Keys) && (g in m' <==> g in m'.Keys);
    }
    forall g ensures g in TriedIds(m') <==> g in TriedIds(m) {
    }
    forall g ensures g in NewIds(m') <==> g in NewIds(m) {
    }
  }

  function ToTried(info: Info): Info { info.(nRefCount := 0, fInTried := true) }

  function ToNew(info: Info): Info { info.(nRefCount := 1, fInTried := false) }

  // v without id in any bucket.
  ghost predicate Swept(vvNew: seq<set<int>>, v: seq<set<int>>, id: int) {
    |v| == |vvNew| && forall b | 0 <= b < |v| :: v[b] == vvNew[b] - {id}
  }

  lemma {:induction false} SweptCount(vvNew: seq<set<int>>, v: seq<set<int>>, id: int, g: int)
    requires Swept(vvNew, v, id)
    ensures Count(v, g) == if g == id then 0 else Count(vvNew, g)
  {
    if |v| != 0 {
      SweptCount(vvNew[..|v| - 1], v[..|v| - 1], id, g);
    }
  }

  // id leaves all new buckets for the tried table.
  lemma NewOkLeave(m: InfoMap, vvNew: seq<set<int>>, v: seq<set<int>>, id: int)
    requires NewOk(m, vvNew, NOBODY) && id in m && id != NOBODY && Swept(vvNew, v, id)
    ensures NewOk(m[id := ToTried(m[id])], v, NOBODY)
  {
    forall g | g in m ensures CountedOk(m[id := ToTried(m[id])][g], v, g, NOBODY) {
      assert CountedOk(m[g], vvNew, g, NOBODY);
      SweptCount(vvNew, v, id, g);
    }
    forall b | 0 <= b < |v| ensures |v[b]| <= NEW_BUCKET_SIZE {
      Shrunk(vvNew[b], id);
    }
  }

  lemma Shrunk(s: set<int>, id: int)
    ensures |s - {id}| == if id in s then |s| - 1 else |s|
  {
    if id !in s {
      assert s - {id} == s;
    }
  }

  // An evicted tried entry e comes back to new bucket c.
  lemma NewOkReturn(m: InfoMap, v: seq<set<int>>, c: nat, e: int)
    requires NewOk(m, v, NOBODY) && e in m && e != NOBODY && m[e].fInTried && c < |v| && |v[c]| < NEW_BUCKET_SIZE
    ensures NewOk(m[e := ToNew(m[e])], v[c := v[c] + {e}], NOBODY)
  {
    assert e !in v[c];
    forall g | g in m ensures CountedOk(m[e := ToNew(m[e])][g], v[c := v[c] + {e}], g, NOBODY) {
      assert CountedOk(m[g], v, g, NOBODY);
      CountUpdate(v, c, v[c] + {e}, g);
    }
  }

  lemma TriedOkPush(k: Key, m: InfoMap, vvTried: seq<seq<int>>, id: int)
    requires TriedOk(k, m, vvTried) && id in m && !m[id].fInTried
    requires |vvTried[k.TriedBucket(m[id].svc)]| < TRIED_BUCKET_SIZE
    ensures var b := k.TriedBucket(m[id].svc);
      TriedOk(k, m[id := ToTried(m[id])], vvTried[b := vvTried[b] + [id]])
  {
  }

  ghost predicate SameElements(v: seq<int>, w: seq<int>) {
    |v| == |w| && forall id :: id in v <==> id in w
  }

  lemma TriedOkPermute(k: Key, m: InfoMap, vvTried: seq<seq<int>>, b: nat, w: seq<int>)
    requires TriedOk(k, m, vvTried) && b < |vvTried| && SameElements(vvTried[b], w) && Distinct(w)
    ensures TriedOk(k, m, vvTried[b := w])
  {
  }

  lemma PermuteTables(k: Key, nIdCount: int, m: InfoMap, mapAddr: map<NetAddr, int>, vRandom: seq<int>, nTried: int,
                      vvTried: seq<seq<int>>, nNew: int, vvNew: seq<set<int>>, b: nat, w: seq<int>)
    requires TablesOk(k, nIdCount, m, mapAddr, vRandom, nTried, vvTried, nNew, vvNew, NOBODY)
    requires b < |vvTried| && SameElements(vvTried[b], w) && Distinct(w)
    ensures TablesOk(k, nIdCount, m, mapAddr, vRandom, nTried, vvTried[b := w], nNew, vvNew, NOBODY)
  {
    hide RandomOk, AddrOk, NewOk, CountersOk, StatsOk;
    TriedOkPermute(k, m, vvTried, b, w);
  }

  lemma TriedOkReplace(k: Key, m: InfoMap, vvTried: seq<seq<int>>, id: int, pos: nat)
    requires TriedOk(k, m, vvTried) && id in m && !m[id].fInTried
    requires pos < |vvTried[k.TriedBucket(m[id].svc)]|
    ensures var b := k.TriedBucket(m[id].svc); var e := vvTried[b][pos];
      && e in m && m[e].fInTried && e != id
      && TriedOk(k, m[id := ToTried(m[id])][e := ToNew(m[e])], vvTried[b := vvTried[b][pos := id]])
  {
    var b := k.TriedBucket(m[id].svc);
    var e := vvTried[b][pos];
    var w := vvTried[b][pos := id];
    assert e in vvTried[b] && id !in vvTried[b];
    assert forall g :: g in w <==> g == id || (g in vvTried[b] && g != e) by {
      forall g | g in vvTried[b] && g != e ensures g in w {
        var i :| 0 <= i < |vvTried[b]| && vvTried[b][i] == g;
        assert w[i] == g;
      }
      assert w[pos] == id;
    }
  }

  lemma CountersPush(m: InfoMap, id: int, nRandom: nat, nTried: int, nNew: int)
    requires CountersOk(m, nRandom, nTried, nNew) && id in m && !m[id].fInTried
    ensures CountersOk(m[id := ToTried(m[id])], nRandom, nTried + 1, nNew - 1)
  {
    var m' := m[id := ToTried(m[id])];
    assert id in NewIds(m) && id !in TriedIds(m);
    assert TriedIds(m') == TriedIds(m) + {id} && NewIds(m') == NewIds(m) - {id};
  }

  lemma CountersPop(m: InfoMap, e: int, nRandom: nat, nTried: int, nNew: int)
    requires CountersOk(m, nRandom, nTried, nNew) && e in m && m[e].fInTried
    ensures CountersOk(m[e := ToNew(m[e])], nRandom, nTried - 1, nNew + 1)
  {
    var m' := m[e := ToNew(m[e])];
    assert e in TriedIds(m) && e !in NewIds(m);
    assert TriedIds(m') == TriedIds(m) - {e} && NewIds(m') == NewIds(m) + {e};
  }

  lemma StatsMove(m: InfoMap, id: int, nIdCount: int)
    requires StatsOk(m, nIdCount) && id in m && m[id].nLastSuccess > 0
    ensures StatsOk(m[id := ToTried(m[id])], nIdCount) && StatsOk(m[id := ToNew(m[id])], nIdCount)
  {
  }

  // id moves from the new buckets to a tried bucket with room.
  lemma TablesPush(k: Key, nIdCount: int, m: InfoMap, mapAddr: map<NetAddr, int>, vRandom: seq<int>, nTried: int,
                   vvTried: seq<seq<int>>, nNew: int, vvNew: seq<set<int>>, v: seq<set<int>>, id: int)
    requires TablesOk(k, nIdCount, m, mapAddr, vRandom, nTried, vvTried, nNew, vvNew, NOBODY)
    requires id in m && !m[id].fInTried && m[id].nLastSuccess > 0 && Swept(vvNew, v, id)
    requires |vvTried[k.TriedBucket(m[id].svc)]| < TRIED_BUCKET_SIZE
    ensures var b := k.TriedBucket(m[id].svc);
      TablesOk(k, nIdCount, m[id := ToTried(m[id])], mapAddr, vRandom, nTried + 1, vvTried[b := vvTried[b] + [id]],
               nNew - 1, v, NOBODY)
  {
    assert id >= 0;
    hide RandomOk, AddrOk, TriedOk, NewOk, CountersOk, StatsOk;
    var m' := m[id := ToTried(m[id])];
    RandomKeep(m, m', vRandom);
    AddrKeep(m, m', mapAddr);
    TriedOkPush(k, m, vvTried, id);
    NewOkLeave(m, vvNew, v, id);
    CountersPush(m, id, |vRandom|, nTried, nNew);
    StatsMove(m, id, nIdCount);
  }

  // id takes the place of the tried entry at pos, which goes to new bucket c.
  lemma TablesReplace(k: Key, nIdCount: int, m: InfoMap, mapAddr: map<NetAddr, int>, vRandom: seq<int>, nTried: int,
                      vvTried: seq<seq<int>>, nNew: int, vvNew: seq<set<int>>, v: seq<set<int>>, id: int,
                      pos: nat, c: nat)
    requires TablesOk(k, nIdCount, m, mapAddr, vRandom, nTried, vvTried, nNew, vvNew, NOBODY)
    requires id in m && !m[id].fInTried && m[id].nLastSuccess > 0 && Swept(vvNew, v, id)
    requires pos < |vvTried[k.TriedBucket(m[id].svc)]| && c < |v| && |v[c]| < NEW_BUCKET_SIZE
    ensures var b := k.TriedBucket(m[id].svc); var e := vvTried[b][pos];
      && e in m && e != id
      && TablesOk(k, nIdCount, m[id := ToTried(m[id])][e := ToNew(m[e])], mapAddr, vRandom, nTried,
                  vvTried[b := vvTried[b][pos := id]], nNew, v[c := v[c] + {e}], NOBODY)
  {
    var b := k.TriedBucket(m[id].svc);
    var e := vvTried[b][pos];
    assert e in vvTried[b];
    assert e in m && m[e].fInTried && e >= 0 && m[e].nLastSuccess > 0 && id >= 0;
    hide RandomOk, AddrOk, TriedOk, NewOk, CountersOk, StatsOk;
    var m1 := m[id := ToTried(m[id])];
    RandomKeep(m, m1[e := ToNew(m1[e])], vRandom);
    AddrKeep(m, m1[e := ToNew(m1[e])], mapAddr);
    TriedOkReplace(k, m, vvTried, id, pos);
    NewOkLeave(m, vvNew, v, id);
    NewOkReturn(m1, v, c, e);
    CountersPush(m, id, |vRandom|, nTried, nNew);
    CountersPop(m1, e, |vRandom|, nTried + 1, nNew - 1);
    StatsMove(m, id, nIdCount);
    StatsMove(m1, e, nIdCount);
  }

  // ------------------------------------------------------------ a new entry

  function NewInfo(addr: Address, source: NetAddr, nTime: nat, nRefCount: int, nRandomPos: int): Info {
    Info(addr.svc, addr.nServices, nTime, source, 0, 0, 0, nRefCount, false, nRandomPos)
  }

  // A fresh id enters, counted for one bucket that it is not in yet.
  lemma TablesCreate(k: Key, nIdCount: int, m: InfoMap, mapAddr: map<NetAddr, int>, vRandom: seq<int>, nTried: int,
                     vvTried: seq<seq<int>>, nNew: int, vvNew: seq<set<int>>, info: Info)
    requires TablesOk(k, nIdCount, m, mapAddr, vRandom, nTried, vvTried, nNew, vvNew, NOBODY)
    requires info.svc.ip !in mapAddr && !info.fInTried && info.nRefCount == 1
    requires info.nRandomPos == |vRandom| && info.nLastTry == info.nLastSuccess == 0
    ensures TablesOk(k, nIdCount + 1, m[nIdCount := info], mapAddr[info.svc.ip := nIdCount], vRandom + [nIdCount],
                     nTried, vvTried, nNew + 1, vvNew, nIdCount)
    ensures nIdCount !in m && nIdCount != NOBODY && forall b | 0 <= b < |vvNew| :: nIdCount !in vvNew[b]
  {
    hide RandomOk, AddrOk;
    var id := nIdCount;
    var m' := m[id := info];
    assert id !in m && NOBODY !in m;
    assert forall b | 0 <= b < |vvNew| :: id !in vvNew[b];
    hide NewOk, TriedOk, CountersOk;
    CreateRandom(m, vRandom, id, info);
    CreateAddr(m, mapAddr, id, info);
    CreateNew(m, vvNew, id, info);
    CreateTried(k, m, vvTried, id, info);
    CreateCounters(m, |vRandom|, nTried, nNew, id, info);
  }

  lemma CreateTried(k: Key, m: InfoMap, vvTried: seq<seq<int>>, id: int, info: Info)
    requires TriedOk(k, m, vvTried) && id !in m && !info.fInTried
    ensures TriedOk(k, m[id := info], vvTried)
  {
  }

  lemma CreateCounters(m: InfoMap, nRandom: nat, nTried: int, nNew: int, id: int, info: Info)
    requires CountersOk(m, nRandom, nTried, nNew) && id !in m && !info.fInTried
    ensures CountersOk(m[id := info], nRandom + 1, nTried, nNew + 1)
  {
    assert TriedIds(m[id := info]) == TriedIds(m) && NewIds(m[id := info]) == NewIds(m) + {id};
  }

  lemma CreateRandom(m: InfoMap, vRandom: seq<int>, id: int, info: Info)
    requires RandomOk(m, vRandom) && id !in m && info.nRandomPos == |vRandom|
    ensures RandomOk(m[id := info], vRandom + [id])
  {
  }

  lemma CreateAddr(m: InfoMap, mapAddr: map<NetAddr, int>, id: int, info: Info)
    requires AddrOk(m, mapAddr) && id !in m && info.svc.ip !in mapAddr
    ensures AddrOk(m[id := info], mapAddr[info.svc.ip := id])
  {
  }

  lemma CreateNew(m: InfoMap, vvNew: seq<set<int>>, id: int, info: Info)
    requires NewOk(m, vvNew, NOBODY) && id !in m && NOBODY !in m && !info.fInTried && info.nRefCount == 1
    ensures NewOk(m[id := info], vvNew, id)
  {
    CountZero(vvNew, id);
    var m' := m[id := info];
    forall g | g in m' ensures CountedOk(m'[g], vvNew, g, id) {
      if g != id {
        assert CountedOk(m[g], vvNew, g, NOBODY);
      }
    }
  }

  // One more reference to x is counted, before it is stored.
  lemma NewOkOwe(m: InfoMap, vvNew: seq<set<int>>, x: int)
    requires NewOk(m, vvNew, NOBODY) && x in m && NOBODY !in m && !m[x].fInTried
    requires m[x].nRefCount < NEW_BUCKETS_PER_ADDRESS
    ensures NewOk(m[x := m[x].(nRefCount := m[x].nRefCount + 1)], vvNew, x)
  {
    forall g | g in m ensures CountedOk(m[x := m[x].(nRefCount := m[x].nRefCount + 1)][g], vvNew, g, x) {
      assert CountedOk(m[g], vvNew, g, NOBODY);
    }
  }

  lemma TablesOwe(k: Key, nIdCount: int, m: InfoMap, mapAddr: map<NetAddr, int>, vRandom: seq<int>, nTried: int,
                  vvTried: seq<seq<int>>, nNew: int, vvNew: seq<set<int>>, x: int)
    requires TablesOk(k, nIdCount, m, mapAddr, vRandom, nTried, vvTried, nNew, vvNew, NOBODY)
    requires x in m && !m[x].fInTried && m[x].nRefCount < NEW_BUCKETS_PER_ADDRESS
    ensures TablesOk(k, nIdCount, m[x := m[x].(nRefCount := m[x].nRefCount + 1)], mapAddr, vRandom, nTried, vvTried,
                     nNew, vvNew, x)
  {
    var m' := m[x := m[x].(nRefCount := m[x].nRefCount + 1)];
    assert NOBODY !in m;
    hide RandomOk, AddrOk, TriedOk, NewOk, StatsOk, TriedIds, NewIds;
    NewOkOwe(m, vvNew, x);
    RandomKeep(m, m', vRandom);
    AddrKeep(m, m', mapAddr);
    TriedKeep(k, m, m', vvTried);
    StatsKeep(m, m', nIdCount);
  }

  lemma TablesStore(k: Key, nIdCount: int, m: InfoMap, mapAddr: map<NetAddr, int>, vRandom: seq<int>, nTried: int,
                    vvTried: seq<seq<int>>, nNew: int, vvNew: seq<set<int>>, x: int, b: nat)
    requires TablesOk(k, nIdCount, m, mapAddr, vRandom, nTried, vvTried, nNew, vvNew, x)
    requires x in m && !m[x].fInTried && b < |vvNew| && x !in vvNew[b] && |vvNew[b]| < NEW_BUCKET_SIZE
    ensures TablesOk(k, nIdCount, m, mapAddr, vRandom, nTried, vvTried, nNew, vvNew[b := vvNew[b] + {x}], NOBODY)
  {
    assert NOBODY !in m;
    hide RandomOk, AddrOk, TriedOk, CountersOk, StatsOk;
    NewOkInsert(m, vvNew, b, x);
  }

  // Changes of times and services only.
  lemma TablesSame(k: Key, nIdCount: int, m: InfoMap, mapAddr: map<NetAddr, int>, vRandom: seq<int>, nTried: int,
                   vvTried: seq<seq<int>>, nNew: int, vvNew: seq<set<int>>, id: int, info: Info)
    requires TablesOk(k, nIdCount, m, mapAddr, vRandom, nTried, vvTried, nNew, vvNew, NOBODY)
    requires id in m && SameTable(m[id], info) && info.nRandomPos == m[id].nRandomPos
    requires info.nLastTry >= 0 && info.nLastSuccess >= 0 && (info.fInTried ==> info.nLastSuccess > 0)
    ensures TablesOk(k, nIdCount, m[id := info], mapAddr, vRandom, nTried, vvTried, nNew, vvNew, NOBODY)
  {
    var m' := m[id := info];
    assert StatsOk(m', nIdCount);
    hide RandomOk, AddrOk, TriedOk, NewOk, StatsOk, TriedIds, NewIds;
    RandomKeep(m, m', vRandom);
    SameTablesKeep(k, m, m', mapAddr, vvTried, vvNew, NOBODY);
    SameIds(m, m');
  }

  // ------------------------------------------------------------- shuffling

  // The same entry at another position of vRandom.
  ghost predicate Moved(a: Info, b: Info) { b == a.(nRandomPos := b.nRandomPos) }

  ghost predicate OnlyMoved(m: InfoMap, m': InfoMap) {
    m.Keys == m'.Keys && forall id | id in m' :: Moved(m[id], m'[id])
  }

  lemma TablesMoved(k: Key, nIdCount: int, m: InfoMap, mapAddr: map<NetAddr, int>, vRandom: seq<int>, nTried: int,
                    vvTried: seq<seq<int>>, nNew: int, vvNew: seq<set<int>>, m': InfoMap, vRandom': seq<int>)
    requires TablesOk(k, nIdCount, m, mapAddr, vRandom, nTried, vvTried, nNew, vvNew, NOBODY)
    requires OnlyMoved(m, m') && RandomOk(m', vRandom') && |vRandom'| == |vRandom|
    ensures TablesOk(k, nIdCount, m', mapAddr, vRandom', nTried, vvTried, nNew, vvNew, NOBODY)
  {
    hide RandomOk, AddrOk, TriedOk, NewOk, StatsOk, TriedIds, NewIds;
    assert forall g | g in m' :: Moved(m[g], m'[g]);
    SameTablesKeep(k, m, m', mapAddr, vvTried, vvNew, NOBODY);
    SameIds(m, m');
    StatsKeep(m, m', nIdCount);
  }

  lemma {:induction false} SomeBucket(vvNew: seq<set<int>>, id: int)
    requires Count(vvNew, id) > 0
    ensures exists b :: 0 <= b < |vvNew| && id in vvNew[b]
  {
    CountZero(vvNew, id);
  }
}
