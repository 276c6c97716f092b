// Check_: the address manager's own consistency check, and what it decides.
module AddrCheck {
  import opened AddrTables
  import opened Sets

  // mapAddr[ip], with the 0 that operator[] makes up for a missing key.
  function Lookup(mapAddr: map<NetAddr, int>, ip: NetAddr): int {
    if ip in mapAddr then mapAddr[ip] else 0
  }

  ghost predicate EntryHolds(info: Info, mapAddr: map<NetAddr, int>, vRandom: seq<int>, id: int) {
    && (if info.fInTried then info.nLastSuccess != 0 && info.nRefCount == 0
        else 0 < info.nRefCount <= NEW_BUCKETS_PER_ADDRESS)
    && Lookup(mapAddr, info.svc.ip) == id
    && 0 <= info.nRandomPos < |vRandom| && vRandom[info.nRandomPos] == id
    && info.nLastTry >= 0 && info.nLastSuccess >= 0
  }

  // All tried buckets one after the other.
  function Flat(vv: seq<seq<int>>): seq<int> {
    if |vv| == 0 then [] else Flat(vv[..|vv| - 1]) + vv[|vv| - 1]
  }

  // The tried buckets list exactly the ids in s, each once.
  ghost predicate Lists(v: seq<int>, s: set<int>) {
    Distinct(v) && forall id :: id in v <==> id in s
  }

  ghost predicate NewHolds(mapInfo: InfoMap, vvNew: seq<set<int>>) {
    && (forall b, id | 0 <= b < |vvNew| && id in vvNew[b] :: id in NewIds(mapInfo))
    && (forall id | id in NewIds(mapInfo) :: mapInfo[id].nRefCount == Count(vvNew, id))
  }

  // What Check_ checks.
  ghost predicate CheckHolds(mapInfo: InfoMap, mapAddr: map<NetAddr, int>, vRandom: seq<int>, nTried: int,
                             vvTried: seq<seq<int>>, nNew: int, vvNew: seq<set<int>>)
  {
    && |vRandom| == nTried + nNew
    && (forall id | id in mapInfo :: EntryHolds(mapInfo[id], mapAddr, vRandom, id))
    && |TriedIds(mapInfo)| == nTried && |NewIds(mapInfo)| == nNew
    && Lists(Flat(vvTried), TriedIds(mapInfo)) && NewHolds(mapInfo, vvNew)
  }

  // The error code for one entry, `listed` being what mapAddr says of it.
  function EntryCode(info: Info, listed: int, vRandom: seq<int>, n: int): int {
    if info.fInTried && info.nLastSuccess == 0 then -1
    else if info.fInTried && info.nRefCount != 0 then -2
    else if !info.fInTried && (info.nRefCount < 0 || info.nRefCount > NEW_BUCKETS_PER_ADDRESS) then -3
    else if !info.fInTried && info.nRefCount == 0 then -4
    else if listed != n then -5
    else if info.nRandomPos < 0 || info.nRandomPos >= |vRandom| || vRandom[info.nRandomPos] != n then -14
    else if info.nLastTry < 0 then -6
    else if info.nLastSuccess < 0 then -8
    else 0
  }

  // setTried and mapNew split the ids in done.
  ghost predicate SortedOut(mapInfo: InfoMap, done: seq<int>, setTried: set<int>, mapNew: map<int, int>) {
    && (forall id :: id in setTried <==> id in done && id in mapInfo && mapInfo[id].fInTried)
    && (forall id :: id in mapNew <==> id in done && id in mapInfo && !mapInfo[id].fInTried)
    && (forall id | id in mapNew :: mapNew[id] == mapInfo[id].nRefCount)
  }

  lemma SortedNone(mapInfo: InfoMap)
    ensures SortedOut(mapInfo, [], {}, map[])
  {
  }

  lemma SortedNext(mapInfo: InfoMap, done: seq<int>, setTried: set<int>, mapNew: map<int, int>, n: int)
    requires SortedOut(mapInfo, done, setTried, mapNew) && n in mapInfo
    ensures if mapInfo[n].fInTried then SortedOut(mapInfo, done + [n], setTried + {n}, mapNew)
            else SortedOut(mapInfo, done + [n], setTried, mapNew[n := mapInfo[n].nRefCount])
  {
  }

  lemma SortedAll(mapInfo: InfoMap, done: seq<int>, setTried: set<int>, mapNew: map<int, int>)
    requires SortedOut(mapInfo, done, setTried, mapNew) && forall id :: id in done <==> id in mapInfo.Keys
    ensures setTried == TriedIds(mapInfo) && mapNew.Keys == NewIds(mapInfo)
    ensures forall id | id in mapNew :: mapNew[id] == mapInfo[id].nRefCount
    ensures forall id :: id in done <==> id in mapInfo
  {
    forall id ensures id in done <==> id in mapInfo {
      assert id in mapInfo <==> id in mapInfo.Keys;
    }
    forall id ensures id in setTried <==> id in TriedIds(mapInfo) {
    }
    forall id ensures id in mapNew.Keys <==> id in NewIds(mapInfo) {
      assert id in mapNew.Keys <==> id in mapNew;
    }
  }

  // The loop over mapInfo.
  method CheckEntries(mapInfo: InfoMap, mapAddr0: map<NetAddr, int>, vRandom: seq<int>)
    returns (err: int, setTried: set<int>, mapNew: map<int, int>, mapAddr: map<NetAddr, int>)
    ensures err == 0 <==> forall id | id in mapInfo :: EntryHolds(mapInfo[id], mapAddr0, vRandom, id)
    ensures err == 0 ==> setTried == TriedIds(mapInfo) && mapNew.Keys == NewIds(mapInfo)
    ensures err == 0 ==> forall id | id in mapNew :: mapNew[id] == mapInfo[id].nRefCount
    ensures (forall id | id in mapInfo :: mapInfo[id].svc.ip in mapAddr0) ==> mapAddr == mapAddr0
  {
    hide EntryCode, EntryHolds, SortedOut;
    setTried, mapNew, mapAddr := {}, map[], mapAddr0;
    SortedNone(mapInfo);
    var order := InOrder(mapInfo.Keys);
    for i := 0 to |order|
      invariant SortedOut(mapInfo, order[..i], setTried, mapNew)
      invariant forall ip :: Lookup(mapAddr, ip) == Lookup(mapAddr0, ip)
      invariant forall id | id in order[..i] :: id in mapInfo && EntryHolds(mapInfo[id], mapAddr0, vRandom, id)
      invariant (forall id | id in mapInfo :: mapInfo[id].svc.ip in mapAddr0) ==> mapAddr == mapAddr0
    {
      var n := order[i];
      assert n in order;
      assert n in mapInfo;
      var info := mapInfo[n];
      if info.svc.ip !in mapAddr {
        mapAddr := mapAddr[info.svc.ip := 0];
      }
      EntryDecided(info, mapAddr0, vRandom, n);
      err := EntryCode(info, mapAddr[info.svc.ip], vRandom, n);
      if err != 0 {
        return;
      }
      SortedNext(mapInfo, order[..i], setTried, mapNew, n);
      if info.fInTried {
        setTried := setTried + {n};
      } else {
        mapNew := mapNew[n := info.nRefCount];
      }
      assert order[..i + 1] == order[..i] + [n];
    }
    assert order[..|order|] == order;
    SortedAll(mapInfo, order, setTried, mapNew);
    err := 0;
  }

  lemma EntryDecided(info: Info, mapAddr: map<NetAddr, int>, vRandom: seq<int>, n: int)
    ensures EntryCode(info, Lookup(mapAddr, info.svc.ip), vRandom, n) == 0 <==> EntryHolds(info, mapAddr, vRandom, n)
  {
  }

  // The loop over vvTried.
  method CheckTried(vvTried: seq<seq<int>>, tried: set<int>) returns (err: int)
    ensures err in {0, -11, -13}
    ensures err == 0 <==> Lists(Flat(vvTried), tried)
  {
    var setTried := tried;
    ghost var done: seq<int> := [];
    for n := 0 to |vvTried|
      invariant done == Flat(vvTried[..n]) && Distinct(done)
      invariant forall id :: id in tried <==> id in done || id in setTried
      invariant forall id :: !(id in done && id in setTried)
    {
      assert vvTried[..n + 1][..n] == vvTried[..n];
      for i := 0 to |vvTried[n]|
        invariant done == Flat(vvTried[..n]) + vvTried[n][..i] && Distinct(done)
        invariant forall id :: id in tried <==> id in done || id in setTried
        invariant forall id :: !(id in done && id in setTried)
      {
        var id := vvTried[n][i];
        ghost var done' := done + [id];
        assert done' == Flat(vvTried[..n]) + vvTried[n][..i + 1];
        if id !in setTried {
          if id in done {
            ghost var j :| 0 <= j < |done| && done[j] == id;
            assert done'[j] == done'[|done|];
          } else {
            assert id in done' && id !in tried;
          }
          NotListed(vvTried, n, i, done', tried);
          return -11;
        }
        setTried := setTried - {id};
        done := done';
      }
      assert vvTried[n][..|vvTried[n]|] == vvTried[n];
    }
    assert vvTried[..|vvTried|] == vvTried;
    if setTried != {} {
      ghost var left: int := AnyOf(setTried);
      assert left in tried && left !in done;
      return -13;
    }
    err := 0;
  }

  lemma {:induction false} FlatPrefix(vv: seq<seq<int>>, n: nat)
    requires n <= |vv|
    ensures Flat(vv[..n]) <= Flat(vv)
    decreases |vv| - n
  {
    if n == |vv| {
      assert vv[..n] == vv;
    } else {
      assert vv[..n + 1][..n] == vv[..n];
      FlatPrefix(vv, n + 1);
    }
  }

  // A prefix with a repeated or foreign id spoils the whole list.
  lemma NotListed(vvTried: seq<seq<int>>, n: nat, i: nat, done: seq<int>, tried: set<int>)
    requires n < |vvTried| && i < |vvTried[n]| && done == Flat(vvTried[..n]) + vvTried[n][..i + 1]
    requires !Distinct(done) || exists id :: id in done && id !in tried
    ensures !Lists(Flat(vvTried), tried)
  {
    assert vvTried[..n + 1][..n] == vvTried[..n];
    FlatPrefix(vvTried, n + 1);
    assert done <= Flat(vvTried[..n + 1]);
    assert done <= Flat(vvTried);
    if id :| id in done && id !in tried {
      assert id in Flat(vvTried);
    }
  }

  // How often an id has been met when bucket n is walked up to `seen`.
  ghost function Met(vvNew: seq<set<int>>, n: nat, seen: set<int>, id: int): nat
    requires n <= |vvNew|
  {
    Count(vvNew[..n], id) + if id in seen then 1 else 0
  }

  // mapNew holds what is left of the reference counts in refs.
  ghost predicate Left(mapNew: map<int, int>, refs: map<int, int>, vvNew: seq<set<int>>, n: nat, seen: set<int>)
    requires n <= |vvNew|
  {
    && (forall id | id in mapNew :: id in refs)
    && (forall id | id in refs :: Met(vvNew, n, seen, id) <= refs[id])
    && (forall id | id in refs :: id in mapNew <==> Met(vvNew, n, seen, id) < refs[id])
    && (forall id | id in mapNew :: mapNew[id] == refs[id] - Met(vvNew, n, seen, id))
  }

  // The buckets count exactly the references in refs.
  ghost predicate Counted(refs: map<int, int>, vvNew: seq<set<int>>) {
    && (forall b, id | 0 <= b < |vvNew| && id in vvNew[b] :: id in refs)
    && (forall id | id in refs :: refs[id] == Count(vvNew, id))
  }

  // The loop over vvNew.
  method CheckNew(vvNew: seq<set<int>>, refs: map<int, int>) returns (err: int)
    requires forall id | id in refs :: refs[id] > 0
    ensures err in {0, -12, -15}
    ensures err == 0 <==> Counted(refs, vvNew)
  {
    var mapNew := refs;
    NoneMet(refs, vvNew);
    hide Left, Counted, Elements;
    for n := 0 to |vvNew|
      invariant Left(mapNew, refs, vvNew, n, {})
      invariant forall b, id | 0 <= b < n && id in vvNew[b] :: id in refs
    {
      var order := InOrder(vvNew[n]);
      ghost var seen := {};
      assert order[..0] == [] && Elements([]) == {} by {
        AllElements([], {});
      }
      for i := 0 to |order|
        invariant seen == Elements(order[..i])
        invariant Left(mapNew, refs, vvNew, n, seen)
        invariant forall id | id in seen :: id in refs
      {
        var id := order[i];
        NextElement(order, i, vvNew[n]);
        if id !in mapNew {
          TooMany(refs, vvNew, n, seen, id);
          return -12;
        }
        var left := mapNew[id] - 1;
        LeftNext(mapNew, refs, vvNew, n, seen, id);
        mapNew := if left == 0 then mapNew - {id} else mapNew[id := left];
        seen := seen + {id};
      }
      assert order[..|order|] == order;
      AllElements(order, vvNew[n]);
      BucketDone(mapNew, refs, vvNew, n);
    }
    AllMet(mapNew, refs, vvNew);
    if mapNew != map[] {
      return -15;
    }
    err := 0;
  }

  ghost function Elements(v: seq<int>): set<int> { set id | id in v }

  lemma NextElement(v: seq<int>, i: nat, s: set<int>)
    requires Ascending(v) && (forall id :: id in v <==> id in s) && i < |v|
    ensures v[i] in s && v[i] !in Elements(v[..i]) && Elements(v[..i]) <= s
    ensures Elements(v[..i + 1]) == Elements(v[..i]) + {v[i]}
  {
    assert v[..i + 1] == v[..i] + [v[i]];
    assert v[i] in v;
    forall id | id in Elements(v[..i]) ensures id in s && id != v[i] {
      var j :| 0 <= j < i && v[j] == id;
      assert v[j] in v;
    }
  }

  lemma AllElements(v: seq<int>, s: set<int>)
    requires forall id :: id in v <==> id in s
    ensures Elements(v) == s
  {
    forall id ensures id in Elements(v) <==> id in s {
    }
  }

  lemma NoneMet(refs: map<int, int>, vvNew: seq<set<int>>)
    requires forall id | id in refs :: refs[id] > 0
    ensures Left(refs, refs, vvNew, 0, {})
  {
    assert vvNew[..0] == [];
  }

  // Once all buckets are walked, nothing is left exactly if the counts agree.
  lemma AllMet(mapNew: map<int, int>, refs: map<int, int>, vvNew: seq<set<int>>)
    requires Left(mapNew, refs, vvNew, |vvNew|, {})
    requires forall b, id | 0 <= b < |vvNew| && id in vvNew[b] :: id in refs
    ensures mapNew == map[] <==> Counted(refs, vvNew)
  {
    assert vvNew[..|vvNew|] == vvNew;
    forall id ensures Met(vvNew, |vvNew|, {}, id) == Count(vvNew, id) {
    }
    hide Count, Met;
    if mapNew != map[] {
      var some: int := AnyOf(mapNew.Keys);
      assert some in refs && Count(vvNew, some) < refs[some];
    } else {
      forall id | id in refs ensures refs[id] == Count(vvNew, id) {
        assert id !in mapNew;
      }
    }
  }

  lemma LeftNext(mapNew: map<int, int>, refs: map<int, int>, vvNew: seq<set<int>>, n: nat, seen: set<int>, id: int)
    requires n <= |vvNew| && Left(mapNew, refs, vvNew, n, seen) && id in mapNew && id !in seen
    ensures Left(if mapNew[id] == 1 then mapNew - {id} else mapNew[id := mapNew[id] - 1], refs, vvNew, n, seen + {id})
  {
    hide Count;
    forall g ensures Met(vvNew, n, seen + {id}, g) == Met(vvNew, n, seen, g) + if g == id then 1 else 0 {
    }
  }

  lemma BucketDone(mapNew: map<int, int>, refs: map<int, int>, vvNew: seq<set<int>>, n: nat)
    requires n < |vvNew| && Left(mapNew, refs, vvNew, n, vvNew[n])
    ensures Left(mapNew, refs, vvNew, n + 1, {})
  {
    forall g ensures Met(vvNew, n + 1, {}, g) == Met(vvNew, n, vvNew[n], g) {
      assert vvNew[..n + 1][..n] == vvNew[..n];
    }
    hide Count;
  }

  // An id met once more than it is counted.
  lemma TooMany(refs: map<int, int>, vvNew: seq<set<int>>, n: nat, seen: set<int>, id: int)
    requires n < |vvNew| && id in vvNew[n] && id !in seen
    requires id in refs ==> Met(vvNew, n, seen, id) >= refs[id]
    ensures !Counted(refs, vvNew)
  {
    if id in refs {
      assert vvNew == vvNew[..n] + ([vvNew[n]] + vvNew[n + 1..]);
      CountAppend(vvNew[..n], [vvNew[n]] + vvNew[n + 1..], id);
      CountAppend([vvNew[n]], vvNew[n + 1..], id);
      assert [vvNew[n]][..0] == [];
    }
  }

  // Check_ returns 0 exactly when everything it looks at holds.
  method Check_(mapInfo: InfoMap, mapAddr0: map<NetAddr, int>, vRandom: seq<int>, nTried: int,
                vvTried: seq<seq<int>>, nNew: int, vvNew: seq<set<int>>)
    returns (err: int, mapAddr: map<NetAddr, int>)
    ensures err == 0 <==> CheckHolds(mapInfo, mapAddr0, vRandom, nTried, vvTried, nNew, vvNew)
    ensures (forall id | id in mapInfo :: mapInfo[id].svc.ip in mapAddr0) ==> mapAddr == mapAddr0
  {
    mapAddr := mapAddr0;
    if |vRandom| != nTried + nNew { return -7, mapAddr; }
    var setTried, mapNew;
    err, setTried, mapNew, mapAddr := CheckEntries(mapInfo, mapAddr0, vRandom);
    if err != 0 {
      return;
    }
    if |setTried| != nTried { return -9, mapAddr; }
    if |mapNew| != nNew {
      assert |mapNew| == |mapNew.Keys|;
      return -10, mapAddr;
    }
    assert |mapNew| == |mapNew.Keys|;
    err := CheckTried(vvTried, setTried);
    if err != 0 {
      return;
    }
    forall id | id in mapNew ensures mapNew[id] > 0 && id in NewIds(mapInfo) {
      assert id in mapNew.Keys;
      assert EntryHolds(mapInfo[id], mapAddr0, vRandom, id);
    }
    RefsOf(mapInfo, mapNew, vvNew);
    err := CheckNew(vvNew, mapNew);
  }

  lemma RefsOf(mapInfo: InfoMap, refs: map<int, int>, vvNew: seq<set<int>>)
    requires refs.Keys == NewIds(mapInfo)
    requires forall id | id in refs :: id in mapInfo && refs[id] == mapInfo[id].nRefCount
    ensures Counted(refs, vvNew) <==> NewHolds(mapInfo, vvNew)
  {
    hide Count;
    forall id ensures id in refs <==> id in NewIds(mapInfo) {
      assert id in refs <==> id in refs.Keys;
    }
  }

  // The invariant of the address manager makes Check_ return 0.
  lemma ValidChecks(k: Key, nIdCount: int, m: InfoMap, mapAddr: map<NetAddr, int>, vRandom: seq<int>, nTried: int,
                    vvTried: seq<seq<int>>, nNew: int, vvNew: seq<set<int>>)
    requires TablesOk(k, nIdCount, m, mapAddr, vRandom, nTried, vvTried, nNew, vvNew, NOBODY)
    ensures CheckHolds(m, mapAddr, vRandom, nTried, vvTried, nNew, vvNew)
    ensures forall id | id in m :: m[id].svc.ip in mapAddr
  {
    assert NOBODY !in m;
    forall id | id in m ensures EntryHolds(m[id], mapAddr, vRandom, id) && m[id].nRefCount == Count(vvNew, id) {
      assert CountedOk(m[id], vvNew, id, NOBODY);
    }
    TriedListed(k, m, vvTried, |vvTried|);
    assert vvTried[..|vvTried|] == vvTried;
    forall id ensures id in Flat(vvTried) <==> id in TriedIds(m) {
      if id in m && m[id].fInTried {
        assert id in vvTried[k.TriedBucket(m[id].svc)];
      }
    }
  }

  lemma {:induction false} TriedListed(k: Key, m: InfoMap, vvTried: seq<seq<int>>, n: nat)
    requires TriedOk(k, m, vvTried) && n <= |vvTried|
    ensures Distinct(Flat(vvTried[..n]))
    ensures forall id :: id in Flat(vvTried[..n]) <==> exists b | 0 <= b < n :: id in vvTried[b]
  {
    if n != 0 {
      TriedListed(k, m, vvTried, n - 1);
      assert vvTried[..n][..n - 1] == vvTried[..n - 1];
      var v, w := Flat(vvTried[..n - 1]), vvTried[n - 1];
      forall i, j | 0 <= i < |v| && 0 <= j < |w| ensures v[i] != w[j] {
        var x, y := v[i], w[j];
        assert x in v && y in w;
        var b :| 0 <= b < n - 1 && x in vvTried[b];
        assert k.TriedBucket(m[x].svc) == b && k.TriedBucket(m[y].svc) == n - 1;
      }
    }
  }

  // ----------------------------------------------------- what it decides

  // What the check does not look at: the sizes of the tables, the buckets that
  // tried entries belong to, the range of ids, and stray entries of mapAddr.
  ghost predicate Unchecked(k: Key, nIdCount: int, m: InfoMap, mapAddr: map<NetAddr, int>, vvTried: seq<seq<int>>,
                            vvNew: seq<set<int>>)
  {
    && |vvTried| == TRIED_BUCKET_COUNT && |vvNew| == NEW_BUCKET_COUNT && 0 <= nIdCount
    && (forall b | 0 <= b < |vvTried| :: |vvTried[b]| <= TRIED_BUCKET_SIZE)
    && (forall b | 0 <= b < |vvNew| :: |vvNew[b]| <= NEW_BUCKET_SIZE)
    && (forall b, id | 0 <= b < |vvTried| && id in vvTried[b] && id in m :: k.TriedBucket(m[id].svc) == b)
    && (forall id | id in m :: 0 <= id < nIdCount && m[id].svc.ip in mapAddr)
    && (forall ip | ip in mapAddr :: mapAddr[ip] in m && m[mapAddr[ip]].svc.ip == ip)
  }

  // Given that, the check reports 0 exactly on a consistent manager.
  lemma CheckDecides(k: Key, nIdCount: int, m: InfoMap, mapAddr: map<NetAddr, int>, vRandom: seq<int>, nTried: int,
                     vvTried: seq<seq<int>>, nNew: int, vvNew: seq<set<int>>)
    ensures TablesOk(k, nIdCount, m, mapAddr, vRandom, nTried, vvTried, nNew, vvNew, NOBODY) <==>
      && CheckHolds(m, mapAddr, vRandom, nTried, vvTried, nNew, vvNew)
      && Unchecked(k, nIdCount, m, mapAddr, vvTried, vvNew)
  {
    hide TablesOk, CheckHolds, Unchecked;
    if TablesOk(k, nIdCount, m, mapAddr, vRandom, nTried, vvTried, nNew, vvNew, NOBODY) {
      ValidChecks(k, nIdCount, m, mapAddr, vRandom, nTried, vvTried, nNew, vvNew);
      ValidBesides(k, nIdCount, m, mapAddr, vRandom, nTried, vvTried, nNew, vvNew);
    } else if CheckHolds(m, mapAddr, vRandom, nTried, vvTried, nNew, vvNew)
              && Unchecked(k, nIdCount, m, mapAddr, vvTried, vvNew) {
      CheckSuffices(k, nIdCount, m, mapAddr, vRandom, nTried, vvTried, nNew, vvNew);
    }
  }

  lemma ValidBesides(k: Key, nIdCount: int, m: InfoMap, mapAddr: map<NetAddr, int>, vRandom: seq<int>, nTried: int,
                     vvTried: seq<seq<int>>, nNew: int, vvNew: seq<set<int>>)
    requires TablesOk(k, nIdCount, m, mapAddr, vRandom, nTried, vvTried, nNew, vvNew, NOBODY)
    ensures Unchecked(k, nIdCount, m, mapAddr, vvTried, vvNew)
  {
    hide RandomOk, CountersOk, CountedOk;
  }

  lemma CheckSuffices(k: Key, nIdCount: int, m: InfoMap, mapAddr: map<NetAddr, int>, vRandom: seq<int>, nTried: int,
                      vvTried: seq<seq<int>>, nNew: int, vvNew: seq<set<int>>)
    requires CheckHolds(m, mapAddr, vRandom, nTried, vvTried, nNew, vvNew)
    requires Unchecked(k, nIdCount, m, mapAddr, vvTried, vvNew)
    ensures TablesOk(k, nIdCount, m, mapAddr, vRandom, nTried, vvTried, nNew, vvNew, NOBODY)
  {
    hide Lists, Count, Flat, RandomOk, TriedOk;
    forall id | id in m ensures EntryHolds(m[id], mapAddr, vRandom, id) {
    }
    IdsSplit(m);
    PositionsFill(m, vRandom);
    TriedFromList(k, m, vvTried);
    forall id | id in m ensures CountedOk(m[id], vvNew, id, NOBODY) {
      assert EntryHolds(m[id], mapAddr, vRandom, id);
      if m[id].fInTried {
        CountZero(vvNew, id);
      } else {
        assert id in NewIds(m);
      }
    }
    forall b, id | 0 <= b < |vvNew| && id in vvNew[b] ensures id in m && !m[id].fInTried {
      assert id in NewIds(m);
    }
    assert NewOk(m, vvNew, NOBODY);
    assert AddrOk(m, mapAddr);
    assert StatsOk(m, nIdCount);
    assert CountersOk(m, |vRandom|, nTried, nNew);
  }

  // As many entries as positions, each at its own: every position is taken.
  lemma PositionsFill(m: InfoMap, vRandom: seq<int>)
    requires |m.Keys| == |vRandom|
    requires forall id | id in m :: 0 <= m[id].nRandomPos < |vRandom| && vRandom[m[id].nRandomPos] == id
    ensures RandomOk(m, vRandom)
  {
    var listed := Elements(vRandom);
    ElementsBound(vRandom);
    forall id | id in m.Keys ensures id in listed {
      assert vRandom[m[id].nRandomPos] in vRandom;
    }
    SubsetSize(m.Keys, listed);
    forall i | 0 <= i < |vRandom| ensures vRandom[i] in m && m[vRandom[i]].nRandomPos == i {
      var id := vRandom[i];
      assert id in listed;
      assert id in m.Keys;
      var j := m[id].nRandomPos;
      assert 0 <= j < |vRandom| && vRandom[j] == id;
      if j != i {
        OneTwice(vRandom, i, j);
      }
    }
  }

  lemma SubsetSize(a: set<int>, b: set<int>)
    requires a <= b && |b| <= |a|
    ensures a == b
  {
    assert b == a + (b - a) && |b| == |a| + |b - a|;
  }

  lemma {:induction false} ElementsBound(v: seq<int>)
    ensures |Elements(v)| <= |v|
  {
    if v != [] {
      var w := v[..|v| - 1];
      ElementsBound(w);
      assert v == w + [v[|v| - 1]];
      assert Elements(v) == Elements(w) + {v[|v| - 1]};
    }
  }

  // A list that repeats something has fewer elements than places.
  lemma OneTwice(v: seq<int>, i: nat, j: nat)
    requires i < |v| && j < |v| && i != j && v[i] == v[j]
    ensures |Elements(v)| < |v|
  {
    var w := v[..i] + v[i + 1..];
    ElementsBound(w);
    forall id ensures id in Elements(v) <==> id in Elements(w) {
      if id in Elements(v) {
        var n :| 0 <= n < |v| && v[n] == id;
        var n' := if n == i then j else n;
        assert w[if n' < i then n' else n' - 1] == id;
      }
    }
    assert Elements(v) == Elements(w);
  }

  lemma TriedFromList(k: Key, m: InfoMap, vvTried: seq<seq<int>>)
    requires Lists(Flat(vvTried), TriedIds(m)) && |vvTried| == TRIED_BUCKET_COUNT
    requires forall b | 0 <= b < |vvTried| :: |vvTried[b]| <= TRIED_BUCKET_SIZE
    requires forall b, id | 0 <= b < |vvTried| && id in vvTried[b] && id in m :: k.TriedBucket(m[id].svc) == b
    ensures TriedOk(k, m, vvTried)
  {
    FlatMembers(vvTried);
    forall id | id in m && m[id].fInTried ensures id in vvTried[k.TriedBucket(m[id].svc)] {
      assert id in Flat(vvTried);
      var b :| 0 <= b < |vvTried| && id in vvTried[b];
    }
    forall b, id | 0 <= b < |vvTried| && id in vvTried[b]
      ensures id in m && m[id].fInTried && k.TriedBucket(m[id].svc) == b
    {
      assert id in Flat(vvTried);
      assert id in TriedIds(m);
    }
  }

  lemma {:induction false} FlatMembers(vv: seq<seq<int>>)
    ensures forall id :: id in Flat(vv) <==> exists b :: 0 <= b < |vv| && id in vv[b]
    ensures Distinct(Flat(vv)) ==> forall b | 0 <= b < |vv| :: Distinct(vv[b])
  {
    if vv != [] {
      var n := |vv| - 1;
      var v, w := Flat(vv[..n]), vv[n];
      FlatMembers(vv[..n]);
      assert Flat(vv) == v + w;
      if Distinct(v + w) {
        assert Distinct(v) by {
          forall i, j | 0 <= i < j < |v| ensures v[i] != v[j] {
            assert (v + w)[i] == v[i] && (v + w)[j] == v[j];
          }
        }
        assert Distinct(w) by {
          forall i, j | 0 <= i < j < |w| ensures w[i] != w[j] {
            assert (v + w)[|v| + i] == w[i] && (v + w)[|v| + j] == w[j];
          }
        }
      }
      forall id ensures id in Flat(vv) <==> exists b :: 0 <= b < |vv| && id in vv[b] {
        assert id in v + w <==> id in v || id in w;
        if id in v {
          var b :| 0 <= b < n && id in vv[..n][b];
          assert id in vv[b];
        }
        if b :| 0 <= b < |vv| && id in vv[b] {
          assert b < n ==> vv[..n][b] == vv[b];
        }
      }
    }
  }
}
