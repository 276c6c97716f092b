// The on-disk form of the address manager: most of its structures are dropped
// on writing and rebuilt on reading.
module AddrSer {
  import opened AddrTables
  import opened Sets

  // The stored part of an entry; nLastTry and the table fields are memory only.
  datatype DiskInfo = DiskInfo(svc: Service, nServices: set<nat>, nTime: nat, source: NetAddr, nLastSuccess: int,
                               nAttempts: int)

  // The value sequence in the file: key, counters, new entries, tried entries,
  // and for each new bucket the indices of its entries.
  datatype Disk = Disk(nKey: Key, nNew: int, nTried: int, newInfos: seq<DiskInfo>, triedInfos: seq<DiskInfo>,
                       buckets: seq<seq<int>>)

  datatype Tables = Tables(nIdCount: int, mapInfo: InfoMap, mapAddr: map<NetAddr, int>, vRandom: seq<int>,
                           nTried: int, vvTried: seq<seq<int>>, nNew: int, vvNew: seq<set<int>>)

  ghost predicate Valid(k: Key, t: Tables) {
    TablesOk(k, t.nIdCount, t.mapInfo, t.mapAddr, t.vRandom, t.nTried, t.vvTried, t.nNew, t.vvNew, NOBODY)
  }

  function DiskOf(info: Info): DiskInfo {
    DiskInfo(info.svc, info.nServices, info.nTime, info.source, info.nLastSuccess, info.nAttempts)
  }

  function InfoOf(d: DiskInfo, fInTried: bool, nRandomPos: int): Info {
    Info(d.svc, d.nServices, d.nTime, d.source, d.nLastSuccess, 0, d.nAttempts, 0, fInTried, nRandomPos)
  }

  // The indices of a bucket's entries among the new entries, in order.
  ghost predicate Indexes(indices: seq<int>, bucket: set<int>, newIds: seq<int>) {
    && Ascending(indices)
    && forall i :: i in indices <==> 0 <= i < |newIds| && newIds[i] in bucket
  }

  // The entries in file order: first the new ones, then the tried ones.
  ghost function FileIds(t: Tables): (ids: seq<int>) { Listing(NewIds(t.mapInfo)) + Listing(TriedIds(t.mapInfo)) }

  // infos are the stored parts of the entries with these ids.
  ghost predicate Stores(infos: seq<DiskInfo>, m: InfoMap, ids: seq<int>) {
    |infos| == |ids| && forall i | 0 <= i < |ids| :: ids[i] in m && infos[i] == DiskOf(m[ids[i]])
  }

  // d is the stored form of t.
  ghost predicate Written(k: Key, t: Tables, d: Disk) {
    && d.nKey == k && d.nNew == t.nNew && d.nTried == t.nTried
    && Stores(d.newInfos, t.mapInfo, Listing(NewIds(t.mapInfo)))
    && Stores(d.triedInfos, t.mapInfo, Listing(TriedIds(t.mapInfo)))
    && |d.buckets| == |t.vvNew|
    && (forall b | 0 <= b < |d.buckets| :: Indexes(d.buckets[b], t.vvNew[b], Listing(NewIds(t.mapInfo))))
  }

  lemma KeyStored(k: Key, t: Tables, d: Disk)
    requires Written(k, t, d)
    ensures d.nKey == k
  {
  }

  // The file is determined by the tables.
  lemma WrittenUnique(k: Key, t: Tables, d: Disk, d': Disk)
    requires Written(k, t, d) && Written(k, t, d')
    ensures d == d'
  {
    var newIds := Listing(NewIds(t.mapInfo));
    forall b | 0 <= b < |d.buckets| ensures d.buckets[b] == d'.buckets[b] {
      var v, w := d.buckets[b], d'.buckets[b];
      assert Indexes(v, t.vvNew[b], newIds) && Indexes(w, t.vvNew[b], newIds);
      var s := set i | i in v;
      ListingUnique(v, w, s);
    }
    assert d.newInfos == d'.newInfos && d.triedInfos == d'.triedInfos && d.buckets == d'.buckets;
  }

  // The first loops of the writer: the new entries (nRefCount not 0) or the
  // tried ones, in id order, with the index of every id met on the way.
  method WriteInfos(mapInfo: InfoMap, tried: bool, nCount: int)
    returns (infos: seq<DiskInfo>, mapUnkIds: map<int, int>)
    requires forall id | id in mapInfo :: mapInfo[id].fInTried <==> mapInfo[id].nRefCount == 0
    requires nCount == |if tried then TriedIds(mapInfo) else NewIds(mapInfo)|
    ensures var ids := Listing(if tried then TriedIds(mapInfo) else NewIds(mapInfo));
      Stores(infos, mapInfo, ids) && Positions(mapUnkIds, ids)
  {
    ghost var wanted := if tried then TriedIds(mapInfo) else NewIds(mapInfo);
    ghost var ids := [];
    infos, mapUnkIds := [], map[];
    var order := InOrder(mapInfo.Keys);
    var n := 0;
    while n < |order| && |infos| != nCount
      invariant n <= |order| && Stores(infos, mapInfo, ids) && Positions(mapUnkIds, ids)
      invariant Ascending(ids) && forall id :: id in ids <==> id in order[..n] && id in wanted
    {
      var id := order[n];
      assert id in order && order[..n + 1] == order[..n] + [id];
      assert id in mapInfo.Keys;
      forall i | 0 <= i < |ids| ensures ids[i] < id {
        var g := ids[i];
        assert g in ids;
        var j :| 0 <= j < n && order[j] == g;
      }
      mapUnkIds := mapUnkIds[id := |infos|];
      if (if tried then mapInfo[id].fInTried else mapInfo[id].nRefCount != 0) {
        infos := infos + [DiskOf(mapInfo[id])];
        ids := ids + [id];
      }
      n := n + 1;
    }
    if n == |order| {
      assert order[..n] == order;
    } else {
      AllListed(ids, wanted);
    }
    ListingUnique(ids, Listing(wanted), wanted);
  }

  // The index the writer keeps for an id is its place in the file.
  ghost predicate Positions(mapUnkIds: map<int, int>, ids: seq<int>) {
    forall i | 0 <= i < |ids| :: ids[i] in mapUnkIds && mapUnkIds[ids[i]] == i
  }

  // A listing as long as the set is complete.
  lemma AllListed(v: seq<int>, s: set<int>)
    requires Ascending(v) && |v| == |s| && forall id | id in v :: id in s
    ensures Enumerates(v, s)
  {
    var have := set id | id in v;
    AscendingSize(v, have);
    SubsetSame(have, s);
  }

  lemma SubsetSame(a: set<int>, b: set<int>)
    requires a <= b && |a| == |b|
    ensures a == b
  {
    var rest := b - a;
    assert b == a + rest && |b| == |a| + |rest|;
  }

  // One bucket of the writer.
  method WriteBucket(bucket: set<int>, mapUnkIds: map<int, int>, ghost newIds: seq<int>) returns (indices: seq<int>)
    requires Ascending(newIds) && forall id | id in bucket :: id in newIds
    requires Positions(mapUnkIds, newIds)
    ensures Indexes(indices, bucket, newIds)
  {
    indices := [];
    var order := InOrder(bucket);
    for n := 0 to |order|
      invariant |indices| == n
      invariant forall i | 0 <= i < n :: 0 <= indices[i] < |newIds| && newIds[indices[i]] == order[i]
    {
      var id := order[n];
      assert id in order;
      ghost var i :| 0 <= i < |newIds| && newIds[i] == id;
      var nIndex := if id in mapUnkIds then mapUnkIds[id] else 0;
      indices := indices + [nIndex];
    }
    forall i ensures i in indices <==> 0 <= i < |newIds| && newIds[i] in bucket {
      if i in indices {
        var j :| 0 <= j < |indices| && indices[j] == i;
        assert order[j] in order;
      }
      if 0 <= i < |newIds| && newIds[i] in bucket {
        assert newIds[i] in order;
        var j :| 0 <= j < |order| && order[j] == newIds[i];
        assert indices[j] == i;
      }
    }
  }

  method Write(k: Key, t: Tables) returns (d: Disk)
    requires Valid(k, t)
    ensures Written(k, t, d)
  {
    WriterKnows(k, t);
    hide Valid, TablesOk, Enumerates, Stores, NewIds, TriedIds;
    ghost var newIds := Listing(NewIds(t.mapInfo));
    var newInfos, mapUnkIds := WriteInfos(t.mapInfo, false, t.nNew);
    var triedInfos, unused := WriteInfos(t.mapInfo, true, t.nTried);
    BucketsListed(t, newIds);
    var buckets := [];
    for b := 0 to |t.vvNew|
      invariant |buckets| == b && forall c | 0 <= c < b :: Indexes(buckets[c], t.vvNew[c], newIds)
    {
      var indices := WriteBucket(t.vvNew[b], mapUnkIds, newIds);
      buckets := buckets + [indices];
    }
    d := Disk(k, t.nNew, t.nTried, newInfos, triedInfos, buckets);
  }

  lemma WriterKnows(k: Key, t: Tables)
    requires Valid(k, t)
    ensures forall id | id in t.mapInfo :: t.mapInfo[id].fInTried <==> t.mapInfo[id].nRefCount == 0
    ensures t.nNew == |NewIds(t.mapInfo)| && t.nTried == |TriedIds(t.mapInfo)|
    ensures forall b, id | 0 <= b < |t.vvNew| && id in t.vvNew[b] :: id in NewIds(t.mapInfo)
  {
    hide RandomOk, AddrOk, TriedOk, StatsOk;
    forall id | id in t.mapInfo ensures t.mapInfo[id].fInTried <==> t.mapInfo[id].nRefCount == 0 {
      assert CountedOk(t.mapInfo[id], t.vvNew, id, NOBODY);
    }
  }

  lemma BucketsListed(t: Tables, newIds: seq<int>)
    requires Enumerates(newIds, NewIds(t.mapInfo))
    requires forall b, id | 0 <= b < |t.vvNew| && id in t.vvNew[b] :: id in NewIds(t.mapInfo)
    ensures Ascending(newIds)
    ensures forall b, id | 0 <= b < |t.vvNew| && id in t.vvNew[b] :: id in newIds
  {
  }

  // ------------------------------------------------------------- renaming

  // ids[i] is the old id of the new id i.
  ghost predicate IsNaming(ids: seq<int>, m: InfoMap, nNew: int) {
    && 0 <= nNew <= |ids| && Distinct(ids) && (forall id :: id in ids <==> id in m)
    && (forall i | 0 <= i < |ids| :: ids[i] in m && (m[ids[i]].fInTried <==> i >= nNew))
  }

  // The entry as it comes back: all that is stored, and the table fields
  // rebuilt; nLastTry is forgotten.
  function Reborn(info: Info, i: int): Info { info.(nLastTry := 0, nRandomPos := i) }

  // t' is t with every id renamed, vRandom in id order, and the tried buckets
  // holding the same entries in some order.
  ghost predicate Renamed(t: Tables, t': Tables, ids: seq<int>) {
    && IsNaming(ids, t.mapInfo, t.nNew)
    && t'.nIdCount == |ids| && t'.nNew == t.nNew && t'.nTried == t.nTried
    && (forall i :: i in t'.mapInfo <==> 0 <= i < |ids|)
    && (forall i | 0 <= i < |ids| :: t'.mapInfo[i] == Reborn(t.mapInfo[ids[i]], i))
    && |t'.vRandom| == |ids| && (forall i | 0 <= i < |ids| :: t'.vRandom[i] == i)
    && AddrOk(t'.mapInfo, t'.mapAddr)
    && |t'.vvTried| == |t.vvTried|
    && (forall b | 0 <= b < |t.vvTried| :: SameBucket(ids, t.vvTried[b], t'.vvTried[b]))
    && |t'.vvNew| == |t.vvNew|
    && (forall b | 0 <= b < |t.vvNew| :: SameSet(ids, t.vvNew[b], t'.vvNew[b]))
  }

  ghost predicate SameBucket(ids: seq<int>, v: seq<int>, w: seq<int>) {
    Distinct(w) && forall i :: i in w <==> 0 <= i < |ids| && ids[i] in v
  }

  ghost predicate SameSet(ids: seq<int>, v: set<int>, w: set<int>) {
    forall i :: i in w <==> 0 <= i < |ids| && ids[i] in v
  }

  lemma {:induction false} Pigeons(v: seq<int>, ids: seq<int>, s: set<int>)
    requires Distinct(v) && Distinct(ids) && forall i | 0 <= i < |v| :: 0 <= v[i] < |ids| && ids[v[i]] in s
    ensures |v| <= |s|
  {
    if v != [] {
      var w, x := v[..|v| - 1], v[|v| - 1];
      forall i | 0 <= i < |w| ensures ids[w[i]] in s - {ids[x]} {
        assert v[i] != v[|v| - 1];
      }
      Pigeons(w, ids, s - {ids[x]});
      assert s == (s - {ids[x]}) + {ids[x]};
    }
  }

  lemma {:induction false} ElementCount(v: seq<int>) returns (s: set<int>)
    ensures |s| <= |v| && forall id :: id in v <==> id in s
  {
    if v == [] {
      s := {};
    } else {
      var w := v[..|v| - 1];
      s := ElementCount(w);
      assert v == w + [v[|v| - 1]];
      s := s + {v[|v| - 1]};
    }
  }

  lemma SameBucketSize(ids: seq<int>, v: seq<int>, w: seq<int>)
    requires Distinct(ids) && SameBucket(ids, v, w)
    ensures |w| <= |v|
  {
    var s := ElementCount(v);
    forall i | 0 <= i < |w| ensures 0 <= w[i] < |ids| && ids[w[i]] in s {
      var x := w[i];
      assert x in w;
      var id := ids[x];
      assert id in v;
    }
    Pigeons(w, ids, s);
  }

  lemma {:induction false} SameSetSize(ids: seq<int>, v: set<int>, w: set<int>)
    requires Distinct(ids) && forall i: int | i in w :: 0 <= i < |ids| && ids[i] in v
    ensures |w| <= |v|
    decreases |w|
  {
    if w != {} {
      var x: int := AnyOf(w);
      assert x in w;
      SameSetSize(ids, v - {ids[x]}, w - {x});
      assert v == (v - {ids[x]}) + {ids[x]} && w == (w - {x}) + {x};
    }
  }

  lemma {:induction false} SameCount(ids: seq<int>, v: seq<set<int>>, w: seq<set<int>>, i: int)
    requires |v| == |w| && 0 <= i < |ids| && forall b | 0 <= b < |v| :: SameSet(ids, v[b], w[b])
    ensures Count(w, i) == Count(v, ids[i])
  {
    if |v| != 0 {
      SameCount(ids, v[..|v| - 1], w[..|w| - 1], i);
      assert SameSet(ids, v[|v| - 1], w[|w| - 1]);
    }
  }

  ghost function Interval(a: int, b: int): (r: set<int>)
    ensures (forall i :: i in r <==> a <= i < b) && (a <= b ==> |r| == b - a)
    decreases b - a
  {
    if a < b then Interval(a, b - 1) + {b - 1} else {}
  }

  lemma RenamedTried(k: Key, t: Tables, t': Tables, ids: seq<int>)
    requires TriedOk(k, t.mapInfo, t.vvTried) && Renamed(t, t', ids)
    ensures TriedOk(k, t'.mapInfo, t'.vvTried)
  {
    forall b | 0 <= b < |t'.vvTried| ensures |t'.vvTried[b]| <= TRIED_BUCKET_SIZE && Distinct(t'.vvTried[b]) {
      assert SameBucket(ids, t.vvTried[b], t'.vvTried[b]);
      SameBucketSize(ids, t.vvTried[b], t'.vvTried[b]);
    }
    forall b, i | 0 <= b < |t'.vvTried| && i in t'.vvTried[b]
      ensures i in t'.mapInfo && t'.mapInfo[i].fInTried && k.TriedBucket(t'.mapInfo[i].svc) == b
    {
      assert SameBucket(ids, t.vvTried[b], t'.vvTried[b]);
      var id := ids[i];
      assert id in t.vvTried[b];
      assert id in t.mapInfo && t.mapInfo[id].fInTried && k.TriedBucket(t.mapInfo[id].svc) == b;
    }
    forall i | i in t'.mapInfo && t'.mapInfo[i].fInTried ensures i in t'.vvTried[k.TriedBucket(t'.mapInfo[i].svc)] {
      var id := ids[i];
      assert id in t.mapInfo && t.mapInfo[id].fInTried && t'.mapInfo[i].svc == t.mapInfo[id].svc;
      var b := k.TriedBucket(t.mapInfo[id].svc);
      assert id in t.vvTried[b];
      assert SameBucket(ids, t.vvTried[b], t'.vvTried[b]);
    }
  }

  lemma RenamedNew(t: Tables, t': Tables, ids: seq<int>)
    requires NewOk(t.mapInfo, t.vvNew, NOBODY) && NOBODY !in t.mapInfo && Renamed(t, t', ids)
    ensures NewOk(t'.mapInfo, t'.vvNew, NOBODY)
  {
    forall b | 0 <= b < |t'.vvNew| ensures |t'.vvNew[b]| <= NEW_BUCKET_SIZE {
      assert SameSet(ids, t.vvNew[b], t'.vvNew[b]);
      SameSetSize(ids, t.vvNew[b], t'.vvNew[b]);
    }
    forall b, i | 0 <= b < |t'.vvNew| && i in t'.vvNew[b] ensures i in t'.mapInfo && !t'.mapInfo[i].fInTried {
      assert SameSet(ids, t.vvNew[b], t'.vvNew[b]);
      var id := ids[i];
      assert id in t.vvNew[b];
      assert id in t.mapInfo && !t.mapInfo[id].fInTried;
      assert t'.mapInfo[i] == Reborn(t.mapInfo[id], i);
    }
    forall i | i in t'.mapInfo ensures CountedOk(t'.mapInfo[i], t'.vvNew, i, NOBODY) {
      var id := ids[i];
      assert id in t.mapInfo && id != NOBODY;
      assert CountedOk(t.mapInfo[id], t.vvNew, id, NOBODY);
      SameCount(ids, t.vvNew, t'.vvNew, i);
    }
  }

  lemma RenamedCounters(t: Tables, t': Tables, ids: seq<int>)
    requires CountersOk(t.mapInfo, |t.vRandom|, t.nTried, t.nNew) && Renamed(t, t', ids)
    ensures CountersOk(t'.mapInfo, |t'.vRandom|, t'.nTried, t'.nNew)
  {
    NamingSize(ids, t.mapInfo);
    IdsSplit(t.mapInfo);
    assert |ids| == t.nTried + t.nNew;
    hide NewIds, TriedIds;
    SplitAt(t'.mapInfo, t.nNew, |ids|);
  }

  lemma SplitAt(m: InfoMap, n: int, N: int)
    requires 0 <= n <= N && (forall i :: i in m <==> 0 <= i < N)
    requires forall i | 0 <= i < N :: m[i].fInTried <==> i >= n
    ensures |NewIds(m)| == n && |TriedIds(m)| == N - n
  {
    assert NewIds(m) == Interval(0, n);
    assert TriedIds(m) == Interval(n, N);
  }

  lemma NamingSize(ids: seq<int>, m: InfoMap)
    requires Distinct(ids) && forall id :: id in ids <==> id in m
    ensures |ids| == |m.Keys|
  {
    var s := ElementCount(ids);
    assert s == m.Keys by {
      forall id ensures id in s <==> id in m.Keys {
        assert id in m.Keys <==> id in m;
      }
    }
    forall i | 0 <= i < |ids| ensures ids[i] in s {
      assert ids[i] in ids;
    }
    var positions := seq(|ids|, i => i);
    Pigeons(positions, ids, s);
  }

  // A renamed consistent manager is consistent.
  lemma RenamedValid(k: Key, t: Tables, t': Tables, ids: seq<int>)
    requires Valid(k, t) && Renamed(t, t', ids)
    ensures Valid(k, t')
  {
    assert NOBODY !in t.mapInfo;
    hide RandomOk, AddrOk, TriedOk, NewOk, CountersOk, StatsOk;
    RenamedTried(k, t, t', ids);
    RenamedNew(t, t', ids);
    RenamedCounters(t, t', ids);
    RenamedRandom(t, t', ids);
    RenamedStats(t, t', ids);
  }

  lemma RenamedRandom(t: Tables, t': Tables, ids: seq<int>)
    requires Renamed(t, t', ids)
    ensures RandomOk(t'.mapInfo, t'.vRandom)
  {
  }

  lemma RenamedStats(t: Tables, t': Tables, ids: seq<int>)
    requires StatsOk(t.mapInfo, t.nIdCount) && Renamed(t, t', ids)
    ensures StatsOk(t'.mapInfo, t'.nIdCount)
  {
    forall i | i in t'.mapInfo
      ensures t'.mapInfo[i].nLastTry >= 0 && t'.mapInfo[i].nLastSuccess >= 0
      ensures t'.mapInfo[i].fInTried ==> t'.mapInfo[i].nLastSuccess > 0
    {
      var id := ids[i];
      assert id in t.mapInfo;
    }
  }

  // ---------------------------------------------------------------- reading

  // What the reader has of the entry with the new id i, `refs` being its count.
  function Restored(info: Info, i: int, refs: int): Info { Reborn(info, i).(nRefCount := refs) }

  // The first n entries have been read; references are not yet counted.
  ghost predicate Loaded(t: Tables, ids: seq<int>, n: int, m: InfoMap, mapAddr: map<NetAddr, int>, vRandom: seq<int>) {
    && 0 <= n <= |ids|
    && (forall i :: i in m <==> 0 <= i < n)
    && (forall i | 0 <= i < n :: ids[i] in t.mapInfo && m[i] == Restored(t.mapInfo[ids[i]], i, 0))
    && AddrOk(m, mapAddr)
    && |vRandom| == n && (forall i | 0 <= i < n :: vRandom[i] == i)
  }

  lemma LoadedNext(t: Tables, ids: seq<int>, n: int, m: InfoMap, mapAddr: map<NetAddr, int>, vRandom: seq<int>)
    requires IsNaming(ids, t.mapInfo, t.nNew) && AddrOk(t.mapInfo, t.mapAddr) && n < |ids|
    requires Loaded(t, ids, n, m, mapAddr, vRandom)
    ensures Loaded(t, ids, n + 1, m[n := Restored(t.mapInfo[ids[n]], n, 0)], mapAddr[t.mapInfo[ids[n]].svc.ip := n],
                   vRandom + [n])
  {
    var id := ids[n];
    var info := Restored(t.mapInfo[id], n, 0);
    forall i | 0 <= i < n ensures m[i].svc.ip != info.svc.ip {
      assert ids[i] in t.mapInfo && id in t.mapInfo;
    }
    AddrAppend(m, mapAddr, n, info);
    hide AddrOk, IsNaming;
    forall i | 0 <= i < n + 1 ensures ids[i] in t.mapInfo && m[n := info][i] == Restored(t.mapInfo[ids[i]], i, 0) {
    }
  }

  lemma AddrAppend(m: InfoMap, mapAddr: map<NetAddr, int>, n: int, info: Info)
    requires AddrOk(m, mapAddr) && n !in m && forall i | i in m :: m[i].svc.ip != info.svc.ip
    ensures AddrOk(m[n := info], mapAddr[info.svc.ip := n])
  {
  }

  // The new entries.
  method ReadNew(d: Disk, ghost t: Tables, ghost ids: seq<int>)
    returns (mapInfo: InfoMap, mapAddr: map<NetAddr, int>, vRandom: seq<int>)
    requires IsNaming(ids, t.mapInfo, t.nNew) && AddrOk(t.mapInfo, t.mapAddr) && d.nNew == t.nNew == |d.newInfos|
    requires forall i | 0 <= i < d.nNew :: d.newInfos[i] == DiskOf(t.mapInfo[ids[i]])
    ensures Loaded(t, ids, d.nNew, mapInfo, mapAddr, vRandom)
  {
    mapInfo, mapAddr, vRandom := map[], map[], [];
    for n := 0 to d.nNew
      invariant Loaded(t, ids, n, mapInfo, mapAddr, vRandom)
    {
      LoadedNext(t, ids, n, mapInfo, mapAddr, vRandom);
      var info := InfoOf(d.newInfos[n], false, |vRandom|);
      mapInfo := mapInfo[n := info];
      mapAddr := mapAddr[info.svc.ip := n];
      vRandom := vRandom + [n];
    }
  }

  // The tried buckets hold the entries read so far.
  ghost predicate TriedSoFar(t: Tables, ids: seq<int>, n: int, vvTried: seq<seq<int>>)
    requires 0 <= n <= |ids|
  {
    && |vvTried| == |t.vvTried|
    && forall b | 0 <= b < |vvTried| :: SameBucket(ids[..n], t.vvTried[b], vvTried[b])
  }

  lemma TriedStart(k: Key, t: Tables, ids: seq<int>, vvTried: seq<seq<int>>)
    requires IsNaming(ids, t.mapInfo, t.nNew) && TriedOk(k, t.mapInfo, t.vvTried)
    requires |vvTried| == TRIED_BUCKET_COUNT && forall b | 0 <= b < |vvTried| :: vvTried[b] == []
    ensures TriedSoFar(t, ids, t.nNew, vvTried)
  {
    forall b, i | 0 <= b < |vvTried| && 0 <= i < t.nNew ensures ids[..t.nNew][i] !in t.vvTried[b] {
      var id := ids[i];
      assert id in t.mapInfo && id == ids[..t.nNew][i];
    }
  }

  // There is room for the next tried entry.
  lemma TriedNext(k: Key, t: Tables, ids: seq<int>, n: int, vvTried: seq<seq<int>>)
    requires IsNaming(ids, t.mapInfo, t.nNew) && TriedOk(k, t.mapInfo, t.vvTried)
    requires t.nNew <= n < |ids| && TriedSoFar(t, ids, n, vvTried)
    ensures var b := k.TriedBucket(t.mapInfo[ids[n]].svc);
      |vvTried[b]| < TRIED_BUCKET_SIZE && TriedSoFar(t, ids, n + 1, vvTried[b := vvTried[b] + [n]])
  {
    var id := ids[n];
    var b := k.TriedBucket(t.mapInfo[id].svc);
    assert id in t.mapInfo && id in t.vvTried[b];
    forall c | 0 <= c < |vvTried| && c != b ensures SameBucket(ids[..n + 1], t.vvTried[c], vvTried[c]) {
      assert SameBucket(ids[..n], t.vvTried[c], vvTried[c]);
      BucketSkips(ids, n, t.vvTried[c], vvTried[c]);
    }
    assert SameBucket(ids[..n], t.vvTried[b], vvTried[b]);
    BucketGrows(ids, n, t.vvTried[b], vvTried[b]);
    SameBucketSize(ids[..n + 1], t.vvTried[b], vvTried[b] + [n]);
  }

  lemma BucketSkips(ids: seq<int>, n: int, v: seq<int>, w: seq<int>)
    requires 0 <= n < |ids| && SameBucket(ids[..n], v, w) && ids[n] !in v
    ensures SameBucket(ids[..n + 1], v, w)
  {
    assert ids[..n + 1] == ids[..n] + [ids[n]];
  }

  lemma BucketGrows(ids: seq<int>, n: int, v: seq<int>, w: seq<int>)
    requires 0 <= n < |ids| && SameBucket(ids[..n], v, w) && ids[n] in v
    ensures SameBucket(ids[..n + 1], v, w + [n])
  {
    assert ids[..n + 1] == ids[..n] + [ids[n]];
    forall i | 0 <= i < |w| ensures w[i] != n {
      assert w[i] in w;
    }
  }

  // The tried entries; one that finds its bucket full is lost.
  method ReadTried(d: Disk, mapInfo0: InfoMap, mapAddr0: map<NetAddr, int>, vRandom0: seq<int>,
                   ghost t: Tables, ghost ids: seq<int>)
    returns (mapInfo: InfoMap, mapAddr: map<NetAddr, int>, vRandom: seq<int>, vvTried: seq<seq<int>>, nIdCount: int,
             nLost: int)
    requires IsNaming(ids, t.mapInfo, t.nNew) && AddrOk(t.mapInfo, t.mapAddr) && TriedOk(d.nKey, t.mapInfo, t.vvTried)
    requires d.nNew == t.nNew && d.nTried == |d.triedInfos| == |ids| - t.nNew
    requires forall i | 0 <= i < d.nTried :: d.triedInfos[i] == DiskOf(t.mapInfo[ids[t.nNew + i]])
    requires forall i | t.nNew <= i < |ids| :: t.mapInfo[ids[i]].nRefCount == 0
    requires Loaded(t, ids, d.nNew, mapInfo0, mapAddr0, vRandom0)
    ensures Loaded(t, ids, |ids|, mapInfo, mapAddr, vRandom) && TriedSoFar(t, ids, |ids|, vvTried)
    ensures nIdCount == |ids| && nLost == 0
  {
    mapInfo, mapAddr, vRandom := mapInfo0, mapAddr0, vRandom0;
    vvTried := seq(TRIED_BUCKET_COUNT, _ => []);
    nIdCount, nLost := d.nNew, 0;
    TriedStart(d.nKey, t, ids, vvTried);
    for n := 0 to d.nTried
      invariant nIdCount == t.nNew + n && nLost == 0
      invariant Loaded(t, ids, nIdCount, mapInfo, mapAddr, vRandom) && TriedSoFar(t, ids, nIdCount, vvTried)
    {
      LoadedNext(t, ids, nIdCount, mapInfo, mapAddr, vRandom);
      TriedNext(d.nKey, t, ids, nIdCount, vvTried);
      var b := d.nKey.TriedBucket(d.triedInfos[n].svc);
      if |vvTried[b]| < TRIED_BUCKET_SIZE {
        var info := InfoOf(d.triedInfos[n], true, |vRandom|);
        vRandom := vRandom + [nIdCount];
        mapInfo := mapInfo[nIdCount := info];
        mapAddr := mapAddr[info.svc.ip := nIdCount];
        vvTried := vvTried[b := vvTried[b] + [nIdCount]];
        nIdCount := nIdCount + 1;
      } else {
        nLost := nLost + 1;
      }
    }
  }

  // The references counted so far are those in w, which holds no others than v.
  ghost predicate Counting(t: Tables, ids: seq<int>, m: InfoMap, w: seq<set<int>>) {
    && (forall i :: i in m <==> 0 <= i < |ids|)
    && (forall i | 0 <= i < |ids| :: ids[i] in t.mapInfo && m[i] == Restored(t.mapInfo[ids[i]], i, Count(w, i)))
    && |w| == |t.vvNew|
    && RefsIn(ids, t.vvNew, w)
  }

  ghost predicate RefsIn(ids: seq<int>, v: seq<set<int>>, w: seq<set<int>>) {
    |w| == |v| && forall b, i: int :: RefIn(ids, v, w, b, i)
  }

  ghost predicate RefIn(ids: seq<int>, v: seq<set<int>>, w: seq<set<int>>, b: int, i: int)
    requires |w| == |v|
  {
    0 <= b < |w| && i in w[b] ==> 0 <= i < |ids| && ids[i] in v[b]
  }

  lemma RefsInNext(ids: seq<int>, v: seq<set<int>>, w: seq<set<int>>, b: nat, i: int)
    requires RefsIn(ids, v, w) && b < |w| && 0 <= i < |ids| && ids[i] in v[b]
    ensures RefsIn(ids, v, w[b := w[b] + {i}])
  {
    var w' := w[b := w[b] + {i}];
    forall c, g: int ensures RefIn(ids, v, w', c, g) {
      assert RefIn(ids, v, w, c, g);
    }
  }

  lemma RefsBelow(ids: seq<int>, v: seq<set<int>>, w: seq<set<int>>)
    requires RefsIn(ids, v, w) && |v| != 0
    ensures RefsIn(ids, v[..|v| - 1], w[..|w| - 1])
  {
    var v', w' := v[..|v| - 1], w[..|w| - 1];
    forall b, i: int ensures RefIn(ids, v', w', b, i) {
      assert RefIn(ids, v, w, b, i);
    }
  }

  lemma {:induction false} CountBelow(ids: seq<int>, v: seq<set<int>>, w: seq<set<int>>, i: int)
    requires 0 <= i < |ids| && RefsIn(ids, v, w)
    ensures Count(w, i) <= Count(v, ids[i])
  {
    if |v| != 0 {
      assert RefIn(ids, v, w, |v| - 1, i);
      RefsBelow(ids, v, w);
      CountBelow(ids, v[..|v| - 1], w[..|w| - 1], i);
    }
  }

  // The next reference is below the limit of four, and is counted.
  lemma CountingNext(t: Tables, ids: seq<int>, m: InfoMap, w: seq<set<int>>, b: nat, i: int)
    requires IsNaming(ids, t.mapInfo, t.nNew) && NewOk(t.mapInfo, t.vvNew, NOBODY) && Counting(t, ids, m, w)
    requires b < |w| && 0 <= i < |ids| && ids[i] in t.vvNew[b] && i !in w[b]
    ensures m[i].nRefCount < NEW_BUCKETS_PER_ADDRESS
    ensures Counting(t, ids, m[i := m[i].(nRefCount := m[i].nRefCount + 1)], w[b := w[b] + {i}])
  {
    var w' := w[b := w[b] + {i}];
    assert ids[i] in t.mapInfo;
    assert CountedOk(t.mapInfo[ids[i]], t.vvNew, ids[i], NOBODY);
    forall g | 0 <= g < |ids| ensures Count(w', g) == Count(w, g) + if g == i then 1 else 0 {
      CountUpdate(w, b, w[b] + {i}, g);
    }
    RefsInNext(ids, t.vvNew, w, b, i);
    CountBelow(ids, t.vvNew, w', i);
    hide NewOk, IsNaming, RefsIn, Count, CountedOk;
    var m' := m[i := m[i].(nRefCount := m[i].nRefCount + 1)];
    forall g | 0 <= g < |ids| ensures m'[g] == Restored(t.mapInfo[ids[g]], g, Count(w', g)) {
      assert m[g] == Restored(t.mapInfo[ids[g]], g, Count(w, g));
    }
  }

  // The members of one new bucket.
  method ReadBucket(indices: seq<int>, b: nat, mapInfo0: InfoMap, vvNew0: seq<set<int>>, ghost t: Tables,
                    ghost ids: seq<int>)
    returns (mapInfo: InfoMap, vvNew: seq<set<int>>)
    requires IsNaming(ids, t.mapInfo, t.nNew) && NewOk(t.mapInfo, t.vvNew, NOBODY)
    requires Counting(t, ids, mapInfo0, vvNew0) && b < |vvNew0| && vvNew0[b] == {}
    requires Distinct(indices) && forall i :: i in indices <==> 0 <= i < |ids| && ids[i] in t.vvNew[b]
    ensures Counting(t, ids, mapInfo, vvNew)
    ensures vvNew == vvNew0[b := vvNew[b]] && SameSet(ids, t.vvNew[b], vvNew[b])
  {
    mapInfo, vvNew := mapInfo0, vvNew0;
    for n := 0 to |indices|
      invariant Counting(t, ids, mapInfo, vvNew) && vvNew == vvNew0[b := vvNew[b]]
      invariant forall i :: i in vvNew[b] <==> i in indices[..n]
    {
      var nIndex := indices[n];
      assert nIndex in indices && nIndex !in indices[..n];
      hide IsNaming, NewOk, Counting;
      CountingNext(t, ids, mapInfo, vvNew, b, nIndex);
      InRange(t, ids, mapInfo, vvNew, nIndex);
      var info := mapInfo[nIndex];
      if info.nRefCount < NEW_BUCKETS_PER_ADDRESS {
        mapInfo := mapInfo[nIndex := info.(nRefCount := info.nRefCount + 1)];
        vvNew := vvNew[b := vvNew[b] + {nIndex}];
      }
      assert indices[..n + 1] == indices[..n] + [nIndex];
    }
    assert indices[..|indices|] == indices;
  }

  lemma InRange(t: Tables, ids: seq<int>, m: InfoMap, w: seq<set<int>>, i: int)
    requires Counting(t, ids, m, w) && 0 <= i < |ids|
    ensures i in m
  {
  }

  // The order of the file names the new ids.
  lemma FileNames(k: Key, t: Tables, d: Disk)
    requires Valid(k, t) && Written(k, t, d)
    ensures IsNaming(FileIds(t), t.mapInfo, t.nNew) && Listing(NewIds(t.mapInfo)) <= FileIds(t)
    ensures d.nNew == t.nNew == |Listing(NewIds(t.mapInfo))| && d.nTried == t.nTried == |FileIds(t)| - t.nNew
  {
    hide RandomOk, AddrOk, TriedOk, NewOk, StatsOk, Enumerates, NewIds, TriedIds, IsNaming;
    var newIds, triedIds := Listing(NewIds(t.mapInfo)), Listing(TriedIds(t.mapInfo));
    AscendingSize(newIds, NewIds(t.mapInfo));
    AscendingSize(triedIds, TriedIds(t.mapInfo));
    NamesBoth(t.mapInfo, newIds, triedIds);
  }

  lemma FileInfos(k: Key, t: Tables, d: Disk)
    requires Written(k, t, d)
    ensures var ids, n := FileIds(t), |Listing(NewIds(t.mapInfo))|;
      (forall i | 0 <= i < n :: ids[i] in t.mapInfo && d.newInfos[i] == DiskOf(t.mapInfo[ids[i]]))
      && forall i | 0 <= i < |ids| - n ::
           ids[n + i] in t.mapInfo && d.triedInfos[i] == DiskOf(t.mapInfo[ids[n + i]])
  {
    hide Enumerates, NewIds, TriedIds, DiskOf;
    var newIds, triedIds := Listing(NewIds(t.mapInfo)), Listing(TriedIds(t.mapInfo));
    var ids := FileIds(t);
    forall i | 0 <= i < |newIds| ensures ids[i] == newIds[i] {
    }
    forall i | 0 <= i < |triedIds| ensures ids[|newIds| + i] == triedIds[i] {
    }
  }

  lemma NamesBoth(m: InfoMap, newIds: seq<int>, triedIds: seq<int>)
    requires Enumerates(newIds, NewIds(m)) && Enumerates(triedIds, TriedIds(m))
    ensures IsNaming(newIds + triedIds, m, |newIds|)
  {
    var ids := newIds + triedIds;
    forall i | 0 <= i < |ids| ensures ids[i] in m && (m[ids[i]].fInTried <==> i >= |newIds|) {
      var id := ids[i];
      assert if i < |newIds| then id in newIds else id in triedIds;
    }
    forall i, j | 0 <= i < j < |ids| ensures ids[i] != ids[j] {
      assert i < |newIds| <= j ==> m[ids[i]].fInTried != m[ids[j]].fInTried;
    }
    forall id ensures id in ids <==> id in m {
      assert id in ids <==> id in newIds || id in triedIds;
    }
  }

  // What the reader relies on besides.
  lemma FileTables(k: Key, t: Tables, d: Disk)
    requires Valid(k, t) && Written(k, t, d) && IsNaming(FileIds(t), t.mapInfo, t.nNew)
    requires t.nNew == |Listing(NewIds(t.mapInfo))|
    ensures AddrOk(t.mapInfo, t.mapAddr) && TriedOk(d.nKey, t.mapInfo, t.vvTried) && NewOk(t.mapInfo, t.vvNew, NOBODY)
    ensures var ids := FileIds(t); forall i | t.nNew <= i < |ids| :: t.mapInfo[ids[i]].nRefCount == 0
    ensures |d.buckets| == |t.vvNew| == NEW_BUCKET_COUNT
    ensures |d.newInfos| == t.nNew && |d.triedInfos| == |FileIds(t)| - t.nNew
    ensures forall b | 0 <= b < |d.buckets| :: Indexes(d.buckets[b], t.vvNew[b], Listing(NewIds(t.mapInfo)))
  {
    hide RandomOk, AddrOk, TriedOk, CountersOk, StatsOk, Indexes, Listing;
    var ids := FileIds(t);
    forall i | t.nNew <= i < |ids| ensures t.mapInfo[ids[i]].nRefCount == 0 {
      assert CountedOk(t.mapInfo[ids[i]], t.vvNew, ids[i], NOBODY);
    }
  }

  lemma IndexesName(newIds: seq<int>, ids: seq<int>, t: Tables, indices: seq<int>, b: nat)
    requires IsNaming(ids, t.mapInfo, t.nNew) && NewOk(t.mapInfo, t.vvNew, NOBODY) && b < |t.vvNew|
    requires |newIds| == t.nNew && newIds <= ids && Indexes(indices, t.vvNew[b], newIds)
    ensures Distinct(indices) && forall i :: i in indices <==> 0 <= i < |ids| && ids[i] in t.vvNew[b]
  {
    forall i ensures i in indices <==> 0 <= i < |ids| && ids[i] in t.vvNew[b] {
      if 0 <= i < |ids| && ids[i] in t.vvNew[b] {
        var id := ids[i];
        assert id in t.mapInfo && !t.mapInfo[id].fInTried;
      }
    }
  }

  lemma CountingStart(t: Tables, ids: seq<int>, m: InfoMap, mapAddr: map<NetAddr, int>, vRandom: seq<int>)
    requires Loaded(t, ids, |ids|, m, mapAddr, vRandom) && |t.vvNew| == NEW_BUCKET_COUNT
    ensures forall w: seq<set<int>> | NoReferences(w) :: Counting(t, ids, m, w)
  {
    forall w: seq<set<int>> | NoReferences(w) ensures Counting(t, ids, m, w) {
      forall i ensures Count(w, i) == 0 {
        CountZero(w, i);
      }
    }
  }

  lemma LoadedAddr(t: Tables, t': Tables, ids: seq<int>, loaded: InfoMap)
    requires Loaded(t, ids, |ids|, loaded, t'.mapAddr, t'.vRandom) && Counting(t, ids, t'.mapInfo, t'.vvNew)
    ensures AddrOk(t'.mapInfo, t'.mapAddr)
  {
    hide AddrOk, Count;
    forall i ensures i in loaded.Keys <==> i in t'.mapInfo.Keys {
      assert (i in loaded <==> i in loaded.Keys) && (i in t'.mapInfo <==> i in t'.mapInfo.Keys);
    }
    AddrKeep(loaded, t'.mapInfo, t'.mapAddr);
  }

  lemma ReadIsRenamed(k: Key, t: Tables, t': Tables, ids: seq<int>, loaded: InfoMap)
    requires Valid(k, t) && IsNaming(ids, t.mapInfo, t.nNew)
    requires Loaded(t, ids, |ids|, loaded, t'.mapAddr, t'.vRandom) && TriedSoFar(t, ids, |ids|, t'.vvTried)
    requires Counting(t, ids, t'.mapInfo, t'.vvNew)
    requires forall b | 0 <= b < |t.vvNew| :: SameSet(ids, t.vvNew[b], t'.vvNew[b])
    requires t'.nIdCount == |ids| && t'.nNew == t.nNew && t'.nTried == t.nTried
    ensures Renamed(t, t', ids)
  {
    assert NOBODY !in t.mapInfo;
    hide RandomOk, TriedOk, CountersOk, StatsOk;
    forall i | 0 <= i < |ids| ensures t'.mapInfo[i] == Reborn(t.mapInfo[ids[i]], i) {
      var id := ids[i];
      assert id in t.mapInfo && id != NOBODY;
      assert CountedOk(t.mapInfo[id], t.vvNew, id, NOBODY);
      SameCount(ids, t.vvNew, t'.vvNew, i);
    }
    assert ids[..|ids|] == ids;
    LoadedAddr(t, t', ids, loaded);
  }

  // The loop over the buckets.
  method ReadBuckets(d: Disk, mapInfo0: InfoMap, ghost t: Tables, ghost ids: seq<int>, ghost newIds: seq<int>)
    returns (mapInfo: InfoMap, vvNew: seq<set<int>>)
    requires IsNaming(ids, t.mapInfo, t.nNew) && NewOk(t.mapInfo, t.vvNew, NOBODY)
    requires |newIds| == t.nNew && newIds <= ids
    requires |d.buckets| == |t.vvNew| == NEW_BUCKET_COUNT
    requires forall b | 0 <= b < |d.buckets| :: Indexes(d.buckets[b], t.vvNew[b], newIds)
    requires forall w: seq<set<int>> | NoReferences(w) :: Counting(t, ids, mapInfo0, w)
    ensures Counting(t, ids, mapInfo, vvNew)
    ensures |vvNew| == |t.vvNew| && forall b | 0 <= b < |t.vvNew| :: SameSet(ids, t.vvNew[b], vvNew[b])
  {
    mapInfo, vvNew := mapInfo0, seq(NEW_BUCKET_COUNT, _ => {});
    assert NoReferences(vvNew);
    hide *;
    for b := 0 to |d.buckets|
      invariant Counting(t, ids, mapInfo, vvNew) && |vvNew| == |d.buckets|
      invariant forall c | 0 <= c < b :: SameSet(ids, t.vvNew[c], vvNew[c])
      invariant forall c | b <= c < |vvNew| :: vvNew[c] == {}
    {
      IndexesName(newIds, ids, t, d.buckets[b], b);
      mapInfo, vvNew := ReadBucket(d.buckets[b], b, mapInfo, vvNew, t, ids);
    }
  }

  ghost predicate NoReferences(w: seq<set<int>>) {
    |w| == NEW_BUCKET_COUNT && forall b | 0 <= b < |w| :: w[b] == {}
  }

  // Reading what was written.
  method Read(d: Disk, ghost k: Key, ghost t: Tables) returns (t': Tables, nLost: int)
    requires Valid(k, t) && Written(k, t, d)
    ensures Renamed(t, t', FileIds(t)) && Valid(k, t') && nLost == 0
  {
    hide *;
    ghost var ids := FileIds(t);
    FileNames(k, t, d);
    FileInfos(k, t, d);
    FileTables(k, t, d);
    var mapInfo, mapAddr, vRandom := ReadNew(d, t, ids);
    var vvTried, vvNew, nIdCount;
    mapInfo, mapAddr, vRandom, vvTried, nIdCount, nLost := ReadTried(d, mapInfo, mapAddr, vRandom, t, ids);
    ghost var loaded := mapInfo;
    CountingStart(t, ids, mapInfo, mapAddr, vRandom);
    mapInfo, vvNew := ReadBuckets(d, mapInfo, t, ids, Listing(NewIds(t.mapInfo)));
    t' := Tables(nIdCount, mapInfo, mapAddr, vRandom, d.nTried - nLost, vvTried, d.nNew, vvNew);
    ReadIsRenamed(k, t, t', ids, loaded);
    RenamedValid(k, t, t', ids);
  }
}
