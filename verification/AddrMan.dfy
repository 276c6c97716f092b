// CAddrMan: the address manager, its random choices left open.
module AddrMan {
  import opened AddrTables
  import opened AddrCheck
  import AddrSer
  import opened Sets

  class AddrMan {
    const nKey: Key
    const isRoutable: NetAddr -> bool
    var nIdCount: int
    var mapInfo: InfoMap
    var mapAddr: map<NetAddr, int>
    var vRandom: seq<int>
    var nTried: int
    var vvTried: seq<seq<int>>
    var nNew: int
    var vvNew: seq<set<int>>

    // The invariant, with one reference to x already counted but not stored.
    ghost predicate Owing(x: int)
      reads this
    {
      TablesOk(nKey, nIdCount, mapInfo, mapAddr, vRandom, nTried, vvTried, nNew, vvNew, x)
    }

    ghost predicate Valid()
      reads this
    {
      Owing(NOBODY)
    }

    constructor (nKey: Key, isRoutable: NetAddr -> bool)
      ensures Valid() && mapInfo == map[] && this.nKey == nKey
    {
      this.nKey, this.isRoutable := nKey, isRoutable;
      nIdCount, mapInfo, mapAddr, vRandom, nTried, nNew := 0, map[], map[], [], 0, 0;
      vvTried := seq(TRIED_BUCKET_COUNT, _ => []);
      vvNew := seq(NEW_BUCKET_COUNT, _ => {});
    }

    ghost function All(): AddrSer.Tables
      reads this
    {
      AddrSer.Tables(nIdCount, mapInfo, mapAddr, vRandom, nTried, vvTried, nNew, vvNew)
    }

    // Serialize.
    method Save() returns (d: AddrSer.Disk)
      requires Valid()
      ensures AddrSer.Valid(nKey, All()) && AddrSer.Written(nKey, All(), d)
    {
      hide TablesOk, AddrSer.Written;
      d := AddrSer.Write(nKey, AddrSer.Tables(nIdCount, mapInfo, mapAddr, vRandom, nTried, vvTried, nNew, vvNew));
    }

    // Unserialize, from what Save has written for the tables t.
    constructor Load(d: AddrSer.Disk, isRoutable: NetAddr -> bool, ghost t: AddrSer.Tables)
      requires AddrSer.Valid(d.nKey, t) && AddrSer.Written(d.nKey, t, d)
      ensures Valid() && nKey == d.nKey && this.isRoutable == isRoutable
      ensures AddrSer.Renamed(t, All(), AddrSer.FileIds(t))
    {
      hide TablesOk, AddrSer.Written, AddrSer.Renamed;
      var t', nLost := AddrSer.Read(d, d.nKey, t);
      nKey, this.isRoutable := d.nKey, isRoutable;
      nIdCount, mapInfo, mapAddr, vRandom := t'.nIdCount, t'.mapInfo, t'.mapAddr, t'.vRandom;
      nTried, vvTried, nNew, vvNew := t'.nTried, t'.vvTried, t'.nNew, t'.vvNew;
    }

    // Find: the id of an address.
    method Find(ip: NetAddr) returns (found: bool, nId: int)
      requires AddrOk(mapInfo, mapAddr)
      ensures found ==> ip in mapAddr && nId == mapAddr[ip] && nId in mapInfo && mapInfo[nId].svc.ip == ip
      ensures !found ==> ip !in mapAddr && forall id | id in mapInfo :: mapInfo[id].svc.ip != ip
    {
      if ip !in mapAddr {
        return false, 0;
      }
      nId := mapAddr[ip];
      found := nId in mapInfo;
    }

    // Exchanges two positions of vRandom and their entries' record of them.
    method SwapRandom(nRndPos1: int, nRndPos2: int)
      requires RandomOk(mapInfo, vRandom)
      requires 0 <= nRndPos1 < |vRandom| && 0 <= nRndPos2 < |vRandom|
      modifies this`mapInfo, this`vRandom
      ensures RandomOk(mapInfo, vRandom) && OnlyMoved(old(mapInfo), mapInfo)
      ensures vRandom == old(vRandom)[nRndPos1 := old(vRandom)[nRndPos2]][nRndPos2 := old(vRandom)[nRndPos1]]
    {
      if nRndPos1 == nRndPos2 {
        return;
      }
      var nId1, nId2 := vRandom[nRndPos1], vRandom[nRndPos2];
      assert nId1 in mapInfo && nId2 in mapInfo;
      mapInfo := mapInfo[nId1 := mapInfo[nId1].(nRandomPos := nRndPos2)];
      mapInfo := mapInfo[nId2 := mapInfo[nId2].(nRandomPos := nRndPos1)];
      vRandom := vRandom[nRndPos1 := nId2][nRndPos2 := nId1];
    }

    // Takes an entry out of mapInfo and vRandom.
    method Forget(id: int)
      requires RandomOk(mapInfo, vRandom) && id in mapInfo
      modifies this`mapInfo, this`vRandom
      ensures RandomOk(mapInfo, vRandom) && |vRandom| == |old(vRandom)| - 1
      ensures mapInfo.Keys == old(mapInfo.Keys) - {id}
      ensures forall g | g in mapInfo :: Moved(old(mapInfo)[g], mapInfo[g])
    {
      SwapRandom(mapInfo[id].nRandomPos, |vRandom| - 1);
      vRandom := vRandom[..|vRandom| - 1];
      mapInfo := mapInfo - {id};
    }

    // Drops one reference to an entry of a new bucket, and the entry with its
    // last reference.  Entries disappear nowhere else.
    method Unref(nUBucket: int, id: int, ghost x: int)
      requires Owing(x) && 0 <= nUBucket < |vvNew| && id in vvNew[nUBucket] && id != x
      modifies this`mapInfo, this`mapAddr, this`vRandom, this`nNew, this`vvNew
      ensures Owing(x) && vvNew == old(vvNew)[nUBucket := old(vvNew)[nUBucket] - {id}]
      ensures Unreferenced(old(mapInfo), mapInfo, id)
      ensures forall g | g in mapInfo && g != id :: Moved(old(mapInfo)[g], mapInfo[g])
    {
      hide AddrOk, TriedOk, CountersOk, StatsOk;
      ghost var m := mapInfo;
      var info := mapInfo[id];
      info := info.(nRefCount := info.nRefCount - 1);
      mapInfo := mapInfo[id := info];
      RandomUpdate(m, vRandom, id, info);
      assert m[id].nRefCount >= 1 by { assert CountedOk(m[id], vvNew, id, x); }
      hide RandomOk, NewOk, CountedOk, TablesOk;
      if info.nRefCount == 0 {
        mapAddr := mapAddr - {info.svc.ip};
        nNew := nNew - 1;
        Forget(id);
      }
      TablesUnref(nKey, nIdCount, m, old(mapAddr), old(vRandom), nTried, vvTried, old(nNew), vvNew, x,
                  nUBucket, id, mapInfo, vRandom);
      vvNew := vvNew[nUBucket := vvNew[nUBucket] - {id}];
    }

    lemma BucketKnown(b: int, x: int)
      requires Owing(x) && 0 <= b < |vvNew|
      ensures forall g: int | g in vvNew[b] :: g in mapInfo && g >= 0 && !mapInfo[g].fInTried
      ensures |vvNew[b]| <= NEW_BUCKET_SIZE
    {
      hide RandomOk, AddrOk, TriedOk, CountersOk, CountedOk;
      forall g: int | g in vvNew[b] ensures g in mapInfo && g >= 0 && !mapInfo[g].fInTried {
        assert g in mapInfo;
        assert mapInfo[g].nLastTry >= 0;
      }
    }

    // Makes room in a new bucket: drops the first terrible entry, or else the
    // least recently seen of four; n holds their positions, drawn at random.
    method ShrinkNew(nUBucket: int, nNow: int, n: seq<nat>, ghost x: int) returns (r: int, ghost id: int)
      requires Owing(x) && 0 <= nUBucket < |vvNew| && vvNew[nUBucket] != {} && x !in vvNew[nUBucket]
      requires |n| == 4 && forall j | 0 <= j < 4 :: n[j] < |vvNew[nUBucket]|
      modifies this`mapInfo, this`mapAddr, this`vRandom, this`nNew, this`vvNew
      ensures Owing(x) && id in old(vvNew)[nUBucket]
      ensures vvNew == old(vvNew)[nUBucket := old(vvNew)[nUBucket] - {id}]
      ensures Unreferenced(old(mapInfo), mapInfo, id)
      ensures forall g | g in mapInfo && g != id :: Moved(old(mapInfo)[g], mapInfo[g])
      ensures var m, bucket := old(mapInfo), old(vvNew)[nUBucket];
        if r == 0 then
          m[id].IsTerrible(nNow) && forall g: int | g in bucket && g < id :: g in m && !m[g].IsTerrible(nNow)
        else
          && (forall g: int | g in bucket :: g in m && !m[g].IsTerrible(nNow))
          && |Listing(bucket)| == |bucket| && OldestAmong(m, Listing(bucket), n, id)
    {
      hide RandomOk, AddrOk, TriedOk, CountersOk, CountedOk;
      ghost var some: int := AnyOf(vvNew[nUBucket]);
      BucketKnown(nUBucket, x);
      hide NewOk, StatsOk, TablesOk, Unreferenced, Moved;
      var v := InOrder(vvNew[nUBucket]);
      AscendingSize(v, vvNew[nUBucket]);
      assert some in v;
      forall i | 0 <= i < |v| ensures v[i] in mapInfo && v[i] >= 0 {
        var g := v[i];
        assert g in v;
      }
      var it := FirstTerrible(mapInfo, v, nNow);
      if it < |v| {
        BelowInOrder(v, it);
        r, id := 0, v[it];
        Unref(nUBucket, v[it], x);
      } else {
        var nOldest := OldestOfFour(mapInfo, v, n);
        r, id := 1, nOldest;
        Unref(nUBucket, nOldest, x);
      }
    }

    // Shuffles the first few entries of a tried bucket and picks one of its
    // positions.
    method SelectTried(nKBucket: int) returns (nOldestPos: int)
      requires TriedOk(nKey, mapInfo, vvTried) && 0 <= nKBucket < |vvTried| && |vvTried[nKBucket]| > 0
      modifies this`vvTried
      ensures TriedOk(nKey, mapInfo, vvTried) && 0 <= nOldestPos < |vvTried[nKBucket]|
      ensures vvTried == old(vvTried)[nKBucket := vvTried[nKBucket]]
      ensures SameElements(old(vvTried)[nKBucket], vvTried[nKBucket])
    {
      var nOldest := -1;
      nOldestPos := -1;
      var i := 0;
      var vTried := vvTried[nKBucket];
      while i < TRIED_ENTRIES_INSPECT_ON_EVICT && i < |vTried|
        invariant vvTried == old(vvTried)
        invariant 0 <= i <= |vTried| && SameElements(vvTried[nKBucket], vTried) && Distinct(vTried)
        invariant if i == 0 then nOldest == -1 else 0 <= nOldestPos < |vTried|
        invariant nOldest != -1 ==> nOldest in vTried
      {
        var nPos: int :| i <= nPos < |vTried|;
        var nTemp := vTried[nPos];
        SwapKeeps(vTried, i, nPos);
        vTried := vTried[nPos := vTried[i]][i := nTemp];
        assert nTemp in vvTried[nKBucket];
        if nOldest == -1 || mapInfo[nTemp].nLastSuccess < mapInfo[nOldest].nLastSuccess {
          nOldest := nTemp;
          nOldestPos := nPos;
        }
        i := i + 1;
      }
      TriedOkPermute(nKey, mapInfo, vvTried, nKBucket, vTried);
      vvTried := vvTried[nKBucket := vTried];
    }

    // Moves an entry from the new buckets to its tried bucket; a full bucket
    // gives up one of its entries, which goes back to a new bucket.
    method MakeTried(nId: int, nOrigin: int) returns (ghost evicted: int)
      requires Valid() && nId in mapInfo && !mapInfo[nId].fInTried && mapInfo[nId].nLastSuccess > 0
      requires 0 <= nOrigin < |vvNew| && nId in vvNew[nOrigin]
      modifies this`mapInfo, this`nTried, this`vvTried, this`nNew, this`vvNew
      ensures Valid()
      ensures var m := old(mapInfo);
        if evicted == NOBODY then mapInfo == m[nId := ToTried(m[nId])]
        else evicted in m && evicted != nId && m[evicted].fInTried
             && nKey.TriedBucket(m[evicted].svc) == nKey.TriedBucket(m[nId].svc)
             && mapInfo == m[nId := ToTried(m[nId])][evicted := ToNew(m[evicted])]
      ensures var b := nKey.TriedBucket(old(mapInfo)[nId].svc);
        |old(vvTried)| == TRIED_BUCKET_COUNT && (evicted == NOBODY <==> |old(vvTried)[b]| < TRIED_BUCKET_SIZE)
    {
      hide RandomOk, AddrOk, CountersOk, StatsOk, Count, Distinct;
      var info := mapInfo[nId];
      EntryKnown(nKey, nIdCount, mapInfo, mapAddr, vRandom, nTried, vvTried, nNew, vvNew, nId);
      ghost var v := vvNew;
      var w, nRefCount := Sweep(vvNew, nId, info.nRefCount);
      assert nRefCount == 0;
      info := ToTried(info);
      var nKBucket := nKey.TriedBucket(info.svc);
      assert |vvTried| == TRIED_BUCKET_COUNT;
      if |vvTried[nKBucket]| < TRIED_BUCKET_SIZE {
        hide TriedOk, NewOk, TablesOk;
        TablesPush(nKey, nIdCount, mapInfo, mapAddr, vRandom, nTried, vvTried, nNew, v, w, nId);
        vvTried := vvTried[nKBucket := vvTried[nKBucket] + [nId]];
        nTried := nTried + 1;
        vvNew, nNew := w, nNew - 1;
        mapInfo := mapInfo[nId := info];
        evicted := NOBODY;
      } else {
        evicted := Evict(nId, nOrigin, w);
      }
    }

    // The second half of MakeTried, for a full tried bucket; w is vvNew
    // without nId.
    method Evict(nId: int, nOrigin: int, w: seq<set<int>>) returns (ghost e: int)
      requires Valid() && nId in mapInfo && !mapInfo[nId].fInTried && mapInfo[nId].nLastSuccess > 0
      requires 0 <= nOrigin < |vvNew| && nId in vvNew[nOrigin] && Swept(vvNew, w, nId)
      requires |vvTried| == TRIED_BUCKET_COUNT && |vvTried[nKey.TriedBucket(mapInfo[nId].svc)]| > 0
      modifies this`mapInfo, this`vvTried, this`vvNew
      ensures Valid()
      ensures var m := old(mapInfo);
        && e in m && e != nId && e != NOBODY && m[e].fInTried
        && nKey.TriedBucket(m[e].svc) == nKey.TriedBucket(m[nId].svc)
        && mapInfo == m[nId := ToTried(m[nId])][e := ToNew(m[e])]
    {
      hide RandomOk, AddrOk, CountersOk, StatsOk, Count, Distinct, CountedOk;
      var nKBucket := nKey.TriedBucket(mapInfo[nId].svc);
      assert |w| == NEW_BUCKET_COUNT && |w[nOrigin]| < NEW_BUCKET_SIZE by { Shrunk(vvNew[nOrigin], nId); }
      hide NewOk;
      ghost var t := vvTried;
      var nPos := SelectTried(nKBucket);
      PermuteTables(nKey, nIdCount, mapInfo, mapAddr, vRandom, nTried, t, nNew, vvNew, nKBucket, vvTried[nKBucket]);
      var nOld := vvTried[nKBucket][nPos];
      assert nOld in vvTried[nKBucket];
      e := nOld;
      EntryKnown(nKey, nIdCount, mapInfo, mapAddr, vRandom, nTried, vvTried, nNew, vvNew, nOld);
      hide TriedOk;
      var nUBucket := nKey.NewBucket(mapInfo[nOld].svc, mapInfo[nOld].source);
      // back where it belongs, or else to the bucket nId came from, which has room
      var c := if |w[nUBucket]| < NEW_BUCKET_SIZE then nUBucket else nOrigin;
      TablesReplace(nKey, nIdCount, mapInfo, mapAddr, vRandom, nTried, vvTried, nNew, vvNew, w, nId, nPos, c);
      hide TablesOk;
      mapInfo := mapInfo[nId := ToTried(mapInfo[nId])][nOld := ToNew(mapInfo[nOld])];
      vvNew := w[c := w[c] + {nOld}];
      vvTried := vvTried[nKBucket := vvTried[nKBucket][nPos := nId]];
    }

    // Marks an entry good, and moves it to the tried table.
    method Good_(svc: Service, nTime: int)
      requires Valid() && nTime > 0
      modifies this`mapInfo, this`nTried, this`vvTried, this`nNew, this`vvNew
      ensures Valid() && mapInfo.Keys == old(mapInfo.Keys)
      ensures var m := old(mapInfo); forall id | id in m ::
        if m[id].svc == svc then
          mapInfo[id] == m[id].(nLastSuccess := nTime, nLastTry := nTime, nTime := ToU32(nTime), nAttempts := 0,
                                nRefCount := 0, fInTried := true)
        else mapInfo[id] == m[id]
             || (m[id].fInTried && mapInfo[id] == m[id].(nRefCount := 1, fInTried := false))
      ensures (forall id | id in old(mapInfo) :: old(mapInfo)[id].svc != svc) ==>
        mapInfo == old(mapInfo) && vvTried == old(vvTried) && vvNew == old(vvNew)
    {
      hide RandomOk, TriedOk, NewOk, CountersOk, AddrOk, StatsOk, TablesOk;
      RandomPart(nKey, nIdCount, mapInfo, mapAddr, vRandom, nTried, vvTried, nNew, vvNew);
      ghost var m := mapInfo;
      var found, nId := Find(svc.ip);
      OnlyOwner(m, mapAddr, svc);
      if !found || mapInfo[nId].svc != svc {
        return;
      }
      OneOwner(m, mapAddr, nId);
      TriedUncounted(nKey, nIdCount, m, mapAddr, vRandom, nTried, vvTried, nNew, vvNew, nId);
      var info := mapInfo[nId].(nLastSuccess := nTime, nLastTry := nTime, nTime := ToU32(nTime), nAttempts := 0);
      TablesSame(nKey, nIdCount, m, mapAddr, vRandom, nTried, vvTried, nNew, vvNew, nId, info);
      mapInfo := mapInfo[nId := info];
      if info.fInTried {
        return;
      }
      EntryKnown(nKey, nIdCount, mapInfo, mapAddr, vRandom, nTried, vvTried, nNew, vvNew, nId);
      var nUBucket := FindBucket(vvNew, nId);
      var evicted := MakeTried(nId, nUBucket);
    }

    // Marks an entry as attempted to connect.
    method Attempt_(svc: Service, nTime: int)
      requires Valid() && nTime >= 0
      modifies this`mapInfo
      ensures Valid() && mapInfo.Keys == old(mapInfo.Keys)
      ensures var m := old(mapInfo); forall id | id in m ::
        mapInfo[id] == if m[id].svc == svc then m[id].(nLastTry := nTime, nAttempts := m[id].nAttempts + 1) else m[id]
    {
      hide RandomOk, TriedOk, NewOk, CountersOk;
      var found, nId := Find(svc.ip);
      if !found || mapInfo[nId].svc != svc {
        return;
      }
      OneOwner(mapInfo, mapAddr, nId);
      var info := mapInfo[nId].(nLastTry := nTime, nAttempts := mapInfo[nId].nAttempts + 1);
      TablesSame(nKey, nIdCount, mapInfo, mapAddr, vRandom, nTried, vvTried, nNew, vvNew, nId, info);
      mapInfo := mapInfo[nId := info];
    }

    // Marks an entry as currently connected to.
    method Connected_(svc: Service, nTime: int)
      requires Valid()
      modifies this`mapInfo
      ensures Valid() && mapInfo.Keys == old(mapInfo.Keys)
      ensures var m := old(mapInfo); forall id | id in m ::
        mapInfo[id] ==
          if m[id].svc == svc && nTime - m[id].nTime > 20 * 60 then m[id].(nTime := ToU32(nTime)) else m[id]
    {
      hide RandomOk, TriedOk, NewOk, CountersOk;
      var found, nId := Find(svc.ip);
      if !found || mapInfo[nId].svc != svc {
        return;
      }
      OneOwner(mapInfo, mapAddr, nId);
      var nUpdateInterval := 20 * 60;
      if nTime - mapInfo[nId].nTime > nUpdateInterval {
        var info := mapInfo[nId].(nTime := ToU32(nTime));
        TablesSame(nKey, nIdCount, mapInfo, mapAddr, vRandom, nTried, vvTried, nNew, vvNew, nId, info);
        mapInfo := mapInfo[nId := info];
      }
    }

    // Create: a new entry, already counted for the bucket that Add_ puts it
    // in.  Returns its id.
    method Create(addr: Address, source: NetAddr, nTime: nat) returns (nId: int)
      requires Valid() && addr.svc.ip !in mapAddr
      modifies this`nIdCount, this`mapInfo, this`mapAddr, this`vRandom, this`nNew
      ensures |vvNew| == NEW_BUCKET_COUNT && Owing(nId) && nId !in old(mapInfo)
      ensures nId == old(nIdCount) && nIdCount == nId + 1 && vRandom == old(vRandom) + [nId]
      ensures forall b | 0 <= b < |vvNew| :: nId !in vvNew[b]
      ensures mapInfo ==
        old(mapInfo)[nId := Info(addr.svc, addr.nServices, nTime, source, 0, 0, 0, 1, false, |old(vRandom)|)]
      ensures mapAddr == old(mapAddr)[addr.svc.ip := nId]
    {
      nId := nIdCount;
      var info := NewInfo(addr, source, nTime, 1, |vRandom|);
      TablesCreate(nKey, nIdCount, mapInfo, mapAddr, vRandom, nTried, vvTried, nNew, vvNew, info);
      hide TablesOk;
      nIdCount := nIdCount + 1;
      mapInfo := mapInfo[nId := info];
      mapAddr := mapAddr[addr.svc.ip := nId];
      vRandom := vRandom + [nId];
      nNew := nNew + 1;
    }

    // The update of a known entry in Add_: its new time and services, and
    // whether it may enter one more new bucket.  `lucky` is the stochastic
    // test.
    static function Refreshed(info: Info, addr: Address, nTimePenalty: int, nNow: int): Info {
      var fCurrentlyOnline := nNow - addr.nTime < 24 * 60 * 60;
      var nUpdateInterval := if fCurrentlyOnline then 60 * 60 else 24 * 60 * 60;
      var nTime :=
        if addr.nTime != 0 && (info.nTime == 0 || info.nTime < addr.nTime - nUpdateInterval - nTimePenalty)
        then ToU32(Max(0, addr.nTime - nTimePenalty)) else info.nTime;
      info.(nTime := nTime, nServices := info.nServices + addr.nServices)
    }

    // The same rule on its own: what changes of an entry, and when.
    static lemma RefreshRule(info: Info, addr: Address, nTimePenalty: int, nNow: int)
      ensures var was, now, seen := info.nTime, Refreshed(info, addr, nTimePenalty, nNow).nTime, addr.nTime;
        var age, gain := nNow - seen, seen - was - nTimePenalty;
        && (seen == 0 ==> now == was)
        && (was != 0 && age < 86400 && gain <= 3600 ==> now == was)
        && (was != 0 && age >= 86400 && gain <= 86400 ==> now == was)
        && (seen != 0 && (was == 0 || gain > 86400 || (age < 86400 && gain > 3600)) ==>
              && (seen <= nTimePenalty ==> now == 0)
              && (nTimePenalty <= seen < 0x1_0000_0000 + nTimePenalty ==> now == seen - nTimePenalty))
      ensures var r := Refreshed(info, addr, nTimePenalty, nNow);
        r == info.(nTime := r.nTime, nServices := info.nServices + addr.nServices)
    {
    }

    static predicate MayMultiply(info: Info, addr: Address) {
      && addr.nTime != 0 && (info.nTime == 0 || addr.nTime > info.nTime)
      && !info.fInTried && info.nRefCount != NEW_BUCKETS_PER_ADDRESS
    }

    // Adds an address to the new table: a new one always, a known one to at
    // most one more bucket.  Returns whether the address was new.
    method Add_(addr: Address, source: NetAddr, nTimePenalty: int, nNow: int) returns (fNew: bool, ghost gone: int)
      requires Valid()
      modifies this`nIdCount, this`mapInfo, this`mapAddr, this`vRandom, this`nNew, this`vvNew
      ensures Valid()
      ensures fNew == (isRoutable(addr.svc.ip) && addr.svc.ip !in old(mapAddr))
      ensures isRoutable(addr.svc.ip) ==> addr.svc.ip in mapAddr
      ensures !isRoutable(addr.svc.ip) ==> mapInfo == old(mapInfo) && vvNew == old(vvNew) && vRandom == old(vRandom)
      // a known entry is refreshed, and may enter one more bucket
      ensures isRoutable(addr.svc.ip) && addr.svc.ip in old(mapAddr) ==>
        var nId := old(mapAddr)[addr.svc.ip];
        && nId in old(mapInfo) && nId in mapInfo
        && var info := Refreshed(old(mapInfo)[nId], addr, nTimePenalty, nNow);
           var b := nKey.NewBucket(info.svc, source);
           if vvNew == old(vvNew) then mapInfo == old(mapInfo)[nId := info] && gone == NOBODY
           else
             && MayMultiply(info, addr) && Moved(info.(nRefCount := info.nRefCount + 1), mapInfo[nId])
             && |old(vvNew)| == NEW_BUCKET_COUNT && nId !in old(vvNew)[b]
             && vvNew == old(vvNew)[b := old(vvNew)[b] - {gone} + {nId}]
      // its time follows a report that is newer by more than an hour or, if the
      // report is a day old, by more than a day; it is taken less the penalty
      ensures isRoutable(addr.svc.ip) && addr.svc.ip in old(mapAddr) ==>
        var nId := old(mapAddr)[addr.svc.ip];
        var was, now, seen := old(mapInfo)[nId].nTime, mapInfo[nId].nTime, addr.nTime;
        var age, gain := nNow - seen, seen - was - nTimePenalty;
        && (seen == 0 ==> now == was)
        && (was != 0 && age < 86400 && gain <= 3600 ==> now == was)
        && (was != 0 && age >= 86400 && gain <= 86400 ==> now == was)
        && (seen != 0 && (was == 0 || gain > 86400 || (age < 86400 && gain > 3600)) ==>
              && (seen <= nTimePenalty ==> now == 0)
              && (nTimePenalty <= seen < 0x1_0000_0000 + nTimePenalty ==> now == seen - nTimePenalty))
      // its services add up, and only newer information gives it another bucket
      ensures isRoutable(addr.svc.ip) && addr.svc.ip in old(mapAddr) ==>
        var o, w := old(mapInfo)[old(mapAddr)[addr.svc.ip]], mapInfo[old(mapAddr)[addr.svc.ip]];
        && w.nServices == o.nServices + addr.nServices
        && (vvNew != old(vvNew) ==>
              && addr.nTime != 0 && (w.nTime == 0 || addr.nTime > w.nTime)
              && !o.fInTried && o.nRefCount < NEW_BUCKETS_PER_ADDRESS && w.nRefCount == o.nRefCount + 1)
      // a new one gets the next id and goes into the bucket of its source
      ensures fNew ==>
        var nId, b := old(nIdCount), nKey.NewBucket(addr.svc, source);
        && mapAddr[addr.svc.ip] == nId && nId !in old(mapInfo) && nId in mapInfo
        && |old(vvNew)| == NEW_BUCKET_COUNT && vvNew == old(vvNew)[b := old(vvNew)[b] - {gone} + {nId}]
      // its fields are those reported, the time less the penalty
      ensures fNew ==>
        var info := mapInfo[old(nIdCount)];
        && info == Info(addr.svc, addr.nServices, info.nTime, source, 0, 0, 0, 1, false, info.nRandomPos)
        && (addr.nTime <= nTimePenalty ==> info.nTime == 0)
        && (nTimePenalty <= addr.nTime < 0x1_0000_0000 + nTimePenalty ==> info.nTime == addr.nTime - nTimePenalty)
      // at most one other entry loses a reference, in a full bucket
      ensures forall id | id in old(mapInfo) && id != gone && old(mapInfo)[id].svc.ip != addr.svc.ip ::
        id in mapInfo && Moved(old(mapInfo)[id], mapInfo[id])
      ensures gone != NOBODY ==>
        && gone in old(mapInfo) && !old(mapInfo)[gone].fInTried && old(mapInfo)[gone].svc.ip != addr.svc.ip
        && exists b | 0 <= b < |old(vvNew)| :: gone in old(vvNew)[b] && |old(vvNew)[b]| == NEW_BUCKET_SIZE
    {
      hide RandomOk, TriedOk, NewOk, CountersOk, AddrOk, StatsOk, Refreshed, ToU32;
      gone := NOBODY;
      if !isRoutable(addr.svc.ip) {
        return false, gone;
      }
      var found, nId := Find(addr.svc.ip);
      if found {
        fNew := false;
        OneOwner(mapInfo, mapAddr, nId);
        TriedUncounted(nKey, nIdCount, mapInfo, mapAddr, vRandom, nTried, vvTried, nNew, vvNew, nId);
        StatsOf(nKey, nIdCount, mapInfo, mapAddr, vRandom, nTried, vvTried, nNew, vvNew, nId);
        var info := Refreshed(mapInfo[nId], addr, nTimePenalty, nNow);
        RefreshRule(mapInfo[nId], addr, nTimePenalty, nNow);
        TablesSame(nKey, nIdCount, mapInfo, mapAddr, vRandom, nTried, vvTried, nNew, vvNew, nId, info);
        hide TablesOk;
        mapInfo := mapInfo[nId := info];
        if !MayMultiply(info, addr) {
          return;
        }
        // every reference it has halves the chance of one more
        var nFactor := 1;
        for n := 0 to info.nRefCount
          invariant nFactor >= 1
        {
          nFactor := nFactor * 2;
        }
        var nRandom: int :| 0 <= nRandom < nFactor;
        if nFactor > 1 && nRandom != 0 {
          return;
        }
        var nUBucket := nKey.NewBucket(info.svc, source);
        EntryKnown(nKey, nIdCount, mapInfo, mapAddr, vRandom, nTried, vvTried, nNew, vvNew, nId);
        if nId !in vvNew[nUBucket] {
          TablesOwe(nKey, nIdCount, mapInfo, mapAddr, vRandom, nTried, vvTried, nNew, vvNew, nId);
          mapInfo := mapInfo[nId := info.(nRefCount := info.nRefCount + 1)];
          gone := Store(nUBucket, nId, nNow);
        }
      } else {
        fNew := true;
        SmallU32(Max(0, addr.nTime - nTimePenalty));
        nId := Create(addr, source, ToU32(Max(0, addr.nTime - nTimePenalty)));
        hide TablesOk;
        var nUBucket := nKey.NewBucket(addr.svc, source);
        gone := Store(nUBucket, nId, nNow);
      }
    }

    // Puts an already counted id into a new bucket, after making room.
    method Store(nUBucket: nat, nId: int, nNow: int) returns (ghost gone: int)
      requires Owing(nId) && nUBucket < NEW_BUCKET_COUNT && nId in mapInfo && !mapInfo[nId].fInTried
      requires |vvNew| == NEW_BUCKET_COUNT && nId !in vvNew[nUBucket]
      modifies this`mapInfo, this`mapAddr, this`vRandom, this`nNew, this`vvNew
      ensures Valid() && nId in mapInfo && mapInfo[nId].svc == old(mapInfo)[nId].svc
      ensures mapInfo[nId].svc.ip in mapAddr && mapAddr[mapInfo[nId].svc.ip] == nId
      ensures Moved(old(mapInfo)[nId], mapInfo[nId])
      ensures vvNew == old(vvNew)[nUBucket := old(vvNew)[nUBucket] - {gone} + {nId}]
      ensures gone == NOBODY ==> mapInfo == old(mapInfo) && NOBODY !in old(vvNew)[nUBucket]
      ensures gone != NOBODY ==> Unreferenced(old(mapInfo), mapInfo, gone)
      ensures forall id | id in old(mapInfo) && id != gone && id != nId ::
        id in mapInfo && Moved(old(mapInfo)[id], mapInfo[id])
      ensures gone != NOBODY ==>
        && gone in old(mapInfo) && gone != nId && !old(mapInfo)[gone].fInTried
        && gone in old(vvNew)[nUBucket] && |old(vvNew)[nUBucket]| == NEW_BUCKET_SIZE
    {
      hide TablesOk, RandomOk, AddrOk, TriedOk, NewOk, CountersOk, StatsOk, CountedOk, OldestAmong;
      gone := NOBODY;
      BucketKnown(nUBucket, nId);
      if |vvNew[nUBucket]| == NEW_BUCKET_SIZE {
        var n0: nat :| n0 < |vvNew[nUBucket]|;
        var n1: nat :| n1 < |vvNew[nUBucket]|;
        var n2: nat :| n2 < |vvNew[nUBucket]|;
        var n3: nat :| n3 < |vvNew[nUBucket]|;
        var r;
        r, gone := ShrinkNew(nUBucket, nNow, [n0, n1, n2, n3], nId);
        Shrunk(old(vvNew)[nUBucket], gone);
      }
      assert vvNew[nUBucket] == old(vvNew)[nUBucket] - {gone};
      TablesStore(nKey, nIdCount, mapInfo, mapAddr, vRandom, nTried, vvTried, nNew, vvNew, nId, nUBucket);
      EntryIndexed(nKey, nIdCount, mapInfo, mapAddr, vRandom, nTried, vvTried, nNew, vvNew, nId);
      vvNew := vvNew[nUBucket := vvNew[nUBucket] + {nId}];
    }

    // Several addresses at once: the front of vRandom after it was shuffled.
    method GetAddr_() returns (vAddr: seq<Address>)
      requires Valid()
      modifies this`mapInfo, this`vRandom
      ensures Valid() && OnlyMoved(old(mapInfo), mapInfo)
      ensures |vAddr| == Min(GETADDR_MAX_PCT * |vRandom| / 100, GETADDR_MAX)
      ensures forall i, j | 0 <= i < j < |vAddr| :: vAddr[i].svc.ip != vAddr[j].svc.ip
      ensures forall i | 0 <= i < |vAddr| ::
        && vAddr[i].svc.ip in mapAddr && mapAddr[vAddr[i].svc.ip] in old(mapInfo)
        && var info := old(mapInfo)[mapAddr[vAddr[i].svc.ip]];
           vAddr[i] == Address(info.svc, info.nServices, info.nTime)
    {
      RandomPart(nKey, nIdCount, mapInfo, mapAddr, vRandom, nTried, vvTried, nNew, vvNew);
      hide TablesOk, AddrOk, RandomOk, OnlyMoved, Moved, Picked;
      ghost var m, v := mapInfo, vRandom;
      var nNodes := Min(GETADDR_MAX_PCT * |vRandom| / 100, GETADDR_MAX);
      vAddr := [];
      assert Picked(m, vRandom, vAddr) by { PickedNone(m, vRandom); }
      for n := 0 to nNodes
        invariant RandomOk(mapInfo, vRandom) && OnlyMoved(m, mapInfo) && |vRandom| == |v| && |vAddr| == n
        invariant Picked(m, vRandom, vAddr)
      {
        var nRndPos: int :| n <= nRndPos < |vRandom|;
        ghost var before, order := mapInfo, vRandom;
        SwapRandom(n, nRndPos);
        MovedTwice(m, before, mapInfo);
        var id := vRandom[n];
        RandomAt(mapInfo, vRandom, n);
        MovedAt(m, mapInfo, id);
        PickedNext(m, order, nRndPos, vAddr);
        vAddr := vAddr + [AddressOf(mapInfo[id])];
      }
      ShuffledDistinct(m, mapInfo, mapAddr, vRandom, vAddr);
      TablesMoved(nKey, nIdCount, m, mapAddr, v, nTried, vvTried, nNew, vvNew, mapInfo, vRandom);
    }

    // Check() around every operation: the code it would report is 0, and the
    // check changes nothing.
    method Check() returns (err: int)
      requires Valid()
      ensures err == 0
    {
      hide TablesOk, CheckHolds;
      ValidChecks(nKey, nIdCount, mapInfo, mapAddr, vRandom, nTried, vvTried, nNew, vvNew);
      var mapAddr';
      err, mapAddr' := Check_(mapInfo, mapAddr, vRandom, nTried, vvTried, nNew, vvNew);
      assert mapAddr' == mapAddr;
    }

    method Handle(e: Event) returns (err: int)
      requires Valid() && !e.Restart?
      modifies this
      ensures Valid() && err == 0
    {
      hide *;
      match e {
        case Add(addr, source, nTimePenalty, nNow) =>
          var fNew, gone := Add_(addr, source, nTimePenalty, nNow);
        case Good(svc, nTime) =>
          if nTime > 0 { Good_(svc, nTime); }
        case Attempt(svc, nTime) =>
          if nTime >= 0 { Attempt_(svc, nTime); }
        case Connected(svc, nTime) =>
          Connected_(svc, nTime);
        case GetAddr =>
          var vAddr := GetAddr_();
      }
      err := Check();
    }
  }

  lemma RandomPart(k: Key, nIdCount: int, m: InfoMap, mapAddr: map<NetAddr, int>, vRandom: seq<int>, nTried: int,
                   vvTried: seq<seq<int>>, nNew: int, vvNew: seq<set<int>>)
    requires TablesOk(k, nIdCount, m, mapAddr, vRandom, nTried, vvTried, nNew, vvNew, NOBODY)
    ensures RandomOk(m, vRandom) && AddrOk(m, mapAddr) && OnlyMoved(m, m)
  {
    hide RandomOk, AddrOk, TriedOk, NewOk, CountersOk, StatsOk;
  }

  lemma RandomAt(m: InfoMap, vRandom: seq<int>, i: nat)
    requires RandomOk(m, vRandom) && i < |vRandom|
    ensures vRandom[i] in m
  {
  }

  lemma MovedTwice(m: InfoMap, m1: InfoMap, m2: InfoMap)
    requires OnlyMoved(m, m1) && OnlyMoved(m1, m2)
    ensures OnlyMoved(m, m2)
  {
    forall id | id in m2 ensures Moved(m[id], m2[id]) {
      assert id in m2.Keys && id in m1;
    }
  }

  lemma MovedAt(m: InfoMap, m': InfoMap, id: int)
    requires OnlyMoved(m, m') && id in m'
    ensures id in m && AddressOf(m[id]) == AddressOf(m'[id])
  {
    assert id in m'.Keys && Moved(m[id], m'[id]);
  }

  function AddressOf(info: Info): Address { Address(info.svc, info.nServices, info.nTime) }

  function Min(a: int, b: int): int { if a < b then a else b }

  // vAddr lists the entries at the front of vRandom.
  ghost predicate Picked(m: InfoMap, vRandom: seq<int>, vAddr: seq<Address>) {
    && |vAddr| <= |vRandom|
    && forall i | 0 <= i < |vAddr| :: vRandom[i] in m && vAddr[i] == AddressOf(m[vRandom[i]])
  }

  lemma PickedNone(m: InfoMap, order: seq<int>)
    ensures Picked(m, order, [])
  {
  }

  lemma PickedNext(m: InfoMap, order: seq<int>, p: nat, vAddr: seq<Address>)
    requires Picked(m, order, vAddr) && |vAddr| <= p < |order| && order[p] in m
    ensures var n := |vAddr|; var v := order[n := order[p]][p := order[n]];
      v[n] == order[p] && Picked(m, v, vAddr + [AddressOf(m[order[p]])])
  {
  }

  lemma ShuffledDistinct(m: InfoMap, m': InfoMap, mapAddr: map<NetAddr, int>, vRandom: seq<int>, vAddr: seq<Address>)
    requires AddrOk(m, mapAddr) && RandomOk(m', vRandom)
    requires Picked(m, vRandom, vAddr)
    ensures forall i, j | 0 <= i < j < |vAddr| :: vAddr[i].svc.ip != vAddr[j].svc.ip
    ensures forall i | 0 <= i < |vAddr| ::
      && vAddr[i].svc.ip in mapAddr && mapAddr[vAddr[i].svc.ip] in m
      && vAddr[i] == AddressOf(m[mapAddr[vAddr[i].svc.ip]])
  {
    forall i, j | 0 <= i < j < |vAddr| ensures vAddr[i].svc.ip != vAddr[j].svc.ip {
      assert vRandom[i] in m' && vRandom[j] in m';
      assert vRandom[i] != vRandom[j];
    }
    forall i | 0 <= i < |vAddr|
      ensures vAddr[i].svc.ip in mapAddr && mapAddr[vAddr[i].svc.ip] in m
      ensures vAddr[i] == AddressOf(m[mapAddr[vAddr[i].svc.ip]])
    {
      var id := vRandom[i];
      assert id in m && m[id].svc == vAddr[i].svc;
    }
  }

  // The calls into the address manager, with the clock readings they use.
  datatype Event =
    | Add(addr: Address, source: NetAddr, nTimePenalty: int, nNow: int)
    | Good(svc: Service, nTime: int)
    | Attempt(svc: Service, nTime: int)
    | Connected(svc: Service, nTime: int)
    | GetAddr
    | Restart

  // Saving a manager and loading it again: the same manager, its ids renamed.
  method RoundTrip(man: AddrMan) returns (man': AddrMan)
    requires man.Valid()
    ensures fresh(man') && man'.Valid() && man'.nKey == man.nKey
    ensures AddrSer.Renamed(man.All(), man'.All(), AddrSer.FileIds(man.All()))
  {
    hide TablesOk, AddrSer.Written, AddrSer.Renamed;
    var d := man.Save();
    AddrSer.KeyStored(man.nKey, man.All(), d);
    man' := new AddrMan.Load(d, man.isRoutable, man.All());
  }

  // Any sequence of calls and restarts on an empty manager: no assertion on
  // the way fails, and every check reports 0.
  method Run(nKey: Key, isRoutable: NetAddr -> bool, events: seq<Event>) returns (man: AddrMan, errs: seq<int>)
    ensures man.Valid() && |errs| == |events| && forall i | 0 <= i < |errs| :: errs[i] == 0
  {
    hide *;
    man := new AddrMan(nKey, isRoutable);
    errs := [];
    for i := 0 to |events|
      invariant fresh(man) && man.Valid()
      invariant |errs| == i && forall j | 0 <= j < i :: errs[j] == 0
    {
      var err := 0;
      if events[i].Restart? {
        man := RoundTrip(man);
        err := man.Check();
      } else {
        err := man.Handle(events[i]);
      }
      errs := errs + [err];
    }
  }

  // Assigning a 64-bit time to a 32-bit field.
  function ToU32(n: int): nat { n % 0x1_0000_0000 }

  lemma SmallU32(n: int)
    ensures 0 <= n < 0x1_0000_0000 ==> ToU32(n) == n
  {
  }

  lemma OnlyOwner(m: InfoMap, mapAddr: map<NetAddr, int>, svc: Service)
    requires AddrOk(m, mapAddr)
    ensures forall id, g | id in m && g in m && m[id].svc == svc && m[g].svc.ip == svc.ip :: g == id
  {
  }

  // Only one entry has a given address.
  lemma OneOwner(m: InfoMap, mapAddr: map<NetAddr, int>, nId: int)
    requires AddrOk(m, mapAddr) && nId in m
    ensures forall id | id in m && m[id].svc.ip == m[nId].svc.ip :: id == nId
  {
  }

  function Max(a: int, b: int): int { if a < b then b else a }

  lemma EntryIndexed(k: Key, nIdCount: int, m: InfoMap, mapAddr: map<NetAddr, int>, vRandom: seq<int>, nTried: int,
                     vvTried: seq<seq<int>>, nNew: int, vvNew: seq<set<int>>, id: int)
    requires TablesOk(k, nIdCount, m, mapAddr, vRandom, nTried, vvTried, nNew, vvNew, id) && id in m
    ensures m[id].svc.ip in mapAddr && mapAddr[m[id].svc.ip] == id
  {
    hide RandomOk, TriedOk, NewOk, CountersOk, StatsOk;
  }

  lemma StatsOf(k: Key, nIdCount: int, m: InfoMap, mapAddr: map<NetAddr, int>, vRandom: seq<int>, nTried: int,
                vvTried: seq<seq<int>>, nNew: int, vvNew: seq<set<int>>, id: int)
    requires TablesOk(k, nIdCount, m, mapAddr, vRandom, nTried, vvTried, nNew, vvNew, NOBODY) && id in m
    ensures m[id].nLastTry >= 0 && m[id].nLastSuccess >= 0 && (m[id].fInTried ==> m[id].nLastSuccess > 0)
  {
    hide RandomOk, AddrOk, TriedOk, NewOk, CountersOk;
  }

  lemma TriedUncounted(k: Key, nIdCount: int, m: InfoMap, mapAddr: map<NetAddr, int>, vRandom: seq<int>, nTried: int,
                       vvTried: seq<seq<int>>, nNew: int, vvNew: seq<set<int>>, id: int)
    requires TablesOk(k, nIdCount, m, mapAddr, vRandom, nTried, vvTried, nNew, vvNew, NOBODY) && id in m
    ensures if m[id].fInTried then m[id].nRefCount == 0 else 1 <= m[id].nRefCount <= NEW_BUCKETS_PER_ADDRESS
  {
    hide RandomOk, AddrOk, TriedOk, CountersOk;
    assert CountedOk(m[id], vvNew, id, NOBODY);
  }

  function Slot(n: nat, nRnd: nat): (b: nat)
    ensures b < NEW_BUCKET_COUNT
  {
    (n + nRnd) % NEW_BUCKET_COUNT
  }

  // A new bucket that holds nId, searched from a random start.  There is one,
  // so the exit for "no bucket is found" is never taken.
  method FindBucket(vvNew: seq<set<int>>, nId: int) returns (nUBucket: int)
    requires |vvNew| == NEW_BUCKET_COUNT && Count(vvNew, nId) > 0
    ensures 0 <= nUBucket < |vvNew| && nId in vvNew[nUBucket]
  {
    SomeBucket(vvNew, nId);
    ghost var home :| 0 <= home < |vvNew| && nId in vvNew[home];
    var nRnd: nat :| 0 <= nRnd < |vvNew|;
    ghost var turn: nat := if home >= nRnd then home - nRnd else home - nRnd + NEW_BUCKET_COUNT;
    assert turn < |vvNew| && Slot(turn, nRnd) == home;
    for n := 0 to |vvNew|
      invariant forall j: nat | j < n :: nId !in vvNew[Slot(j, nRnd)]
    {
      nUBucket := Slot(n, nRnd);
      if nId in vvNew[nUBucket] {
        return;
      }
    }
    assert false;
  }

  lemma EntryKnown(k: Key, nIdCount: int, m: InfoMap, mapAddr: map<NetAddr, int>, vRandom: seq<int>, nTried: int,
                   vvTried: seq<seq<int>>, nNew: int, vvNew: seq<set<int>>, id: int)
    requires TablesOk(k, nIdCount, m, mapAddr, vRandom, nTried, vvTried, nNew, vvNew, NOBODY) && id in m
    ensures 0 <= id < nIdCount && m[id].nRefCount == Count(vvNew, id) && |vvNew| == NEW_BUCKET_COUNT
  {
    hide RandomOk, AddrOk, TriedOk, CountersOk;
    assert CountedOk(m[id], vvNew, id, NOBODY);
  }

  // The loop of MakeTried over all new buckets.
  method Sweep(vvNew: seq<set<int>>, nId: int, nRefCount: int) returns (w: seq<set<int>>, n: int)
    ensures Swept(vvNew, w, nId) && n == nRefCount - Count(vvNew, nId)
  {
    w, n := vvNew, nRefCount;
    for b := 0 to |vvNew|
      invariant |w| == |vvNew| && forall c | 0 <= c < |w| :: w[c] == if c < b then vvNew[c] - {nId} else vvNew[c]
      invariant n == nRefCount - Count(vvNew[..b], nId)
    {
      assert vvNew[..b + 1][..b] == vvNew[..b];
      if nId in w[b] {
        w, n := w[b := w[b] - {nId}], n - 1;
      }
    }
    assert vvNew[..|vvNew|] == vvNew;
  }

  // The first deletable item.
  method FirstTerrible(m: InfoMap, v: seq<int>, nNow: int) returns (it: nat)
    requires forall i | 0 <= i < |v| :: v[i] in m
    ensures it <= |v| && forall i | 0 <= i < it :: !m[v[i]].IsTerrible(nNow)
    ensures it < |v| ==> m[v[it]].IsTerrible(nNow)
  {
    it := 0;
    while it < |v|
      invariant it <= |v| && forall i | 0 <= i < it :: !m[v[i]].IsTerrible(nNow)
    {
      if m[v[it]].IsTerrible(nNow) {
        return;
      }
      it := it + 1;
    }
  }

  // a was last seen before g; equal times go by id.
  ghost predicate SeenBefore(m: InfoMap, a: int, g: int) {
    a in m && g in m && (m[a].nTime < m[g].nTime || (m[a].nTime == m[g].nTime && a <= g))
  }

  // id is the least recently seen among the positions n of v.
  ghost predicate OldestAmong(m: InfoMap, v: seq<int>, n: seq<nat>, id: int) {
    && (exists j :: 0 <= j < |n| && n[j] < |v| && v[n[j]] == id)
    && forall j | 0 <= j < |n| :: n[j] < |v| && SeenBefore(m, id, v[n[j]])
  }

  // The least recently seen of the four.
  method OldestOfFour(m: InfoMap, v: seq<int>, n: seq<nat>) returns (nOldest: int)
    requires v != [] && Ascending(v) && forall i | 0 <= i < |v| :: v[i] in m && v[i] >= 0
    requires |n| == 4 && forall j | 0 <= j < 4 :: n[j] < |v|
    ensures nOldest in v && nOldest in m && OldestAmong(m, v, n, nOldest)
  {
    nOldest := -1;
    for nI := 0 to |v|
      invariant nOldest == -1 ==> forall j | 0 <= j < 4 :: n[j] >= nI
      invariant nOldest != -1 ==> nOldest in m && exists j :: 0 <= j < 4 && n[j] < nI && v[n[j]] == nOldest
      invariant nOldest != -1 ==> forall j | 0 <= j < 4 && n[j] < nI :: SeenBefore(m, nOldest, v[n[j]])
    {
      if nI == n[0] || nI == n[1] || nI == n[2] || nI == n[3] {
        if nOldest == -1 || m[v[nI]].nTime < m[nOldest].nTime {
          nOldest := v[nI];
        }
      }
    }
    assert nOldest != -1 by { assert n[0] < |v|; }
  }

  lemma BelowInOrder(v: seq<int>, i: nat)
    requires Ascending(v) && i < |v|
    ensures forall g | g in v && g < v[i] :: g in v[..i]
  {
  }

  lemma SwapKeeps(v: seq<int>, i: nat, j: nat)
    requires i < |v| && j < |v| && Distinct(v)
    ensures var w := v[j := v[i]][i := v[j]]; SameElements(v, w) && Distinct(w)
  {
    var w := v[j := v[i]][i := v[j]];
    forall id | id in v ensures id in w {
      var n :| 0 <= n < |v| && v[n] == id;
      assert w[if n == i then j else if n == j then i else n] == id;
    }
  }
}
