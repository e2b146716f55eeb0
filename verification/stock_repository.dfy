/** The `stock` table operations (`StockRepository`): filters, the keyed
    batch overwrite of ladders, and the reconciliation of a user's tracked
    assets with the assets they currently hold. */
module StockRepository {
  import opened Seqs
  import opened Schema

  /** `getStocksByUserId`: the rows of user `u`, in table order. */
  function GetStocksByUserId(t: StockTable, u: int): (r: StockTable)
    ensures forall s :: s in r <==> s in t && s.userId == u
  {
    Filter(t, (s: Stock) => s.userId == u)
  }

  /** `getStocksByUserIds`: the rows of any of the users `us`. */
  function GetStocksByUserIds(t: StockTable, us: seq<int>): (r: StockTable)
    ensures forall s :: s in r <==> s in t && s.userId in us
  {
    Filter(t, (s: Stock) => s.userId in us)
  }

  /** `getStockInByUserId`: the rows of user `u` whose asset is one of `ids`. */
  function GetStockInByUserId(t: StockTable, u: int, ids: seq<string>): (r: StockTable)
    ensures forall s :: s in r <==> s in t && s.userId == u && s.assetId in ids
  {
    Filter(t, (s: Stock) => s.userId == u && s.assetId in ids)
  }

  /** `removeStocksByUserId`: delete the rows of user `u` whose asset is one of `ids`. */
  function RemoveStocksByUserId(t: StockTable, u: int, ids: seq<string>): (r: StockTable)
    ensures forall s :: s in r <==> s in t && !(s.userId == u && s.assetId in ids)
  {
    Filter(t, (s: Stock) => !(s.userId == u && s.assetId in ids))
  }

  /** The rows `removeStocksByUserId` deletes are exactly the rows
      `getStockInByUserId` returns: together they make up the whole table. */
  lemma RemoveDeletesExactlyStockIn(t: StockTable, u: int, ids: seq<string>)
    ensures multiset(GetStockInByUserId(t, u, ids)) + multiset(RemoveStocksByUserId(t, u, ids))
      == multiset(t)
  {
    FilterSplit(t, (s: Stock) => s.userId == u && s.assetId in ids,
                   (s: Stock) => !(s.userId == u && s.assetId in ids));
  }

  /** The rows of every user other than `u`, in table order. */
  function Others(t: StockTable, u: int): StockTable {
    Filter(t, (s: Stock) => s.userId != u)
  }

  /** User `u` tracks asset `a` in table `t`. */
  ghost predicate Tracks(t: StockTable, u: int, a: string) {
    exists s :: s in t && s.userId == u && s.assetId == a
  }

  function AssetIds(rows: StockTable): (r: seq<string>)
    ensures |r| == |rows| && forall i :: 0 <= i < |rows| ==> r[i] == rows[i].assetId
  {
    seq(|rows|, i requires 0 <= i < |rows| => rows[i].assetId)
  }

  lemma {:induction false} FilterKeepsUniqueKeys(t: StockTable, p: Stock -> bool)
    requires UniqueStockKeys(t)
    ensures UniqueStockKeys(Filter(t, p))
  {
    if |t| > 0 {
      FilterKeepsUniqueKeys(t[1..], p);
      if p(t[0]) {
        var r := Filter(t, p);
        forall j | 0 < j < |r|
          ensures r[0].userId != r[j].userId || r[0].assetId != r[j].assetId
        {
          assert r[j] in t[1..];
        }
      }
    }
  }

  /** First step of `syncStocks`: delete the user's rows whose asset is no
      longer held, skipping the delete when there is nothing to delete. */
  function DeleteAbsent(t: StockTable, u: int, ids: seq<string>): (r: StockTable)
    ensures forall s :: s in r <==> s in t && (s.userId != u || s.assetId in ids)
    ensures Others(r, u) == Others(t, u)
    ensures UniqueStockKeys(t) ==> UniqueStockKeys(r)
  {
    var toDelete := Filter(t, (s: Stock) => s.userId == u && s.assetId !in ids);
    var doomed := AssetIds(toDelete);
    var r := if |toDelete| > 0 then RemoveStocksByUserId(t, u, doomed) else t;
    assert forall s :: s in t && s.userId == u ==> (s.assetId in doomed <==> s.assetId !in ids) by {
      forall s | s in t && s.userId == u
        ensures s.assetId in doomed <==> s.assetId !in ids
      {
        if s.assetId !in ids {
          assert s in toDelete;
          var k :| 0 <= k < |toDelete| && toDelete[k] == s;
          assert doomed[k] == s.assetId;
        }
        if s.assetId in doomed {
          var k :| 0 <= k < |doomed| && doomed[k] == s.assetId;
          assert toDelete[k] in toDelete;
        }
      }
    }
    if |toDelete| > 0 then
      FilterFilter(t, (s: Stock) => !(s.userId == u && s.assetId in doomed), (s: Stock) => s.userId != u);
      assert UniqueStockKeys(t) ==> UniqueStockKeys(r) by {
        if UniqueStockKeys(t) {
          FilterKeepsUniqueKeys(t, (s: Stock) => !(s.userId == u && s.assetId in doomed));
        }
      }
      r
    else
      assert forall s :: s in t && s.userId == u ==> s.assetId in ids;
      r
  }

  /** New rows for user `u`, one per asset, each with the default ladder. */
  function NewRows(u: int, assets: seq<string>, defaultRanges: seq<StockRange>): (r: StockTable)
    ensures |r| == |assets|
    ensures forall i :: 0 <= i < |r| ==> r[i] == Stock(u, assets[i], defaultRanges)
  {
    seq(|assets|, i requires 0 <= i < |assets| => Stock(u, assets[i], defaultRanges))
  }

  /** The assets user `u` tracks, in table order. */
  function TrackedAssets(t: StockTable, u: int): (r: seq<string>)
    requires UniqueStockKeys(t)
    ensures NoDuplicates(r)
    ensures forall a :: a in r <==> Tracks(t, u, a)
  {
    var rows := GetStocksByUserId(t, u);
    var r := AssetIds(rows);
    assert NoDuplicates(r) by {
      FilterKeepsUniqueKeys(t, (s: Stock) => s.userId == u);
      forall i, j | 0 <= i < j < |r|
        ensures r[i] != r[j]
      {
        assert rows[i] in rows && rows[j] in rows;
      }
    }
    assert forall a :: a in r <==> Tracks(t, u, a) by {
      forall a
        ensures a in r <==> Tracks(t, u, a)
      {
        if Tracks(t, u, a) {
          var s :| s in t && s.userId == u && s.assetId == a;
          assert s in rows;
          var k :| 0 <= k < |rows| && rows[k] == s;
          assert r[k] == a;
        }
        if a in r {
          var k :| 0 <= k < |r| && r[k] == a;
          assert rows[k] in rows;
        }
      }
    }
    r
  }

  /** The held assets user `u` does not track yet, in the order of `ids`. */
  function Missing(t: StockTable, u: int, ids: seq<string>): (r: seq<string>)
    requires UniqueStockKeys(t)
    ensures forall a :: a in r <==> a in ids && !Tracks(t, u, a)
  {
    var tracked := TrackedAssets(t, u);
    Filter(ids, (a: string) => a !in tracked)
  }

  /** When all of the user's rows hold assets in `ids`, equal counts mean the
      user already tracks every asset of `ids`. */
  lemma CountMatchConverges(t: StockTable, u: int, ids: seq<string>)
    requires UniqueStockKeys(t)
    requires NoDuplicates(ids)
    requires forall s :: s in t && s.userId == u ==> s.assetId in ids
    requires |GetStocksByUserId(t, u)| == |ids|
    ensures forall a :: Tracks(t, u, a) <==> a in ids
  {
    var tracked := TrackedAssets(t, u);
    assert |tracked| == |ids|;
    DistinctSameLength(tracked, ids);
  }

  /** Last step of `syncStocks`: the insert of the missing assets. */
  lemma InsertMissing(t: StockTable, u: int, ids: seq<string>, defaultRanges: seq<StockRange>)
    requires UniqueStockKeys(t)
    requires NoDuplicates(ids)
    requires forall s :: s in t && s.userId == u ==> s.assetId in ids
    ensures var r := t + NewRows(u, Missing(t, u, ids), defaultRanges);
      && UniqueStockKeys(r)
      && (forall a :: Tracks(r, u, a) <==> a in ids)
      && Others(r, u) == Others(t, u)
      && (forall a :: a in ids && !Tracks(t, u, a) ==> Stock(u, a, defaultRanges) in r)
  {
    var tracked := TrackedAssets(t, u);
    var missing := Missing(t, u, ids);
    var added := NewRows(u, missing, defaultRanges);
    var r := t + added;
    FilterNoDuplicates(ids, (a: string) => a !in tracked);
    forall i, j | 0 <= i < j < |r|
      ensures r[i].userId != r[j].userId || r[i].assetId != r[j].assetId
    {
      if j >= |t| && i < |t| {
        assert r[i] in t;
        if r[i].userId == u {
          assert Tracks(t, u, r[i].assetId);
          assert r[j].assetId == missing[j - |t|];
        }
      }
    }
    forall a | a in ids && !Tracks(t, u, a)
      ensures Stock(u, a, defaultRanges) in r
    {
      assert a in missing;
      var k :| 0 <= k < |missing| && missing[k] == a;
      assert r[|t| + k] == Stock(u, a, defaultRanges);
    }
    forall a | Tracks(r, u, a)
      ensures a in ids
    {
      var s :| s in r && s.userId == u && s.assetId == a;
      if s !in t {
        var k :| 0 <= k < |r| && r[k] == s;
        assert s == added[k - |t|];
      }
    }
    FilterConcat(t, added, (s: Stock) => s.userId != u);
    FilterNone(added, (s: Stock) => s.userId != u);
  }

  /** `syncStocks`: make user `u`'s tracked assets match the assets `ids` the
      user currently holds. Rows of absent assets are deleted; if the user
      then has as many rows as `ids` has entries nothing else happens,
      otherwise one row with the default ladder is inserted per asset not yet
      tracked. The database's uniqueness of (userId, assetId) and the
      distinctness of `ids` are what make the count check sound. */
  function SyncStocks(t: StockTable, u: int, ids: seq<string>, defaultRanges: seq<StockRange>)
    : (r: StockTable)
    requires UniqueStockKeys(t)
    requires NoDuplicates(ids)
    ensures UniqueStockKeys(r)
    ensures forall a :: Tracks(r, u, a) <==> a in ids
    ensures Others(r, u) == Others(t, u)
    ensures forall s :: s in t && s.userId == u && s.assetId in ids ==> s in r
    ensures forall a :: a in ids && !Tracks(t, u, a) ==> Stock(u, a, defaultRanges) in r
  {
    var kept := DeleteAbsent(t, u, ids);
    assert forall a :: Tracks(kept, u, a) ==> Tracks(t, u, a);
    if |GetStocksByUserId(kept, u)| == |ids| then
      CountMatchConverges(kept, u, ids);
      kept
    else
      InsertMissing(kept, u, ids, defaultRanges);
      kept + NewRows(u, Missing(kept, u, ids), defaultRanges)
  }

  /** A user whose tracked assets already are `ids` is left exactly as is. */
  lemma SyncOfSyncedIsIdentity(t: StockTable, u: int, ids: seq<string>, defaultRanges: seq<StockRange>)
    requires UniqueStockKeys(t)
    requires NoDuplicates(ids)
    requires forall a :: Tracks(t, u, a) <==> a in ids
    ensures SyncStocks(t, u, ids, defaultRanges) == t
  {
    NothingAbsent(t, u, ids);
    SyncedCountMatches(t, u, ids);
  }

  /** When every tracked asset is listed, the deletion step deletes nothing. */
  lemma NothingAbsent(t: StockTable, u: int, ids: seq<string>)
    requires forall a :: Tracks(t, u, a) ==> a in ids
    ensures DeleteAbsent(t, u, ids) == t
  {
    FilterNone(t, (s: Stock) => s.userId == u && s.assetId !in ids);
  }

  /** A user tracking exactly the distinct assets `ids` has one row per
      listed asset. */
  lemma SyncedCountMatches(t: StockTable, u: int, ids: seq<string>)
    requires UniqueStockKeys(t)
    requires NoDuplicates(ids)
    requires forall a :: Tracks(t, u, a) <==> a in ids
    ensures |GetStocksByUserId(t, u)| == |ids|
  {
    var fromDb := GetStocksByUserId(t, u);
    var tracked := AssetIds(fromDb);
    FilterKeepsUniqueKeys(t, (s: Stock) => s.userId == u);
    forall i, j | 0 <= i < j < |tracked|
      ensures tracked[i] != tracked[j]
    {
      assert fromDb[i] in fromDb && fromDb[j] in fromDb;
    }
    forall a | a in ids
      ensures a in tracked
    {
      var s :| s in t && s.userId == u && s.assetId == a;
      assert s in fromDb;
      var k :| 0 <= k < |fromDb| && fromDb[k] == s;
      assert tracked[k] == a;
    }
    forall a | a in tracked
      ensures a in ids
    {
      var k :| 0 <= k < |tracked| && tracked[k] == a;
      assert fromDb[k] in fromDb;
      assert Tracks(t, u, a);
    }
    DistinctCardinality(tracked);
    DistinctCardinality(ids);
    assert (set a | a in tracked) == (set a | a in ids);
  }

  /** Syncing twice with the same holdings changes nothing the second time. */
  lemma SyncIdempotent(t: StockTable, u: int, ids: seq<string>, defaultRanges: seq<StockRange>)
    requires UniqueStockKeys(t)
    requires NoDuplicates(ids)
    ensures var once := SyncStocks(t, u, ids, defaultRanges);
      SyncStocks(once, u, ids, defaultRanges) == once
  {
    SyncOfSyncedIsIdentity(SyncStocks(t, u, ids, defaultRanges), u, ids, defaultRanges);
  }

  /** One element of the `updateStockRanges` batch. */
  datatype RangeUpdate = RangeUpdate(userId: int, assetId: string, newRanges: seq<StockRange>)

  predicate Targets(v: RangeUpdate, s: Stock) {
    v.userId == s.userId && v.assetId == s.assetId
  }

  /** No two batch elements address the same row. */
  ghost predicate DistinctTargets(batch: seq<RangeUpdate>) {
    forall i, j :: 0 <= i < j < |batch| ==>
      batch[i].userId != batch[j].userId || batch[i].assetId != batch[j].assetId
  }

  /** One `update ... set ranges where userId and assetId` statement. */
  function UpdateOne(t: StockTable, v: RangeUpdate): (r: StockTable)
    ensures |r| == |t|
  {
    seq(|t|, i requires 0 <= i < |t| => if Targets(v, t[i]) then t[i].(ranges := v.newRanges) else t[i])
  }

  /** `updateStockRanges`: the batch's statements, applied one after another
      inside the transaction. Every addressed row gets its new ladder, every
      other row is unchanged, and no row is created or removed. */
  function UpdateStockRanges(t: StockTable, batch: seq<RangeUpdate>): (r: StockTable)
    requires DistinctTargets(batch)
    ensures |r| == |t|
    ensures forall i :: 0 <= i < |t| ==> r[i].userId == t[i].userId && r[i].assetId == t[i].assetId
    ensures forall i, k :: 0 <= i < |t| && 0 <= k < |batch| && Targets(batch[k], t[i]) ==>
      r[i].ranges == batch[k].newRanges
    ensures forall i :: 0 <= i < |t| && (forall k :: 0 <= k < |batch| ==> !Targets(batch[k], t[i])) ==>
      r[i] == t[i]
    decreases |batch|
  {
    if |batch| == 0 then t
    else
      var t1 := UpdateOne(t, batch[0]);
      var r := UpdateStockRanges(t1, batch[1..]);
      assert forall i, k :: 0 <= i < |t| && 0 < k < |batch| && Targets(batch[k], t[i]) ==>
        Targets(batch[1..][k - 1], t1[i]);
      assert forall i :: 0 <= i < |t| && Targets(batch[0], t[i]) ==>
        forall k :: 0 <= k < |batch| - 1 ==> !Targets(batch[1..][k], t1[i]);
      r
  }

  /** The keys of the table never change under `updateStockRanges`, so the
      uniqueness of (userId, assetId) is kept. */
  lemma UpdateKeepsUniqueKeys(t: StockTable, batch: seq<RangeUpdate>)
    requires DistinctTargets(batch)
    requires UniqueStockKeys(t)
    ensures UniqueStockKeys(UpdateStockRanges(t, batch))
  {
  }
}
