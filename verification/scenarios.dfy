/**
 Properties that relate several repository operations: lookups after
 writes, the order of listings, and the relation between `FindStorage`
 and `FindStorageList`.
 */
module Scenarios {
  import opened Model
  import opened Engine
  import opened Semantics
  import opened Repository

  function ById(id: int): StorageFind {
    StorageFind(Some(id), None)
  }

  const Everything: StorageFind := StorageFind(None, None)

  /** FindStorage is the head of the FindStorageList result: NotFound on an empty list, the same error on a failure. */
  lemma FindIsHeadOfList(db: Table, find: StorageFind, faults: Faults, format: Cause -> Error)
    ensures var list := FindStorageList(db, find, faults, format).result;
            var one := FindStorage(db, find, faults, format).result;
      && (list.Err? ==> one == Err(list.error))
      && (list.Ok? && list.value == [] ==> one == Err(NotFound))
      && (list.Ok? && list.value != [] ==> one == Ok(list.value[0]))
  {
    var list := FindStorageList(db, find, faults, format).result;
    var one := FindStorage(db, find, faults, format).result;
    if list.Ok? && list.value != [] {
      var top := list.value[0];
      assert forall i :: 0 <= i < |list.value| ==> list.value[i].id <= top.id;
      assert one.Ok?;
      assert db[one.value.id] == one.value;
      assert one.value in list.value;
    }
  }

  /** Looking up a row just created, by its id, returns exactly the created entity. */
  lemma FindAfterCreate(db: Table, c: StorageCreate, id: int, format: Cause -> Error)
    requires id !in db
    ensures var created := CreateStorage(db, c, id, NoFaults, format);
      && created.result.Ok?
      && FindStorage(created.table, ById(id), NoFaults, format).result == created.result
  {
    var created := CreateStorage(db, c, id, NoFaults, format);
    var found := FindStorage(created.table, ById(id), NoFaults, format).result;
    assert ById(id).Matches(created.table[id]);
    assert found.Ok?;
    assert found.value.id == id;
  }

  /** Looking up an id no row has fails with NotFound. */
  lemma FindUnusedId(db: Table, id: int, format: Cause -> Error)
    requires id !in db
    ensures FindStorage(db, ById(id), NoFaults, format).result == Err(NotFound)
  {
    forall k | k in db
      ensures !ById(id).Matches(db[k])
    {
      assert db[k].id == k;
    }
  }

  /** After a successful delete, looking the id up fails with NotFound. */
  lemma FindAfterDelete(db: Table, id: int, format: Cause -> Error)
    requires id in db
    ensures var deleted := DeleteStorage(db, StorageDelete(id), NoFaults, format);
      && deleted.result.Ok?
      && FindStorage(deleted.table, ById(id), NoFaults, format).result == Err(NotFound)
  {
    var deleted := DeleteStorage(db, StorageDelete(id), NoFaults, format);
    FindUnusedId(deleted.table, id, format);
  }

  /** Creating a row and deleting it again restores the table. */
  lemma CreateThenDelete(db: Table, c: StorageCreate, id: int, format: Cause -> Error)
    requires id !in db
    ensures var created := CreateStorage(db, c, id, NoFaults, format);
      DeleteStorage(created.table, StorageDelete(id), NoFaults, format) == Response(Ok(()), db)
  {
    var created := CreateStorage(db, c, id, NoFaults, format);
    assert created.table - {id} == db;
  }

  /** Applying the same patch twice leaves the same result and table as applying it once. */
  lemma PatchIdempotent(db: Table, p: StoragePatch, format: Cause -> Error)
    ensures var once := PatchStorage(db, p, NoFaults, format);
      PatchStorage(once.table, p, NoFaults, format) == once
  {
    var once := PatchStorage(db, p, NoFaults, format);
    if p.id in db && p.HasChange() {
      var twice := PatchStorage(once.table, p, NoFaults, format);
      var row := once.result.value;
      assert twice.result.Ok?;
      var again := twice.result.value;
      forall c ensures again.Get(c) == row.Get(c) {
        assert row.Get(c) == p.Get(c).GetOr(db[p.id].Get(c));
      }
      SameColumnsSameRow(again, row);
    } else {
      assert once.table == db;
    }
  }

  /** The row a fault-free create stores. */
  function Created(c: StorageCreate, id: int): Storage {
    Storage(id, c.name, c.endPoint, c.region, c.accessKey, c.secretKey, c.bucket, c.urlPrefix)
  }

  /** A fault-free create returns and stores exactly the row built from the create fields. */
  lemma CreateFaultFree(db: Table, c: StorageCreate, id: int, format: Cause -> Error)
    requires id !in db
    ensures CreateStorage(db, c, id, NoFaults, format) == Response(Ok(Created(c, id)), db[id := Created(c, id)])
  {
    var got := CreateStorage(db, c, id, NoFaults, format).result.value;
    var want := Created(c, id);
    assert forall col :: want.Get(col) == c.Get(col);
    SameColumnsSameRow(got, want);
  }

  /** A row created with an id above every stored id heads the unfiltered listing. */
  lemma CreatedListedFirst(db: Table, c: StorageCreate, id: int, format: Cause -> Error)
    requires forall k :: k in db ==> k < id
    ensures var created := CreateStorage(db, c, id, NoFaults, format);
            var list := FindStorageList(created.table, Everything, NoFaults, format).result;
      && list.Ok? && list.value != []
      && list.value[0] == Created(c, id)
  {
    CreateFaultFree(db, c, id, format);
    var db': Table := db[id := Created(c, id)];
    var list := FindStorageList(db', Everything, NoFaults, format).result.value;
    assert db'[id] in list;
    var k :| 0 <= k < |list| && list[k] == db'[id];
    DescendingMonotone(list, 0, k);
    assert list[0].id in db';
  }

  /** A table holding exactly three ids lists their rows largest id first. */
  lemma ThreeRowsDescending(db: Table, i1: int, i2: int, i3: int, format: Cause -> Error)
    requires i1 < i2 < i3 && db.Keys == {i1, i2, i3}
    ensures FindStorageList(db, Everything, NoFaults, format).result == Ok([db[i3], db[i2], db[i1]])
  {
    var list := FindStorageList(db, Everything, NoFaults, format).result.value;
    DescendingListOfThree(db, list, i1, i2, i3);
  }

  /** A sound, complete, strictly descending listing of three rows is the three rows largest id first. */
  lemma DescendingListOfThree(db: Table, list: seq<Storage>, i1: int, i2: int, i3: int)
    requires i1 < i2 < i3 && db.Keys == {i1, i2, i3}
    requires forall i :: 0 <= i < |list| ==> list[i].id in db && db[list[i].id] == list[i]
    requires db[i1] in list && db[i2] in list && db[i3] in list
    requires forall i, j :: 0 <= i < j < |list| ==> list[i].id > list[j].id
    ensures list == [db[i3], db[i2], db[i1]]
  {
    var k3 :| 0 <= k3 < |list| && list[k3] == db[i3];
    var k2 :| 0 <= k2 < |list| && list[k2] == db[i2];
    var k1 :| 0 <= k1 < |list| && list[k1] == db[i1];
    assert db[i1].id == i1 && db[i2].id == i2 && db[i3].id == i3;
    assert forall i :: 0 <= i < |list| ==> list[i].id == i1 || list[i].id == i2 || list[i].id == i3;
    DescendingMonotone(list, 0, k3);
    assert list[0].id == i3;
    DescendingMonotone(list, 1, k2);
    assert list[1].id == i2;
    DescendingMonotone(list, 2, k1);
    assert list[2].id == i1;
    DistinctIdsBound(list, db.Keys);
  }

  lemma DescendingMonotone(list: seq<Storage>, i: int, j: int)
    requires 0 <= i <= j < |list|
    requires forall i, j :: 0 <= i < j < |list| ==> list[i].id > list[j].id
    ensures list[i].id >= list[j].id
  {
    if i < j {
      assert list[i].id > list[j].id;
    }
  }

  /** A list with strictly descending ids drawn from a set is no longer than the set. */
  lemma {:induction false} DistinctIdsBound(list: seq<Storage>, ids: set<int>)
    requires forall i :: 0 <= i < |list| ==> list[i].id in ids
    requires forall i, j :: 0 <= i < j < |list| ==> list[i].id > list[j].id
    ensures |list| <= |ids|
  {
    if list != [] {
      var rest := list[1..];
      assert forall i :: 0 <= i < |rest| ==> rest[i].id in ids - {list[0].id} by {
        forall i | 0 <= i < |rest| ensures rest[i].id in ids - {list[0].id} {
          assert rest[i] == list[i + 1];
        }
      }
      DistinctIdsBound(rest, ids - {list[0].id});
    }
  }

  const S3Create: StorageCreate :=
    StorageCreate("s3", "https://s3.example.com", "us-east-1", "AK", "SK", "assets", "https://cdn.example.com/")
  const S3Row: Storage :=
    Storage(1, "s3", "https://s3.example.com", "us-east-1", "AK", "SK", "assets", "https://cdn.example.com/")
  const BucketPatch: StoragePatch := StoragePatch(1, None, None, None, None, None, Some("assets-v2"), None)
  const S3RowV2: Storage :=
    Storage(1, "s3", "https://s3.example.com", "us-east-1", "AK", "SK", "assets-v2", "https://cdn.example.com/")

  /** A fault-free patch of an existing row returns and stores the patched row. */
  lemma PatchFaultFree(db: Table, p: StoragePatch, format: Cause -> Error)
    requires p.id in db && p.HasChange()
    ensures var row := ApplyPatch(db[p.id], p);
      PatchStorage(db, p, NoFaults, format) == Response(Ok(row), db[p.id := row])
  {
    var want := ApplyPatch(db[p.id], p);
    var got := PatchStorage(db, p, NoFaults, format).result.value;
    SameColumnsSameRow(got, want);
  }

  /** Two rows with the same id and the same value in every column are equal. */
  lemma SameColumnsSameRow(a: Storage, b: Storage)
    requires a.id == b.id && forall c :: a.Get(c) == b.Get(c)
    ensures a == b
  {
    assert a.name == b.Get(Name) && a.endPoint == b.Get(EndPoint) && a.region == b.Get(Region);
    assert a.accessKey == b.Get(AccessKey) && a.secretKey == b.Get(SecretKey);
    assert a.bucket == b.Get(Bucket) && a.urlPrefix == b.Get(UrlPrefix);
  }

  /** A fault-free patch that sets only the bucket changes the bucket of that row and nothing else. */
  lemma BucketOnlyPatch(db: Table, p: StoragePatch, format: Cause -> Error)
    requires p.id in db && p.bucket.Some?
    requires p.name.None? && p.endPoint.None? && p.region.None? && p.accessKey.None?
    requires p.secretKey.None? && p.urlPrefix.None?
    ensures var row := db[p.id].(bucket := p.bucket.value);
      PatchStorage(db, p, NoFaults, format) == Response(Ok(row), db[p.id := row])
  {
    assert p.Get(Bucket).Some?;
    PatchFaultFree(db, p, format);
    var want := db[p.id].(bucket := p.bucket.value);
    var got := ApplyPatch(db[p.id], p);
    assert forall c :: got.Get(c) == want.Get(c);
    SameColumnsSameRow(got, want);
  }

  /** The patch step of the end-to-end scenario: the sample row gets the new bucket. */
  lemma ScenarioPatch(format: Cause -> Error)
    ensures PatchStorage(map[1 := S3Row], BucketPatch, NoFaults, format) == Response(Ok(S3RowV2), map[1 := S3RowV2])
  {
    BucketOnlyPatch(map[1 := S3Row], BucketPatch, format);
    assert S3Row.(bucket := "assets-v2") == S3RowV2;
  }

  /** The end-to-end scenario: create, patch the bucket, delete, then the lookup fails. */
  lemma EndToEnd(format: Cause -> Error)
    ensures var created := CreateStorage(map[], S3Create, 1, NoFaults, format);
            var patched := PatchStorage(created.table, BucketPatch, NoFaults, format);
            var deleted := DeleteStorage(patched.table, StorageDelete(1), NoFaults, format);
      && created.result == Ok(S3Row)
      && patched.result == Ok(S3RowV2)
      && deleted.result == Ok(())
      && FindStorage(deleted.table, ById(1), NoFaults, format).result == Err(NotFound)
  {
    CreateFaultFree(map[], S3Create, 1, format);
    ScenarioPatch(format);
    FindAfterDelete(map[1 := S3RowV2], 1, format);
  }
}
