/**
 The storage repository: the four inner statement runners
 (`createStorageRaw`, `patchStorageRaw`, `findStorageRawList`,
 `deleteStorage`) and the five transactional operations built on them
 (`CreateStorage`, `PatchStorage`, `FindStorageList`, `FindStorage`,
 `DeleteStorage`). Every operation opens a transaction, runs one statement,
 and commits only on its success path; any earlier return leaves the
 deferred rollback to discard the transaction's work.
 */
module Repository {
  import opened Model
  import opened Statements
  import opened Engine
  import opened Semantics

  /** What the error classifier is applied to: a raw store failure, or an error already classified. */
  datatype Cause = Db(db: DbError) | Classified(err: Error)

  /**
   Failures the store reports at each step of one operation; `None` means
   the step succeeds. `exec` covers running the statement and reading its rows.
   */
  datatype Faults = Faults(begin: Option<DbError>, exec: Option<DbError>, commit: Option<DbError>)

  const NoFaults: Faults := Faults(None, None, None)

  /** An open transaction: the committed table, and the table as seen inside the transaction. */
  datatype Tx = Tx(base: Table, pending: Table)

  /** The outcome of an operation and the committed table afterwards. */
  datatype Response<T> = Response(result: Result<T, Error>, table: Table)

  // ---------------------------------------------------------------------------
  // Transactions

  function BeginTx(db: Table, fault: Option<DbError>): (r: Result<Tx, DbError>)
    ensures r.Ok? <==> fault.None?
    ensures r.Ok? ==> r.value.base == db && r.value.pending == db
  {
    if fault.Some? then Err(fault.value) else Ok(Tx(db, db))
  }

  /** Commit publishes the transaction's table; a failed commit publishes nothing. */
  function Commit(tx: Tx, fault: Option<DbError>): (r: Result<Table, DbError>)
    ensures r.Ok? <==> fault.None?
    ensures r.Ok? ==> r.value == tx.pending
  {
    if fault.Some? then Err(fault.value) else Ok(tx.pending)
  }

  /** The deferred rollback: the committed table as it was when the transaction began. */
  function Rollback(tx: Tx): Table {
    tx.base
  }

  // ---------------------------------------------------------------------------
  // Scanning returned rows

  /** Scans the returned values, in RETURNING order, into the eight fields of a raw row. */
  function ScanRow(vals: seq<Arg>): Option<StorageRaw> {
    if |vals| != 8 || !vals[0].IntArg? || exists i :: 1 <= i < 8 && !vals[i].TextArg? then None
    else Some(StorageRaw(vals[0].i, vals[1].s, vals[2].s, vals[3].s, vals[4].s, vals[5].s, vals[6].s, vals[7].s))
  }

  /** Scanning a returned row and converting it gives back the stored row. */
  lemma ScanRoundTrip(row: Storage)
    ensures ScanRow(Project(row)).Some?
    ensures ScanRow(Project(row)).value.ToStorage() == row
  {
    var vals := Project(row);
    assert forall i :: 1 <= i < 8 ==> vals[i].TextArg?;
  }

  /** Scans every returned row, in order; the first failing scan fails the whole list. */
  function ScanRows(rows: seq<Storage>): (r: Option<seq<StorageRaw>>)
    ensures r.Some?
    ensures |r.value| == |rows|
    ensures forall i :: 0 <= i < |rows| ==> r.value[i].ToStorage() == rows[i]
  {
    if rows == [] then Some([])
    else
      ScanRoundTrip(rows[0]);
      match (ScanRow(Project(rows[0])), ScanRows(rows[1..]))
      case (Some(raw), Some(rest)) => Some([raw] + rest)
      case _ => None
  }

  // ---------------------------------------------------------------------------
  // Statement runners

  /** createStorageRaw: inserts the row under the id the table assigns and scans it back. */
  function CreateStorageRaw(tx: Tx, create: StorageCreate, id: int, fault: Option<DbError>, format: Cause -> Error)
    : (r: Result<(StorageRaw, Tx), Error>)
    requires id !in tx.pending
    ensures fault.Some? ==> r == Err(format(Db(fault.value)))
    ensures fault.None? ==> r.Ok?
    ensures r.Ok? ==> var (raw, tx') := r.value;
      && raw.id == id
      && (forall c :: raw.Get(c) == create.Get(c))
      && tx'.base == tx.base
      && tx'.pending == tx.pending[id := raw.ToStorage()]
  {
    if fault.Some? then Err(format(Db(fault.value)))
    else
      CreateStatementMeaning(tx.pending, create, id);
      match ExecInsert(tx.pending, CreateStatement(create), id)
      case Err(e) => Err(format(Db(e)))
      case Ok(row) =>
        ScanRoundTrip(row);
        match ScanRow(Project(row))
        case None => Err(format(Db(BadScan)))
        case Some(raw) => Ok((raw, Tx(tx.base, tx.pending[id := row])))
  }

  /**
   patchStorageRaw: runs the partial update on the row with the patch id and
   scans the updated row back. The store's own failures, the missing row and
   the empty SET list all go through the classifier.
   */
  function PatchStorageRaw(tx: Tx, patch: StoragePatch, fault: Option<DbError>, format: Cause -> Error)
    : (r: Result<(StorageRaw, Tx), Error>)
    ensures fault.Some? ==> r == Err(format(Db(fault.value)))
    ensures fault.None? && !patch.HasChange() ==> r == Err(format(Db(Malformed)))
    ensures fault.None? && patch.HasChange() && patch.id !in tx.pending ==> r == Err(format(Db(NoRows)))
    ensures fault.None? && patch.HasChange() && patch.id in tx.pending ==> r.Ok?
    ensures r.Ok? ==> var (raw, tx') := r.value;
      && patch.id in tx.pending
      && raw.ToStorage() == ApplyPatch(tx.pending[patch.id], patch)
      && tx'.base == tx.base
      && tx'.pending == tx.pending[patch.id := raw.ToStorage()]
  {
    if fault.Some? then Err(format(Db(fault.value)))
    else
      PatchStatementMeaning(tx.pending, patch);
      match ExecUpdate(tx.pending, PatchStatement(patch))
      case Err(e) => Err(format(Db(e)))
      case Ok(row) =>
        ScanRoundTrip(row);
        match ScanRow(Project(row))
        case None => Err(format(Db(BadScan)))
        case Some(raw) => Ok((raw, Tx(tx.base, tx.pending[row.id := row])))
  }

  /**
   findStorageRawList: every row matching all present filters, in strictly
   descending id order, possibly none.
   */
  function FindStorageRawList(tx: Tx, find: StorageFind, fault: Option<DbError>, format: Cause -> Error)
    : (r: Result<seq<StorageRaw>, Error>)
    ensures fault.Some? ==> r == Err(format(Db(fault.value)))
    ensures fault.None? ==> r.Ok?
    ensures r.Ok? ==> forall i :: 0 <= i < |r.value| ==>
              && r.value[i].id in tx.pending
              && tx.pending[r.value[i].id] == r.value[i].ToStorage()
              && find.Matches(r.value[i].ToStorage())
    ensures r.Ok? ==> forall id :: id in tx.pending && find.Matches(tx.pending[id]) ==>
              exists i :: 0 <= i < |r.value| && r.value[i].id == id
    ensures r.Ok? ==> forall i, j :: 0 <= i < j < |r.value| ==> r.value[i].id > r.value[j].id
  {
    if fault.Some? then Err(format(Db(fault.value)))
    else
      FindStatementMeaning(find);
      match ExecSelect(tx.pending, FindStatement(find))
      case Err(e) => Err(format(Db(e)))
      case Ok(rows) =>
        match ScanRows(rows)
        case None => Err(format(Db(BadScan)))
        case Some(raws) =>
          SelectIsFilter(tx.pending, find);
          Ok(raws)
  }

  /** The select built from a find lists exactly the matching rows. */
  lemma SelectIsFilter(t: Table, find: StorageFind)
    ensures ExecSelect(t, FindStatement(find)).Ok?
    ensures var rows := ExecSelect(t, FindStatement(find)).value;
      && (forall i :: 0 <= i < |rows| ==> find.Matches(rows[i]))
      && (forall id :: id in t && find.Matches(t[id]) ==> exists i :: 0 <= i < |rows| && rows[i].id == id)
  {
    FindStatementMeaning(find);
    var st := FindStatement(find);
    var ps := BindWhere(st.clauses, st.args).value;
    var ids := SortDesc(Selected(t, ps));
    var rows := ExecSelect(t, st).value;
    assert rows == RowsAt(t, ids);
    forall id | id in t && find.Matches(t[id])
      ensures exists i :: 0 <= i < |rows| && rows[i].id == id
    {
      assert id in Selected(t, ps);
      assert id in ids;
      var i :| 0 <= i < |ids| && ids[i] == id;
      assert rows[i].id == id;
    }
    forall i | 0 <= i < |rows|
      ensures find.Matches(rows[i])
    {
      assert ids[i] in ids;
      assert ids[i] in Selected(t, ps);
    }
  }

  /** deleteStorage: removes the row with the id; zero affected rows is NotFound. */
  function DeleteStorageInTx(tx: Tx, delete: StorageDelete, fault: Option<DbError>, format: Cause -> Error)
    : (r: Result<Tx, Error>)
    ensures fault.Some? ==> r == Err(format(Db(fault.value)))
    ensures fault.None? ==> (r.Ok? <==> delete.id in tx.pending)
    ensures fault.None? && r.Err? ==> r.error == NotFound
    ensures r.Ok? ==> r.value.base == tx.base && r.value.pending == tx.pending - {delete.id}
  {
    if fault.Some? then Err(format(Db(fault.value)))
    else
      DeleteRemovesOne(tx.pending, delete);
      match ExecDelete(tx.pending, DeleteStatement(delete))
      case Err(e) => Err(format(Db(e)))
      case Ok((rest, affected)) =>
        if affected == 0 then Err(NotFound) else Ok(Tx(tx.base, rest))
  }

  /** The delete built from an id affects one row when the id is present and none otherwise. */
  lemma DeleteRemovesOne(t: Table, delete: StorageDelete)
    ensures ExecDelete(t, DeleteStatement(delete)).Ok?
    ensures var (rest, affected) := ExecDelete(t, DeleteStatement(delete)).value;
      && rest == t - {delete.id}
      && affected == (if delete.id in t then 1 else 0)
  {
    DeleteStatementMeaning(delete);
    var gone := Selected(t, [IdIs(delete.id)]);
    forall k
      ensures k in gone <==> k in t && k == delete.id
    {
      if k in t {
        assert t[k].id == k;
      }
    }
    assert gone == if delete.id in t then {delete.id} else {};
  }

  // ---------------------------------------------------------------------------
  // Transactional operations

  /**
   CreateStorage: on success the committed table gains exactly the new row,
   whose fields are the create fields; any failure leaves the table as it was.
   */
  function CreateStorage(db: Table, create: StorageCreate, id: int, faults: Faults, format: Cause -> Error)
    : (r: Response<Storage>)
    requires id !in db
    ensures r.result.Err? ==> r.table == db
    ensures r.result.Ok? ==>
              && r.result.value.id == id
              && (forall c :: r.result.value.Get(c) == create.Get(c))
              && r.table == db[id := r.result.value]
    ensures r.result.Ok? <==> faults == NoFaults
    ensures faults.begin.Some? ==> r.result == Err(format(Db(faults.begin.value)))
    ensures faults.begin.None? && faults.exec.Some? ==> r.result == Err(format(Db(faults.exec.value)))
    ensures faults.begin.None? && faults.exec.None? && faults.commit.Some? ==>
              r.result == Err(format(Db(faults.commit.value)))
  {
    match BeginTx(db, faults.begin)
    case Err(e) => Response(Err(format(Db(e))), db)
    case Ok(tx) =>
      match CreateStorageRaw(tx, create, id, faults.exec, format)
      case Err(e) => Response(Err(e), Rollback(tx))
      case Ok((raw, tx')) =>
        match Commit(tx', faults.commit)
        case Err(e) => Response(Err(format(Db(e))), Rollback(tx'))
        case Ok(db') => Response(Ok(raw.ToStorage()), db')
  }

  /**
   PatchStorage: on success only the row with the patch id changes, its
   present fields taking the new values and every other field kept, and the
   full updated row is returned; any failure leaves the table as it was.
   */
  function PatchStorage(db: Table, patch: StoragePatch, faults: Faults, format: Cause -> Error)
    : (r: Response<Storage>)
    ensures r.result.Err? ==> r.table == db
    ensures r.result.Ok? ==>
              && patch.id in db
              && r.result.value.id == patch.id
              && (forall c :: r.result.value.Get(c) == patch.Get(c).GetOr(db[patch.id].Get(c)))
              && r.table == db[patch.id := r.result.value]
    ensures r.result.Ok? <==> faults == NoFaults && patch.HasChange() && patch.id in db
    ensures faults.begin.None? && faults.exec.None? && !patch.HasChange() ==>
              r.result == Err(format(Db(Malformed)))
    ensures faults.begin.None? && faults.exec.None? && patch.HasChange() && patch.id !in db ==>
              r.result == Err(format(Db(NoRows)))
    ensures faults.begin.Some? ==> r.result == Err(format(Db(faults.begin.value)))
    ensures faults.begin.None? && faults.exec.Some? ==> r.result == Err(format(Db(faults.exec.value)))
    ensures faults.begin.None? && faults.exec.None? && patch.HasChange() && patch.id in db && faults.commit.Some? ==>
              r.result == Err(format(Db(faults.commit.value)))
  {
    match BeginTx(db, faults.begin)
    case Err(e) => Response(Err(format(Db(e))), db)
    case Ok(tx) =>
      match PatchStorageRaw(tx, patch, faults.exec, format)
      case Err(e) => Response(Err(e), Rollback(tx))
      case Ok((raw, tx')) =>
        match Commit(tx', faults.commit)
        case Err(e) => Response(Err(format(Db(e))), Rollback(tx'))
        case Ok(db') => Response(Ok(raw.ToStorage()), db')
  }

  /** Converts every raw row to its entity, in order. */
  function ToStorageList(raws: seq<StorageRaw>): (list: seq<Storage>)
    ensures |list| == |raws|
    ensures forall i :: 0 <= i < |raws| ==> list[i] == raws[i].ToStorage()
  {
    seq(|raws|, i requires 0 <= i < |raws| => raws[i].ToStorage())
  }

  /** Every matching row whose id the raw list holds is in the converted list. */
  lemma ListCovers(db: Table, find: StorageFind, raws: seq<StorageRaw>)
    requires forall i :: 0 <= i < |raws| ==> raws[i].id in db && db[raws[i].id] == raws[i].ToStorage()
    requires forall id :: id in db && find.Matches(db[id]) ==> exists i :: 0 <= i < |raws| && raws[i].id == id
    ensures forall id :: id in db && find.Matches(db[id]) ==> db[id] in ToStorageList(raws)
  {
    var list := ToStorageList(raws);
    forall id | id in db && find.Matches(db[id])
      ensures db[id] in list
    {
      var i :| 0 <= i < |raws| && raws[i].id == id;
      assert list[i] == db[id];
    }
  }

  /**
   FindStorageList: every row matching all present filters, each exactly as
   stored, in strictly descending id order; it never commits and never
   changes the table.
   */
  function FindStorageList(db: Table, find: StorageFind, faults: Faults, format: Cause -> Error)
    : (r: Response<seq<Storage>>)
    ensures r.table == db
    ensures r.result.Ok? <==> faults.begin.None? && faults.exec.None?
    ensures faults.begin.Some? ==> r.result == Err(format(Db(faults.begin.value)))
    ensures faults.begin.None? && faults.exec.Some? ==> r.result == Err(format(Db(faults.exec.value)))
    ensures r.result.Ok? ==> forall i :: 0 <= i < |r.result.value| ==>
              && r.result.value[i].id in db
              && db[r.result.value[i].id] == r.result.value[i]
              && find.Matches(r.result.value[i])
    ensures r.result.Ok? ==> forall id :: id in db && find.Matches(db[id]) ==> db[id] in r.result.value
    ensures r.result.Ok? ==> forall i, j :: 0 <= i < j < |r.result.value| ==>
              r.result.value[i].id > r.result.value[j].id
  {
    match BeginTx(db, faults.begin)
    case Err(e) => Response(Err(format(Db(e))), db)
    case Ok(tx) =>
      match FindStorageRawList(tx, find, faults.exec, format)
      case Err(e) => Response(Err(e), Rollback(tx))
      case Ok(raws) =>
        var list := ToStorageList(raws);
        ListCovers(db, find, raws);
        Response(Ok(list), Rollback(tx))
  }

  /**
   FindStorage: the first row of the id-descending match list, that is the
   matching row with the largest id; NotFound when nothing matches. It never
   commits and never changes the table.
   */
  function FindStorage(db: Table, find: StorageFind, faults: Faults, format: Cause -> Error)
    : (r: Response<Storage>)
    ensures r.table == db
    ensures r.result.Ok? ==>
              && r.result.value.id in db
              && db[r.result.value.id] == r.result.value
              && find.Matches(r.result.value)
              && forall id :: id in db && find.Matches(db[id]) ==> id <= r.result.value.id
    ensures faults.begin.None? && faults.exec.None? ==>
              (r.result == Err(NotFound) <==> forall id :: id in db ==> !find.Matches(db[id]))
    ensures faults.begin.None? && faults.exec.None? ==> r.result.Ok? || r.result == Err(NotFound)
    ensures faults.begin.Some? ==> r.result == Err(format(Db(faults.begin.value)))
    ensures faults.begin.None? && faults.exec.Some? ==> r.result == Err(format(Db(faults.exec.value)))
  {
    match BeginTx(db, faults.begin)
    case Err(e) => Response(Err(format(Db(e))), db)
    case Ok(tx) =>
      match FindStorageRawList(tx, find, faults.exec, format)
      case Err(e) => Response(Err(e), Rollback(tx))
      case Ok(list) =>
        if |list| == 0 then Response(Err(NotFound), Rollback(tx))
        else
          assert forall id :: id in db && find.Matches(db[id]) ==> id <= list[0].id by {
            forall id | id in db && find.Matches(db[id]) ensures id <= list[0].id {
              var i :| 0 <= i < |list| && list[i].id == id;
            }
          }
          Response(Ok(list[0].ToStorage()), Rollback(tx))
  }

  /**
   DeleteStorage: on success the row with the id is gone and nothing else
   changed; zero affected rows is a NotFound, handed once more to the
   classifier; any failure leaves the table as it was.
   */
  function DeleteStorage(db: Table, delete: StorageDelete, faults: Faults, format: Cause -> Error)
    : (r: Response<()>)
    ensures r.result.Err? ==> r.table == db
    ensures r.result.Ok? ==> delete.id in db && r.table == db - {delete.id}
    ensures r.result.Ok? <==> faults == NoFaults && delete.id in db
    ensures faults.begin.None? && faults.exec.None? && delete.id !in db ==>
              r.result == Err(format(Classified(NotFound)))
    ensures faults.begin.Some? ==> r.result == Err(format(Db(faults.begin.value)))
    ensures faults.begin.None? && faults.exec.Some? ==>
              r.result == Err(format(Classified(format(Db(faults.exec.value)))))
    ensures faults.begin.None? && faults.exec.None? && delete.id in db && faults.commit.Some? ==>
              r.result == Err(format(Db(faults.commit.value)))
  {
    match BeginTx(db, faults.begin)
    case Err(e) => Response(Err(format(Db(e))), db)
    case Ok(tx) =>
      match DeleteStorageInTx(tx, delete, faults.exec, format)
      case Err(e) => Response(Err(format(Classified(e))), Rollback(tx))
      case Ok(tx') =>
        match Commit(tx', faults.commit)
        case Err(e) => Response(Err(format(Db(e))), Rollback(tx'))
        case Ok(db') => Response(Ok(()), db')
  }
}
