# Storage repository of memos, in Dafny

This project models the storage-configuration repository of memos (`store/storage.go`). It has two layers.

- **Statement builders.** They are pure functions from a request to the statement's fragment and argument lists:
  - the `SET` list of a partial update;
  - the conjunctive `WHERE` list of a lookup;
  - the fixed column, placeholder and argument lists of an insert;
  - the `WHERE` list of a delete.
- **Table semantics.** The `storage` table is a map from primary key to row. An abstract engine binds the built lists and executes INSERT, UPDATE, SELECT ... ORDER BY id DESC and DELETE against that map. On top of the engine, the model defines:
  - the four statement runners (`createStorageRaw`, `patchStorageRaw`, `findStorageRawList`, `deleteStorage`);
  - the five transactional operations (`CreateStorage`, `PatchStorage`, `FindStorageList`, `FindStorage`, `DeleteStorage`).

  Each operation opens a transaction and commits only on its success path. A failure before the commit returns early, and the deferred rollback leaves the committed table as it was; a failed commit publishes nothing.

Modules, in dependency order:

| file | module | contents |
|---|---|---|
| `model.dfy` | `Model` | entities (`Storage`, `StorageRaw`, `StorageCreate`, `StoragePatch`, `StorageFind`, `StorageDelete`), the seven text columns in their fixed order, store failures and the `NotFound`/`StoreError` taxonomy |
| `statements.dfy` | `Statements` | the builders, and the alignment of the patch `SET` list with the present fields |
| `engine.dfy` | `Engine` | the keyed table, binding of fragment and argument lists, and execution of the four statement kinds |
| `semantics.dfy` | `Semantics` | what each built statement does when executed |
| `repository.dfy` | `Repository` | transactions, row scanning, the statement runners and the five operations |
| `scenarios.dfy` | `Scenarios` | properties that relate several operations, and the end-to-end scenario |

The error classifier `FormatError` is a parameter, `format: Cause -> Error`. Its body is not part of this model, so the model says nothing about how it classifies. A `Cause` is either a raw store failure (`Db`) or an already classified error (`Classified`). The second form is needed because `DeleteStorage` passes `deleteStorage`'s `NotFound` through the classifier a second time (`store/storage.go:122-124`).

Store failures at each step are also a parameter, `Faults(begin, exec, commit)`. `NoFaults` means every step succeeds.

## Model

| member | source | states |
|---|---|---|
| Statements.PatchStatementAligned | store/storage.go:163-186 | The patch emits exactly one `col = ?` clause and one argument per present field, in the fixed column order. The argument list is one longer than the clause list and ends with the patch id. The SET list is empty exactly when no field is present: nothing rejects that case. |
| Statements.FindStatement | store/storage.go:213-220 | The WHERE list starts with `1 = 1` and gains `id = ?` and then `name = ?`, one per present filter, with the filter values as arguments. There is always one argument fewer than predicates. |
| Statements.CreateStatement | store/storage.go:134-136 | The column, placeholder and argument lists all have length 7. Position i holds column i's name, `?`, and the create field for column i. |
| Semantics.PatchStatementMeaning | store/storage.go:186-209 | Executing the built update does one of three things. With no present field it is a malformed statement. With an existing id it returns that row with exactly its present fields replaced. With a missing id it returns no row. |
| Semantics.CreateStatementMeaning | store/storage.go:138-157 | Executing the built insert succeeds. It stores a row with the assigned id, and every column holds the create field. |
| Semantics.FindStatementMeaning | store/storage.go:213-233 | The built WHERE list always binds to its arguments. The conjunction holds of a row exactly when the row satisfies every present filter. |
| Semantics.DeleteStatementMeaning | store/storage.go:269-271 | The delete's WHERE list binds to the single predicate on the id, which holds of a row exactly when the row has that id. |
| Engine.SortDesc | store/storage.go:234 | The ordering is a permutation of the selected keys in strictly descending order: same length, same members. |
| Repository.ScanRoundTrip | store/storage.go:24-35 | Scanning the eight returned columns into a raw row and converting it with `toStorage` gives back the stored row, all eight fields unchanged. |
| Repository.ScanRows | store/storage.go:242-259 | The scan loop yields one raw row per returned row, in order, each converting back to the returned row. |
| Repository.SelectIsFilter | store/storage.go:222-236 | The select built from a filter returns only matching rows. Every matching row appears in the result. |
| Repository.DeleteRemovesOne | store/storage.go:269-277 | The delete built from an id removes exactly that key. The affected-row count is 1 when the id is present and 0 otherwise. |
| Repository.CreateStorageRaw | store/storage.go:133-160 | Without a store failure, the insert succeeds. It returns a raw row with the new id and the create fields, and adds exactly that row to the transaction's table. A store failure goes through the classifier. |
| Repository.PatchStorageRaw | store/storage.go:162-210 | A store failure goes through the classifier. Otherwise there are three outcomes. A patch with no field gives the classified malformed-statement failure. A missing id gives the classified no-rows failure. An existing id gives the row with the present fields replaced, and only that row changes in the transaction. |
| Repository.FindStorageRawList | store/storage.go:212-266 | Without a store failure, the result lists every row of the transaction's table that matches all present filters, and nothing else. Rows appear as stored, in strictly descending id order, possibly none. |
| Repository.DeleteStorageInTx | store/storage.go:268-283 | Without a store failure, it succeeds exactly when the id is present. In that case exactly that row is removed. Otherwise the result is `NotFound`. |
| Repository.CreateStorage | store/storage.go:37-54 | It succeeds exactly when no step fails. The committed table then gains exactly the new row, which is returned with the create fields. Any failure leaves the table unchanged. The first failing step (begin, insert or commit) gives the classifier's image of that failure. |
| Repository.PatchStorage | store/storage.go:56-73 | It succeeds exactly when no step fails, a field is present and the id exists. Only that row changes: present fields take the new values, other fields keep theirs, and the full row is returned. Any failure leaves the table unchanged. The first failing step (begin, update or commit) gives the classifier's image of that failure. |
| Repository.FindStorageList | store/storage.go:75-93 | The table never changes. The operation succeeds exactly when begin and the query succeed. It returns every matching row and only matching rows, as stored, in strictly descending id order. A begin or query failure gives the classifier's image of that failure. |
| Repository.FindStorage | store/storage.go:95-113 | The table never changes. A returned row is stored, matches, and has the largest id among the matches. Without a store failure the result is `NotFound` exactly when nothing matches, and a row otherwise. A begin or query failure gives the classifier's image of that failure. |
| Repository.DeleteStorage | store/storage.go:115-131 | It succeeds exactly when no step fails and the id exists, and then removes only that row. Any failure leaves the table unchanged. A missing id gives the classifier's image of `NotFound`. A begin or commit failure gives the classifier's image of that failure; a failure of the delete statement is classified twice, once inside `deleteStorage` and once more by the caller. |
| Scenarios.FindIsHeadOfList | store/storage.go:102-112 | `FindStorage` is the head of `FindStorageList` for the same filter. It gives the same error on failure, `NotFound` on an empty list, and the first element otherwise. |
| Scenarios.FindAfterCreate | store/storage.go:95-113 | After a fault-free create, a lookup by the new id returns exactly the created entity. |
| Scenarios.FindUnusedId | store/storage.go:107-109 | A lookup by an id no row has gives `NotFound`. |
| Scenarios.FindAfterDelete | store/storage.go:115-131 | After a successful delete of an existing id, a lookup by that id gives `NotFound`. |
| Scenarios.CreateThenDelete | store/storage.go:115-131 | Deleting a row just created succeeds and restores the table to what it was before the create. |
| Scenarios.PatchIdempotent | store/storage.go:56-73 | For every table and every patch, applying the same patch twice without store failures gives the same result and table as applying it once. |
| Scenarios.CreateFaultFree | store/storage.go:37-54 | A fault-free create returns the row built from the new id and the create fields, and stores it under that id. |
| Scenarios.PatchFaultFree | store/storage.go:56-73 | A fault-free patch of an existing row with a present field returns the patched row and stores it in place of the old one. |
| Scenarios.CreatedListedFirst | store/storage.go:234 | A row created with an id above every stored id is the first row of the unfiltered listing. |
| Scenarios.ThreeRowsDescending | store/storage.go:234 | A table of exactly three rows is listed largest id first. |
| Scenarios.BucketOnlyPatch | store/storage.go:179-181 | A fault-free patch that sets only the bucket of a stored row returns and stores that row with the new bucket and every other field as it was. |
| Scenarios.ScenarioPatch | store/storage.go:179-181 | In the end-to-end scenario, patching the bucket of the sample row gives the sample row with bucket `assets-v2`, stored in its place. |
| Scenarios.EndToEnd | store/storage.go:37-131 | The scenario runs in four steps. Create gives id 1 with the given fields. A bucket-only patch changes just the bucket. Delete succeeds. The final lookup by id 1 gives `NotFound`. |

## Left out

- SQL text, whitespace and `strings.Join` are not modelled. Statements are their fragment and argument lists, and the engine interprets those lists directly.
- `database/sql` is not modelled: `BeginTx`, `QueryRowContext`, `QueryContext`, `ExecContext`, `Scan`, `rows.Next`, `rows.Close` and `rows.Err`. Neither is `context` cancellation. Their failures are the `Faults` parameter. A failure while reading result rows counts as an `exec` failure.
- `FormatError` and `common.Error` are not part of this model. The classifier is an uninterpreted parameter.
- Repository.PatchStorage: a missing id gives `format(Db(NoRows))`, not `NotFound`. The source relies on `FormatError` to turn the store's no-rows condition into `NotFound`, and the classifier's body is not part of this model.
- Repository.DeleteStorage: a missing id gives `format(Classified(NotFound))`, not `NotFound`. The source re-wraps `deleteStorage`'s `NotFound` with `FormatError`, and the model does not assume how the classifier treats an error it already produced.
- The database allocates new ids. The new id is a parameter of `Repository.CreateStorage` and `Repository.CreateStorageRaw`, with the precondition that no row has it.
- The result of `RowsAffected` is taken as exact. Its error, which the source discards, is not modelled.
- The zero-field patch: the source builds `SET  WHERE id = ?` without checking, and a database rejects it as malformed. The model keeps this behaviour: the engine rejects an empty SET list as `Malformed`, which then goes through the classifier. The model does not reject the patch up front.
- Repository.ScanRows: a scan failure (`BadScan`) cannot arise in the model, because the engine returns well-typed values. The scan error paths of the source (`store/storage.go:155`, `205`, `254`) are present but unreachable.
- A commit failure is irrelevant to `FindStorageList` and `FindStorage`, because neither commits. Only the deferred rollback runs, so their `commit` fault is ignored.
- A failed commit is taken to publish nothing, as in an atomic store: `Repository.Commit` returns the error and the committed table stays as it was. The source does not state this; it follows from the transaction boundary.
- Concurrency between transactions and isolation levels are not modelled. Each operation runs alone against the committed table.
- `web/src/components/UpdateAccountDialog.tsx` is not modelled. It holds UI state, file-to-base64 conversion and toasts, and does not call this repository.
