/**
 The entities of the storage-configuration repository: the persisted
 `Storage` record, the scan target `StorageRaw`, the request shapes
 (create, patch, find, delete) and the error taxonomy.
 */
module Model {

  /** An optional value: a Go field that may be nil. */
  datatype Option<+T> = None | Some(value: T) {
    function GetOr(default: T): T {
      match this
      case Some(v) => v
      case None => default
    }
  }

  /** Either a value or an error. */
  datatype Result<+T, +E> = Ok(value: T) | Err(error: E)

  /**
   The seven mutable text columns of the `storage` table. Every record that
   carries these columns exposes them through `Get(c)`, so that properties
   can be stated once per column instead of once per field.
   */
  datatype Column = Name | EndPoint | Region | AccessKey | SecretKey | Bucket | UrlPrefix

  /** The fixed column order used by every statement of the repository. */
  const AllColumns: seq<Column> := [Name, EndPoint, Region, AccessKey, SecretKey, Bucket, UrlPrefix]

  /** The fixed order lists every column. */
  lemma EveryColumnListed(c: Column)
    ensures c in AllColumns
  {
  }

  /** The SQL name of a column. */
  function ColumnName(c: Column): string {
    match c
    case Name => "name"
    case EndPoint => "end_point"
    case Region => "region"
    case AccessKey => "access_key"
    case SecretKey => "secret_key"
    case Bucket => "bucket"
    case UrlPrefix => "url_prefix"
  }

  /** The persisted entity; `id` is the primary key. */
  datatype Storage = Storage(
    id: int,
    name: string,
    endPoint: string,
    region: string,
    accessKey: string,
    secretKey: string,
    bucket: string,
    urlPrefix: string)
  {
    /** The value held in one of the seven text columns. */
    function Get(c: Column): string {
      match c
      case Name => name
      case EndPoint => endPoint
      case Region => region
      case AccessKey => accessKey
      case SecretKey => secretKey
      case Bucket => bucket
      case UrlPrefix => urlPrefix
    }
  }

  /** The row as scanned out of a result set, before it becomes an entity. */
  datatype StorageRaw = StorageRaw(
    id: int,
    name: string,
    endPoint: string,
    region: string,
    accessKey: string,
    secretKey: string,
    bucket: string,
    urlPrefix: string)
  {
    /** The value held in one of the seven text columns. */
    function Get(c: Column): string {
      match c
      case Name => name
      case EndPoint => endPoint
      case Region => region
      case AccessKey => accessKey
      case SecretKey => secretKey
      case Bucket => bucket
      case UrlPrefix => urlPrefix
    }

    /** Builds the entity from the scanned row, field by field. */
    function ToStorage(): (s: Storage)
      ensures s.id == id
      ensures forall c :: s.Get(c) == Get(c)
    {
      Storage(id, name, endPoint, region, accessKey, secretKey, bucket, urlPrefix)
    }
  }

  /** Input of Create: every mutable field, none optional. */
  datatype StorageCreate = StorageCreate(
    name: string,
    endPoint: string,
    region: string,
    accessKey: string,
    secretKey: string,
    bucket: string,
    urlPrefix: string)
  {
    /** The value held in one of the seven text columns. */
    function Get(c: Column): string {
      match c
      case Name => name
      case EndPoint => endPoint
      case Region => region
      case AccessKey => accessKey
      case SecretKey => secretKey
      case Bucket => bucket
      case UrlPrefix => urlPrefix
    }
  }

  /** Input of Patch: the target id and each mutable field present or absent. */
  datatype StoragePatch = StoragePatch(
    id: int,
    name: Option<string>,
    endPoint: Option<string>,
    region: Option<string>,
    accessKey: Option<string>,
    secretKey: Option<string>,
    bucket: Option<string>,
    urlPrefix: Option<string>)
  {
    /** The new value for one column, if the patch sets it. */
    function Get(c: Column): Option<string> {
      match c
      case Name => name
      case EndPoint => endPoint
      case Region => region
      case AccessKey => accessKey
      case SecretKey => secretKey
      case Bucket => bucket
      case UrlPrefix => urlPrefix
    }

    /** True when at least one field is to be changed. */
    predicate HasChange() {
      exists c :: Get(c).Some?
    }
  }

  /** Input of Find and FindList: absent filters do not constrain. */
  datatype StorageFind = StorageFind(id: Option<int>, name: Option<string>) {
    /** True when the row satisfies every present filter. */
    predicate Matches(s: Storage) {
      && (id.Some? ==> s.id == id.value)
      && (name.Some? ==> s.name == name.value)
    }
  }

  /** Input of Delete. */
  datatype StorageDelete = StorageDelete(id: int)

  /** Failures reported by the underlying transactional store. */
  datatype DbError =
    | NoRows            // a single-row query returned no row
    | Malformed         // the statement was rejected before it ran
    | BadScan           // a returned value did not fit its scan target
    | Driver(message: string)  // connectivity loss, constraint violation, cancellation, ...

  /** The domain error taxonomy. */
  datatype Error = NotFound | StoreError(cause: DbError)
}
