/**
 An abstract relational engine for the single `storage` table: it binds the
 fragment and argument lists the builders produce and executes INSERT,
 UPDATE, SELECT and DELETE against a map from primary key to row. It stands
 in for the database driver, whose wire behaviour is not modelled.
 */
module Engine {
  import opened Model
  import opened Statements

  /** Every row is stored under its own id: `id` is the primary key. */
  predicate KeyedById(t: map<int, Storage>) {
    forall k :: k in t ==> t[k].id == k
  }

  /** The contents of the `storage` table. */
  type Table = t: map<int, Storage> | KeyedById(t) witness map[]

  // ---------------------------------------------------------------------------
  // Binding column lists and SET lists

  /** The column a bare column name refers to. */
  function ParseColumn(s: string): Option<Column> {
    if s == "name" then Some(Name)
    else if s == "end_point" then Some(EndPoint)
    else if s == "region" then Some(Region)
    else if s == "access_key" then Some(AccessKey)
    else if s == "secret_key" then Some(SecretKey)
    else if s == "bucket" then Some(Bucket)
    else if s == "url_prefix" then Some(UrlPrefix)
    else None
  }

  /** The column a `col = ?` assignment refers to. */
  function ParseAssign(s: string): Option<Column> {
    if s == "name = ?" then Some(Name)
    else if s == "end_point = ?" then Some(EndPoint)
    else if s == "region = ?" then Some(Region)
    else if s == "access_key = ?" then Some(AccessKey)
    else if s == "secret_key = ?" then Some(SecretKey)
    else if s == "bucket = ?" then Some(Bucket)
    else if s == "url_prefix = ?" then Some(UrlPrefix)
    else None
  }

  /**
   Pairs each fragment with the text argument at the same position; a later
   assignment to the same column wins. Fails on a length mismatch, an unknown
   fragment or a non-text argument.
   */
  function Bind(fragments: seq<string>, args: seq<Arg>, parse: string -> Option<Column>): Option<map<Column, string>>
    decreases |fragments|
  {
    if |fragments| != |args| then None
    else if fragments == [] then Some(map[])
    else
      var n := |fragments| - 1;
      match (Bind(fragments[..n], args[..n], parse), parse(fragments[n]), args[n])
      case (Some(m), Some(c), TextArg(v)) => Some(m[c := v])
      case _ => None
  }

  /** The row with every bound column overwritten. */
  function ApplyAssignments(row: Storage, m: map<Column, string>): (r: Storage)
    ensures r.id == row.id
    ensures forall c :: r.Get(c) == if c in m then m[c] else row.Get(c)
  {
    Storage(
      row.id,
      if Name in m then m[Name] else row.name,
      if EndPoint in m then m[EndPoint] else row.endPoint,
      if Region in m then m[Region] else row.region,
      if AccessKey in m then m[AccessKey] else row.accessKey,
      if SecretKey in m then m[SecretKey] else row.secretKey,
      if Bucket in m then m[Bucket] else row.bucket,
      if UrlPrefix in m then m[UrlPrefix] else row.urlPrefix)
  }

  // ---------------------------------------------------------------------------
  // Binding WHERE lists

  /** A bound WHERE predicate. */
  datatype Pred = Always | IdIs(id: int) | NameIs(name: string) {
    predicate Holds(row: Storage) {
      match this
      case Always => true
      case IdIs(id) => row.id == id
      case NameIs(name) => row.name == name
    }
  }

  /** The conjunction of the predicates. */
  predicate HoldsAll(ps: seq<Pred>, row: Storage) {
    forall i :: 0 <= i < |ps| ==> ps[i].Holds(row)
  }

  /** A predicate with its placeholder bound to `arg`. */
  function BindPred(clause: string, arg: Arg): Option<Pred> {
    if clause == "id = ?" && arg.IntArg? then Some(IdIs(arg.i))
    else if clause == "name = ?" && arg.TextArg? then Some(NameIs(arg.s))
    else None
  }

  /**
   Binds the WHERE list to its arguments, placeholders in order: the
   always-true predicate takes no argument, every other one takes one.
   */
  function BindWhere(clauses: seq<string>, args: seq<Arg>): Option<seq<Pred>>
    decreases |clauses|
  {
    if clauses == [] then (if args == [] then Some([]) else None)
    else
      var n := |clauses| - 1;
      if clauses[n] == "1 = 1" then
        match BindWhere(clauses[..n], args)
        case Some(ps) => Some(ps + [Always])
        case None => None
      else if args == [] then None
      else
        var k := |args| - 1;
        match (BindWhere(clauses[..n], args[..k]), BindPred(clauses[n], args[k]))
        case (Some(ps), Some(q)) => Some(ps + [q])
        case _ => None
  }

  /** The keys of the rows that satisfy every predicate. */
  function Selected(t: Table, ps: seq<Pred>): (ks: set<int>)
    ensures forall k :: k in ks <==> k in t && HoldsAll(ps, t[k])
  {
    set k | k in t && HoldsAll(ps, t[k])
  }

  // ---------------------------------------------------------------------------
  // Ordering: ORDER BY id DESC

  /** Some element of a non-empty set. */
  lemma Pick(s: set<int>) returns (x: int)
    requires s != {}
    ensures x in s
  {
    if forall y :: y !in s {
      assert false;
    }
    x :| x in s;
  }

  lemma {:induction false} MaxExists(s: set<int>)
    requires s != {}
    ensures exists m :: m in s && forall k :: k in s ==> k <= m
  {
    var x := Pick(s);
    var rest := s - {x};
    if rest == {} {
      assert s == {x};
      assert forall k :: k in s ==> k <= x;
    } else {
      MaxExists(rest);
      var m :| m in rest && forall k :: k in rest ==> k <= m;
      var top := if x > m then x else m;
      assert forall k :: k in s ==> k == x || k in rest;
      assert forall k :: k in s ==> k <= top;
    }
  }

  /** The largest element of a non-empty set. */
  function Max(s: set<int>): (m: int)
    requires s != {}
    ensures m in s
    ensures forall k :: k in s ==> k <= m
  {
    MaxExists(s);
    var m :| m in s && forall k :: k in s ==> k <= m;
    m
  }

  /** The keys in strictly descending order. */
  function SortDesc(keys: set<int>): (r: seq<int>)
    ensures |r| == |keys|
    ensures forall k :: k in r <==> k in keys
    ensures forall i, j :: 0 <= i < j < |r| ==> r[i] > r[j]
    decreases keys
  {
    if keys == {} then []
    else
      var m := Max(keys);
      [m] + SortDesc(keys - {m})
  }

  /** The rows stored under the given keys, in the same order. */
  function RowsAt(t: Table, ids: seq<int>): (rows: seq<Storage>)
    requires forall i :: 0 <= i < |ids| ==> ids[i] in t
    ensures |rows| == |ids|
    ensures forall i :: 0 <= i < |ids| ==> rows[i] == t[ids[i]] && rows[i].id == ids[i]
  {
    seq(|ids|, i requires 0 <= i < |ids| => t[ids[i]])
  }

  // ---------------------------------------------------------------------------
  // Statements

  /** The values of the RETURNING / SELECT column list, in that order. */
  const ReturnColumns: seq<string> :=
    ["id", "name", "end_point", "region", "access_key", "secret_key", "bucket", "url_prefix"]

  /** A row as the driver returns it: one value per returned column. */
  function Project(row: Storage): (vals: seq<Arg>)
    ensures |vals| == |ReturnColumns| == 1 + |AllColumns|
    ensures vals[0] == IntArg(row.id) && ReturnColumns[0] == "id"
    ensures forall i :: 0 <= i < |AllColumns| ==>
              && vals[i + 1] == TextArg(row.Get(AllColumns[i]))
              && ReturnColumns[i + 1] == ColumnName(AllColumns[i])
  {
    [IntArg(row.id), TextArg(row.name), TextArg(row.endPoint), TextArg(row.region),
     TextArg(row.accessKey), TextArg(row.secretKey), TextArg(row.bucket), TextArg(row.urlPrefix)]
  }

  /**
   `INSERT INTO storage (<columns>) VALUES (<placeholders>) RETURNING ...`
   with `id` the key the table assigns. Columns not listed are left empty.
   */
  function ExecInsert(t: Table, st: Insert, id: int): (r: Result<Storage, DbError>)
    requires id !in t
    ensures r.Ok? ==> r.value.id == id
  {
    if |st.columns| != |st.placeholders| || (exists i :: 0 <= i < |st.placeholders| && st.placeholders[i] != "?") then
      Err(Malformed)
    else
      match Bind(st.columns, st.args, ParseColumn)
      case Some(m) => Ok(ApplyAssignments(Storage(id, "", "", "", "", "", "", ""), m))
      case None => Err(Malformed)
  }

  /**
   `UPDATE storage SET <clauses> WHERE id = ? RETURNING ...`: the SET
   placeholders take the leading arguments and the last one binds the id.
   An empty SET list is a syntax error; no matching row returns no row.
   */
  function ExecUpdate(t: Table, st: Builder): (r: Result<Storage, DbError>)
    ensures r.Ok? ==> r.value.id in t
  {
    var n := |st.clauses|;
    if n == 0 || |st.args| != n + 1 then Err(Malformed)
    else
      match (Bind(st.clauses, st.args[..n], ParseAssign), st.args[n])
      case (Some(m), IntArg(id)) =>
        if id in t then Ok(ApplyAssignments(t[id], m)) else Err(NoRows)
      case _ => Err(Malformed)
  }

  /** `SELECT ... FROM storage WHERE <clauses joined by AND> ORDER BY id DESC`. */
  function ExecSelect(t: Table, st: Builder): (r: Result<seq<Storage>, DbError>)
    ensures r.Ok? ==> forall i :: 0 <= i < |r.value| ==> r.value[i].id in t && t[r.value[i].id] == r.value[i]
    ensures r.Ok? ==> forall i, j :: 0 <= i < j < |r.value| ==> r.value[i].id > r.value[j].id
  {
    match BindWhere(st.clauses, st.args)
    case Some(ps) => Ok(RowsAt(t, SortDesc(Selected(t, ps))))
    case None => Err(Malformed)
  }

  /** `DELETE FROM storage WHERE <clauses joined by AND>`: the remaining table and the affected-row count. */
  function ExecDelete(t: Table, st: Builder): (r: Result<(Table, nat), DbError>)
    ensures r.Ok? ==> r.value.0.Keys <= t.Keys
    ensures r.Ok? ==> r.value.1 == |t.Keys - r.value.0.Keys|
  {
    match BindWhere(st.clauses, st.args)
    case Some(ps) =>
      var gone := Selected(t, ps);
      var rest: Table := t - gone;
      assert t.Keys - rest.Keys == gone;
      Ok((rest, |gone|))
    case None => Err(Malformed)
  }
}
