/**
 The pure statement builders of the repository: each one produces a list
 of SQL fragments (column names, `col = ?` assignments or `WHERE`
 predicates) together with the argument list bound to their placeholders.
 The SQL text around the lists is not modelled.
 */
module Statements {
  import opened Model

  /** A value bound to a `?` placeholder. */
  datatype Arg = IntArg(i: int) | TextArg(s: string)

  /** A fragment list and the arguments for its placeholders, in order. */
  datatype Builder = Builder(clauses: seq<string>, args: seq<Arg>)

  /** The three aligned lists of an INSERT. */
  datatype Insert = Insert(columns: seq<string>, placeholders: seq<string>, args: seq<Arg>)

  /** The `col = ?` assignment for one column. */
  function AssignClause(c: Column): string {
    match c
    case Name => "name = ?"
    case EndPoint => "end_point = ?"
    case Region => "region = ?"
    case AccessKey => "access_key = ?"
    case SecretKey => "secret_key = ?"
    case Bucket => "bucket = ?"
    case UrlPrefix => "url_prefix = ?"
  }

  const AlwaysTrue: string := "1 = 1"
  const IdEqualsClause: string := "id = ?"
  const NameEqualsClause: string := "name = ?"

  /** Reference definition: the columns of `cols` that the patch sets, in order. */
  function PresentColumns(p: StoragePatch, cols: seq<Column>): (r: seq<Column>)
    ensures |r| <= |cols|
    ensures forall c :: c in r <==> c in cols && p.Get(c).Some?
  {
    if cols == [] then []
    else if p.Get(cols[0]).Some? then [cols[0]] + PresentColumns(p, cols[1..])
    else PresentColumns(p, cols[1..])
  }

  /** One optional field of the patch: a clause and its argument, or nothing. */
  function AppendIfPresent(b: Builder, v: Option<string>, clause: string): Builder {
    if v.Some? then Builder(b.clauses + [clause], b.args + [TextArg(v.value)]) else b
  }

  /** The builder holds exactly the clauses and arguments of `PresentColumns(p, cols)`. */
  ghost predicate Aligned(b: Builder, p: StoragePatch, cols: seq<Column>) {
    var present := PresentColumns(p, cols);
    && |b.clauses| == |b.args| == |present|
    && forall i :: 0 <= i < |present| ==>
         && b.clauses[i] == AssignClause(present[i])
         && b.args[i] == TextArg(p.Get(present[i]).value)
  }

  /** The SET list and its arguments: one `col = ?` per present field, in the fixed column order. */
  function PatchAssignments(p: StoragePatch): Builder {
    var b := Builder([], []);
    var b := AppendIfPresent(b, p.name, "name = ?");
    var b := AppendIfPresent(b, p.endPoint, "end_point = ?");
    var b := AppendIfPresent(b, p.region, "region = ?");
    var b := AppendIfPresent(b, p.accessKey, "access_key = ?");
    var b := AppendIfPresent(b, p.secretKey, "secret_key = ?");
    var b := AppendIfPresent(b, p.bucket, "bucket = ?");
    AppendIfPresent(b, p.urlPrefix, "url_prefix = ?")
  }

  /**
   The statement lists of the partial update: the SET list, then the id
   appended to the arguments to bind `WHERE id = ?`. Nothing rejects a patch
   with no present field.
   */
  function PatchStatement(p: StoragePatch): (st: Builder)
    ensures |st.args| >= 1 && st.args[|st.args| - 1] == IntArg(p.id)
  {
    var b := PatchAssignments(p);
    Builder(b.clauses, b.args + [IntArg(p.id)])
  }

  lemma {:induction false} PresentColumnsSnoc(p: StoragePatch, cols: seq<Column>, c: Column)
    ensures PresentColumns(p, cols + [c]) == PresentColumns(p, cols) + (if p.Get(c).Some? then [c] else [])
  {
    if cols == [] {
      assert cols + [c] == [c];
    } else {
      assert (cols + [c])[1..] == cols[1..] + [c];
      PresentColumnsSnoc(p, cols[1..], c);
    }
  }

  lemma AppendKeepsAligned(b: Builder, p: StoragePatch, cols: seq<Column>, c: Column)
    requires Aligned(b, p, cols)
    ensures Aligned(AppendIfPresent(b, p.Get(c), AssignClause(c)), p, cols + [c])
  {
    PresentColumnsSnoc(p, cols, c);
  }

  /** The SET list holds one clause and one argument per present field, in the fixed column order. */
  lemma PatchAssignmentsAligned(p: StoragePatch)
    ensures Aligned(PatchAssignments(p), p, AllColumns)
  {
    var b0, c0 := Builder([], []), [];
    assert Aligned(b0, p, c0);
    var b1, c1 := AppendIfPresent(b0, p.name, "name = ?"), c0 + [Name];
    AppendKeepsAligned(b0, p, c0, Name);
    var b2, c2 := AppendIfPresent(b1, p.endPoint, "end_point = ?"), c1 + [EndPoint];
    AppendKeepsAligned(b1, p, c1, EndPoint);
    var b3, c3 := AppendIfPresent(b2, p.region, "region = ?"), c2 + [Region];
    AppendKeepsAligned(b2, p, c2, Region);
    var b4, c4 := AppendIfPresent(b3, p.accessKey, "access_key = ?"), c3 + [AccessKey];
    AppendKeepsAligned(b3, p, c3, AccessKey);
    var b5, c5 := AppendIfPresent(b4, p.secretKey, "secret_key = ?"), c4 + [SecretKey];
    AppendKeepsAligned(b4, p, c4, SecretKey);
    var b6, c6 := AppendIfPresent(b5, p.bucket, "bucket = ?"), c5 + [Bucket];
    AppendKeepsAligned(b5, p, c5, Bucket);
    var b7, c7 := AppendIfPresent(b6, p.urlPrefix, "url_prefix = ?"), c6 + [UrlPrefix];
    AppendKeepsAligned(b6, p, c6, UrlPrefix);
    assert c7 == AllColumns;
    assert PatchAssignments(p) == b7;
  }

  lemma {:induction false} NoChangeNoColumns(p: StoragePatch, cols: seq<Column>)
    requires !p.HasChange()
    ensures PresentColumns(p, cols) == []
  {
    if cols != [] {
      assert p.Get(cols[0]).None?;
      NoChangeNoColumns(p, cols[1..]);
    }
  }

  /**
   The patch statement emits one `col = ?` clause and one argument per present
   field, in the fixed column order, and binds the id last; the SET list is
   empty exactly when no field is present.
   */
  lemma PatchStatementAligned(p: StoragePatch)
    ensures var st := PatchStatement(p);
      && |st.args| == |st.clauses| + 1
      && st.args[|st.clauses|] == IntArg(p.id)
      && Aligned(Builder(st.clauses, st.args[..|st.clauses|]), p, AllColumns)
      && (st.clauses == [] <==> !p.HasChange())
  {
    PatchAssignmentsAligned(p);
    var b := PatchAssignments(p);
    AlignedEmptyIffNoChange(b, p);
    var st := PatchStatement(p);
    assert st == Builder(b.clauses, b.args + [IntArg(p.id)]);
    assert st.args[..|st.clauses|] == b.args;
  }

  /** An aligned SET list is empty exactly when the patch has no present field. */
  lemma AlignedEmptyIffNoChange(b: Builder, p: StoragePatch)
    requires Aligned(b, p, AllColumns)
    ensures b.clauses == [] <==> !p.HasChange()
  {
    if p.HasChange() {
      var c :| p.Get(c).Some?;
      assert c in AllColumns;
      assert c in PresentColumns(p, AllColumns);
    } else {
      NoChangeNoColumns(p, AllColumns);
    }
  }

  /**
   The conjunctive WHERE list of the find query: the always-true base
   predicate, then `id = ?` and `name = ?` for the filters that are present.
   */
  function FindStatement(f: StorageFind): (st: Builder)
    ensures |st.clauses| >= 1 && st.clauses[0] == AlwaysTrue
    ensures |st.args| == |st.clauses| - 1
    ensures |st.clauses| == 1 + (if f.id.Some? then 1 else 0) + (if f.name.Some? then 1 else 0)
    ensures f.id.Some? ==> st.clauses[1] == IdEqualsClause && st.args[0] == IntArg(f.id.value)
    ensures f.name.Some? ==> st.clauses[|st.clauses| - 1] == NameEqualsClause
                             && st.args[|st.args| - 1] == TextArg(f.name.value)
  {
    var b := Builder([AlwaysTrue], []);
    var b := if f.id.Some? then Builder(b.clauses + [IdEqualsClause], b.args + [IntArg(f.id.value)]) else b;
    var b := if f.name.Some? then Builder(b.clauses + [NameEqualsClause], b.args + [TextArg(f.name.value)]) else b;
    b
  }

  /** The column, placeholder and argument lists of the insert. */
  function CreateStatement(c: StorageCreate): (st: Insert)
    ensures |st.columns| == |st.placeholders| == |st.args| == |AllColumns| == 7
    ensures forall i :: 0 <= i < 7 ==>
              && st.columns[i] == ColumnName(AllColumns[i])
              && st.placeholders[i] == "?"
              && st.args[i] == TextArg(c.Get(AllColumns[i]))
  {
    Insert(
      ["name", "end_point", "region", "access_key", "secret_key", "bucket", "url_prefix"],
      ["?", "?", "?", "?", "?", "?", "?"],
      [TextArg(c.name), TextArg(c.endPoint), TextArg(c.region), TextArg(c.accessKey),
       TextArg(c.secretKey), TextArg(c.bucket), TextArg(c.urlPrefix)])
  }

  /** The WHERE list of the delete: the single predicate on the id. */
  function DeleteStatement(d: StorageDelete): Builder {
    Builder([IdEqualsClause], [IntArg(d.id)])
  }
}
