/**
 What the built statements mean: executing each builder's lists on the
 abstract engine has the effect the repository promises (the insert stores
 the create fields, the update changes exactly the present fields of one row,
 the find WHERE list selects exactly the rows matching the filter, the
 delete WHERE list selects exactly the row with the id).
 */
module Semantics {
  import opened Model
  import opened Statements
  import opened Engine

  /** The intended effect of a patch on one row: present fields replaced, the rest kept. */
  function ApplyPatch(row: Storage, p: StoragePatch): (r: Storage)
    ensures r.id == row.id
    ensures forall c :: r.Get(c) == p.Get(c).GetOr(row.Get(c))
  {
    Storage(
      row.id,
      p.name.GetOr(row.name),
      p.endPoint.GetOr(row.endPoint),
      p.region.GetOr(row.region),
      p.accessKey.GetOr(row.accessKey),
      p.secretKey.GetOr(row.secretKey),
      p.bucket.GetOr(row.bucket),
      p.urlPrefix.GetOr(row.urlPrefix))
  }

  /** The column assignments a patch asks for. */
  function PatchChanges(p: StoragePatch): map<Column, string> {
    map c | c in AllColumns && p.Get(c).Some? :: p.Get(c).value
  }

  // ---------------------------------------------------------------------------
  // Binding

  lemma BindSnoc(fs: seq<string>, args: seq<Arg>, f: string, a: Arg, parse: string -> Option<Column>)
    requires |fs| == |args|
    ensures Bind(fs + [f], args + [a], parse) ==
              match (Bind(fs, args, parse), parse(f), a)
              case (Some(m), Some(c), TextArg(v)) => Some(m[c := v])
              case _ => None
  {
    assert (fs + [f])[..|fs|] == fs;
    assert (args + [a])[..|args|] == args;
  }

  lemma ParseAssignInverse(c: Column)
    ensures ParseAssign(AssignClause(c)) == Some(c)
  {
  }

  lemma ParseColumnInverse(c: Column)
    ensures ParseColumn(ColumnName(c)) == Some(c)
  {
  }

  /**
   Fragments that name the columns `cols` position by position, with the
   text of `get` bound to each, bind to the map from those columns to `get`.
   */
  lemma {:induction false} BindPositional(fs: seq<string>, args: seq<Arg>, cols: seq<Column>,
                                          parse: string -> Option<Column>, get: Column -> string)
    requires |fs| == |args| == |cols|
    requires forall i :: 0 <= i < |fs| ==> parse(fs[i]) == Some(cols[i]) && args[i] == TextArg(get(cols[i]))
    ensures Bind(fs, args, parse) == Some(map c | c in cols :: get(c))
    decreases |fs|
  {
    if fs != [] {
      var n := |fs| - 1;
      BindPositional(fs[..n], args[..n], cols[..n], parse, get);
      BindSnoc(fs[..n], args[..n], fs[n], args[n], parse);
      assert fs[..n] + [fs[n]] == fs;
      assert args[..n] + [args[n]] == args;
      assert cols == cols[..n] + [cols[n]];
      assert (map c | c in cols[..n] :: get(c))[cols[n] := get(cols[n])] == map c | c in cols :: get(c);
    }
  }

  /** A SET list aligned with the present fields binds to exactly the assignments the patch asks for. */
  lemma AlignedBinds(b: Builder, p: StoragePatch)
    requires Aligned(b, p, AllColumns)
    ensures Bind(b.clauses, b.args, ParseAssign) == Some(PatchChanges(p))
  {
    var present := PresentColumns(p, AllColumns);
    var get := (c: Column) => p.Get(c).GetOr("");
    forall i | 0 <= i < |b.clauses|
      ensures ParseAssign(b.clauses[i]) == Some(present[i]) && b.args[i] == TextArg(get(present[i]))
    {
      ParseAssignInverse(present[i]);
    }
    BindPositional(b.clauses, b.args, present, ParseAssign, get);
    assert (map c | c in present :: get(c)) == PatchChanges(p);
  }

  /** The SET list binds to exactly the assignments the patch asks for. */
  lemma PatchAssignmentsBind(p: StoragePatch)
    ensures Bind(PatchAssignments(p).clauses, PatchAssignments(p).args, ParseAssign) == Some(PatchChanges(p))
  {
    PatchAssignmentsAligned(p);
    AlignedBinds(PatchAssignments(p), p);
  }

  /**
   Executing the patch statement: a patch with no present field is a
   malformed statement; otherwise the row with the patch id, if any, has
   exactly its present fields replaced, and a missing id returns no row.
   */
  lemma PatchStatementMeaning(t: Table, p: StoragePatch)
    ensures ExecUpdate(t, PatchStatement(p)) ==
              if !p.HasChange() then Err(Malformed)
              else if p.id in t then Ok(ApplyPatch(t[p.id], p))
              else Err(NoRows)
  {
    PatchAssignmentsAligned(p);
    var b := PatchAssignments(p);
    assert PatchStatement(p) == Builder(b.clauses, b.args + [IntArg(p.id)]);
    AlignedUpdate(t, b, p);
  }

  /** The update built from an aligned SET list and the patch id has the patch's effect. */
  lemma AlignedUpdate(t: Table, b: Builder, p: StoragePatch)
    requires Aligned(b, p, AllColumns)
    ensures ExecUpdate(t, Builder(b.clauses, b.args + [IntArg(p.id)])) ==
              if !p.HasChange() then Err(Malformed)
              else if p.id in t then Ok(ApplyPatch(t[p.id], p))
              else Err(NoRows)
  {
    AlignedEmptyIffNoChange(b, p);
    AlignedBinds(b, p);
    var st := Builder(b.clauses, b.args + [IntArg(p.id)]);
    assert st.args[..|st.clauses|] == b.args;
    assert st.args[|st.clauses|] == IntArg(p.id);
    if p.HasChange() && p.id in t {
      ChangesApplied(t[p.id], p);
    }
  }

  /** Overwriting the bound assignments is the patch's effect. */
  lemma ChangesApplied(row: Storage, p: StoragePatch)
    ensures ApplyAssignments(row, PatchChanges(p)) == ApplyPatch(row, p)
  {
    var r := ApplyAssignments(row, PatchChanges(p));
    forall c ensures r.Get(c) == ApplyPatch(row, p).Get(c) {
      EveryColumnListed(c);
    }
  }

  /** An insert whose lists line up with the seven columns stores a row holding `get` of each column. */
  lemma AlignedInsert(t: Table, st: Insert, id: int, get: Column -> string)
    requires id !in t
    requires |st.columns| == |st.placeholders| == |st.args| == |AllColumns|
    requires forall i :: 0 <= i < |AllColumns| ==>
               && st.columns[i] == ColumnName(AllColumns[i])
               && st.placeholders[i] == "?"
               && st.args[i] == TextArg(get(AllColumns[i]))
    ensures ExecInsert(t, st, id).Ok?
    ensures var row := ExecInsert(t, st, id).value;
      && row.id == id
      && forall col :: row.Get(col) == get(col)
  {
    forall i | 0 <= i < |st.columns|
      ensures ParseColumn(st.columns[i]) == Some(AllColumns[i])
    {
      ParseColumnInverse(AllColumns[i]);
    }
    BindPositional(st.columns, st.args, AllColumns, ParseColumn, get);
    forall col
      ensures col in AllColumns
    {
      EveryColumnListed(col);
    }
  }

  /** Executing the insert statement stores a row with the new id and every create field. */
  lemma CreateStatementMeaning(t: Table, c: StorageCreate, id: int)
    requires id !in t
    ensures ExecInsert(t, CreateStatement(c), id).Ok?
    ensures var row := ExecInsert(t, CreateStatement(c), id).value;
      && row.id == id
      && forall col :: row.Get(col) == c.Get(col)
  {
    AlignedInsert(t, CreateStatement(c), id, c.Get);
  }

  // ---------------------------------------------------------------------------
  // WHERE lists

  lemma BindWhereSnoc(cs: seq<string>, args: seq<Arg>, c: string, a: Arg)
    requires c != AlwaysTrue
    ensures BindWhere(cs + [c], args + [a]) ==
              match (BindWhere(cs, args), BindPred(c, a))
              case (Some(ps), Some(q)) => Some(ps + [q])
              case _ => None
  {
    assert (cs + [c])[..|cs|] == cs;
    assert (args + [a])[..|args|] == args;
  }

  lemma HoldsAllSnoc(ps: seq<Pred>, q: Pred, row: Storage)
    ensures HoldsAll(ps + [q], row) <==> HoldsAll(ps, row) && q.Holds(row)
  {
    if HoldsAll(ps, row) && q.Holds(row) {
      forall i | 0 <= i < |ps + [q]| ensures (ps + [q])[i].Holds(row) {
        if i < |ps| { assert (ps + [q])[i] == ps[i]; }
      }
    }
    if HoldsAll(ps + [q], row) {
      assert (ps + [q])[|ps|] == q;
      forall i | 0 <= i < |ps| ensures ps[i].Holds(row) {
        assert (ps + [q])[i] == ps[i];
      }
    }
  }

  lemma ClausesDistinct()
    ensures IdEqualsClause != AlwaysTrue && NameEqualsClause != AlwaysTrue
  {
    assert IdEqualsClause[0] != AlwaysTrue[0];
    assert NameEqualsClause[0] != AlwaysTrue[0];
  }

  lemma BaseBinds()
    ensures BindWhere([AlwaysTrue], []) == Some([Always])
  {
    assert [AlwaysTrue][..0] == [];
    assert BindWhere([], []) == Some([]);
    assert [AlwaysTrue][0] == "1 = 1";
    assert [] + [Always] == [Always];
  }

  /** The find WHERE list binds, and holds of a row exactly when the row matches the filter. */
  lemma FindStatementMeaning(f: StorageFind)
    ensures BindWhere(FindStatement(f).clauses, FindStatement(f).args).Some?
    ensures forall row :: HoldsAll(BindWhere(FindStatement(f).clauses, FindStatement(f).args).value, row) <==> f.Matches(row)
  {
    ClausesDistinct();
    BaseBinds();
    var b0, ps0 := Builder([AlwaysTrue], []), [Always];
    var b1, ps1 := b0, ps0;
    if f.id.Some? {
      b1, ps1 := Builder(b0.clauses + [IdEqualsClause], b0.args + [IntArg(f.id.value)]), ps0 + [IdIs(f.id.value)];
      BindWhereSnoc(b0.clauses, b0.args, IdEqualsClause, IntArg(f.id.value));
    }
    var b2, ps2 := b1, ps1;
    if f.name.Some? {
      b2, ps2 := Builder(b1.clauses + [NameEqualsClause], b1.args + [TextArg(f.name.value)]), ps1 + [NameIs(f.name.value)];
      BindWhereSnoc(b1.clauses, b1.args, NameEqualsClause, TextArg(f.name.value));
    }
    assert FindStatement(f) == b2;
    assert BindWhere(b2.clauses, b2.args) == Some(ps2);
    forall row
      ensures HoldsAll(ps2, row) <==> f.Matches(row)
    {
      assert HoldsAll(ps0, row);
      if f.id.Some? { HoldsAllSnoc(ps0, IdIs(f.id.value), row); }
      if f.name.Some? { HoldsAllSnoc(ps1, NameIs(f.name.value), row); }
    }
  }

  /** The delete WHERE list binds, and holds of a row exactly when the row has the id. */
  lemma DeleteStatementMeaning(d: StorageDelete)
    ensures BindWhere(DeleteStatement(d).clauses, DeleteStatement(d).args) == Some([IdIs(d.id)])
    ensures forall row :: HoldsAll([IdIs(d.id)], row) <==> row.id == d.id
  {
    ClausesDistinct();
    BindWhereSnoc([], [], IdEqualsClause, IntArg(d.id));
    assert BindWhere([], []) == Some([]);
    assert BindPred(IdEqualsClause, IntArg(d.id)) == Some(IdIs(d.id));
    assert [] + [IdIs(d.id)] == [IdIs(d.id)];
    assert DeleteStatement(d) == Builder([] + [IdEqualsClause], [] + [IntArg(d.id)]);
    forall row
      ensures HoldsAll([IdIs(d.id)], row) <==> row.id == d.id
    {
      assert [IdIs(d.id)][0] == IdIs(d.id);
    }
  }
}
