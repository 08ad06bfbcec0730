/** The bookkeeping type table: a two-level hierarchy of income/expense
    types keyed by ID, with unique labels, soft deletion ("transfer to")
    and a derived set of IDs that still have live children. */
module TypeTable {
  import opened Wrappers
  import opened SyncModel

  /** typeRow; `toParentId` is non-empty once the row has been transferred. */
  datatype Row = Row(labelText: string, parentId: string, toParentId: string, data: Bytes)

  /** The rows and the cached validParentIDs set. */
  datatype Table = Table(rows: map<string, Row>, valid: set<string>)

  predicate Live(r: Row) { r.toParentId == "" }

  /** What validParentIDs is meant to hold: every parent some live row
      names. */
  function Derived(rows: map<string, Row>): (d: set<string>)
    ensures forall p :: p in d <==> exists k :: k in rows && Live(rows[k]) && rows[k].parentId == p && p != ""
  {
    set k | k in rows && Live(rows[k]) && rows[k].parentId != "" :: rows[k].parentId
  }

  /** AfterLoad: recompute the set from the loaded rows; a failed load
      leaves it empty. */
  function AfterLoad(rows: map<string, Row>, loadFailed: bool): (t: Table)
    ensures t.rows == rows
    ensures !loadFailed ==> Consistent(t)
    ensures loadFailed ==> t.valid == {}
  {
    Table(rows, if loadFailed then {} else Derived(rows))
  }

  /** The derived set is up to date. */
  predicate Consistent(t: Table) {
    t.valid == Derived(t.rows)
  }

  /** At most two levels: the parent of a live row exists, is live and has
      no parent itself. */
  predicate TwoLevels(rows: map<string, Row>) {
    forall k :: k in rows && Live(rows[k]) && rows[k].parentId != "" ==>
      rows[k].parentId in rows && rows[k].parentId != k &&
      Live(rows[rows[k].parentId]) && rows[rows[k].parentId].parentId == ""
  }

  /** No two rows share a label. */
  predicate UniqueLabels(rows: map<string, Row>) {
    forall a, b :: a in rows && b in rows && a != b ==> rows[a].labelText != rows[b].labelText
  }

  /** The empty string means "no parent" and "not transferred", so no row
      is stored under it. */
  predicate NoEmptyId(rows: map<string, Row>) {
    "" !in rows
  }

  ghost predicate Inv(t: Table) {
    NoEmptyId(t.rows) && Consistent(t) && TwoLevels(t.rows) && UniqueLabels(t.rows)
  }

  predicate LabelUsed(rows: map<string, Row>, name: string, except: string) {
    exists k :: k in rows && k != except && rows[k].labelText == name
  }

  // ---------------------------------------------------------------------
  // Add

  /** Why Add refuses, if it does. */
  function AddError(t: Table, id: string, name: string, parentId: string): Option<Code> {
    if id in t.rows then Some(Exists)
    else if parentId != "" && parentId == id then Some(Conflict)
    else if parentId != "" && parentId !in t.rows then Some(NotExists)
    else if parentId != "" && !Live(t.rows[parentId]) then Some(Conflict)
    else if parentId != "" && t.rows[parentId].parentId != "" then Some(Conflict)
    else if LabelUsed(t.rows, name, id) then Some(LabelExists)
    else None
  }

  /** Add: a new live row under an existing live root (or at the top). */
  function Add(t: Table, id: string, name: string, parentId: string, data: Bytes): (r: Result<Table>)
    ensures r.Err? <==> AddError(t, id, name, parentId).Some?
    ensures r.Err? ==> r.code == AddError(t, id, name, parentId).value
    ensures r.Ok? ==> r.value.rows == t.rows[id := Row(name, parentId, "", data)]
    ensures r.Ok? ==> id !in t.rows && !LabelUsed(t.rows, name, id)
    ensures r.Ok? && parentId != "" ==> (parentId in t.rows && Live(t.rows[parentId]) &&
                                         t.rows[parentId].parentId == "" && parentId in r.value.valid)
  {
    match AddError(t, id, name, parentId)
    case Some(e) => Err(e)
    case None =>
      Ok(Table(t.rows[id := Row(name, parentId, "", data)],
               if parentId != "" then t.valid + {parentId} else t.valid))
  }

  // ---------------------------------------------------------------------
  // Del

  /** Why Del refuses, if it does. */
  function DelError(t: Table, id: string, to: string): Option<Code> {
    if id == to then Some(Conflict)
    else if id !in t.rows || to !in t.rows then Some(NotExists)
    else if !Live(t.rows[to]) then Some(Conflict)
    else if id in t.valid then Some(Conflict)
    else None
  }

  /** Another row than `id` names `parent`; the source's scan counts
      transferred rows too. */
  predicate SiblingAsWritten(rows: map<string, Row>, id: string, parent: string) {
    exists k :: k in rows && k != id && rows[k].parentId == parent
  }

  /** Another live row than `id` names `parent`. */
  predicate LiveSibling(rows: map<string, Row>, id: string, parent: string) {
    exists k :: k in rows && k != id && Live(rows[k]) && rows[k].parentId == parent
  }

  /** Del as written: transfer `id` to `to`, and drop its parent from the
      set unless another row (live or not) names that parent. */
  function DelAsWritten(t: Table, id: string, to: string): (r: Result<Table>)
    ensures r.Err? <==> DelError(t, id, to).Some?
    ensures r.Ok? ==> r.value.rows == t.rows[id := t.rows[id].(toParentId := to)]
  {
    match DelError(t, id, to)
    case Some(e) => Err(e)
    case None =>
      var row := t.rows[id];
      var valid := if row.parentId != "" && !SiblingAsWritten(t.rows, id, row.parentId)
                   then t.valid - {row.parentId} else t.valid;
      Ok(Table(t.rows[id := row.(toParentId := to)], valid))
  }

  /** Del: as written, but only live siblings keep the parent in the set. */
  function Del(t: Table, id: string, to: string): (r: Result<Table>)
    ensures r.Err? <==> DelError(t, id, to).Some?
    ensures r.Err? ==> r.code == DelError(t, id, to).value
    ensures r.Ok? ==> r.value.rows.Keys == t.rows.Keys
    ensures r.Ok? ==> r.value.rows == t.rows[id := t.rows[id].(toParentId := to)]
    ensures r.Ok? ==> id != to && to in t.rows && Live(t.rows[to]) && id !in t.valid
  {
    match DelError(t, id, to)
    case Some(e) => Err(e)
    case None =>
      var row := t.rows[id];
      var valid := if row.parentId != "" && !LiveSibling(t.rows, id, row.parentId)
                   then t.valid - {row.parentId} else t.valid;
      Ok(Table(t.rows[id := row.(toParentId := to)], valid))
  }

  // ---------------------------------------------------------------------
  // Change

  /** Why Change refuses, if it does. */
  function ChangeError(t: Table, id: string, name: string, parentId: string): Option<Code> {
    if id !in t.rows then Some(NotExists)
    else if parentId != "" && parentId == id then Some(Conflict)
    else if parentId != "" && id in t.valid then Some(Conflict)
    else if parentId != "" && parentId !in t.rows then Some(Conflict)
    else if parentId != "" && t.rows[parentId].parentId != "" then Some(Conflict)
    else if parentId != "" && !Live(t.rows[parentId]) then Some(Conflict)
    else if LabelUsed(t.rows, name, id) then Some(LabelExists)
    else None
  }

  /** Change as written: relabel and re-parent; the old parent leaves the
      set unless another row (live or not) names it, and the new parent
      joins it even when the changed row is transferred. */
  function ChangeAsWritten(t: Table, id: string, name: string, parentId: string, data: Bytes): (r: Result<Table>)
    ensures r.Err? <==> ChangeError(t, id, name, parentId).Some?
    ensures r.Ok? ==> r.value.rows == t.rows[id := t.rows[id].(labelText := name, data := data, parentId := parentId)]
  {
    match ChangeError(t, id, name, parentId)
    case Some(e) => Err(e)
    case None =>
      var tr := t.rows[id];
      var checkParent := tr.parentId != "" && tr.parentId != parentId;
      var v1 := if checkParent && !SiblingAsWritten(t.rows, id, tr.parentId) then t.valid - {tr.parentId} else t.valid;
      var v2 := if parentId != "" then v1 + {parentId} else v1;
      Ok(Table(t.rows[id := tr.(labelText := name, data := data, parentId := parentId)], v2))
  }

  /** Change: as written, except that only live rows keep or add a parent
      to the set. */
  function Change(t: Table, id: string, name: string, parentId: string, data: Bytes): (r: Result<Table>)
    ensures r.Err? <==> ChangeError(t, id, name, parentId).Some?
    ensures r.Err? ==> r.code == ChangeError(t, id, name, parentId).value
    ensures r.Ok? ==> r.value.rows == t.rows[id := t.rows[id].(labelText := name, data := data, parentId := parentId)]
    ensures r.Ok? ==> !LabelUsed(t.rows, name, id)
    ensures r.Ok? && parentId != "" ==> parentId != id && id !in t.valid && parentId in t.rows &&
                                         Live(t.rows[parentId]) && t.rows[parentId].parentId == ""
  {
    match ChangeError(t, id, name, parentId)
    case Some(e) => Err(e)
    case None =>
      var tr := t.rows[id];
      var checkParent := tr.parentId != "" && tr.parentId != parentId;
      var v1 := if checkParent && !LiveSibling(t.rows, id, tr.parentId) then t.valid - {tr.parentId} else t.valid;
      var v2 := if parentId != "" && Live(tr) then v1 + {parentId} else v1;
      Ok(Table(t.rows[id := tr.(labelText := name, data := data, parentId := parentId)], v2))
  }

  // ---------------------------------------------------------------------
  // The invariant

  /** Add keeps the set derived, the hierarchy two levels deep and labels
      unique. It does not check the ID, so it accepts "" too, the string
      that otherwise means "no parent": the table then breaks NoEmptyId,
      and the full invariant holds afterwards exactly when the ID is not
      empty. */
  lemma AddKeepsInv(t: Table, id: string, name: string, parentId: string, data: Bytes)
    requires Inv(t) && Add(t, id, name, parentId, data).Ok?
    ensures var u := Add(t, id, name, parentId, data).value;
            Consistent(u) && TwoLevels(u.rows) && UniqueLabels(u.rows)
    ensures NoEmptyId(Add(t, id, name, parentId, data).value.rows) <==> id != ""
    ensures Inv(Add(t, id, name, parentId, data).value) <==> id != ""
  {
    var u := Add(t, id, name, parentId, data).value;
    var nr := Row(name, parentId, "", data);
    assert u.valid == Derived(u.rows) by {
      InsertDerived(t.rows, id, nr, t.valid, if parentId != "" then t.valid + {parentId} else t.valid);
    }
    InsertKeepsShape(t.rows, id, nr);
  }

  /** Inserting a new live row under an existing live root (or at the top)
      with a label no other row uses keeps the hierarchy two levels deep
      and labels unique. */
  lemma InsertKeepsShape(rows: map<string, Row>, id: string, nr: Row)
    requires TwoLevels(rows) && UniqueLabels(rows) && id !in rows && Live(nr)
    requires nr.parentId != "" ==> nr.parentId != id && nr.parentId in rows &&
                                   Live(rows[nr.parentId]) && rows[nr.parentId].parentId == ""
    requires !LabelUsed(rows, nr.labelText, id)
    ensures TwoLevels(rows[id := nr]) && UniqueLabels(rows[id := nr])
  {
  }

  /** Inserting a new live row, on any map of rows: adding its parent (if
      any) keeps the set derived. */
  lemma InsertDerived(rows: map<string, Row>, id: string, nr: Row, valid: set<string>, v: set<string>)
    requires id !in rows && valid == Derived(rows) && Live(nr)
    requires v == if nr.parentId != "" then valid + {nr.parentId} else valid
    ensures v == Derived(rows[id := nr])
  {
    var u := rows[id := nr];
    forall p ensures p in v <==> p in Derived(u) {
      if p in Derived(rows) {
        var k :| k in rows && Live(rows[k]) && rows[k].parentId == p && p != "";
        assert k in u && u[k] == rows[k];
      }
      if p == nr.parentId && p != "" {
        assert u[id].parentId == p;
      }
    }
  }

  /** Del keeps the set derived. */
  lemma DelKeepsConsistent(t: Table, id: string, to: string)
    requires NoEmptyId(t.rows) && Consistent(t) && Del(t, id, to).Ok?
    ensures Consistent(Del(t, id, to).value)
  {
    var u := Del(t, id, to).value;
    var row := t.rows[id];
    forall p ensures p in u.valid <==> p in Derived(u.rows) {
      if p in Derived(t.rows) && p != row.parentId {
        var k :| k in t.rows && Live(t.rows[k]) && t.rows[k].parentId == p && p != "";
        assert k != id;
        assert u.rows[k] == t.rows[k];
      }
      if p == row.parentId && LiveSibling(t.rows, id, p) {
        var k :| k in t.rows && k != id && Live(t.rows[k]) && t.rows[k].parentId == p;
        assert u.rows[k] == t.rows[k];
      }
      if p in Derived(u.rows) {
        var k :| k in u.rows && Live(u.rows[k]) && u.rows[k].parentId == p && p != "";
        assert k != id;
        assert t.rows[k] == u.rows[k];
      }
    }
  }

  /** Del keeps the hierarchy: the transferred row has no live children. */
  lemma DelKeepsTwoLevels(t: Table, id: string, to: string)
    requires NoEmptyId(t.rows) && Consistent(t) && TwoLevels(t.rows) && Del(t, id, to).Ok?
    ensures TwoLevels(Del(t, id, to).value.rows)
  {
    var u := Del(t, id, to).value;
    forall k | k in u.rows && Live(u.rows[k]) && u.rows[k].parentId != ""
      ensures u.rows[k].parentId in u.rows && u.rows[k].parentId != k &&
              Live(u.rows[u.rows[k].parentId]) && u.rows[u.rows[k].parentId].parentId == ""
    {
      assert k != id;
      assert t.rows[k] == u.rows[k];
      assert t.rows[k].parentId in Derived(t.rows);
    }
  }

  /** Del keeps the invariant. */
  lemma DelKeepsInv(t: Table, id: string, to: string)
    requires Inv(t) && Del(t, id, to).Ok?
    ensures Inv(Del(t, id, to).value)
  {
    DelKeepsConsistent(t, id, to);
    DelKeepsTwoLevels(t, id, to);
    var u := Del(t, id, to).value;
    forall a, b | a in u.rows && b in u.rows && a != b
      ensures u.rows[a].labelText != u.rows[b].labelText
    {
      assert u.rows[a].labelText == t.rows[a].labelText;
      assert u.rows[b].labelText == t.rows[b].labelText;
    }
  }

  /** Change keeps the set derived. */
  lemma ChangeKeepsConsistent(t: Table, id: string, name: string, parentId: string, data: Bytes)
    requires Inv(t) && Change(t, id, name, parentId, data).Ok?
    ensures Consistent(Change(t, id, name, parentId, data).value)
  {
    var tr := t.rows[id];
    var checkParent := tr.parentId != "" && tr.parentId != parentId;
    var v1 := if checkParent && !LiveSibling(t.rows, id, tr.parentId) then t.valid - {tr.parentId} else t.valid;
    var v2 := if parentId != "" && Live(tr) then v1 + {parentId} else v1;
    RepointDerived(t.rows, id, tr.(labelText := name, data := data, parentId := parentId), t.valid, v2);
  }

  /** Re-pointing one row's parent, on any map of rows: dropping the old
      parent unless a live sibling still names it, and adding the new one
      when the row is live, keeps the set derived. */
  lemma RepointDerived(rows: map<string, Row>, id: string, nr: Row, valid: set<string>, v2: set<string>)
    requires id in rows && valid == Derived(rows) && Live(nr) == Live(rows[id])
    requires var tr := rows[id];
             var checkParent := tr.parentId != "" && tr.parentId != nr.parentId;
             var v1 := if checkParent && !LiveSibling(rows, id, tr.parentId) then valid - {tr.parentId} else valid;
             v2 == if nr.parentId != "" && Live(tr) then v1 + {nr.parentId} else v1
    ensures v2 == Derived(rows[id := nr])
  {
    var tr := rows[id];
    var u := rows[id := nr];
    forall p ensures p in v2 <==> p in Derived(u) {
      if p in Derived(rows) && (p != tr.parentId || LiveSibling(rows, id, p)) {
        var k :| k in rows && (k != id || p != tr.parentId) && Live(rows[k]) && rows[k].parentId == p && p != "";
        assert k != id;
        assert u[k] == rows[k];
      }
      if p in Derived(rows) && p == tr.parentId && p == nr.parentId {
        var k :| k in rows && Live(rows[k]) && rows[k].parentId == p && p != "";
        if k != id { assert u[k] == rows[k]; }
      }
      if p == nr.parentId && p != "" && Live(tr) {
        assert u[id].parentId == p;
      }
      if p in Derived(u) {
        var k :| k in u && Live(u[k]) && u[k].parentId == p && p != "";
        if k != id { assert rows[k] == u[k]; }
      }
    }
  }

  /** Change keeps the hierarchy two levels deep. */
  lemma ChangeKeepsTwoLevels(t: Table, id: string, name: string, parentId: string, data: Bytes)
    requires Inv(t) && Change(t, id, name, parentId, data).Ok?
    ensures TwoLevels(Change(t, id, name, parentId, data).value.rows)
  {
    var u := Change(t, id, name, parentId, data).value;
    forall k | k in u.rows && Live(u.rows[k]) && u.rows[k].parentId != ""
      ensures u.rows[k].parentId in u.rows && u.rows[k].parentId != k &&
              Live(u.rows[u.rows[k].parentId]) && u.rows[u.rows[k].parentId].parentId == ""
    {
      if k != id {
        assert t.rows[k] == u.rows[k];
        assert t.rows[k].parentId in Derived(t.rows);
        assert t.rows[k].parentId != id || parentId == "";
      }
    }
  }

  /** Change keeps the invariant. */
  lemma ChangeKeepsInv(t: Table, id: string, name: string, parentId: string, data: Bytes)
    requires Inv(t) && Change(t, id, name, parentId, data).Ok?
    ensures Inv(Change(t, id, name, parentId, data).value)
  {
    ChangeKeepsConsistent(t, id, name, parentId, data);
    ChangeKeepsTwoLevels(t, id, name, parentId, data);
  }

  // ---------------------------------------------------------------------
  // The as-written maintenance lets the set drift from the rows

  /** A root "p" with two children "a" and "b", and a spare root "x". */
  function Family(): Table {
    var rows := map["p" := Row("P", "", "", []), "a" := Row("A", "p", "", []),
                    "b" := Row("B", "p", "", []), "x" := Row("X", "", "", [])];
    Table(rows, {"p"})
  }

  lemma FamilyInv()
    ensures Inv(Family())
  {
    FamilyDerived();
    FamilyLabels();
    FamilyTwoLevels();
  }

  lemma FamilyDerived()
    ensures Derived(Family().rows) == {"p"}
  {
    var f := Family();
    assert f.rows.Keys == {"p", "a", "b", "x"};
    forall q ensures q in Derived(f.rows) <==> q == "p" {
      if q == "p" { assert f.rows["a"].parentId == "p"; }
    }
  }

  lemma FamilyLabels()
    ensures UniqueLabels(Family().rows)
  {
    var rows := Family().rows;
    assert rows.Keys == {"p", "a", "b", "x"};
    forall a, b | a in rows && b in rows && a != b ensures rows[a].labelText != rows[b].labelText {
      assert a in {"p", "a", "b", "x"} && b in {"p", "a", "b", "x"};
    }
  }

  lemma FamilyTwoLevels()
    ensures TwoLevels(Family().rows)
  {
    var rows := Family().rows;
    assert rows.Keys == {"p", "a", "b", "x"};
  }

  /** Transferring both children as written keeps "p" marked as a parent
      (the scan for "b" finds the already transferred "a"), so "p" itself
      can then never be transferred. */
  lemma DelAsWrittenDrifts()
    ensures var t1 := DelAsWritten(Family(), "a", "x");
            t1.Ok? && DelAsWritten(t1.value, "b", "x").Ok? &&
            var t2 := DelAsWritten(t1.value, "b", "x").value;
            !Consistent(t2) && DelAsWritten(t2, "p", "x") == Err(Conflict)
  {
    var f := Family();
    var t1 := DelAsWritten(f, "a", "x").value;
    assert t1.rows["a"].parentId == "p";
    var t2 := DelAsWritten(t1, "b", "x").value;
    assert "p" in t2.valid;
    assert Derived(t2.rows) == {};
  }

  /** The corrected Del lets "p" go once both children are transferred. */
  lemma DelReleasesParent()
    ensures var t1 := Del(Family(), "a", "x");
            t1.Ok? && Del(t1.value, "b", "x").Ok? &&
            Del(Del(t1.value, "b", "x").value, "p", "x").Ok?
  {
    var f := Family();
    assert LiveSibling(f.rows, "a", "p") by { assert f.rows["b"].parentId == "p"; }
    var c1 := Del(f, "a", "x").value;
    assert !LiveSibling(c1.rows, "b", "p");
  }

  /** Re-parenting a transferred row as written marks the new parent,
      although no live row names it; the corrected Change does not. */
  lemma ChangeAsWrittenDrifts()
    ensures var t := Table(map["p" := Row("P", "", "", []), "a" := Row("A", "", "p", [])], {});
            Inv(t) &&
            ChangeAsWritten(t, "a", "A", "p", []).Ok? && !Consistent(ChangeAsWritten(t, "a", "A", "p", []).value) &&
            Change(t, "a", "A", "p", []).Ok? && Consistent(Change(t, "a", "A", "p", []).value)
  {
    var t := Table(map["p" := Row("P", "", "", []), "a" := Row("A", "", "p", [])], {});
    assert Derived(t.rows) == {};
    var u := ChangeAsWritten(t, "a", "A", "p", []).value;
    assert "p" in u.valid;
    assert Derived(u.rows) == {};
  }

  // ---------------------------------------------------------------------
  // Predicting success

  /** TestAdd as written: the `ok` result is set by the parent lookup, so
      every refusal after it (transferred parent, parent that is a child,
      duplicate name) returns true. */
  function TestAddAsWritten(t: Table, id: string, name: string, parentId: string): (ok: bool)
    ensures Add(t, id, name, parentId, []).Ok? ==> ok
  {
    if id in t.rows then false
    else if parentId != "" then parentId != id && parentId in t.rows
    else !LabelUsed(t.rows, name, id)
  }

  /** TestDel as written: a row that still has children returns true. */
  function TestDelAsWritten(t: Table, id: string, to: string): (ok: bool)
    ensures Del(t, id, to).Ok? ==> ok
  {
    id != to && id in t.rows && to in t.rows && Live(t.rows[to])
  }

  /** TestChange as written: with a parent given, a row that is itself a
      parent, a parent that is a child or transferred, and a duplicate name
      all return true. */
  function TestChangeAsWritten(t: Table, id: string, name: string, parentId: string): (ok: bool)
    ensures Change(t, id, name, parentId, []).Ok? ==> ok
  {
    if id !in t.rows then false
    else if parentId != "" then parentId != id && (id in t.valid || parentId in t.rows)
    else !LabelUsed(t.rows, name, id)
  }

  /** TestAdd: ok exactly when Add would succeed. */
  function TestAdd(t: Table, id: string, name: string, parentId: string): (ok: bool)
    ensures ok <==> Add(t, id, name, parentId, []).Ok?
  {
    AddError(t, id, name, parentId).None?
  }

  function TestDel(t: Table, id: string, to: string): (ok: bool)
    ensures ok <==> Del(t, id, to).Ok?
  {
    DelError(t, id, to).None?
  }

  function TestChange(t: Table, id: string, name: string, parentId: string): (ok: bool)
    ensures ok <==> Change(t, id, name, parentId, []).Ok?
  {
    ChangeError(t, id, name, parentId).None?
  }

  /** The data never affects whether an operation succeeds, so the tests
      predict every call. */
  lemma TestsPredict(t: Table, id: string, name: string, parentId: string, to: string, data: Bytes)
    ensures TestAdd(t, id, name, parentId) <==> Add(t, id, name, parentId, data).Ok?
    ensures TestDel(t, id, to) <==> Del(t, id, to).Ok?
    ensures TestChange(t, id, name, parentId) <==> Change(t, id, name, parentId, data).Ok?
  {}

  /** The as-written tests say yes where the operation says no. */
  lemma TestsAsWrittenMispredict()
    ensures var t := Family();
            TestAddAsWritten(t, "c", "C", "a") && Add(t, "c", "C", "a", []) == Err(Conflict)
    ensures var t := Family();
            TestAddAsWritten(t, "c", "A", "p") && Add(t, "c", "A", "p", []) == Err(LabelExists)
    ensures var t := Family();
            TestDelAsWritten(t, "p", "x") && Del(t, "p", "x") == Err(Conflict)
    ensures var t := Family();
            TestChangeAsWritten(t, "p", "P", "x") && Change(t, "p", "P", "x", []) == Err(Conflict)
  {
    var t := Family();
    assert LabelUsed(t.rows, "A", "c") by { assert t.rows["a"].labelText == "A"; }
  }
}
