/**
 * What the validation pass of `uploadFile` guarantees: when a row aborts the
 * upload, which fields a valid row carries, which messages a row reports,
 * how the rows of a sheet split into errors and records, how the sheets of a
 * workbook combine, and the behaviour of the sheet lookup as written.
 */
module UploadProperties {
  import opened JsBuiltins
  import opened SheetConfig
  import opened UploadValidation

  // ---------------------------------------------------------------------------
  // One cell
  // ---------------------------------------------------------------------------

  /** A cell reports at most one message: a missing value is falsy, so its validator never runs. */
  lemma CellErrorsAtMostOne(config: Option<Schema>, header: seq<Cell>, cell: Cell, env: Env)
    requires CellStep(config, header, cell, env).Normal?
    ensures |CellErrors(CellStep(config, header, cell, env).value)| <= 1
  {
    CellStepMeaning(config, header, cell, env);
  }

  /**
   * Distinct messages have distinct texts: a text names its header and its
   * kind (a "required" text ends in 'd', an "invalid" one in 'e').
   */
  lemma {:induction false} TextInjective(m1: Message, m2: Message)
    requires Text(m1) == Text(m2)
    ensures m1 == m2
  {
    var t1 := Text(m1);
    var t2 := Text(m2);
    assert m1.Required? <==> t1[|t1| - 1] == 'd';
    assert m2.Required? <==> t2[|t2| - 1] == 'd';
    var a := m1.header;
    var b := m2.header;
    if m1.Required? {
      assert m2.Required?;
      assert |a| == |b|;
      assert a == t1[..|a|] && b == t2[..|b|];
    } else {
      assert m2.Invalid?;
      assert |a| == |b|;
      assert a == t1[8..8 + |a|] && b == t2[8..8 + |b|];
    }
  }

  /**
   * A cell reports `Required(h)` exactly when it sits under the configured
   * header `h` and its normalised value is missing, and `Invalid(h)` exactly
   * when it sits under `h` and fails that column's validator.
   */
  lemma CellErrorMeaning(config: Option<Schema>, header: seq<Cell>, cell: Cell, env: Env, h: string)
    requires CellStep(config, header, cell, env).Normal?
    ensures var eff := CellStep(config, header, cell, env).value;
            Required(h) in CellErrors(eff) <==>
              && HeaderText(header, cell.col) == Normal(Some(h)) && ColumnFor(config.value, Some(h)).Some?
              && ColumnFor(config.value, Some(h)).value.required && IsMissing(Normalize(h, cell.value))
    ensures var eff := CellStep(config, header, cell, env).value;
            Invalid(h) in CellErrors(eff) <==>
              && HeaderText(header, cell.col) == Normal(Some(h)) && ColumnFor(config.value, Some(h)).Some?
              && var v := Normalize(h, cell.value);
              && var check := ColumnFor(config.value, Some(h)).value.check;
              && Truthy(v) && check.Some? && RunCheck(check.value, v, env) == Normal(false)
  {
  }

  /**
   * An Amount of zero is never reported: zero is falsy, so the `> 0` check
   * is skipped, and it is not missing, so the row keeps it.
   */
  lemma ZeroAmountAccepted(name: string, header: seq<Cell>, cell: Cell, env: Env)
    requires HeaderText(header, cell.col) == Normal(Some("Amount")) && cell.value == Num(0.0)
    ensures CellStep(Some(SchemaFor(name)), header, cell, env)
            == Normal(Assigned("Amount", SchemaFor(name).columns["Amount"], Num(0.0), false, false))
  {
  }

  /** A text cell under the Default schema's Date header aborts the whole upload. */
  lemma DateTextAborts(name: string, header: seq<Cell>, cell: Cell, env: Env)
    requires name != "Invoices" && HeaderText(header, cell.col) == Normal(Some("Date"))
    requires cell.value.Str? && cell.value.s != ""
    ensures CellStep(Some(SchemaFor(name)), header, cell, env).Throws?
  {
  }

  /** A header cell holding a number aborts the upload as soon as a data cell below it is visited. */
  lemma NumericHeaderAborts(config: Option<Schema>, header: seq<Cell>, cell: Cell, env: Env)
    requires HeaderValue(header, cell.col).Num?
    ensures CellStep(config, header, cell, env).Throws?
  {
  }

  // ---------------------------------------------------------------------------
  // One row
  // ---------------------------------------------------------------------------

  /** The row aborts the upload exactly when one of its cells does. */
  lemma {:induction false} RowAbortsIff(config: Option<Schema>, header: seq<Cell>, cells: seq<Cell>, env: Env)
    ensures RowSpec(config, header, cells, env).Throws? <==>
              exists k :: 0 <= k < |cells| && CellAborts(config, header, cells[k])
    decreases |cells|
  {
    if cells != [] {
      var init := cells[..|cells| - 1];
      RowAbortsIff(config, header, init, env);
      CellStepMeaning(config, header, cells[|cells| - 1], env);
      assert forall k :: 0 <= k < |init| ==> init[k] == cells[k];
      if exists k :: 0 <= k < |cells| && CellAborts(config, header, cells[k]) {
        var k :| 0 <= k < |cells| && CellAborts(config, header, cells[k]);
        if k < |init| {
          assert CellAborts(config, header, init[k]);
        }
      }
    }
  }

  /** The effects of a row's cells, in order; `Throws` if a cell aborts. */
  function Effects(config: Option<Schema>, header: seq<Cell>, cells: seq<Cell>, env: Env): Completion<seq<CellEffect>>
    decreases |cells|
  {
    if cells == [] then Normal([])
    else
      match Effects(config, header, cells[..|cells| - 1], env)
      case Throws => Throws
      case Normal(effs) =>
        match CellStep(config, header, cells[|cells| - 1], env)
        case Throws => Throws
        case Normal(eff) => Normal(effs + [eff])
  }

  /** The fields a sequence of effects writes, starting from an empty row. */
  function FieldsOf(effs: seq<CellEffect>): map<string, Value>
    decreases |effs|
  {
    if effs == [] then map[]
    else
      var prev := FieldsOf(effs[..|effs| - 1]);
      var eff := effs[|effs| - 1];
      if eff.Assigned? && eff.column.dbField != "" then prev[eff.column.dbField := eff.value] else prev
  }

  /** The messages a sequence of effects reports, in order. */
  function ErrorsOf(effs: seq<CellEffect>): seq<Message>
    decreases |effs|
  {
    if effs == [] then [] else ErrorsOf(effs[..|effs| - 1]) + CellErrors(effs[|effs| - 1])
  }

  /** A row is the fold of its cells' effects. */
  lemma {:induction false} RowSpecFold(config: Option<Schema>, header: seq<Cell>, cells: seq<Cell>, env: Env)
    ensures RowSpec(config, header, cells, env).Throws? <==> Effects(config, header, cells, env).Throws?
    ensures Effects(config, header, cells, env).Normal? ==>
              var effs := Effects(config, header, cells, env).value;
              RowSpec(config, header, cells, env) == Normal(RowState(FieldsOf(effs), ErrorsOf(effs)))
    decreases |cells|
  {
    if cells != [] {
      var init := cells[..|cells| - 1];
      RowSpecFold(config, header, init, env);
      var last := CellStep(config, header, cells[|cells| - 1], env);
      if Effects(config, header, init, env).Normal? && last.Normal? {
        var effs := Effects(config, header, init, env).value;
        var all := effs + [last.value];
        assert all[..|effs|] == effs && all[|effs|] == last.value;
        assert FieldsOf(all) == Apply(RowState(FieldsOf(effs), ErrorsOf(effs)), last.value).fields;
        assert ErrorsOf(all) == Apply(RowState(FieldsOf(effs), ErrorsOf(effs)), last.value).errors;
      }
    }
  }

  /** The effects of a row that does not abort are its cells' effects, one per cell. */
  lemma {:induction false} EffectsOf(config: Option<Schema>, header: seq<Cell>, cells: seq<Cell>, env: Env, effs: seq<CellEffect>)
    requires Effects(config, header, cells, env) == Normal(effs)
    ensures |effs| == |cells|
    ensures forall k :: 0 <= k < |cells| ==> CellStep(config, header, cells[k], env) == Normal(effs[k])
    decreases |cells|
  {
    if cells != [] {
      var n := |cells| - 1;
      var init := cells[..n];
      var prev := Effects(config, header, init, env).value;
      EffectsOf(config, header, init, env, prev);
      assert effs == prev + [effs[n]];
      forall k | 0 <= k < |cells|
        ensures CellStep(config, header, cells[k], env) == Normal(effs[k])
      {
        if k < n {
          assert init[k] == cells[k];
          assert effs[k] == prev[k];
        }
      }
    }
  }

  /** Effect `eff` writes field `f` of the row. */
  predicate Writes(eff: CellEffect, f: string) {
    eff.Assigned? && eff.column.dbField == f && f != ""
  }

  lemma {:induction false} FoldFieldKeys(effs: seq<CellEffect>)
    ensures forall f :: f in FieldsOf(effs) <==> exists k :: 0 <= k < |effs| && Writes(effs[k], f)
    decreases |effs|
  {
    if effs != [] {
      var n := |effs| - 1;
      var init := effs[..n];
      FoldFieldKeys(init);
      assert forall k :: 0 <= k < n ==> init[k] == effs[k];
      forall f | exists k :: 0 <= k < |effs| && Writes(effs[k], f)
        ensures f in FieldsOf(effs)
      {
        var k :| 0 <= k < |effs| && Writes(effs[k], f);
        if k < n {
          assert Writes(init[k], f);
        }
      }
    }
  }

  lemma {:induction false} FoldFieldValue(effs: seq<CellEffect>, f: string, k: nat)
    requires k < |effs| && Writes(effs[k], f)
    requires forall j :: k < j < |effs| ==> !Writes(effs[j], f)
    ensures f in FieldsOf(effs) && FieldsOf(effs)[f] == effs[k].value
    decreases |effs|
  {
    var n := |effs| - 1;
    var init := effs[..n];
    if k < n {
      assert forall j :: k < j < n ==> init[j] == effs[j];
      FoldFieldValue(init, f, k);
      assert !Writes(effs[n], f);
    }
  }

  /** The number of effects that assign a field. */
  function AssignedCount(effs: seq<CellEffect>): nat
    decreases |effs|
  {
    if effs == [] then 0 else AssignedCount(effs[..|effs| - 1]) + if effs[|effs| - 1].Assigned? then 1 else 0
  }

  /** Effect `eff` reports a message: its cell is missing or invalid. */
  predicate Reports(eff: CellEffect) {
    eff.Assigned? && (eff.missing || eff.invalid)
  }

  lemma FoldErrorMembers(effs: seq<CellEffect>)
    ensures forall e :: e in ErrorsOf(effs) <==> exists k :: 0 <= k < |effs| && e in CellErrors(effs[k])
  {
    FoldErrorsFromCells(effs);
    forall k | 0 <= k < |effs| {
      FoldErrorsKeepCell(effs, k);
    }
  }

  /** Every message of a row comes from one of its cells. */
  lemma {:induction false} FoldErrorsFromCells(effs: seq<CellEffect>)
    ensures forall e :: e in ErrorsOf(effs) ==> exists k :: 0 <= k < |effs| && e in CellErrors(effs[k])
    decreases |effs|
  {
    if effs != [] {
      var n := |effs| - 1;
      var init := effs[..n];
      FoldErrorsFromCells(init);
      var prev := ErrorsOf(init);
      assert ErrorsOf(effs) == prev + CellErrors(effs[n]);
      forall e | e in ErrorsOf(effs)
        ensures exists k :: 0 <= k < |effs| && e in CellErrors(effs[k])
      {
        if e in prev {
          var k :| 0 <= k < n && e in CellErrors(init[k]);
          assert init[k] == effs[k];
        } else {
          assert e in CellErrors(effs[n]);
        }
      }
    }
  }

  /** Every message of cell `k` is among the row's messages. */
  lemma {:induction false} FoldErrorsKeepCell(effs: seq<CellEffect>, k: nat)
    requires k < |effs|
    ensures forall e :: e in CellErrors(effs[k]) ==> e in ErrorsOf(effs)
    decreases |effs|
  {
    var n := |effs| - 1;
    var init := effs[..n];
    var prev, last := ErrorsOf(init), CellErrors(effs[n]);
    assert ErrorsOf(effs) == prev + last;
    if k < n {
      FoldErrorsKeepCell(init, k);
      assert init[k] == effs[k];
      forall e | e in CellErrors(effs[k]) ensures e in ErrorsOf(effs) {
        assert e in prev;
      }
    } else {
      forall e | e in CellErrors(effs[k]) ensures e in ErrorsOf(effs) {
        assert e in last;
      }
    }
  }

  lemma {:induction false} FoldErrorCount(effs: seq<CellEffect>)
    requires forall k :: 0 <= k < |effs| ==> !(effs[k].Assigned? && effs[k].missing && effs[k].invalid)
    ensures |ErrorsOf(effs)| <= AssignedCount(effs)
    decreases |effs|
  {
    if effs != [] {
      var n := |effs| - 1;
      var init := effs[..n];
      assert forall k :: 0 <= k < n ==> init[k] == effs[k];
      FoldErrorCount(init);
      assert |ErrorsOf(effs)| == |ErrorsOf(init)| + |CellErrors(effs[n])|;
      assert AssignedCount(effs) == AssignedCount(init) + if effs[n].Assigned? then 1 else 0;
      assert |CellErrors(effs[n])| <= if effs[n].Assigned? then 1 else 0 by {
        if effs[n].Assigned? {
          assert !(effs[n].missing && effs[n].invalid);
        }
      }
    }
  }

  lemma {:induction false} FoldErrorsEmpty(effs: seq<CellEffect>)
    ensures |ErrorsOf(effs)| == 0 <==> forall k :: 0 <= k < |effs| ==> !Reports(effs[k])
    decreases |effs|
  {
    if effs != [] {
      var n := |effs| - 1;
      var init := effs[..n];
      FoldErrorsEmpty(init);
      assert |ErrorsOf(effs)| == |ErrorsOf(init)| + |CellErrors(effs[n])|;
      assert |CellErrors(effs[n])| == 0 <==> !Reports(effs[n]);
      assert forall k :: 0 <= k < n ==> init[k] == effs[k];
    }
  }

  /** Cell `cell` writes field `f` of the row. */
  predicate AssignsField(config: Option<Schema>, header: seq<Cell>, cell: Cell, env: Env, f: string) {
    var r := CellStep(config, header, cell, env);
    r.Normal? && Writes(r.value, f)
  }

  /**
   * A row's fields are exactly the target fields of its configured cells,
   * each holding the normalised value of the last of its cells that writes it.
   */
  lemma RowFields(config: Option<Schema>, header: seq<Cell>, cells: seq<Cell>, env: Env, st: RowState)
    requires RowSpec(config, header, cells, env) == Normal(st)
    ensures forall f :: f in st.fields <==> exists k :: 0 <= k < |cells| && AssignsField(config, header, cells[k], env, f)
    ensures forall f, k :: 0 <= k < |cells| && AssignsField(config, header, cells[k], env, f)
                           && (forall j :: k < j < |cells| ==> !AssignsField(config, header, cells[j], env, f))
                           ==> f in st.fields && st.fields[f] == CellStep(config, header, cells[k], env).value.value
  {
    RowFieldKeys(config, header, cells, env, st);
    RowFieldValues(config, header, cells, env, st);
  }

  /** The fields a row ends with are exactly those that one of its cells writes. */
  lemma RowFieldKeys(config: Option<Schema>, header: seq<Cell>, cells: seq<Cell>, env: Env, st: RowState)
    requires RowSpec(config, header, cells, env) == Normal(st)
    ensures forall f :: f in st.fields <==> exists k :: 0 <= k < |cells| && AssignsField(config, header, cells[k], env, f)
  {
    RowSpecFold(config, header, cells, env);
    var effs := Effects(config, header, cells, env).value;
    EffectsOf(config, header, cells, env, effs);
    FoldFieldKeys(effs);
    assert forall k :: 0 <= k < |cells| ==> CellStep(config, header, cells[k], env).value == effs[k];
  }

  /** A field holds the value of the last cell that writes it. */
  lemma RowFieldValues(config: Option<Schema>, header: seq<Cell>, cells: seq<Cell>, env: Env, st: RowState)
    requires RowSpec(config, header, cells, env) == Normal(st)
    ensures forall f, k :: 0 <= k < |cells| && AssignsField(config, header, cells[k], env, f)
                           && (forall j :: k < j < |cells| ==> !AssignsField(config, header, cells[j], env, f))
                           ==> f in st.fields && st.fields[f] == CellStep(config, header, cells[k], env).value.value
  {
    RowSpecFold(config, header, cells, env);
    var effs := Effects(config, header, cells, env).value;
    EffectsOf(config, header, cells, env, effs);
    forall f, k | 0 <= k < |cells| && AssignsField(config, header, cells[k], env, f)
                  && (forall j :: k < j < |cells| ==> !AssignsField(config, header, cells[j], env, f))
      ensures f in st.fields && st.fields[f] == CellStep(config, header, cells[k], env).value.value
    {
      assert CellStep(config, header, cells[k], env).value == effs[k];
      assert forall j :: k < j < |effs| ==> !Writes(effs[j], f) by {
        forall j | k < j < |effs| ensures !Writes(effs[j], f) {
          assert CellStep(config, header, cells[j], env).value == effs[j];
          assert !AssignsField(config, header, cells[j], env, f);
        }
      }
      FoldFieldValue(effs, f, k);
    }
  }

  /**
   * A row's messages are exactly the messages of its cells: no cell aborts,
   * every message comes from a cell and every cell's message is reported,
   * at most one per cell. The row is valid exactly when none of its cells
   * is missing or invalid.
   */
  lemma RowErrors(config: Option<Schema>, header: seq<Cell>, cells: seq<Cell>, env: Env, st: RowState)
    requires RowSpec(config, header, cells, env) == Normal(st)
    ensures forall k :: 0 <= k < |cells| ==> CellStep(config, header, cells[k], env).Normal?
    ensures forall e :: e in st.errors <==>
              exists k :: 0 <= k < |cells| && e in CellErrors(CellStep(config, header, cells[k], env).value)
    ensures |st.errors| <= |cells|
    ensures st.errors == [] <==> forall k :: 0 <= k < |cells| ==> !Reports(CellStep(config, header, cells[k], env).value)
  {
    RowSpecFold(config, header, cells, env);
    var effs := Effects(config, header, cells, env).value;
    EffectsOf(config, header, cells, env, effs);
    forall k | 0 <= k < |effs| ensures !(effs[k].Assigned? && effs[k].missing && effs[k].invalid) {
      CellStepMeaning(config, header, cells[k], env);
    }
    FoldErrorMembers(effs);
    FoldErrorCount(effs);
    FoldErrorsEmpty(effs);
    AssignedCountBound(effs);
  }

  lemma {:induction false} AssignedCountBound(effs: seq<CellEffect>)
    ensures AssignedCount(effs) <= |effs|
    decreases |effs|
  {
    if effs != [] {
      AssignedCountBound(effs[..|effs| - 1]);
    }
  }

  /** A required column that a row has no cell for is not reported: a row of no cells is valid and empty. */
  lemma RowWithoutCellsIsValid(config: Option<Schema>, header: seq<Cell>, env: Env)
    ensures RowSpec(config, header, [], env) == Normal(RowState(map[], []))
  {
  }

  // ---------------------------------------------------------------------------
  // One sheet
  // ---------------------------------------------------------------------------

  /** The number of rows other than the header row. */
  function DataRowCount(rows: seq<Row>): nat
    decreases |rows|
  {
    if rows == [] then 0
    else DataRowCount(rows[..|rows| - 1]) + if rows[|rows| - 1].number == 1 then 0 else 1
  }

  /**
   * Every data row of a sheet lands in exactly one of the two lists; every
   * row error names a data row of the sheet and carries at least one
   * message; every record is tagged with the sheet's name.
   */
  lemma {:induction false} SheetPartition(config: Option<Schema>, name: string, header: seq<Cell>, rows: seq<Row>, env: Env, out: SheetOutcome)
    requires SheetRows(config, name, header, rows, env) == Normal(out)
    ensures |out.errors| + |out.valid| == DataRowCount(rows)
    ensures forall i :: 0 <= i < |out.errors| ==> out.errors[i].row != 1 && out.errors[i].errors != []
    ensures forall i :: 0 <= i < |out.errors| ==> exists k :: 0 <= k < |rows| && rows[k].number == out.errors[i].row
    ensures forall i :: 0 <= i < |out.valid| ==> out.valid[i].sheetName == name
    decreases |rows|
  {
    if rows != [] {
      var n := |rows| - 1;
      var init := rows[..n];
      assert forall k :: 0 <= k < n ==> init[k] == rows[k];
      match SheetRows(config, name, header, init, env)
      case Normal(prev) =>
        SheetPartition(config, name, header, init, env, prev);
        forall i | 0 <= i < |out.errors|
          ensures exists k :: 0 <= k < |rows| && rows[k].number == out.errors[i].row
        {
          if i < |prev.errors| {
            var k :| 0 <= k < n && init[k].number == prev.errors[i].row;
            assert rows[k].number == out.errors[i].row;
          } else {
            assert rows[n].number == out.errors[i].row;
          }
        }
    }
  }

  /**
   * Data row `k` of a completed sheet completes, and lands where its own
   * outcome sends it: a row with messages as the row error carrying its
   * own number and messages, a row without as the record of its own fields.
   */
  lemma {:induction false} RowPlaced(config: Option<Schema>, name: string, header: seq<Cell>, rows: seq<Row>, env: Env,
                                     out: SheetOutcome, k: nat)
    requires SheetRows(config, name, header, rows, env) == Normal(out)
    requires k < |rows| && rows[k].number != 1
    ensures RowSpec(config, header, rows[k].cells, env).Normal?
    ensures var st := RowSpec(config, header, rows[k].cells, env).value;
            && (st.errors != [] ==> RowError(rows[k].number, st.errors) in out.errors)
            && (st.errors == [] ==> Record(name, st.fields) in out.valid)
    decreases |rows|
  {
    var n := |rows| - 1;
    var init := rows[..n];
    match SheetRows(config, name, header, init, env)
    case Normal(prev) =>
      if k < n {
        assert init[k] == rows[k];
        RowPlaced(config, name, header, init, env, prev, k);
      }
  }

  /** Row error `i` of a completed sheet is the outcome of a data row with that number. */
  lemma {:induction false} RowErrorOrigin(config: Option<Schema>, name: string, header: seq<Cell>, rows: seq<Row>, env: Env,
                                          out: SheetOutcome, i: nat)
    requires SheetRows(config, name, header, rows, env) == Normal(out)
    requires i < |out.errors|
    ensures exists k :: && 0 <= k < |rows| && rows[k].number != 1 && rows[k].number == out.errors[i].row
                        && RowSpec(config, header, rows[k].cells, env).Normal?
                        && RowSpec(config, header, rows[k].cells, env).value.errors == out.errors[i].errors
    decreases |rows|
  {
    var n := |rows| - 1;
    var init := rows[..n];
    match SheetRows(config, name, header, init, env)
    case Normal(prev) =>
      if i < |prev.errors| {
        RowErrorOrigin(config, name, header, init, env, prev, i);
        var k :| && 0 <= k < |init| && init[k].number != 1 && init[k].number == prev.errors[i].row
                 && RowSpec(config, header, init[k].cells, env).Normal?
                 && RowSpec(config, header, init[k].cells, env).value.errors == prev.errors[i].errors;
        assert rows[k] == init[k];
      } else {
        assert rows[n].number == out.errors[i].row;
      }
  }

  /** Record `i` of a completed sheet holds the fields of a data row without messages. */
  lemma {:induction false} RecordOrigin(config: Option<Schema>, name: string, header: seq<Cell>, rows: seq<Row>, env: Env,
                                        out: SheetOutcome, i: nat)
    requires SheetRows(config, name, header, rows, env) == Normal(out)
    requires i < |out.valid|
    ensures exists k :: && 0 <= k < |rows| && rows[k].number != 1
                        && RowSpec(config, header, rows[k].cells, env).Normal?
                        && RowSpec(config, header, rows[k].cells, env).value.errors == []
                        && out.valid[i] == Record(name, RowSpec(config, header, rows[k].cells, env).value.fields)
    decreases |rows|
  {
    var n := |rows| - 1;
    var init := rows[..n];
    match SheetRows(config, name, header, init, env)
    case Normal(prev) =>
      if i < |prev.valid| {
        RecordOrigin(config, name, header, init, env, prev, i);
        var k :| && 0 <= k < |init| && init[k].number != 1
                 && RowSpec(config, header, init[k].cells, env).Normal?
                 && RowSpec(config, header, init[k].cells, env).value.errors == []
                 && prev.valid[i] == Record(name, RowSpec(config, header, init[k].cells, env).value.fields);
        assert rows[k] == init[k];
      } else {
        assert rows[n].number != 1;
      }
  }

  /**
   * The placement of rows in both directions: every data row lands in the
   * list its own outcome selects, and every entry of either list comes from
   * such a row.
   */
  lemma SheetPlacement(config: Option<Schema>, name: string, header: seq<Cell>, rows: seq<Row>, env: Env, out: SheetOutcome)
    requires SheetRows(config, name, header, rows, env) == Normal(out)
    ensures forall k :: 0 <= k < |rows| && rows[k].number != 1 ==>
              && RowSpec(config, header, rows[k].cells, env).Normal?
              && var st := RowSpec(config, header, rows[k].cells, env).value;
              && (st.errors != [] ==> RowError(rows[k].number, st.errors) in out.errors)
              && (st.errors == [] ==> Record(name, st.fields) in out.valid)
    ensures forall i :: 0 <= i < |out.errors| ==>
              exists k :: && 0 <= k < |rows| && rows[k].number != 1 && rows[k].number == out.errors[i].row
                          && RowSpec(config, header, rows[k].cells, env).Normal?
                          && RowSpec(config, header, rows[k].cells, env).value.errors == out.errors[i].errors
    ensures forall i :: 0 <= i < |out.valid| ==>
              exists k :: && 0 <= k < |rows| && rows[k].number != 1
                          && RowSpec(config, header, rows[k].cells, env).Normal?
                          && RowSpec(config, header, rows[k].cells, env).value.errors == []
                          && out.valid[i] == Record(name, RowSpec(config, header, rows[k].cells, env).value.fields)
  {
    forall k | 0 <= k < |rows| && rows[k].number != 1
      ensures && RowSpec(config, header, rows[k].cells, env).Normal?
              && var st := RowSpec(config, header, rows[k].cells, env).value;
              && (st.errors != [] ==> RowError(rows[k].number, st.errors) in out.errors)
              && (st.errors == [] ==> Record(name, st.fields) in out.valid)
    {
      RowPlaced(config, name, header, rows, env, out, k);
    }
    forall i | 0 <= i < |out.errors|
      ensures exists k :: && 0 <= k < |rows| && rows[k].number != 1 && rows[k].number == out.errors[i].row
                          && RowSpec(config, header, rows[k].cells, env).Normal?
                          && RowSpec(config, header, rows[k].cells, env).value.errors == out.errors[i].errors
    {
      RowErrorOrigin(config, name, header, rows, env, out, i);
    }
    forall i | 0 <= i < |out.valid|
      ensures exists k :: && 0 <= k < |rows| && rows[k].number != 1
                          && RowSpec(config, header, rows[k].cells, env).Normal?
                          && RowSpec(config, header, rows[k].cells, env).value.errors == []
                          && out.valid[i] == Record(name, RowSpec(config, header, rows[k].cells, env).value.fields)
    {
      RecordOrigin(config, name, header, rows, env, out, i);
    }
  }

  // ---------------------------------------------------------------------------
  // The workbook
  // ---------------------------------------------------------------------------

  /** What one more sheet adds to a workbook's result. */
  function AddSheet(acc: Summary, sheet: Sheet, out: SheetOutcome): Summary {
    Summary(if |out.errors| > 0 then acc.errors + [SheetErrors(sheet.name, out.errors)] else acc.errors,
            acc.validData + out.valid)
  }

  lemma WorkbookSnoc(sheets: seq<Sheet>, sheet: Sheet, env: Env)
    requires WorkbookSpec(sheets, env).Normal? && SheetSpec(Some(SchemaFor(sheet.name)), sheet, env).Normal?
    ensures WorkbookSpec(sheets + [sheet], env)
            == Normal(AddSheet(WorkbookSpec(sheets, env).value, sheet, SheetSpec(Some(SchemaFor(sheet.name)), sheet, env).value))
  {
    assert (sheets + [sheet])[..|sheets|] == sheets;
  }

  /** Adding a sheet to a concatenation of two results is adding it to the second. */
  lemma AddSheetAssociates(x: Summary, y: Summary, sheet: Sheet, out: SheetOutcome)
    ensures AddSheet(Summary(x.errors + y.errors, x.validData + y.validData), sheet, out)
            == Summary(x.errors + AddSheet(y, sheet, out).errors, x.validData + AddSheet(y, sheet, out).validData)
  {
    assert x.validData + y.validData + out.valid == x.validData + (y.validData + out.valid);
    if |out.errors| > 0 {
      assert x.errors + y.errors + [SheetErrors(sheet.name, out.errors)]
             == x.errors + (y.errors + [SheetErrors(sheet.name, out.errors)]);
    }
  }

  /**
   * Sheets are validated independently: the result for two workbooks laid
   * end to end is the two results laid end to end.
   */
  lemma {:induction false} WorkbookConcat(a: seq<Sheet>, b: seq<Sheet>, env: Env)
    requires WorkbookSpec(a, env).Normal? && WorkbookSpec(b, env).Normal?
    ensures WorkbookSpec(a + b, env)
            == Normal(Summary(WorkbookSpec(a, env).value.errors + WorkbookSpec(b, env).value.errors,
                              WorkbookSpec(a, env).value.validData + WorkbookSpec(b, env).value.validData))
    decreases |b|
  {
    var sA := WorkbookSpec(a, env).value;
    if b == [] {
      assert a + b == a;
      assert sA.errors + [] == sA.errors && sA.validData + [] == sA.validData;
    } else {
      var n := |b| - 1;
      var init := b[..n];
      var sheet := b[n];
      assert b == init + [sheet];
      assert a + b == (a + init) + [sheet];
      if WorkbookSpec(init, env).Throws? {
        WorkbookThrowsPersists(b, n, env);
      }
      var sI := WorkbookSpec(init, env).value;
      assert SheetSpec(Some(SchemaFor(sheet.name)), sheet, env).Normal?;
      var out := SheetSpec(Some(SchemaFor(sheet.name)), sheet, env).value;
      assert WorkbookSpec(a + init, env) == Normal(Summary(sA.errors + sI.errors, sA.validData + sI.validData)) by {
        WorkbookConcat(a, init, env);
      }
      assert WorkbookSpec(b, env) == Normal(AddSheet(sI, sheet, out)) by {
        WorkbookSnoc(init, sheet, env);
      }
      assert WorkbookSpec(a + b, env) == Normal(AddSheet(Summary(sA.errors + sI.errors, sA.validData + sI.validData), sheet, out)) by {
        WorkbookSnoc(a + init, sheet, env);
      }
      AddSheetAssociates(sA, sI, sheet, out);
    }
  }

  /**
   * Only sheets with errors are listed, each at most once per sheet and
   * each with its row errors; every record and every listed sheet comes
   * from a sheet of the workbook.
   */
  lemma {:induction false} WorkbookShape(sheets: seq<Sheet>, env: Env, sum: Summary)
    requires WorkbookSpec(sheets, env) == Normal(sum)
    ensures |sum.errors| <= |sheets|
    ensures forall i :: 0 <= i < |sum.errors| ==> sum.errors[i].errors != []
    ensures forall i :: 0 <= i < |sum.errors| ==> exists k :: 0 <= k < |sheets| && sheets[k].name == sum.errors[i].sheet
    ensures forall i :: 0 <= i < |sum.validData| ==> exists k :: 0 <= k < |sheets| && sheets[k].name == sum.validData[i].sheetName
    decreases |sheets|
  {
    if sheets != [] {
      var n := |sheets| - 1;
      var init := sheets[..n];
      assert forall k :: 0 <= k < n ==> init[k] == sheets[k];
      match WorkbookSpec(init, env)
      case Normal(prev) =>
        WorkbookShape(init, env, prev);
        var s := sheets[n];
        match SheetSpec(Some(SchemaFor(s.name)), s, env)
        case Normal(out) =>
          SheetPartition(Some(SchemaFor(s.name)), s.name, HeaderRow(s.rows), s.rows, env, out);
          forall i | 0 <= i < |sum.errors|
            ensures exists k :: 0 <= k < |sheets| && sheets[k].name == sum.errors[i].sheet
          {
            if i < |prev.errors| {
              var k :| 0 <= k < n && init[k].name == prev.errors[i].sheet;
              assert sheets[k].name == sum.errors[i].sheet;
            } else {
              assert sheets[n].name == sum.errors[i].sheet;
            }
          }
          forall i | 0 <= i < |sum.validData|
            ensures exists k :: 0 <= k < |sheets| && sheets[k].name == sum.validData[i].sheetName
          {
            if i < |prev.validData| {
              var k :| 0 <= k < n && init[k].name == prev.validData[i].sheetName;
              assert sheets[k].name == sum.validData[i].sheetName;
            } else {
              assert sum.validData[i] == out.valid[i - |prev.validData|];
              assert sheets[n].name == sum.validData[i].sheetName;
            }
          }
    }
  }

  /** A workbook without sheets validates successfully with nothing in it. */
  lemma EmptyWorkbook(env: Env)
    ensures UploadSpec(Workbook([]), env) == Validated([], [], SuccessMessage)
  {
  }

  // ---------------------------------------------------------------------------
  // The sheet lookup as written
  // ---------------------------------------------------------------------------

  /**
   * Under a lookup that gave no schema, any cell of a data row aborts: the
   * first data cell visited of a sheet named after an `Object.prototype`
   * member ends the upload with status 500.
   */
  lemma PrototypeSheetAborts(name: string, header: seq<Cell>, cells: seq<Cell>, env: Env)
    requires name in ObjectPrototypeKeys && cells != []
    ensures RowSpec(ConfigLookup(name), header, cells, env).Throws?
  {
    RowAbortsIff(ConfigLookup(name), header, cells, env);
    assert CellAborts(ConfigLookup(name), header, cells[0]);
  }

  /**
   * With the intended lookup a cell aborts only because its header cell is
   * not text, or because it holds a truthy value other than a date or a
   * serial number under the Default schema's Date header; never for want of
   * a schema.
   */
  lemma CorrectedLookupAbortCauses(name: string, header: seq<Cell>, cell: Cell)
    requires CellAborts(Some(SchemaFor(name)), header, cell)
    ensures || HeaderText(header, cell.col).Throws?
            || (&& name != "Invoices" && HeaderText(header, cell.col) == Normal(Some("Date"))
                && Truthy(cell.value) && !cell.value.DateDays? && !cell.value.Num?)
  {
  }

  /** The upload pass with the sheet lookup exactly as written. */
  function WorkbookAsWritten(sheets: seq<Sheet>, env: Env): Completion<Summary>
    decreases |sheets|
  {
    if sheets == [] then Normal(Summary([], []))
    else
      match WorkbookAsWritten(sheets[..|sheets| - 1], env)
      case Throws => Throws
      case Normal(acc) =>
        var sheet := sheets[|sheets| - 1];
        match SheetSpec(ConfigLookup(sheet.name), sheet, env)
        case Throws => Throws
        case Normal(out) =>
          var errors := if |out.errors| > 0 then acc.errors + [SheetErrors(sheet.name, out.errors)] else acc.errors;
          Normal(Summary(errors, acc.validData + out.valid))
  }

  /** The handler's reply with the sheet lookup exactly as written. */
  function UploadAsWritten(req: UploadRequest, env: Env): (resp: UploadResponse)
    ensures req.NoFile? <==> resp == BadRequest("No file uploaded")
    ensures req.Unreadable? ==> resp == ServerError
    ensures resp.Validated? ==> req.Workbook? && WorkbookAsWritten(req.sheets, env).Normal?
    ensures resp.Validated? ==> (resp.message == ErrorsMessage <==> resp.errors != [])
  {
    match req
    case NoFile => BadRequest("No file uploaded")
    case Unreadable => ServerError
    case Workbook(sheets) =>
      match WorkbookAsWritten(sheets, env)
      case Throws => ServerError
      case Normal(summary) =>
        Validated(summary.errors, summary.validData,
                  if |summary.errors| > 0 then ErrorsMessage else SuccessMessage)
  }

  /** The two passes agree on every workbook whose sheets all get the same schema from both lookups. */
  lemma {:induction false} AsWrittenAgreesWhereLookupsAgree(sheets: seq<Sheet>, env: Env)
    requires forall k :: 0 <= k < |sheets| ==> ConfigLookup(sheets[k].name) == Some(SchemaFor(sheets[k].name))
    ensures WorkbookAsWritten(sheets, env) == WorkbookSpec(sheets, env)
    decreases |sheets|
  {
    if sheets != [] {
      var n := |sheets| - 1;
      var init := sheets[..n];
      assert forall k :: 0 <= k < n ==> init[k] == sheets[k];
      AsWrittenAgreesWhereLookupsAgree(init, env);
      assert ConfigLookup(sheets[n].name) == Some(SchemaFor(sheets[n].name));
    }
  }

  /** The pass as written and the corrected pass agree on every workbook without a sheet named after an `Object.prototype` member. */
  lemma AsWrittenAgreesOffPrototype(sheets: seq<Sheet>, env: Env)
    requires forall k :: 0 <= k < |sheets| ==> sheets[k].name !in ObjectPrototypeKeys
    ensures WorkbookAsWritten(sheets, env) == WorkbookSpec(sheets, env)
  {
    forall k | 0 <= k < |sheets|
      ensures ConfigLookup(sheets[k].name) == Some(SchemaFor(sheets[k].name))
    {
      LookupAgreesOffPrototype(sheets[k].name);
    }
    AsWrittenAgreesWhereLookupsAgree(sheets, env);
  }

  /** The reply as written and the corrected reply agree on every request without a sheet named after an `Object.prototype` member. */
  lemma UploadAgreesOffPrototype(req: UploadRequest, env: Env)
    requires req.Workbook? ==> forall k :: 0 <= k < |req.sheets| ==> req.sheets[k].name !in ObjectPrototypeKeys
    ensures UploadAsWritten(req, env) == UploadSpec(req, env)
  {
    if req.Workbook? {
      AsWrittenAgreesOffPrototype(req.sheets, env);
    }
  }

  /** A one-sheet workbook named "constructor" with one named row: as written the upload fails, as intended the row is valid. */
  lemma ConstructorSheetCounterexample(env: Env)
    ensures var sheet := Sheet("constructor", [Row(1, [Cell(1, Str("Name"))]), Row(2, [Cell(1, Str("Ann"))])]);
            && WorkbookAsWritten([sheet], env).Throws?
            && WorkbookSpec([sheet], env) == Normal(Summary([], [Record("constructor", map["name" := Str("Ann")])]))
  {
    var headerRow := Row(1, [Cell(1, Str("Name"))]);
    var dataRow := Row(2, [Cell(1, Str("Ann"))]);
    var rows := [headerRow, dataRow];
    var sheet := Sheet("constructor", rows);
    var header := [Cell(1, Str("Name"))];
    var cell := Cell(1, Str("Ann"));
    assert [sheet][..0] == [] && rows[..1] == [headerRow] && [headerRow][..0] == [] && [cell][..0] == [];
    assert HeaderRow(rows) == header;
    TrimOfTrimmed("Name");
    assert HeaderText(header, 1) == Normal(Some("Name"));
    // As written: the lookup gives no schema, so the first data cell throws.
    assert ConfigLookup("constructor") == None;
    assert CellStep(None, header, cell, env).Throws?;
    assert RowSpec(None, header, [cell], env).Throws?;
    assert SheetRows(None, "constructor", header, [headerRow], env) == Normal(SheetOutcome([], []));
    assert SheetRows(None, "constructor", header, rows, env).Throws?;
    // As intended: the Default schema applies and the row is valid.
    var schema := SchemaFor("constructor");
    assert schema == DefaultSchema;
    var column := Column(true, "name", None);
    assert schema.columns["Name"] == column;
    var eff := Assigned("Name", column, Str("Ann"), false, false);
    assert CellStep(Some(schema), header, cell, env) == Normal(eff);
    assert CellErrors(eff) == [];
    var st := RowState(map["name" := Str("Ann")], []);
    assert RowSpec(Some(schema), header, [cell], env) == Normal(st);
    var record := Record("constructor", map["name" := Str("Ann")]);
    assert SheetRows(Some(schema), "constructor", header, [headerRow], env) == Normal(SheetOutcome([], []));
    assert [] + [record] == [record];
    assert SheetRows(Some(schema), "constructor", header, rows, env) == Normal(SheetOutcome([], [record]));
    assert SheetSpec(Some(schema), sheet, env) == Normal(SheetOutcome([], [record]));
  }

  /** The replies to that workbook: 500 from the catch as written, 200 with the one valid record as intended. */
  lemma ConstructorSheetResponses(env: Env)
    ensures var sheet := Sheet("constructor", [Row(1, [Cell(1, Str("Name"))]), Row(2, [Cell(1, Str("Ann"))])]);
            && UploadAsWritten(Workbook([sheet]), env) == ServerError
            && UploadSpec(Workbook([sheet]), env) == Validated([], [Record("constructor", map["name" := Str("Ann")])], SuccessMessage)
  {
    ConstructorSheetCounterexample(env);
  }
}
