/**
 * The validation pass of the upload controller (`uploadFile`): every sheet
 * of the workbook, every row after the header row, every cell of a row, in
 * order, sorting each row into a valid record or a row error, and the
 * response built from the two lists.
 *
 * The pass is specified by functions (`CellStep`, `RowSpec`, `SheetRows`,
 * `WorkbookSpec`, `UploadSpec`) and carried out by methods with loops and
 * accumulators (`ValidateRow`, `ProcessSheet`, `UploadFile`), each proved to
 * compute its function. A JavaScript exception anywhere in the pass is
 * `Throws`; the controller's catch turns it into an error response.
 */
module UploadValidation {
  import opened JsBuiltins
  import opened SheetConfig

  /** A cell the reader yields for a row: its 1-based column number and its value. */
  datatype Cell = Cell(col: nat, value: Value)

  /** A present row: its 1-based row number and its cells, in column order. */
  datatype Row = Row(number: nat, cells: seq<Cell>)

  /** A worksheet: its name and its present rows, in row order. Row 1 is the header row. */
  datatype Sheet = Sheet(name: string, rows: seq<Row>)

  // ---------------------------------------------------------------------------
  // Header row
  // ---------------------------------------------------------------------------

  /** `sheet.getRow(1)`: the cells of the first row numbered 1; none if the sheet has no such row. */
  function HeaderRow(rows: seq<Row>): seq<Cell>
  {
    if rows == [] then []
    else if rows[0].number == 1 then rows[0].cells
    else HeaderRow(rows[1..])
  }

  /** The header row is the first row numbered 1, and empty when there is none. */
  lemma {:induction false} HeaderRowIsFirstRowOne(rows: seq<Row>)
    ensures (forall k :: 0 <= k < |rows| ==> rows[k].number != 1) ==> HeaderRow(rows) == []
    ensures (exists k :: 0 <= k < |rows| && rows[k].number == 1) ==>
              exists k :: 0 <= k < |rows| && rows[k].number == 1 && rows[k].cells == HeaderRow(rows)
                          && forall j :: 0 <= j < k ==> rows[j].number != 1
  {
    if rows != [] && rows[0].number != 1 {
      HeaderRowIsFirstRowOne(rows[1..]);
      assert forall k :: 1 <= k < |rows| ==> rows[1..][k - 1] == rows[k];
      if exists k :: 0 <= k < |rows| && rows[k].number == 1 {
        var k :| 0 <= k < |rows| && rows[k].number == 1;
        assert rows[1..][k - 1].number == 1;
        var i :| 0 <= i < |rows[1..]| && rows[1..][i].number == 1 && rows[1..][i].cells == HeaderRow(rows[1..])
                 && forall j :: 0 <= j < i ==> rows[1..][j].number != 1;
        assert rows[i + 1].number == 1 && rows[i + 1].cells == HeaderRow(rows);
        assert forall j :: 0 <= j < i + 1 ==> rows[j].number != 1 by {
          forall j | 0 <= j < i + 1 ensures rows[j].number != 1 {
            if j > 0 {
              assert rows[j] == rows[1..][j - 1];
            }
          }
        }
      }
    }
  }

  /** `getCell(col).value` on the header row: the value of the first cell in that column, null if there is none. */
  function HeaderValue(header: seq<Cell>, col: nat): Value
  {
    if header == [] then Null
    else if header[0].col == col then header[0].value
    else HeaderValue(header[1..], col)
  }

  /** The header value of a column is null when the header row has no cell there, and otherwise a value of a cell there. */
  lemma {:induction false} HeaderValueMeaning(header: seq<Cell>, col: nat)
    ensures (forall k :: 0 <= k < |header| ==> header[k].col != col) ==> HeaderValue(header, col) == Null
    ensures HeaderValue(header, col) != Null ==>
              exists k :: 0 <= k < |header| && header[k].col == col && header[k].value == HeaderValue(header, col)
  {
    if header != [] && header[0].col != col {
      HeaderValueMeaning(header[1..], col);
      assert forall k :: 1 <= k < |header| ==> header[1..][k - 1] == header[k];
      if HeaderValue(header, col) != Null {
        var i :| 0 <= i < |header[1..]| && header[1..][i].col == col && header[1..][i].value == HeaderValue(header, col);
        assert header[i + 1] == header[1..][i];
      }
    }
  }

  /**
   * `.value?.trim()` on the header cell above column `col`: undefined (`None`)
   * for an empty header cell, the trimmed text of a text cell, and a TypeError
   * for a number, boolean or date, which have no `trim` method.
   */
  function HeaderText(header: seq<Cell>, col: nat): Completion<Option<string>>
  {
    match HeaderValue(header, col)
    case Null => Normal(None)
    case Str(s) => Normal(Some(Trim(s)))
    case _ => Throws
  }

  /** The configured column a header text selects, if any: `config.columns[header]`. */
  function ColumnFor(schema: Schema, h: Option<string>): Option<Column>
  {
    if h.Some? && h.value in schema.columns then Some(schema.columns[h.value]) else None
  }

  // ---------------------------------------------------------------------------
  // One cell
  // ---------------------------------------------------------------------------

  /** A message pushed onto `rowErrors`: a required value is missing, or a value fails its validator. */
  datatype Message = Required(header: string) | Invalid(header: string)

  /** The text of a message as the response carries it. */
  function Text(m: Message): string {
    match m
    case Required(h) => h + " is required"
    case Invalid(h) => "Invalid " + h + " value"
  }

  /**
   * What a cell does to its row: nothing, when its header is not configured;
   * otherwise it assigns the normalised value to the column's target field,
   * and reports it missing and/or invalid.
   */
  datatype CellEffect =
    | Ignored
    | Assigned(header: string, column: Column, value: Value, missing: bool, invalid: bool)

  /** The messages a cell pushes onto `rowErrors`, in push order. */
  function CellErrors(eff: CellEffect): seq<Message> {
    match eff
    case Ignored => []
    case Assigned(h, _, _, missing, invalid) =>
      (if missing then [Required(h)] else []) + (if invalid then [Invalid(h)] else [])
  }

  /**
   * Whether a cell aborts the whole upload: its header cell is neither empty
   * nor text, the sheet's configuration is not a schema, or the Date
   * validator is given a truthy value that is not a date.
   */
  predicate CellAborts(config: Option<Schema>, header: seq<Cell>, cell: Cell) {
    || HeaderText(header, cell.col).Throws?
    || config.None?
    || (var h := HeaderText(header, cell.col).value;
        && h.Some? && h.value in config.value.columns
        && var v := Normalize(h.value, cell.value);
        && Truthy(v) && config.value.columns[h.value].check == Some(InCurrentMonth) && !v.DateDays?)
  }

  /** The body of the `eachCell` callback for one cell of a data row. */
  function CellStep(config: Option<Schema>, header: seq<Cell>, cell: Cell, env: Env): Completion<CellEffect>
  {
    match HeaderText(header, cell.col)
    case Throws => Throws
    case Normal(h) =>
      if config.None? then Throws
      else if h.None? || h.value !in config.value.columns then Normal(Ignored)
      else
        var name := h.value;
        var column := config.value.columns[name];
        var v := Normalize(name, cell.value);
        var missing := column.required && IsMissing(v);
        if Truthy(v) && column.check.Some? then
          match RunCheck(column.check.value, v, env)
          case Throws => Throws
          case Normal(ok) => Normal(Assigned(name, column, v, missing, !ok))
        else
          Normal(Assigned(name, column, v, missing, false))
  }

  /**
   * A cell aborts exactly as `CellAborts` says; it is ignored exactly when its
   * header is not configured; otherwise it writes the normalised value to its
   * column and is missing or invalid exactly as its column demands. It never
   * reports both: a missing value is falsy and is not validated.
   */
  lemma CellStepMeaning(config: Option<Schema>, header: seq<Cell>, cell: Cell, env: Env)
    ensures CellStep(config, header, cell, env).Throws? <==> CellAborts(config, header, cell)
    ensures CellStep(config, header, cell, env) == Normal(Ignored) <==>
              config.Some? && HeaderText(header, cell.col).Normal?
              && ColumnFor(config.value, HeaderText(header, cell.col).value).None?
    ensures var r := CellStep(config, header, cell, env);
            r.Normal? && r.value.Assigned? ==>
              var eff := r.value;
              && config.Some? && HeaderText(header, cell.col) == Normal(Some(eff.header))
              && ColumnFor(config.value, Some(eff.header)) == Some(eff.column)
              && eff.value == Normalize(eff.header, cell.value)
              && (eff.missing <==> eff.column.required && IsMissing(eff.value))
              && (eff.invalid <==> Truthy(eff.value) && eff.column.check.Some?
                                   && RunCheck(eff.column.check.value, eff.value, env) == Normal(false))
              && !(eff.missing && eff.invalid)
  {
  }

  // ---------------------------------------------------------------------------
  // One row
  // ---------------------------------------------------------------------------

  /** The row's `rowData` and `rowErrors` so far. */
  datatype RowState = RowState(fields: map<string, Value>, errors: seq<Message>)

  function Apply(st: RowState, eff: CellEffect): RowState
  {
    match eff
    case Ignored => st
    case Assigned(_, column, v, _, _) =>
      RowState(if column.dbField != "" then st.fields[column.dbField := v] else st.fields, st.errors + CellErrors(eff))
  }

  /** The row's fields and errors after its cells, in order; `Throws` if any cell aborts. */
  function RowSpec(config: Option<Schema>, header: seq<Cell>, cells: seq<Cell>, env: Env): Completion<RowState>
    decreases |cells|
  {
    if cells == [] then Normal(RowState(map[], []))
    else
      match RowSpec(config, header, cells[..|cells| - 1], env)
      case Throws => Throws
      case Normal(st) =>
        match CellStep(config, header, cells[|cells| - 1], env)
        case Throws => Throws
        case Normal(eff) => Normal(Apply(st, eff))
  }

  // ---------------------------------------------------------------------------
  // One sheet
  // ---------------------------------------------------------------------------

  /** `{ row: rowNumber, errors: rowErrors }`. */
  datatype RowError = RowError(row: nat, errors: seq<Message>)

  /** `{ sheetName: sheet.name, ...rowData }`. */
  datatype Record = Record(sheetName: string, fields: map<string, Value>)

  /** A sheet's `sheetErrors` and `sheetValidRows`. */
  datatype SheetOutcome = SheetOutcome(errors: seq<RowError>, valid: seq<Record>)

  /**
   * The body of the `eachRow` callback over `rows`: row 1 is skipped; a row
   * with errors becomes a row error, any other row a record of the sheet.
   */
  function SheetRows(config: Option<Schema>, name: string, header: seq<Cell>, rows: seq<Row>, env: Env): Completion<SheetOutcome>
    decreases |rows|
  {
    if rows == [] then Normal(SheetOutcome([], []))
    else
      match SheetRows(config, name, header, rows[..|rows| - 1], env)
      case Throws => Throws
      case Normal(acc) =>
        var row := rows[|rows| - 1];
        if row.number == 1 then Normal(acc)
        else
          match RowSpec(config, header, row.cells, env)
          case Throws => Throws
          case Normal(st) =>
            if |st.errors| > 0 then Normal(SheetOutcome(acc.errors + [RowError(row.number, st.errors)], acc.valid))
            else Normal(SheetOutcome(acc.errors, acc.valid + [Record(name, st.fields)]))
  }

  /** A whole sheet validated under `config`, with its own row 1 as the header row. */
  function SheetSpec(config: Option<Schema>, sheet: Sheet, env: Env): Completion<SheetOutcome>
  {
    SheetRows(config, sheet.name, HeaderRow(sheet.rows), sheet.rows, env)
  }

  // ---------------------------------------------------------------------------
  // The workbook and the response
  // ---------------------------------------------------------------------------

  /** `{ sheet: sheet.name, errors: sheetErrors }`. */
  datatype SheetErrors = SheetErrors(sheet: string, errors: seq<RowError>)

  /** `validationErrors` and `validData` after the sheets. */
  datatype Summary = Summary(errors: seq<SheetErrors>, validData: seq<Record>)

  /** The body of the `eachSheet` callback over `sheets`, each under the schema its name selects. */
  function WorkbookSpec(sheets: seq<Sheet>, env: Env): Completion<Summary>
    decreases |sheets|
  {
    if sheets == [] then Normal(Summary([], []))
    else
      match WorkbookSpec(sheets[..|sheets| - 1], env)
      case Throws => Throws
      case Normal(acc) =>
        var sheet := sheets[|sheets| - 1];
        match SheetSpec(Some(SchemaFor(sheet.name)), sheet, env)
        case Throws => Throws
        case Normal(out) =>
          var errors := if |out.errors| > 0 then acc.errors + [SheetErrors(sheet.name, out.errors)] else acc.errors;
          Normal(Summary(errors, acc.validData + out.valid))
  }

  const ErrorsMessage: string := "Validation completed with errors"
  const SuccessMessage: string := "All data validated successfully"

  /** The upload as the handler receives it: no file, bytes that do not load as a workbook, or a loaded workbook. */
  datatype UploadRequest = NoFile | Unreadable | Workbook(sheets: seq<Sheet>)

  /** The handler's reply: status 400, status 500 from the catch, or the validation result with status 200. */
  datatype UploadResponse =
    | BadRequest(error: string)
    | ServerError
    | Validated(errors: seq<SheetErrors>, validData: seq<Record>, message: string)

  function UploadSpec(req: UploadRequest, env: Env): (resp: UploadResponse)
    ensures req.NoFile? <==> resp == BadRequest("No file uploaded")
    ensures req.Unreadable? ==> resp == ServerError
    ensures resp.Validated? ==> req.Workbook? && WorkbookSpec(req.sheets, env).Normal?
    ensures resp.Validated? ==> resp.message in {ErrorsMessage, SuccessMessage}
    ensures resp.Validated? ==> (resp.message == ErrorsMessage <==> resp.errors != [])
  {
    match req
    case NoFile => BadRequest("No file uploaded")
    case Unreadable => ServerError
    case Workbook(sheets) =>
      match WorkbookSpec(sheets, env)
      case Throws => ServerError
      case Normal(summary) =>
        Validated(summary.errors, summary.validData,
                  if |summary.errors| > 0 then ErrorsMessage else SuccessMessage)
  }

  // ---------------------------------------------------------------------------
  // An abort is final
  // ---------------------------------------------------------------------------

  lemma {:induction false} RowThrowsPersists(config: Option<Schema>, header: seq<Cell>, cells: seq<Cell>, n: nat, env: Env)
    requires n <= |cells| && RowSpec(config, header, cells[..n], env).Throws?
    ensures RowSpec(config, header, cells, env).Throws?
    decreases |cells|
  {
    if n < |cells| {
      assert cells[..|cells| - 1][..n] == cells[..n];
      RowThrowsPersists(config, header, cells[..|cells| - 1], n, env);
    } else {
      assert cells[..n] == cells;
    }
  }

  lemma {:induction false} SheetThrowsPersists(config: Option<Schema>, name: string, header: seq<Cell>, rows: seq<Row>, n: nat, env: Env)
    requires n <= |rows| && SheetRows(config, name, header, rows[..n], env).Throws?
    ensures SheetRows(config, name, header, rows, env).Throws?
    decreases |rows|
  {
    if n < |rows| {
      assert rows[..|rows| - 1][..n] == rows[..n];
      SheetThrowsPersists(config, name, header, rows[..|rows| - 1], n, env);
    } else {
      assert rows[..n] == rows;
    }
  }

  lemma {:induction false} WorkbookThrowsPersists(sheets: seq<Sheet>, n: nat, env: Env)
    requires n <= |sheets| && WorkbookSpec(sheets[..n], env).Throws?
    ensures WorkbookSpec(sheets, env).Throws?
    decreases |sheets|
  {
    if n < |sheets| {
      assert sheets[..|sheets| - 1][..n] == sheets[..n];
      WorkbookThrowsPersists(sheets[..|sheets| - 1], n, env);
    } else {
      assert sheets[..n] == sheets;
    }
  }

  // ---------------------------------------------------------------------------
  // The pass as the controller runs it
  // ---------------------------------------------------------------------------

  /**
   * The `eachCell` callback: look up the header, normalise the value, test
   * it for presence and, when truthy, run the column's validator.
   */
  method ValidateCell(schema: Schema, header: seq<Cell>, cell: Cell, env: Env) returns (r: Completion<CellEffect>)
    ensures r == CellStep(Some(schema), header, cell, env)
  {
    var h := HeaderText(header, cell.col);
    if h.Throws? {
      return Throws;
    }
    if h.value.None? || h.value.value !in schema.columns {
      return Normal(Ignored);
    }
    var name := h.value.value;
    var column := schema.columns[name];
    var value := cell.value;
    if name == "Date" && value.Num? {
      value := DateDays(ExcelDateToDays(value.x));
    }
    if name == "Verified" && value.Bool? {
      value := Str(if value.b then "Yes" else "No");
    }
    var missing := column.required && IsMissing(value);
    var invalid := false;
    if Truthy(value) && column.check.Some? {
      var ok := RunCheck(column.check.value, value, env);
      if ok.Throws? {
        return Throws;
      }
      invalid := !ok.value;
    }
    return Normal(Assigned(name, column, value, missing, invalid));
  }

  /** The `eachCell` loop of one data row, pushing onto `rowErrors` and assigning `rowData`. */
  method ValidateRow(schema: Schema, header: seq<Cell>, cells: seq<Cell>, env: Env) returns (r: Completion<RowState>)
    ensures r == RowSpec(Some(schema), header, cells, env)
  {
    var rowData: map<string, Value> := map[];
    var rowErrors: seq<Message> := [];
    var i := 0;
    while i < |cells|
      invariant 0 <= i <= |cells|
      invariant RowSpec(Some(schema), header, cells[..i], env) == Normal(RowState(rowData, rowErrors))
    {
      assert cells[..i + 1][..i] == cells[..i];
      var eff := ValidateCell(schema, header, cells[i], env);
      if eff.Throws? {
        RowThrowsPersists(Some(schema), header, cells, i + 1, env);
        return Throws;
      }
      if eff.value.Assigned? {
        rowErrors := rowErrors + CellErrors(eff.value);
        if eff.value.column.dbField != "" {
          rowData := rowData[eff.value.column.dbField := eff.value.value];
        }
      }
      i := i + 1;
    }
    assert cells[..i] == cells;
    return Normal(RowState(rowData, rowErrors));
  }

  /** The `eachRow` loop of one sheet, pushing into `sheetErrors` and `sheetValidRows`. */
  method ProcessSheet(sheet: Sheet, env: Env) returns (r: Completion<SheetOutcome>)
    ensures r == SheetSpec(Some(SchemaFor(sheet.name)), sheet, env)
  {
    var config := SchemaFor(sheet.name);
    var header := HeaderRow(sheet.rows);
    var rows := sheet.rows;
    var sheetErrors: seq<RowError> := [];
    var sheetValidRows: seq<Record> := [];
    var i := 0;
    while i < |rows|
      invariant 0 <= i <= |rows|
      invariant SheetRows(Some(config), sheet.name, header, rows[..i], env) == Normal(SheetOutcome(sheetErrors, sheetValidRows))
    {
      assert rows[..i + 1][..i] == rows[..i];
      var row := rows[i];
      if row.number != 1 {
        var outcome := ValidateRow(config, header, row.cells, env);
        if outcome.Throws? {
          SheetThrowsPersists(Some(config), sheet.name, header, rows, i + 1, env);
          return Throws;
        }
        if |outcome.value.errors| > 0 {
          sheetErrors := sheetErrors + [RowError(row.number, outcome.value.errors)];
        } else {
          sheetValidRows := sheetValidRows + [Record(sheet.name, outcome.value.fields)];
        }
      }
      i := i + 1;
    }
    assert rows[..i] == rows;
    return Normal(SheetOutcome(sheetErrors, sheetValidRows));
  }

  /** The upload handler: the `eachSheet` loop pushing into `validationErrors` and `validData`, then the reply. */
  method UploadFile(req: UploadRequest, env: Env) returns (resp: UploadResponse)
    ensures resp == UploadSpec(req, env)
  {
    if req.NoFile? {
      return BadRequest("No file uploaded");
    }
    if req.Unreadable? {
      return ServerError;
    }
    var sheets := req.sheets;
    var validationErrors: seq<SheetErrors> := [];
    var validData: seq<Record> := [];
    var i := 0;
    while i < |sheets|
      invariant 0 <= i <= |sheets|
      invariant WorkbookSpec(sheets[..i], env) == Normal(Summary(validationErrors, validData))
    {
      assert sheets[..i + 1][..i] == sheets[..i];
      var outcome := ProcessSheet(sheets[i], env);
      if outcome.Throws? {
        WorkbookThrowsPersists(sheets, i + 1, env);
        return ServerError;
      }
      if |outcome.value.errors| > 0 {
        validationErrors := validationErrors + [SheetErrors(sheets[i].name, outcome.value.errors)];
      }
      validData := validData + outcome.value.valid;
      i := i + 1;
    }
    assert sheets[..i] == sheets;
    var message := if |validationErrors| > 0 then ErrorsMessage else SuccessMessage;
    return Validated(validationErrors, validData, message);
  }

  // ---------------------------------------------------------------------------
  // importData
  // ---------------------------------------------------------------------------

  /** `!validData?.length`: the import is refused with status 400 when the payload is absent or empty. */
  predicate ImportRefused<T>(validData: Option<seq<T>>) {
    validData.None? || |validData.value| == 0
  }
}
