/**
 * The per-sheet column schemas of the upload controller (`sheetConfig`), the
 * cell values it sees, its validators, the normalisation of `Date` and
 * `Verified` cells, and the conversion of a spreadsheet date serial to a day
 * count (`excelDateToJSDate`).
 */
module SheetConfig {
  import opened JsBuiltins
  import JsDate

  /**
   * A cell value as the spreadsheet reader yields it: an empty cell is null;
   * a date is held as the number of whole days since 1970-01-01 (UTC).
   */
  datatype Value = Null | Str(s: string) | Num(x: real) | Bool(b: bool) | DateDays(days: int)

  /** JavaScript truthiness: null, '', 0 and false are falsy; every Date object is truthy. */
  predicate Truthy(v: Value) {
    match v
    case Null => false
    case Str(s) => s != ""
    case Num(x) => x != 0.0
    case Bool(b) => b
    case DateDays(_) => true
  }

  /** `value === null || value === undefined || value === ''`. */
  predicate IsMissing(v: Value) {
    v == Null || v == Str("")
  }

  /**
   * JavaScript's conversion of a value to a number, as `isNaN` and `>` apply
   * it. How a string reads as a number is a parameter; a date converts to its
   * time value in milliseconds.
   */
  function ToNumber(v: Value, strToNumber: string -> JsNumber): JsNumber {
    match v
    case Null => Finite(0.0)
    case Str(s) => strToNumber(s)
    case Num(x) => Finite(x)
    case Bool(b) => Finite(if b then 1.0 else 0.0)
    case DateDays(d) => Finite((d * 86400000) as real)
  }

  /** The calendar month that the clock reads when the upload is validated. */
  datatype MonthYear = MonthYear(year: int, month: int)

  /**
   * What the validators read besides the cell value: the month the clock
   * reads, the month and year a date shows in the host's time zone
   * (`getMonth`/`getFullYear` for the date at UTC midnight of a day), and the
   * string-to-number conversion.
   */
  datatype Env = Env(now: MonthYear, localMonth: int -> MonthYear, strToNumber: string -> JsNumber)

  /** The month and year of a day on the UTC calendar. */
  function UtcMonth(days: int): (m: MonthYear)
    ensures 1 <= m.month <= 12
  {
    var c := JsDate.CivilFromDays(days);
    MonthYear(c.year, c.month)
  }

  /** A host whose time zone is UTC, at the given month. */
  function UtcHost(now: MonthYear, strToNumber: string -> JsNumber): Env {
    Env(now, UtcMonth, strToNumber)
  }

  /**
   * The validators of `sheetConfig`, one constructor per closure:
   * `!isNaN(value) && value > 0` (Default Amount), `value > 0` (Invoices
   * Amount), the current-month check of the Default Date column, and
   * `[...].includes(value)`.
   */
  datatype Check = NotNaNAndAboveZero | AboveZero | InCurrentMonth | OneOf(allowed: seq<string>)

  datatype Column = Column(required: bool, dbField: string, check: Option<Check>)

  /** A sheet schema: the configured column headers and what each requires. */
  datatype Schema = Schema(columns: map<string, Column>)

  const DefaultSchema: Schema := Schema(map[
    "Name" := Column(true, "name", None),
    "Amount" := Column(true, "amount", Some(NotNaNAndAboveZero)),
    "Date" := Column(true, "date", Some(InCurrentMonth)),
    "Verified" := Column(true, "verified", Some(OneOf(["Yes", "No"])))
  ])

  const InvoicesSchema: Schema := Schema(map[
    "Name" := Column(true, "name", None),
    "InvoiceDate" := Column(true, "invoiceDate", None),
    "Amount" := Column(true, "amount", Some(AboveZero)),
    "Status" := Column(true, "status", Some(OneOf(["Paid", "Pending"])))
  ])

  /** Every column has a non-empty target field, and no two columns share one. */
  predicate WellFormed(schema: Schema) {
    && (forall h :: h in schema.columns ==> schema.columns[h].dbField != "")
    && (forall h1, h2 :: h1 in schema.columns && h2 in schema.columns && h1 != h2 ==>
          schema.columns[h1].dbField != schema.columns[h2].dbField)
  }

  lemma DefaultWellFormed()
    ensures WellFormed(DefaultSchema)
  {
    var cols := DefaultSchema.columns;
    assert cols.Keys == {"Name", "Amount", "Date", "Verified"};
    assert forall h :: h in cols ==> cols[h].dbField in {"name", "amount", "date", "verified"};
  }

  lemma InvoicesWellFormed()
    ensures WellFormed(InvoicesSchema)
  {
    var cols := InvoicesSchema.columns;
    assert cols.Keys == {"Name", "InvoiceDate", "Amount", "Status"};
    assert forall h :: h in cols ==> cols[h].dbField in {"name", "invoiceDate", "amount", "status"};
  }

  // ---------------------------------------------------------------------------
  // Schema lookup: `sheetConfig[sheet.name] || sheetConfig.Default`
  // ---------------------------------------------------------------------------

  /** The own properties of `Object.prototype`, which every object literal inherits. */
  const ObjectPrototypeKeys: set<string> := {
    "constructor", "__defineGetter__", "__defineSetter__", "hasOwnProperty",
    "__lookupGetter__", "__lookupSetter__", "isPrototypeOf", "propertyIsEnumerable",
    "toString", "valueOf", "__proto__", "toLocaleString"
  }

  /**
   * The lookup as the controller writes it. For a sheet named after an
   * inherited property of `Object.prototype` the lookup yields that truthy
   * function or object instead of a schema, so there is no fallback; its
   * `columns` is undefined. That outcome is `None`.
   */
  function ConfigLookup(name: string): (r: Option<Schema>)
    ensures r.None? <==> name in ObjectPrototypeKeys
  {
    if name == "Default" then Some(DefaultSchema)
    else if name == "Invoices" then Some(InvoicesSchema)
    else if name in ObjectPrototypeKeys then None
    else Some(DefaultSchema)
  }

  /** The lookup as intended: "Invoices" has its own schema, every other name gets the Default schema. */
  function SchemaFor(name: string): (schema: Schema)
    ensures name != "Invoices" ==> schema == DefaultSchema
  {
    if name == "Invoices" then InvoicesSchema else DefaultSchema
  }

  /** Every sheet is validated under a well-formed schema with the headers of its kind. */
  lemma SchemaForShape(name: string)
    ensures SchemaFor(name).columns.Keys == if name == "Invoices" then {"Name", "InvoiceDate", "Amount", "Status"}
                                             else {"Name", "Amount", "Date", "Verified"}
    ensures WellFormed(SchemaFor(name))
  {
    DefaultWellFormed();
    InvoicesWellFormed();
  }

  /** The written lookup and the intended one agree on every sheet name that is not an `Object.prototype` member. */
  lemma LookupAgreesOffPrototype(name: string)
    requires name !in ObjectPrototypeKeys
    ensures ConfigLookup(name) == Some(SchemaFor(name))
  {
  }

  // ---------------------------------------------------------------------------
  // Validators
  // ---------------------------------------------------------------------------

  /**
   * Running a validator on a value. The current-month check calls
   * `value.getMonth()`, which throws a TypeError on anything but a Date.
   */
  function RunCheck(check: Check, v: Value, env: Env): (r: Completion<bool>)
    ensures r.Throws? <==> check == InCurrentMonth && !v.DateDays?
  {
    match check
    case NotNaNAndAboveZero =>
      var n := ToNumber(v, env.strToNumber);
      Normal(!IsNaN(n) && JsBuiltins.AboveZero(n))
    case AboveZero => Normal(JsBuiltins.AboveZero(ToNumber(v, env.strToNumber)))
    case InCurrentMonth =>
      if v.DateDays? then Normal(env.localMonth(v.days) == env.now) else Throws
    case OneOf(allowed) => Normal(v.Str? && v.s in allowed)
  }

  /**
   * On a UTC host the Date check accepts a day exactly when it lies in the
   * current calendar month; in particular every day of the month accepts
   * days of that month and nothing else.
   */
  lemma {:induction false} DateCheckOnUtcHost(days: int, now: MonthYear, strToNumber: string -> JsNumber)
    ensures RunCheck(InCurrentMonth, DateDays(days), UtcHost(now, strToNumber))
            == Normal(JsDate.CivilFromDays(days).year == now.year && JsDate.CivilFromDays(days).month == now.month)
  {
  }

  /** On a UTC host, the Date check of 15 March 2023 (serial 45000) passes exactly in March 2023. */
  lemma Serial45000OnUtcHost(now: MonthYear, strToNumber: string -> JsNumber)
    ensures RunCheck(InCurrentMonth, DateDays(ExcelDateToDays(45000.0)), UtcHost(now, strToNumber))
            == Normal(now == MonthYear(2023, 3))
  {
    Serial45000();
  }

  /** The Default sheet's Amount check and the Invoices sheet's Amount check accept exactly the same values. */
  lemma AmountChecksAgree(v: Value, env: Env)
    ensures RunCheck(NotNaNAndAboveZero, v, env) == RunCheck(AboveZero, v, env)
  {
  }

  /** The Amount check accepts a number exactly when it is positive. */
  lemma AmountCheckOnNumbers(x: real, env: Env)
    ensures RunCheck(NotNaNAndAboveZero, Num(x), env) == Normal(x > 0.0)
  {
  }

  // ---------------------------------------------------------------------------
  // excelDateToJSDate and cell normalisation
  // ---------------------------------------------------------------------------

  /**
   * `excelDateToJSDate(serial)`: the day `floor(serial - 25569)` after
   * 1970-01-01, at UTC midnight. 25569 is the serial of 1970-01-01 in the
   * spreadsheet's 1900 date system.
   */
  function ExcelDateToDays(serial: real): (days: int)
    ensures days as real <= serial - 25569.0 < days as real + 1.0
  {
    (serial - 25569.0).Floor
  }

  /** A later serial is never an earlier day. */
  lemma ExcelDateMonotone(s: real, t: real)
    requires s <= t
    ensures ExcelDateToDays(s) <= ExcelDateToDays(t)
  {
  }

  /** A whole serial is exactly 25569 days ahead of the day count. */
  lemma ExcelDateOfWholeSerial(n: int)
    ensures ExcelDateToDays(n as real) == n - 25569
  {
  }

  /** Serial 45000 is day 19431 after the epoch, 15 March 2023. */
  lemma Serial45000()
    ensures ExcelDateToDays(45000.0) == 19431
    ensures JsDate.CivilFromDays(ExcelDateToDays(45000.0)) == JsDate.Civil(2023, 3, 15)
  {
    JsDate.Day19431();
  }

  /**
   * The value a configured cell holds once normalised: a number under the
   * exact header `Date` becomes a date, a boolean under `Verified` becomes
   * "Yes" or "No", and nothing else changes.
   */
  function Normalize(header: string, v: Value): (r: Value)
    ensures header == "Date" && v.Num? ==> r == DateDays(ExcelDateToDays(v.x))
    ensures header == "Verified" && v.Bool? ==> r == Str(if v.b then "Yes" else "No")
    ensures r != v ==> (header == "Date" && v.Num?) || (header == "Verified" && v.Bool?)
  {
    var afterDate := if header == "Date" && v.Num? then DateDays(ExcelDateToDays(v.x)) else v;
    if header == "Verified" && afterDate.Bool? then Str(if afterDate.b then "Yes" else "No") else afterDate
  }

  /** Normalising a normalised value changes nothing. */
  lemma NormalizeIdempotent(header: string, v: Value)
    ensures Normalize(header, Normalize(header, v)) == Normalize(header, v)
  {
  }
}
