/**
 * The data manager component of the client: the manual-entry form and its
 * `validateRow`, adding a row to the preview, the payload an import posts,
 * the `DD-MM-YYYY` display of dates and the page buttons of the imported
 * table.
 */
module DataManager {
  import opened JsBuiltins
  import JsDate
  import UploadValidation

  // ---------------------------------------------------------------------------
  // validateRow
  // ---------------------------------------------------------------------------

  /** The row handed to `validateRow`: the form's text, with the amount already through `parseFloat`. */
  datatype RowInput = RowInput(name: string, amount: JsNumber, date: string, verified: string)

  /** The four checks of `validateRow`, in the order it runs them; each stands for the message it pushes. */
  datatype RowCheck = NameRequired | AmountNotNumber | InvalidDate | VerifiedYesNo

  /** The message a failed check pushes. */
  function Text(m: RowCheck): string {
    match m
    case NameRequired => "Name is required"
    case AmountNotNumber => "Amount must be a number"
    case InvalidDate => "Invalid date format"
    case VerifiedYesNo => "Verified must be Yes/No"
  }

  /** The messages of a list of failed checks, in the same order. */
  function Texts(ms: seq<RowCheck>): (texts: seq<string>)
    ensures |texts| == |ms| && forall k :: 0 <= k < |ms| ==> texts[k] == Text(ms[k])
  {
    seq(|ms|, k requires 0 <= k < |ms| => Text(ms[k]))
  }

  /** The position of a check in the order `validateRow` runs them. */
  function Rank(m: RowCheck): nat {
    match m
    case NameRequired => 0
    case AmountNotNumber => 1
    case InvalidDate => 2
    case VerifiedYesNo => 3
  }

  /** What `validateRow` returns: the row with its date as ISO text, the verdict and the failed checks behind it. */
  datatype ValidatedRow = ValidatedRow(name: string, amount: JsNumber, date: string, verified: string,
                                       isValid: bool, errors: seq<RowCheck>)

  /** The checks in the order `validateRow` runs them. */
  const AllChecks: seq<RowCheck> := [NameRequired, AmountNotNumber, InvalidDate, VerifiedYesNo]

  /** Whether a check fails on the row; `dateParses` says whether `new Date(row.date)` is a valid date. */
  predicate Fails(m: RowCheck, row: RowInput, dateParses: bool) {
    match m
    case NameRequired => row.name == ""
    case AmountNotNumber => IsNaN(row.amount)
    case InvalidDate => !dateParses
    case VerifiedYesNo => row.verified != "Yes" && row.verified != "No"
  }

  /** The failed ones among `checks`, pushed one after the other as `checks` are run. */
  function Failed(checks: seq<RowCheck>, row: RowInput, dateParses: bool): seq<RowCheck>
    decreases |checks|
  {
    if checks == [] then []
    else
      var m := checks[|checks| - 1];
      Failed(checks[..|checks| - 1], row, dateParses) + (if Fails(m, row, dateParses) then [m] else [])
  }

  /** The checks in strictly increasing order of rank. */
  predicate InOrder(ms: seq<RowCheck>) {
    forall i, j :: 0 <= i < j < |ms| ==> Rank(ms[i]) < Rank(ms[j])
  }

  /** Running a list of checks pushes exactly the ones that fail. */
  lemma {:induction false} FailedMembers(checks: seq<RowCheck>, row: RowInput, dateParses: bool)
    ensures forall m :: m in Failed(checks, row, dateParses) <==> m in checks && Fails(m, row, dateParses)
    decreases |checks|
  {
    if checks != [] {
      var n := |checks| - 1;
      FailedMembers(checks[..n], row, dateParses);
      assert checks == checks[..n] + [checks[n]];
    }
  }

  /** Running checks listed in order pushes the failed ones in that order. */
  lemma {:induction false} FailedInOrder(checks: seq<RowCheck>, row: RowInput, dateParses: bool)
    requires InOrder(checks)
    ensures InOrder(Failed(checks, row, dateParses))
    decreases |checks|
  {
    if checks != [] {
      var n := |checks| - 1;
      var init := checks[..n];
      var m := checks[n];
      assert forall i :: 0 <= i < n ==> init[i] == checks[i];
      FailedInOrder(init, row, dateParses);
      FailedMembers(init, row, dateParses);
      var g := Failed(init, row, dateParses);
      if Fails(m, row, dateParses) {
        forall x | x in g
          ensures Rank(x) < Rank(m)
        {
          var k :| 0 <= k < n && init[k] == x;
        }
        var f := g + [m];
        assert f == Failed(checks, row, dateParses);
        forall i, j | 0 <= i < j < |f|
          ensures Rank(f[i]) < Rank(f[j])
        {
          assert f[i] == g[i] && g[i] in g;
          if j < |g| {
            assert f[j] == g[j];
          }
        }
      }
    }
  }

  /** The messages `validateRow` pushes: the failed checks, in the order it runs them. */
  function RowErrors(row: RowInput, dateParses: bool): seq<RowCheck> {
    Failed(AllChecks, row, dateParses)
  }

  /** The failed checks, pushed as the four `if` statements of `validateRow` push them. */
  lemma RowErrorsAsPushed(row: RowInput, dateParses: bool)
    ensures RowErrors(row, dateParses)
            == (if row.name == "" then [NameRequired] else [])
               + (if IsNaN(row.amount) then [AmountNotNumber] else [])
               + (if !dateParses then [InvalidDate] else [])
               + (if row.verified != "Yes" && row.verified != "No" then [VerifiedYesNo] else [])
  {
    var a := if row.name == "" then [NameRequired] else [];
    var b := if IsNaN(row.amount) then [AmountNotNumber] else [];
    var c := if !dateParses then [InvalidDate] else [];
    var d := if row.verified != "Yes" && row.verified != "No" then [VerifiedYesNo] else [];
    assert AllChecks[..1][..0] == [] && AllChecks[..2][..1] == AllChecks[..1];
    assert AllChecks[..3][..2] == AllChecks[..2] && AllChecks[..|AllChecks| - 1] == AllChecks[..3];
    assert Failed(AllChecks[..1], row, dateParses) == a;
    assert Failed(AllChecks[..2], row, dateParses) == a + b;
    assert Failed(AllChecks[..3], row, dateParses) == a + b + c;
  }

  /**
   * Each message is pushed exactly when its check fails, and the messages
   * come in the order of the checks.
   */
  lemma RowErrorsMeaning(row: RowInput, dateParses: bool)
    ensures NameRequired in RowErrors(row, dateParses) <==> row.name == ""
    ensures AmountNotNumber in RowErrors(row, dateParses) <==> IsNaN(row.amount)
    ensures InvalidDate in RowErrors(row, dateParses) <==> !dateParses
    ensures VerifiedYesNo in RowErrors(row, dateParses) <==> row.verified != "Yes" && row.verified != "No"
    ensures InOrder(RowErrors(row, dateParses))
  {
    FailedMembers(AllChecks, row, dateParses);
    FailedInOrder(AllChecks, row, dateParses);
  }

  /** The object `validateRow` returns once the date has been turned into the text `iso`. */
  function Returned(row: RowInput, iso: string): ValidatedRow {
    var errors := RowErrors(row, true);
    ValidatedRow(row.name, row.amount, iso, row.verified, |errors| == 0, errors)
  }

  /**
   * In a returned row each of the three remaining messages is present
   * exactly when its check fails, the date message never is, the messages
   * come in the order of the checks, the row is valid exactly when there
   * is none, and the fields are the row's with the given date text.
   */
  lemma ReturnedMeaning(row: RowInput, iso: string)
    ensures var v := Returned(row, iso);
            && (NameRequired in v.errors <==> row.name == "")
            && (AmountNotNumber in v.errors <==> IsNaN(row.amount))
            && (VerifiedYesNo in v.errors <==> row.verified != "Yes" && row.verified != "No")
            && InvalidDate !in v.errors
            && InOrder(v.errors)
            && (v.isValid <==> v.errors == [])
            && v.name == row.name && v.amount == row.amount && v.verified == row.verified && v.date == iso
  {
    RowErrorsMeaning(row, true);
  }

  /**
   * `validateRow(row)`, where `parsed` is `new Date(row.date)` (`None` for an
   * Invalid Date). The amount is always a number, because `parseFloat`
   * returns one, so its check fails exactly on NaN. The messages are
   * collected first; `toISOString` then throws on an Invalid Date.
   */
  function Validated(row: RowInput, parsed: Option<JsDate.TimeValue>): Completion<ValidatedRow> {
    if parsed.None? then Throws else Normal(Returned(row, JsDate.IsoString(parsed.value)))
  }

  /**
   * `validateRow` fails exactly on an unparseable date, so "Invalid date
   * format" is never returned; otherwise it returns the row with the ISO
   * text of the parsed time as its date (which `JsDate.IsoStringRoundTrip`
   * reads back).
   */
  lemma ValidatedMeaning(row: RowInput, parsed: Option<JsDate.TimeValue>)
    ensures Validated(row, parsed).Throws? <==> parsed.None?
    ensures Validated(row, parsed).Normal? ==>
              && InvalidDate !in Validated(row, parsed).value.errors
              && Validated(row, parsed).value.date == JsDate.IsoString(parsed.value)
  {
    if parsed.Some? {
      ReturnedMeaning(row, JsDate.IsoString(parsed.value));
    }
  }

  /** `validateRow` as the component writes it: a list filled by `push`, then the returned object. */
  method ValidateRow(row: RowInput, parseDate: string -> Option<JsDate.TimeValue>) returns (r: Completion<ValidatedRow>)
    ensures r == Validated(row, parseDate(row.date))
  {
    ghost var a := if row.name == "" then [NameRequired] else [];
    ghost var b := if IsNaN(row.amount) then [AmountNotNumber] else [];
    var errors: seq<RowCheck> := [];
    if row.name == "" {
      errors := errors + [NameRequired];
    }
    assert errors == a;
    if IsNaN(row.amount) {
      errors := errors + [AmountNotNumber];
    }
    assert errors == a + b;
    var date := parseDate(row.date);
    ghost var c := if date.None? then [InvalidDate] else [];
    if date.None? {
      errors := errors + [InvalidDate];
    }
    assert errors == a + b + c;
    if row.verified != "Yes" && row.verified != "No" {
      errors := errors + [VerifiedYesNo];
    }
    RowErrorsAsPushed(row, date.Some?);
    assert errors == RowErrors(row, date.Some?);
    if date.None? {
      // `toISOString` on an Invalid Date throws a RangeError
      return Throws;
    }
    r := Normal(ValidatedRow(row.name, row.amount, JsDate.IsoString(date.value), row.verified, |errors| == 0, errors));
    assert r.value == Returned(row, JsDate.IsoString(date.value));
  }

  // ---------------------------------------------------------------------------
  // The preview and its import
  // ---------------------------------------------------------------------------

  /** The manual-entry form, every field as typed text. */
  datatype ManualForm = ManualForm(name: string, amount: string, date: string, verified: string)

  /** The form after a reset: empty fields, with "Yes" selected. */
  const EmptyForm: ManualForm := ManualForm("", "", "", "Yes")

  /** A preview row: the validated row with the `_id` taken from the clock. */
  datatype PreviewRow = PreviewRow(row: ValidatedRow, id: string)

  /** What a click on "Add" shows: an error toast, a success toast, or an exception escaping the handler. */
  datatype Notice = ErrorToast(text: string) | SuccessToast(text: string) | Uncaught

  const AllFieldsRequired: string := "All fields are required"
  const AddedToPreview: string := "Data added to preview"
  const NothingToImportMessage: string := "No data to import"

  /** A row that passed `validateRow`. */
  predicate Accepted(v: ValidatedRow) {
    && v.isValid && v.errors == []
    && v.name != "" && !IsNaN(v.amount) && (v.verified == "Yes" || v.verified == "No")
  }

  predicate AllAccepted(rows: seq<PreviewRow>) {
    forall k :: 0 <= k < |rows| ==> Accepted(rows[k].row)
  }

  /** A valid verdict means every check passed. */
  lemma ValidRowAccepted(row: RowInput, iso: string)
    requires Returned(row, iso).isValid
    ensures Accepted(Returned(row, iso))
  {
    ReturnedMeaning(row, iso);
  }

  /** One entry of the import payload: exactly the four data fields. */
  datatype ImportRow = ImportRow(name: string, amount: JsNumber, date: string, verified: string)

  /** `previewData.map(row => ({name, amount, date, verified}))`. */
  function ImportPayload(preview: seq<PreviewRow>): (payload: seq<ImportRow>)
    ensures |payload| == |preview|
  {
    seq(|preview|, k requires 0 <= k < |preview| =>
      ImportRow(preview[k].row.name, preview[k].row.amount, preview[k].row.date, preview[k].row.verified))
  }

  /** The payload keeps the order of the preview and each row's four fields; nothing else is sent. */
  lemma ImportPayloadFields(preview: seq<PreviewRow>, k: int)
    requires 0 <= k < |preview|
    ensures var p := ImportPayload(preview)[k];
            && p.name == preview[k].row.name && p.amount == preview[k].row.amount
            && p.date == preview[k].row.date && p.verified == preview[k].row.verified
  {
  }

  /** The payload of an extended preview is the old payload extended by one entry. */
  lemma ImportPayloadSnoc(preview: seq<PreviewRow>, r: PreviewRow)
    ensures ImportPayload(preview + [r]) == ImportPayload(preview) + [ImportRow(r.row.name, r.row.amount, r.row.date, r.row.verified)]
  {
  }

  /** Every row posted from a preview of accepted rows has a name, a number and "Yes" or "No". */
  lemma ImportPayloadAccepted(preview: seq<PreviewRow>)
    requires AllAccepted(preview)
    ensures forall k :: 0 <= k < |preview| ==>
              var p := ImportPayload(preview)[k];
              p.name != "" && !IsNaN(p.amount) && (p.verified == "Yes" || p.verified == "No")
  {
  }

  /** A payload the client posts is never refused by the server's empty-payload guard. */
  lemma ClientPayloadPassesGuard(preview: seq<PreviewRow>)
    requires |preview| > 0
    ensures !UploadValidation.ImportRefused(Some(ImportPayload(preview)))
  {
  }

  /** What a click on "Import" does: refuse an empty preview, or post the payload. */
  datatype ImportStep = NothingToImport(message: string) | Post(validData: seq<ImportRow>)

  // ---------------------------------------------------------------------------
  // formatDate
  // ---------------------------------------------------------------------------

  /** The calendar fields a valid Date shows in the host's time zone (`getFullYear`, 1-based month, `getDate`). */
  type LocalDate = c: JsDate.Civil | 1 <= c.month <= 12 && 1 <= c.day <= 31 witness JsDate.Civil(1970, 1, 1)

  /**
   * `formatDate(dateString)`: `local` holds the local calendar fields of
   * `new Date(dateString)`, or `None` for an Invalid Date, whose fields are
   * all NaN.
   */
  function FormatDate(local: Option<LocalDate>): string {
    if local.None? then "NaN-NaN-NaN"
    else JsDate.Padded(local.value.day, 2) + "-" + JsDate.Padded(local.value.month, 2) + "-" + IntToDecimal(local.value.year)
  }

  /** Two digits, a dash, two digits, a dash and an optionally signed run of digits. */
  predicate IsDisplayLayout(s: string) {
    && |s| >= 7 && s[2] == '-' && s[5] == '-' && AllDigits(s[0..2]) && AllDigits(s[3..5])
    && AllDigits(if s[6] == '-' then s[7..] else s[6..])
  }

  /** Reads a `DD-MM-YYYY` text back to the fields it names; `None` if it is not of that form. */
  function ReadDisplayDate(s: string): Option<LocalDate> {
    if IsDisplayLayout(s) && 1 <= DecimalValue(s[3..5]) <= 12 && 1 <= DecimalValue(s[0..2]) <= 31
    then Some(JsDate.Civil(SignedDecimalValue(s[6..]), DecimalValue(s[3..5]), DecimalValue(s[0..2])))
    else None
  }

  /**
   * A formatted date is two digits of day, a dash, two digits of the
   * 1-based month, a dash and the full year.
   */
  lemma FormatDateLayout(c: LocalDate)
    ensures var s := FormatDate(Some(c));
            && IsDisplayLayout(s)
            && DecimalValue(s[0..2]) == c.day && DecimalValue(s[3..5]) == c.month
            && s[6..] == IntToDecimal(c.year)
  {
    var dd := JsDate.Padded(c.day, 2);
    var mm := JsDate.Padded(c.month, 2);
    var y := IntToDecimal(c.year);
    JsDate.PaddedField(c.day, 2);
    JsDate.PaddedField(c.month, 2);
    var s := dd + "-" + mm + "-" + y;
    assert s == FormatDate(Some(c));
    assert s[0..2] == dd && s[3..5] == mm && s[6..] == y;
    assert s[7..] == y[1..];
  }

  /** A text of the display layout reads back as the fields its three parts denote. */
  lemma ReadDisplayDateOf(s: string, c: LocalDate)
    requires IsDisplayLayout(s)
    requires DecimalValue(s[0..2]) == c.day && DecimalValue(s[3..5]) == c.month && SignedDecimalValue(s[6..]) == c.year
    ensures ReadDisplayDate(s) == Some(c)
  {
  }

  /** Reading a displayed date back gives the fields it was made from. */
  lemma FormatDateReadsBack(c: LocalDate)
    ensures ReadDisplayDate(FormatDate(Some(c))) == Some(c)
  {
    FormatDateLayout(c);
    IntDecimalRoundTrip(c.year);
    ReadDisplayDateOf(FormatDate(Some(c)), c);
  }

  /** Reading a displayed date back gives the fields it was made from; an Invalid Date shows as text that names no date. */
  lemma FormatDateRoundTrip(local: Option<LocalDate>)
    ensures ReadDisplayDate(FormatDate(local)) == local
  {
    if local.Some? {
      FormatDateReadsBack(local.value);
    } else {
      assert FormatDate(local)[2] == 'N';
    }
  }

  /** Different dates are displayed differently. */
  lemma FormatDateInjective(c1: LocalDate, c2: LocalDate)
    requires FormatDate(Some(c1)) == FormatDate(Some(c2))
    ensures c1 == c2
  {
    FormatDateRoundTrip(Some(c1));
    FormatDateRoundTrip(Some(c2));
  }

  // ---------------------------------------------------------------------------
  // Page buttons
  // ---------------------------------------------------------------------------

  /** A click on one of the two page buttons. */
  datatype PageClick = Previous | Next

  /**
   * The page after a click: "Previous" is disabled on page 1 and otherwise
   * sets `Math.max(1, prev - 1)`; "Next" is disabled once the page reaches
   * `totalPages` and otherwise adds one.
   */
  function PageAfter(click: PageClick, page: int, totalPages: int): int {
    match click
    case Previous => if page == 1 then page else if page - 1 > 1 then page - 1 else 1
    case Next => if page >= totalPages then page else page + 1
  }

  function PageAfterAll(clicks: seq<PageClick>, page: int, totalPages: int): int
    decreases |clicks|
  {
    if clicks == [] then page else PageAfterAll(clicks[1..], PageAfter(clicks[0], page, totalPages), totalPages)
  }

  /** "Previous" never takes the page below 1, from any page, even one below 1. */
  lemma PreviousStaysPositive(page: int, totalPages: int)
    ensures PageAfter(Previous, page, totalPages) >= 1
  {
  }

  /**
   * From a page between 1 and the page count, any sequence of clicks stays
   * between 1 and the page count (or on page 1 when there are no pages).
   */
  lemma {:induction false} PagesStayInRange(clicks: seq<PageClick>, page: int, totalPages: int)
    requires 1 <= page && (page <= totalPages || page == 1)
    ensures var p := PageAfterAll(clicks, page, totalPages);
            1 <= p && (p <= totalPages || p == 1)
    decreases |clicks|
  {
    if clicks != [] {
      PagesStayInRange(clicks[1..], PageAfter(clicks[0], page, totalPages), totalPages);
    }
  }

  // ---------------------------------------------------------------------------
  // The component's state
  // ---------------------------------------------------------------------------

  /** The state of the component that the handlers change: the form, the preview and the page. */
  class DataManagerState {
    var manualData: ManualForm
    var previewData: seq<PreviewRow>
    var currentPage: int

    /** Every preview row passed validation, and the page is at least 1. */
    ghost predicate Valid()
      reads this
    {
      AllAccepted(previewData) && currentPage >= 1
    }

    /** The initial state: an empty form, an empty preview, page 1. */
    constructor ()
      ensures manualData == EmptyForm && previewData == [] && currentPage == 1
      ensures Valid()
    {
      manualData := EmptyForm;
      previewData := [];
      currentPage := 1;
    }

    /**
     * `handleAddManualData`: an empty field is refused before validation;
     * a row that fails validation shows its messages joined by ", "; a
     * valid row is appended to the preview with the clock's millisecond
     * count as its id, and the form is reset. `parseFloat` and `parseDate`
     * stand for JavaScript's number and date parsing.
     */
    method AddManualData(parseFloat: string -> JsNumber, parseDate: string -> Option<JsDate.TimeValue>, nowMs: nat)
      returns (notice: Notice)
      requires Valid()
      modifies this
      ensures Valid()
      ensures var f := old(manualData);
              if f.name == "" || f.amount == "" || f.date == "" || f.verified == "" then
                notice == ErrorToast(AllFieldsRequired) && unchanged(this)
              else
                match Validated(RowInput(f.name, parseFloat(f.amount), f.date, f.verified), parseDate(f.date))
                case Throws => notice == Uncaught && unchanged(this)
                case Normal(v) =>
                  if !v.isValid then notice == ErrorToast(Join(Texts(v.errors), ", ")) && unchanged(this)
                  else && notice == SuccessToast(AddedToPreview)
                       && previewData == old(previewData) + [PreviewRow(v, IntToDecimal(nowMs))]
                       && manualData == EmptyForm && currentPage == old(currentPage)
    {
      var f := manualData;
      if f.name == "" || f.amount == "" || f.date == "" || f.verified == "" {
        return ErrorToast(AllFieldsRequired);
      }
      var row := RowInput(f.name, parseFloat(f.amount), f.date, f.verified);
      var validated := ValidateRow(row, parseDate);
      if validated.Normal? && validated.value.isValid {
        ValidRowAccepted(row, validated.value.date);
      }
      notice := Settle(validated, nowMs);
    }

    /** What follows `validateRow`: an exception escapes, an invalid row is reported, a valid one is added. */
    method Settle(validated: Completion<ValidatedRow>, nowMs: nat) returns (notice: Notice)
      requires Valid()
      requires validated.Normal? && validated.value.isValid ==> Accepted(validated.value)
      modifies this
      ensures Valid()
      ensures match validated
              case Throws => notice == Uncaught && unchanged(this)
              case Normal(v) =>
                if !v.isValid then notice == ErrorToast(Join(Texts(v.errors), ", ")) && unchanged(this)
                else && notice == SuccessToast(AddedToPreview)
                     && previewData == old(previewData) + [PreviewRow(v, IntToDecimal(nowMs))]
                     && manualData == EmptyForm && currentPage == old(currentPage)
    {
      if validated.Throws? {
        return Uncaught;
      }
      var v := validated.value;
      if !v.isValid {
        return ErrorToast(Join(Texts(v.errors), ", "));
      }
      previewData := previewData + [PreviewRow(v, IntToDecimal(nowMs))];
      manualData := EmptyForm;
      notice := SuccessToast(AddedToPreview);
    }

    /** The first half of `handleImport`: refuse an empty preview, otherwise post its payload. */
    method BeginImport() returns (step: ImportStep)
      requires Valid()
      ensures |previewData| == 0 <==> step == NothingToImport(NothingToImportMessage)
      ensures step.Post? ==> step.validData == ImportPayload(previewData) && |step.validData| > 0
      ensures step.Post? ==> forall k :: 0 <= k < |step.validData| ==>
                && step.validData[k].name != "" && !IsNaN(step.validData[k].amount)
                && (step.validData[k].verified == "Yes" || step.validData[k].verified == "No")
    {
      if |previewData| == 0 {
        return NothingToImport(NothingToImportMessage);
      }
      ImportPayloadAccepted(previewData);
      step := Post(ImportPayload(previewData));
    }

    /** The second half of `handleImport`: a successful post empties the preview; a failed one keeps it. */
    method FinishImport(succeeded: bool)
      requires Valid()
      modifies this
      ensures Valid()
      ensures previewData == (if succeeded then [] else old(previewData))
      ensures manualData == old(manualData) && currentPage == old(currentPage)
    {
      if succeeded {
        previewData := [];
      }
    }

    /** A click on a page button. */
    method ClickPage(click: PageClick, totalPages: int)
      requires Valid()
      modifies this
      ensures Valid()
      ensures currentPage == PageAfter(click, old(currentPage), totalPages)
      ensures manualData == old(manualData) && previewData == old(previewData)
    {
      currentPage := PageAfter(click, currentPage, totalPages);
    }
  }
}
