# Excel Data Manager: upload validation, in Dafny

Excel Data Manager lets a user upload an `.xlsx` workbook, validates every
data row of every sheet against a per-sheet column schema, shows the valid
rows and the row errors, and imports the valid rows into a database.
Rows can also be typed in by hand, checked in the browser and added to a
preview before they are imported.

This project models three parts of it and proves properties of the model.

- **The server's upload pipeline** (`server/controller/controller.js`):
  - `sheetConfig`, the two sheet schemas `Default` and `Invoices` with their validators (module `SheetConfig`);
  - `excelDateToJSDate`, the conversion of spreadsheet date serials (module `SheetConfig`);
  - the sheet, row and cell loops of `uploadFile`, their normalisation and error messages, and the aggregation into the response (module `UploadValidation`, with its proofs in `UploadProperties`);
  - the empty-payload guard of `importData` (module `UploadValidation`).
- **The data manager component** (`client/src/components/DataManager.jsx`):
  - `validateRow` and `handleAddManualData` on the manual-entry form;
  - the payload `handleImport` posts;
  - `formatDate`;
  - the page buttons (module `DataManager`, with the component state as class `DataManagerState`).
- **The file upload component** (`client/src/components/FileUpload.jsx`):
  - `validateFile`, `handleFileSelect`, `handleDrop` and `handleDrag` (module `FileUpload`, with the component state as class `UploadPanel`).

Two support modules model the JavaScript built-ins the code relies on:

- `JsBuiltins`: exceptions, `isNaN`, `> 0`, `trim`, integer `toString`, `padStart` and `join`.
- `JsDate`: the proleptic Gregorian calendar of `Date` in UTC and `toISOString`.

## How the model is built

Values and errors:

- A JavaScript evaluation either produces a value or throws. `Completion<T>` (`Normal(v)` or `Throws`) models this.
- An exception thrown anywhere inside `uploadFile`'s `try` becomes the 500 response `ServerError`.
- A cell value is one of `Null`, a string, a number, a boolean, or a `Date` at UTC midnight of a day (`DateDays(d)`).

The server pipeline is written twice:

- **Specification functions**: `CellStep`, `RowSpec`, `SheetRows`, `SheetSpec`, `WorkbookSpec` and `UploadSpec`. Each layer folds over the layer below in the order `eachSheet`, `eachRow` and `eachCell` visit it.
- **Imperative methods**: `ValidateCell`, `ValidateRow`, `ProcessSheet` and `UploadFile`. They keep the source's loops and push-based accumulators, and each is proved equal to its specification function.

The lemmas in `UploadProperties` state what the pipeline promises:

- which messages a row gets;
- which fields a valid record holds;
- that every data row lands in exactly one of the two lists;
- how sheets combine;
- exactly when the upload aborts.

Inputs from the environment are parameters:

- The validators read the clock, the host's time zone and JavaScript's string-to-number conversion. All three are parameters, collected in `Env`.
- On the client, `parseFloat`, `new Date(text)`, `Date.now()` and the local calendar fields of a date are parameters as well.

The two React components are classes. Their fields are the `useState` slots the handlers change, and each handler is a method whose `ensures` clauses state the whole new state.

### Behaviour of the code that the model keeps

- **Date text aborts the upload.** A non-empty text under `Date` on a sheet under the Default schema reaches the validator at controller.js:18-22, and `value.getMonth()` at controller.js:20 throws on a string. The `catch` at controller.js:146-148 then answers 500 for the whole upload (`UploadProperties.DateTextAborts`).
- **The Date check is the current month.** The Default `Date` validator (controller.js:18-22) accepts a date only when its month and year, as the host's time zone shows them, are the current ones (`SheetConfig.DateCheckOnUtcHost`). `InvoiceDate` (controller.js:34) has no validator.
- **The two Amount checks agree.** The Invoices Amount check (controller.js:38) is `value > 0` without `isNaN`, and it agrees with the Default one (controller.js:13) on every value (`SheetConfig.AmountChecksAgree`).
- **Only visited cells are checked.** The "is required" message comes from a visited cell (controller.js:88-108). A configured column with no cell in the row gets no message (`UploadProperties.RowWithoutCellsIsValid` for a row with no cells).
- **Fields are assigned before the verdict.** `rowData` is assigned at controller.js:116-118 whether or not the column failed. A row with any message is dropped as a whole at controller.js:122-123 (`UploadProperties.SheetPlacement`).
- **Prototype names break the sheet lookup.** `sheetConfig[sheet.name]` at controller.js:78 finds inherited `Object.prototype` members, so such a sheet aborts the upload (`UploadProperties.ConstructorSheetResponses`; see "## Findings").
- **Non-text headers abort the upload.** A header cell holding a number, boolean or date makes `.trim()` at controller.js:89 throw (`UploadProperties.NumericHeaderAborts`).
- **The handler model uses the corrected lookup.** `UploadValidation.WorkbookSpec`, `UploadSpec`, `ProcessSheet` and `UploadFile` resolve sheets with `SheetConfig.SchemaFor`, the lookup `sheetConfig[sheet.name] || sheetConfig.Default` evidently intends. The handler exactly as written is `UploadProperties.UploadAsWritten`, over `UploadProperties.WorkbookAsWritten`. `UploadProperties.UploadAgreesOffPrototype` proves the two replies equal on every request without a prototype-named sheet.

## Model

| member | source | states |
|---|---|---|
| SheetConfig.ConfigLookup | server/controller/controller.js:78 | the lookup `sheetConfig[name]`, falling back to `sheetConfig.Default`, yields no schema exactly for the names inherited from `Object.prototype` |
| SheetConfig.SchemaFor | server/controller/controller.js:78 | the intended lookup: every name other than `Invoices` gets the Default schema |
| SheetConfig.SchemaForShape | server/controller/controller.js:6-47 | the Invoices schema configures exactly Name, InvoiceDate, Amount and Status, the Default schema exactly Name, Amount, Date and Verified, and both map their columns to distinct non-empty fields |
| SheetConfig.DefaultWellFormed | server/controller/controller.js:7-30 | the Default columns have non-empty, pairwise distinct target fields |
| SheetConfig.InvoicesWellFormed | server/controller/controller.js:31-46 | the Invoices columns have non-empty, pairwise distinct target fields |
| SheetConfig.LookupAgreesOffPrototype | server/controller/controller.js:78 | for any name that is not an `Object.prototype` key, the lookup as written gives the intended schema |
| SheetConfig.RunCheck | server/controller/controller.js:13-43 | running a validator throws exactly when the Date validator is given something that is not a `Date` |
| SheetConfig.DateCheckOnUtcHost | server/controller/controller.js:18-22 | on a UTC host the Date validator accepts a date exactly when its calendar year and month are the current ones |
| SheetConfig.Serial45000OnUtcHost | server/controller/controller.js:18-22 | on a UTC host, serial 45000 passes the Date validator exactly in March 2023 |
| SheetConfig.AmountChecksAgree | server/controller/controller.js:13-38 | `!isNaN(v) && v > 0` and `v > 0` agree on every value |
| SheetConfig.AmountCheckOnNumbers | server/controller/controller.js:13 | on a number, the Amount validator accepts exactly the positive ones |
| SheetConfig.ExcelDateToDays | server/controller/controller.js:50-53 | the day number is the floor of `serial - 25569` |
| SheetConfig.ExcelDateMonotone | server/controller/controller.js:50-53 | a later serial never gives an earlier day |
| SheetConfig.ExcelDateOfWholeSerial | server/controller/controller.js:51 | a whole serial n gives day n - 25569 |
| SheetConfig.Serial45000 | server/controller/controller.js:50-53 | serial 45000 is day 19431, the calendar date 2023-03-15 |
| SheetConfig.Normalize | server/controller/controller.js:96-103 | a number under `Date` becomes the `Date` of its serial, a boolean under `Verified` becomes "Yes"/"No", and nothing else changes |
| SheetConfig.NormalizeIdempotent | server/controller/controller.js:96-103 | normalising a normalised value changes nothing |
| UploadValidation.HeaderRowIsFirstRowOne | server/controller/controller.js:89 | the header cells are those of the first row numbered 1, or none when there is no such row |
| UploadValidation.HeaderValueMeaning | server/controller/controller.js:89 | a header cell's value is that of the row-1 cell with the same column number, and null when there is none |
| UploadValidation.CellStepMeaning | server/controller/controller.js:88-119 | a cell throws exactly when it aborts (non-text header, missing configuration, non-date under the Date validator); it is ignored exactly when its header is not configured; otherwise its value is the normalised cell, it is missing exactly when required and null/empty, invalid exactly when truthy and refused by the validator, and never both |
| UploadValidation.UploadSpec | server/controller/controller.js:69-148 | the reply under the corrected sheet lookup: no file gives 400 "No file uploaded", an unreadable file gives 500, and a 200 carries "Validation completed with errors" exactly when the error list is non-empty and "All data validated successfully" otherwise; it equals the reply as written off the prototype names (`UploadProperties.UploadAgreesOffPrototype`) |
| UploadValidation.RowThrowsPersists | server/controller/controller.js:88-120 | once a cell of a row throws, the whole row throws, whatever cells follow |
| UploadValidation.SheetThrowsPersists | server/controller/controller.js:82-130 | once a row throws, the whole sheet throws |
| UploadValidation.WorkbookThrowsPersists | server/controller/controller.js:77-136 | once a sheet throws, the whole workbook throws |
| UploadValidation.ValidateCell | server/controller/controller.js:88-119 | the `eachCell` callback computes exactly the cell step |
| UploadValidation.ValidateRow | server/controller/controller.js:85-120 | the `eachCell` loop with its `rowData` and `rowErrors` accumulators computes exactly the row fold |
| UploadValidation.ProcessSheet | server/controller/controller.js:78-130 | the `eachRow` loop, which skips row 1 and sorts rows into `sheetErrors` and `sheetValidRows`, computes exactly the sheet fold under the intended schema |
| UploadValidation.UploadFile | server/controller/controller.js:67-149 | the handler's loop over the sheets, with its `try`/`catch`, computes exactly `UploadSpec`, so it resolves sheets with the corrected lookup |
| UploadValidation.HeaderRow | server/controller/controller.js:89 | `sheet.getRow(1)`; `UploadValidation.HeaderRowIsFirstRowOne` proves it is the first row numbered 1, or empty |
| UploadValidation.HeaderText | server/controller/controller.js:89 | `.value?.trim()`: undefined for an empty header cell, the trimmed text of a text cell, a throw otherwise; `UploadProperties.NumericHeaderAborts` and `JsBuiltins.TrimMeaning` state its cases |
| UploadValidation.CellStep | server/controller/controller.js:88-119 | the `eachCell` callback for one cell; `UploadValidation.CellStepMeaning` characterises its abort, ignore, missing and invalid outcomes both ways |
| UploadValidation.RowSpec | server/controller/controller.js:85-120 | a row folded cell by cell; `UploadProperties.RowAbortsIff`, `RowFields` and `RowErrors` state when it aborts, which fields it holds and which messages it gets |
| UploadValidation.SheetRows | server/controller/controller.js:82-129 | the `eachRow` callback over the rows; `UploadProperties.SheetPartition` and `SheetPlacement` place every data row |
| UploadValidation.SheetSpec | server/controller/controller.js:80-129 | a sheet under a given configuration, header from its own row 1; `UploadProperties.SheetPlacement` states its lists |
| UploadValidation.WorkbookSpec | server/controller/controller.js:77-136 | the `eachSheet` loop under the corrected lookup; `UploadProperties.WorkbookConcat` and `WorkbookShape` state how sheets combine |
| UploadValidation.ImportRefused | server/controller/controller.js:156-158 | `!validData?.length`: the import is refused when the payload is absent or empty; `DataManager.ClientPayloadPassesGuard` shows what the client posts passes it |
| UploadProperties.RowSpecFold | server/controller/controller.js:85-120 | a row aborts exactly when its effect list does, and otherwise is the fold of its cells' effects in cell order: the last write of each field and the concatenated messages |
| UploadProperties.EffectsOf | server/controller/controller.js:88-119 | a completed effect list has one effect per cell, each that cell's own step |
| UploadProperties.WorkbookAsWritten | server/controller/controller.js:77-136 | the `eachSheet` loop with the sheet lookup exactly as written; `UploadProperties.AsWrittenAgreesOffPrototype` and `ConstructorSheetCounterexample` relate it to the corrected pass |
| UploadProperties.UploadAsWritten | server/controller/controller.js:67-149 | the handler's reply with the lookup exactly as written: 400 without a file, 500 for an unreadable file or an abort, and otherwise a 200 whose message tells whether there are errors |
| UploadProperties.UploadAgreesOffPrototype | server/controller/controller.js:78 | the reply as written equals the corrected reply on every request without a sheet named after an `Object.prototype` key |
| UploadProperties.ConstructorSheetResponses | server/controller/controller.js:146-148 | for the "constructor" workbook the handler as written answers 500 from its `catch`, the corrected one 200 with the one valid record |
| UploadProperties.CellErrorsAtMostOne | server/controller/controller.js:106-113 | a cell pushes at most one message, because an empty value is never validated |
| UploadProperties.TextInjective | server/controller/controller.js:107-112 | two messages with the same text are the same message |
| UploadProperties.CellErrorMeaning | server/controller/controller.js:106-113 | "`h` is required" is pushed exactly when `h` is a configured required header and the value is null or empty; "Invalid `h` value" exactly when the value is truthy and the validator refuses it |
| UploadProperties.ZeroAmountAccepted | server/controller/controller.js:106-111 | an Amount of 0 gets neither message, because 0 is neither empty nor truthy |
| UploadProperties.DateTextAborts | server/controller/controller.js:18-22 | on a non-Invoices sheet, a non-empty text under `Date` makes the upload throw |
| UploadProperties.NumericHeaderAborts | server/controller/controller.js:89 | a number in the header row makes every cell of that column throw |
| UploadProperties.RowAbortsIff | server/controller/controller.js:88-120 | a row throws exactly when one of its cells aborts |
| UploadProperties.RowFields | server/controller/controller.js:116-118 | a row's record holds exactly the fields some cell assigns, each with the value of the last cell that assigns it |
| UploadProperties.RowFieldKeys | server/controller/controller.js:116-118 | the fields of a row's record are exactly those some cell assigns |
| UploadProperties.RowFieldValues | server/controller/controller.js:116-118 | each field holds the value of the last cell that assigns it |
| UploadProperties.RowErrors | server/controller/controller.js:106-122 | every cell of a completed row completes; a message is in the row's errors exactly when some cell pushed it; there are at most as many messages as cells; and the row is valid exactly when no cell reports |
| UploadProperties.RowWithoutCellsIsValid | server/controller/controller.js:88-129 | a row without cells is valid and assigns nothing |
| UploadProperties.SheetPartition | server/controller/controller.js:82-129 | the two lists together have one entry per data row; error entries name a data row of the sheet (never row 1) with a non-empty message list; every valid record is tagged with the sheet's name |
| UploadProperties.RowPlaced | server/controller/controller.js:82-129 | data row k completes and lands where its own outcome sends it: its own number and messages as a row error when it has messages, a record of the sheet with its own fields otherwise |
| UploadProperties.RowErrorOrigin | server/controller/controller.js:122-123 | every row error carries the number and the messages of a data row of the sheet |
| UploadProperties.RecordOrigin | server/controller/controller.js:124-128 | every record is the sheet's name with the fields of a data row without messages |
| UploadProperties.SheetPlacement | server/controller/controller.js:82-129 | both directions at once: every data row is placed by its own outcome, and every entry of either list comes from such a row |
| UploadProperties.WorkbookSnoc | server/controller/controller.js:132-135 | one more sheet adds its error entry (when it has errors) and its valid rows at the end |
| UploadProperties.WorkbookConcat | server/controller/controller.js:77-136 | validating two runs of sheets one after the other concatenates their error lists and their valid lists |
| UploadProperties.WorkbookShape | server/controller/controller.js:132-135 | a workbook has at most one error entry per sheet, no entry without errors, and every entry and every record name one of its sheets |
| UploadProperties.EmptyWorkbook | server/controller/controller.js:138-144 | a workbook without sheets gives empty lists and "All data validated successfully" |
| UploadProperties.PrototypeSheetAborts | server/controller/controller.js:78 | under the lookup as written, every data row with a cell in a sheet named after an `Object.prototype` key throws |
| UploadProperties.CorrectedLookupAbortCauses | server/controller/controller.js:89-113 | under the intended lookup, a cell aborts only through its header text or through a truthy non-date, non-number under a Default `Date` column |
| UploadProperties.AsWrittenAgreesWhereLookupsAgree | server/controller/controller.js:77-136 | the pipeline as written and the intended one agree on every workbook whose sheets the two lookups resolve alike |
| UploadProperties.AsWrittenAgreesOffPrototype | server/controller/controller.js:78 | the two agree on every workbook with no sheet named after an `Object.prototype` key |
| UploadProperties.ConstructorSheetCounterexample | server/controller/controller.js:78 | a sheet named "constructor" makes the upload as written throw, where the intended lookup validates its row against the Default schema |
| JsBuiltins.Trim | server/controller/controller.js:89 | `String.prototype.trim`; `JsBuiltins.TrimMeaning` and `TrimIdempotent` state what it keeps and cuts |
| JsDate.CivilFromDays | server/controller/controller.js:52 | the UTC calendar date of a day number, with month 1-12 and day 1-31; `JsDate.CivilRoundTrip` inverts it |
| JsDate.IsoString | client/src/components/DataManager.jsx:65 | `toISOString`; `JsDate.IsoStringRoundTrip` reads it back to its time value |
| JsBuiltins.TrimMeaning | server/controller/controller.js:89 | `trim` keeps a contiguous piece of the header text and cuts only white space, none of which is left at either end |
| JsBuiltins.TrimIdempotent | server/controller/controller.js:89 | trimming a trimmed header changes nothing |
| JsDate.CivilRoundTrip | server/controller/controller.js:52 | the calendar date of a day number converts back to that day number |
| JsDate.CivilInjective | server/controller/controller.js:52 | distinct days have distinct calendar dates |
| JsDate.IsoStringRoundTrip | client/src/components/DataManager.jsx:65 | `toISOString` of a time value reads back to that time value |
| DataManager.RowErrors | client/src/components/DataManager.jsx:54-61 | the checks that fail, in check order; `DataManager.RowErrorsMeaning` states each message both ways |
| DataManager.Returned | client/src/components/DataManager.jsx:63-67 | the object `validateRow` returns; `DataManager.ReturnedMeaning` states its fields, messages and verdict |
| DataManager.Validated | client/src/components/DataManager.jsx:53-69 | `validateRow`'s outcome, a throw on an Invalid Date; `DataManager.ValidatedMeaning` states when it throws and what date it returns |
| DataManager.FailedMembers | client/src/components/DataManager.jsx:54-61 | running the checks pushes exactly the ones that fail |
| DataManager.FailedInOrder | client/src/components/DataManager.jsx:54-61 | the failed checks keep the order the checks run in |
| DataManager.RowErrorsAsPushed | client/src/components/DataManager.jsx:54-61 | the error list is the four conditional pushes one after the other |
| DataManager.RowErrorsMeaning | client/src/components/DataManager.jsx:54-61 | each of the four messages is present exactly when its condition holds, in check order |
| DataManager.ReturnedMeaning | client/src/components/DataManager.jsx:63-67 | a returned row carries the row's fields with the ISO date, has "Invalid date format" never, each other message exactly when its check fails, and is valid exactly when it has no error |
| DataManager.ValidatedMeaning | client/src/components/DataManager.jsx:58-65 | `validateRow` throws exactly when the date does not parse (from `toISOString`), and otherwise returns the parsed time's ISO text as the date |
| DataManager.ValidateRow | client/src/components/DataManager.jsx:53-69 | the method with its pushes computes exactly `validateRow`'s outcome |
| DataManager.ValidRowAccepted | client/src/components/DataManager.jsx:63-66 | a row marked valid has a non-empty name, a number as amount and "Yes" or "No" as verified |
| DataManager.ImportPayload | client/src/components/DataManager.jsx:80-85 | the payload has one entry per preview row |
| DataManager.ImportPayloadFields | client/src/components/DataManager.jsx:80-85 | entry k carries the name, amount, date and verified of preview row k and nothing else |
| DataManager.ImportPayloadSnoc | client/src/components/DataManager.jsx:80-85 | adding a preview row adds its projection at the end of the payload |
| DataManager.ImportPayloadAccepted | client/src/components/DataManager.jsx:80-85 | when every preview row was accepted, every payload entry passes the client's checks |
| DataManager.ClientPayloadPassesGuard | server/controller/controller.js:156-158 | a payload the client posts is never refused by `importData`'s empty-payload guard |
| DataManager.FormatDateLayout | client/src/components/DataManager.jsx:137-142 | a formatted date is two digits of day, a dash, two digits of the 1-based month, a dash and the year |
| DataManager.FormatDateReadsBack | client/src/components/DataManager.jsx:137-142 | reading a formatted valid date back gives its calendar fields |
| DataManager.FormatDateRoundTrip | client/src/components/DataManager.jsx:137-142 | reading back a formatted date gives the fields it was made from, and an Invalid Date's "NaN-NaN-NaN" reads as no date |
| DataManager.FormatDateInjective | client/src/components/DataManager.jsx:137-142 | distinct dates are formatted differently |
| DataManager.FormatDate | client/src/components/DataManager.jsx:137-142 | `formatDate`; `DataManager.FormatDateLayout` and `FormatDateRoundTrip` state its layout and read it back |
| DataManager.PageAfter | client/src/components/DataManager.jsx:278-289 | one click on "Previous" or "Next" with the buttons' disabling; `DataManager.PreviousStaysPositive` states its lower bound |
| DataManager.PageAfterAll | client/src/components/DataManager.jsx:278-289 | a run of clicks; `DataManager.PagesStayInRange` keeps it in range |
| DataManager.PreviousStaysPositive | client/src/components/DataManager.jsx:278-279 | "Previous" never sets a page below 1, from any page |
| DataManager.PagesStayInRange | client/src/components/DataManager.jsx:278-289 | from a page within range, any run of clicks stays between 1 and the page count |
| DataManager.DataManagerState.constructor | client/src/components/DataManager.jsx:7-15 | an empty form whose `verified` is "Yes", an empty preview and page 1 |
| DataManager.DataManagerState.AddManualData | client/src/components/DataManager.jsx:28-51 | an empty field gives "All fields are required" and changes nothing; an unparseable date throws and changes nothing; an invalid row shows its messages joined by ", " and changes nothing; a valid row is appended to the preview with the clock as `_id`, "Data added to preview" is shown and the form is reset |
| DataManager.DataManagerState.Settle | client/src/components/DataManager.jsx:43-50 | the outcome of `validateRow` decides between the error toast and the appended preview row as above |
| DataManager.DataManagerState.BeginImport | client/src/components/DataManager.jsx:71-86 | an empty preview gives "No data to import"; otherwise the posted payload is the projection of the preview, is non-empty, and every entry has a name, a number as amount and "Yes" or "No" |
| DataManager.DataManagerState.FinishImport | client/src/components/DataManager.jsx:88-92 | a successful import clears the preview, a failed one keeps it, and form and page are untouched |
| DataManager.DataManagerState.ClickPage | client/src/components/DataManager.jsx:277-289 | a click moves the page as the buttons do and leaves form and preview alone |
| FileUpload.ValidateFile | client/src/components/FileUpload.jsx:33-44 | no message exactly for an `.xlsx` workbook of at most 2 MiB; the type message exactly for another type; the size message exactly for a larger workbook |
| FileUpload.SizeLimitIsInclusive | client/src/components/FileUpload.jsx:40-43 | 2097152 bytes pass, 2097153 do not |
| FileUpload.TypeCheckedFirst | client/src/components/FileUpload.jsx:37-39 | a file of the wrong type that is also too large reports only its type |
| FileUpload.RejectionErrors | client/src/components/FileUpload.jsx:70 | a rejection shows one "Upload Error" entry whose row 1 holds the message |
| FileUpload.UploadPanel.constructor | client/src/components/FileUpload.jsx:12-16 | no file, no drag, no status and empty lists |
| FileUpload.UploadPanel.HandleFileSelect | client/src/components/FileUpload.jsx:65-78 | no file changes nothing; a rejected file only replaces the error list; an accepted file is kept and clears status, valid rows and errors; a kept file always passes `validateFile` |
| FileUpload.UploadPanel.HandleDrop | client/src/components/FileUpload.jsx:46-63 | the drag mark is cleared, then the first dropped file is handled as a selected one |
| FileUpload.UploadPanel.HandleDrag | client/src/components/FileUpload.jsx:23-31 | enter and over set the drag mark, leave and drop clear it, other events keep it; nothing else changes |

## Left out

- Parsing `.xlsx` bytes (ExcelJS `load`): a workbook is given as its sheets, rows and cells. An unreadable file is the `Unreadable` request, which the `catch` turns into a 500.
- Which cells `eachCell({ includeEmpty: true })` visits is part of the input: the cells listed for a row. A required column whose cell is absent gets no "is required" message.
- Rich text, formula, hyperlink and error cells of ExcelJS are not modelled. A cell value is null, text, a number, a boolean or a date.
- Floating point: numbers are reals with NaN and the infinities as tags. Rounding is not modelled.
- The host's time zone: `getMonth`/`getFullYear` on the server and `getDate`/`getMonth`/`getFullYear` on the client are parameters. `SheetConfig.DateCheckOnUtcHost` states the UTC case.
- The clock (`new Date()`, `Date.now()`), `parseFloat`, `new Date(text)` and JavaScript's string-to-number conversion are parameters.
- Time of day: the model drops the time of day of date cells. A date is a whole day (`DateDays`). `excelDateToJSDate` yields UTC midnight, but a cell ExcelJS itself reads as a date can carry a time, and that time is not kept.
- JSON serialisation: a record is its sheet name and a field map, so key order and the ISO text of dates in the response are not modelled.
- The express routing, the `multer` upload middleware with its extension filter and size limit, and the database model.
- `importData` beyond its empty-payload guard: `insertMany`, its response and its `catch` talk to MongoDB.
- `getImportedData`, `deleteRow`, `exportToExcel`, `handleExport`, `fetchImportedData`, `handleDelete`, `formatAmount` and the `importedData` list: they fetch, delete or export stored data.
- `handleManualInputChange` and the rendering of both components.
- The upload request of `FileUpload.jsx` (`uploadFile`) and the `loading`/`isUploading` flags: network calls.
- `totalPages` changing between page clicks comes from `fetchImportedData`. The page lemmas keep it fixed.
- Toasts and error messages are datatypes with a `Text` function rather than strings.
- UploadValidation.UploadFile: resolves each sheet with the corrected lookup `SheetConfig.SchemaFor`, so a sheet named after an `Object.prototype` member gets a 200 where the code answers 500. `UploadProperties.UploadAsWritten` is the reply as written, and `UploadProperties.UploadAgreesOffPrototype` proves the two equal off those names.
- UploadValidation.UploadSpec: the same corrected lookup as `UploadValidation.UploadFile`, for the same reason.
- `UploadValidation.ColumnFor`: a header named after an `Object.prototype` member (for example "constructor") finds an inherited function in `config.columns`. That function has no `required`, `validate` or `dbField`, so the cell does nothing, and the model treats that header as unconfigured, to the same effect.
- `DataManager.ValidateRow`: the `typeof row.amount !== "number"` test always passes, because `parseFloat` always returns a number. Only `isNaN` is modelled.

## Findings

| source | as written | input that shows it | evidently intended | confidence | as-written member | corrected member |
|---|---|---|---|---|---|---|
| server/controller/controller.js:78 | the lookup `sheetConfig[sheet.name]`, with its fallback to `sheetConfig.Default`, also finds the properties `sheetConfig` inherits from `Object.prototype`; their `columns` is undefined, so the first cell of a data row throws and the whole upload fails with 500 | a workbook with one sheet named "constructor" whose row 1 is `Name` and row 2 is `Ann` | every sheet name other than "Invoices" falls back to the Default schema, so the row becomes a valid record `{sheetName: "constructor", name: "Ann"}` | not executed | UploadProperties.ConstructorSheetCounterexample | SheetConfig.SchemaFor |
