/**
 * The file-upload component of the client: the check a chosen file must
 * pass before it is uploaded, and what choosing or dropping a file does to
 * the component's state.
 */
module FileUpload {
  import opened JsBuiltins
  import UploadValidation

  /** The MIME type of an Office Open XML workbook (.xlsx), the only type accepted. */
  const XlsxMime: string := "application/vnd.openxmlformats-officedocument.spreadsheetml.sheet"

  /** The largest accepted size: 2 MiB. */
  const MaxSize: nat := 2 * 1024 * 1024

  const WrongTypeMessage: string := "Please upload only .xlsx files"
  const TooLargeMessage: string := "File size should be less than 2MB"

  /** What the browser reports about a chosen file. */
  datatype FileInfo = FileInfo(name: string, mime: string, size: nat)

  /** `validateFile(file)`: `None` (`null`) for an acceptable file, otherwise the message to show. */
  function ValidateFile(file: FileInfo): (error: Option<string>)
    ensures error == None <==> file.mime == XlsxMime && file.size <= MaxSize
    ensures error == Some(WrongTypeMessage) <==> file.mime != XlsxMime
    ensures error == Some(TooLargeMessage) <==> file.mime == XlsxMime && file.size > MaxSize
  {
    if file.mime != XlsxMime then Some(WrongTypeMessage)
    else if file.size > MaxSize then Some(TooLargeMessage)
    else None
  }

  /** A workbook of exactly 2097152 bytes is still accepted; one byte more is not. */
  lemma SizeLimitIsInclusive(name: string)
    ensures ValidateFile(FileInfo(name, XlsxMime, 2097152)) == None
    ensures ValidateFile(FileInfo(name, XlsxMime, 2097153)) == Some(TooLargeMessage)
  {
  }

  /** The type is checked first: a file that is both of the wrong type and too large reports only its type. */
  lemma TypeCheckedFirst(file: FileInfo)
    requires file.mime != XlsxMime && file.size > MaxSize
    ensures ValidateFile(file) == Some(WrongTypeMessage)
  {
  }

  /** One row of the error list the component shows. */
  datatype RowMessages = RowMessages(row: int, errors: seq<string>)

  /** One entry of the error list the component shows: a sheet name and its rows. */
  datatype SheetMessages = SheetMessages(sheet: string, errors: seq<RowMessages>)

  /** The error list shown for a rejected file: one "Upload Error" entry whose row 1 holds the message. */
  function RejectionErrors(message: string): (errors: seq<SheetMessages>)
    ensures |errors| == 1 && errors[0].sheet == "Upload Error"
    ensures errors[0].errors == [RowMessages(1, [message])]
  {
    [SheetMessages("Upload Error", [RowMessages(1, [message])])]
  }

  /** What the last upload attempt ended in. */
  datatype UploadStatus = Success | Failure

  /** A step of the drag-and-drop area: the `type` of the drag event. */
  datatype DragEvent = DragEnter | DragOver | DragLeave | Drop | OtherDrag

  /**
   * The state of the component that choosing and dropping a file change:
   * the chosen file, whether a file is dragged over the drop area, the
   * status of the last upload, the valid rows of the last upload (as the
   * server's records) and the error list.
   */
  class UploadPanel {
    var file: Option<FileInfo>
    var isDragging: bool
    var uploadStatus: Option<UploadStatus>
    var validData: seq<UploadValidation.Record>
    var errors: seq<SheetMessages>

    /** A file is only ever kept once it has passed `validateFile`. */
    ghost predicate Valid()
      reads this
    {
      file.Some? ==> ValidateFile(file.value) == None
    }

    /** The initial state: no file, nothing dragged, no status, empty lists. */
    constructor ()
      ensures file == None && !isDragging && uploadStatus == None && validData == [] && errors == []
      ensures Valid()
    {
      file := None;
      isDragging := false;
      uploadStatus := None;
      validData := [];
      errors := [];
    }

    /**
     * `handleFileSelect`: no file changes nothing; a rejected file replaces
     * the error list by the rejection and keeps the previous file; an
     * accepted file is kept, and the status, the valid rows and the errors
     * are cleared.
     */
    method HandleFileSelect(selected: Option<FileInfo>)
      requires Valid()
      modifies this
      ensures Valid()
      ensures isDragging == old(isDragging)
      ensures selected.None? ==> unchanged(this)
      ensures selected.Some? && ValidateFile(selected.value).Some? ==>
                && errors == RejectionErrors(ValidateFile(selected.value).value)
                && file == old(file) && uploadStatus == old(uploadStatus) && validData == old(validData)
      ensures selected.Some? && ValidateFile(selected.value).None? ==>
                && file == selected && uploadStatus == None && validData == [] && errors == []
    {
      if selected.Some? {
        var error := ValidateFile(selected.value);
        if error.Some? {
          errors := RejectionErrors(error.value);
          return;
        }
        file := selected;
        uploadStatus := None;
        validData := [];
        errors := [];
      }
    }

    /** `handleDrop`: the drag ends, then the first dropped file is handled as a selected one. */
    method HandleDrop(dropped: Option<FileInfo>)
      requires Valid()
      modifies this
      ensures Valid()
      ensures !isDragging
      ensures dropped.None? ==>
                file == old(file) && uploadStatus == old(uploadStatus) && validData == old(validData) && errors == old(errors)
      ensures dropped.Some? && ValidateFile(dropped.value).Some? ==>
                && errors == RejectionErrors(ValidateFile(dropped.value).value)
                && file == old(file) && uploadStatus == old(uploadStatus) && validData == old(validData)
      ensures dropped.Some? && ValidateFile(dropped.value).None? ==>
                && file == dropped && uploadStatus == None && validData == [] && errors == []
    {
      isDragging := false;
      HandleFileSelect(dropped);
    }

    /** `handleDrag`: entering or moving over the area marks it, leaving or dropping clears the mark. */
    method HandleDrag(event: DragEvent)
      modifies this
      ensures isDragging == (if event == DragEnter || event == DragOver then true
                             else if event == DragLeave || event == Drop then false
                             else old(isDragging))
      ensures file == old(file) && uploadStatus == old(uploadStatus) && validData == old(validData) && errors == old(errors)
    {
      if event == DragEnter || event == DragOver {
        isDragging := true;
      } else if event == DragLeave || event == Drop {
        isDragging := false;
      }
    }
  }
}
