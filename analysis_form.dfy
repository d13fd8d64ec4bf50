/**
 * The SWOT input page: the check that every quadrant has been filled in,
 * and the résumé upload panel, whose state is the file it currently holds
 * and the value of its hidden file input.
 */
module AnalysisForm {
  import opened Wrappers
  import opened JsText

  /** The four free-text quadrants the user types. */
  datatype SwotForm = SwotForm(strengths: string, weaknesses: string, opportunities: string, threats: string)

  /** `s.trim()` is a truthy (non-empty) string. */
  predicate Filled(s: string) {
    Trim(s) != []
  }

  /**
   * `validateForm`: the form may be analysed exactly when each of the four
   * quadrants holds a character that is not whitespace.
   */
  function ValidateForm(form: SwotForm): (ok: bool)
    ensures ok <==>
      && (exists k :: 0 <= k < |form.strengths| && !IsSpace(form.strengths[k]))
      && (exists k :: 0 <= k < |form.weaknesses| && !IsSpace(form.weaknesses[k]))
      && (exists k :: 0 <= k < |form.opportunities| && !IsSpace(form.opportunities[k]))
      && (exists k :: 0 <= k < |form.threats| && !IsSpace(form.threats[k]))
  {
    Filled(form.strengths) && Filled(form.weaknesses) && Filled(form.opportunities) && Filled(form.threats)
  }

  /** An empty form is never valid. */
  lemma EmptyFormInvalid()
    ensures !ValidateForm(SwotForm("", "", "", ""))
  {
  }

  /** Blanking any one quadrant makes the form invalid, whatever the others hold. */
  lemma BlankQuadrantInvalidates(form: SwotForm, blank: string)
    requires forall k :: 0 <= k < |blank| ==> IsSpace(blank[k])
    ensures !ValidateForm(form.(strengths := blank))
    ensures !ValidateForm(form.(weaknesses := blank))
    ensures !ValidateForm(form.(opportunities := blank))
    ensures !ValidateForm(form.(threats := blank))
  {
  }

  // ---------------------------------------------------------------------------
  // The résumé upload panel
  // ---------------------------------------------------------------------------

  /** What the panel sees of a browser `File`: its name, size in bytes and MIME type. */
  datatype FileInfo = FileInfo(name: string, size: nat, mimeType: string)

  /** 5 MiB, the largest accepted upload. */
  const MaxUploadBytes: nat := 5 * 1024 * 1024

  const AllowedTypes: seq<string> := [
    "application/pdf",
    "application/msword",
    "application/vnd.openxmlformats-officedocument.wordprocessingml.document",
    "text/plain"
  ]

  datatype UploadVerdict = Accepted | TooLarge | UnsupportedType

  /** The checks `handleFileUpload` runs on a file, the size first. */
  function CheckUpload(f: FileInfo): (v: UploadVerdict)
    ensures v == Accepted <==> f.size <= MaxUploadBytes && f.mimeType in AllowedTypes
    ensures v == TooLarge <==> f.size > MaxUploadBytes
    ensures v == UnsupportedType <==> f.size <= MaxUploadBytes && f.mimeType !in AllowedTypes
  {
    if f.size > MaxUploadBytes then TooLarge
    else if f.mimeType !in AllowedTypes then UnsupportedType
    else Accepted
  }

  const TooLargeAlert: string := "File size must be less than 5MB"
  const UnsupportedTypeAlert: string := "Please upload a PDF, DOC, DOCX, or TXT file"

  /** The alert a selection of files raises: none for no file or an accepted first file. */
  function UploadAlert(files: seq<FileInfo>): (alert: Option<string>)
    ensures alert.None? <==> |files| == 0 || CheckUpload(files[0]) == Accepted
    ensures |files| > 0 && files[0].size > MaxUploadBytes ==> alert == Some(TooLargeAlert)
    ensures |files| > 0 && files[0].size <= MaxUploadBytes && files[0].mimeType !in AllowedTypes
            ==> alert == Some(UnsupportedTypeAlert)
  {
    if |files| == 0 then None
    else
      match CheckUpload(files[0])
      case Accepted => None
      case TooLarge => Some(TooLargeAlert)
      case UnsupportedType => Some(UnsupportedTypeAlert)
  }

  /** The file the panel ends up holding after a selection of `files`. */
  function AfterSelection(held: Option<FileInfo>, files: seq<FileInfo>): (r: Option<FileInfo>)
    ensures r != held ==> |files| > 0 && r == Some(files[0])
    ensures |files| > 0 && CheckUpload(files[0]) == Accepted ==> r == Some(files[0])
    ensures !(|files| > 0 && CheckUpload(files[0]) == Accepted) ==> r == held
  {
    if |files| > 0 && CheckUpload(files[0]) == Accepted then Some(files[0]) else held
  }

  /** A file of exactly 5 MiB of an allowed type is accepted; one byte more is not. */
  lemma SizeLimitIsInclusive(name: string)
    ensures CheckUpload(FileInfo(name, MaxUploadBytes, "application/pdf")) == Accepted
    ensures CheckUpload(FileInfo(name, MaxUploadBytes + 1, "application/pdf")) == TooLarge
  {
  }

  /** An oversized file is refused for its size even when its type is not allowed either. */
  lemma SizeCheckedFirst(f: FileInfo)
    requires f.size > MaxUploadBytes && f.mimeType !in AllowedTypes
    ensures UploadAlert([f]) == Some(TooLargeAlert)
  {
  }

  /**
   * The upload panel. `uploadedFile` is the file shown as attached; the
   * hidden `<input type="file">` may or may not be mounted, and
   * `inputValue` is the value it holds.
   */
  class UploadPanel {
    var uploadedFile: Option<FileInfo>
    var inputMounted: bool
    var inputValue: string

    /** The panel only ever holds a file that passed the checks. */
    predicate Valid()
      reads this
    {
      uploadedFile.Some? ==> CheckUpload(uploadedFile.value) == Accepted
    }

    constructor(mounted: bool)
      ensures Valid()
      ensures uploadedFile == None && inputMounted == mounted && inputValue == ""
    {
      uploadedFile := None;
      inputMounted := mounted;
      inputValue := "";
    }

    /**
     * `handleFileUpload`: the first selected file replaces the attached one
     * when it is at most 5 MiB and of an allowed type; otherwise the alert
     * is returned and the attached file stays.
     */
    method HandleFileUpload(files: seq<FileInfo>) returns (alert: Option<string>)
      requires Valid()
      modifies this`uploadedFile
      ensures Valid()
      ensures alert == UploadAlert(files)
      ensures uploadedFile == AfterSelection(old(uploadedFile), files)
      ensures alert.Some? ==> uploadedFile == old(uploadedFile)
    {
      alert := None;
      if |files| > 0 {
        var file := files[0];
        if file.size > MaxUploadBytes {
          alert := Some(TooLargeAlert);
          return;
        }
        if file.mimeType !in AllowedTypes {
          alert := Some(UnsupportedTypeAlert);
          return;
        }
        uploadedFile := Some(file);
      }
    }

    /**
     * A pick through the mounted file input: the browser stores `shown`, its
     * text for the chosen files, as the input's value and then fires the
     * `onChange` that runs `handleFileUpload`.
     */
    method PickThroughInput(files: seq<FileInfo>, shown: string) returns (alert: Option<string>)
      requires Valid() && inputMounted
      modifies this`uploadedFile, this`inputValue
      ensures Valid()
      ensures inputValue == shown
      ensures alert == UploadAlert(files)
      ensures uploadedFile == AfterSelection(old(uploadedFile), files)
    {
      inputValue := shown;
      alert := HandleFileUpload(files);
    }

    /** `handleDrop`: the first dropped file, if any, goes through the same checks. */
    method HandleDrop(dropped: seq<FileInfo>) returns (alert: Option<string>)
      requires Valid()
      modifies this`uploadedFile
      ensures Valid()
      ensures alert == UploadAlert(dropped)
      ensures uploadedFile == AfterSelection(old(uploadedFile), dropped)
    {
      alert := None;
      if |dropped| > 0 {
        alert := HandleFileUpload([dropped[0]]);
      }
    }

    /** `removeUploadedFile`: detaches the file and clears the input when it is mounted. */
    method RemoveUploadedFile()
      requires Valid()
      modifies this`uploadedFile, this`inputValue
      ensures Valid()
      ensures uploadedFile == None
      ensures inputValue == if inputMounted then "" else old(inputValue)
    {
      uploadedFile := None;
      if inputMounted {
        inputValue := "";
      }
    }
  }
}
