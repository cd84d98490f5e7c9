/** The validation and outcome logic of `onDrop` in
    frontend/src/components/FileUpload.js. The component's callbacks are modelled as
    the list of calls `onDrop` makes, in order; the result of the upload request is
    an input. */
module FileUpload {
  import opened Wrappers
  import opened Text

  /** A file handed over by the drop zone. */
  datatype DroppedFile = DroppedFile(name: string, size: nat)

  /** A call of one of the component's three callbacks. */
  datatype Callback =
    | AnalysisStart
    | AnalysisResult(data: string)
    | AnalysisError(message: string)

  /** How the upload request ended: with a response body; with an error that carries
      a response, whose `data.error` may be missing; with an error that carries only
      the request (no response arrived); or with any other error. */
  datatype RequestOutcome =
    | Answered(data: string)
    | ErrorResponse(error: Option<string>)
    | NoResponse
    | OtherError

  /** The client-side size cap: 50 MiB. */
  const MaxUploadSize: nat := 50 * 1024 * 1024

  /** The extensions the client accepts, with their dot. */
  const AllowedTypes: seq<string> := [".exe", ".zip", ".txt", ".bin", ".dll"]

  const SizeMessage := "File size exceeds 50MB limit"
  const TypeMessage := "Unsupported file type. Please upload .exe, .zip, .txt, .bin, or .dll files"
  const ServerErrorMessage := "Server error occurred"
  const ConnectionMessage := "Unable to connect to server. Please ensure the backend is running."
  const UnexpectedMessage := "An unexpected error occurred"

  /** `'.' + name.split('.').pop().toLowerCase()`: a dot, then the lower-cased text
      after the name's last dot, or the whole lower-cased name when it has none. */
  function FileExtension(name: string): (ext: string)
    ensures |ext| >= 1 && ext[0] == '.'
    ensures '.' !in name ==> ext == "." + Lower(name)
    ensures '.' in name ==> |ext| <= |name| && name[|name| - |ext|] == '.'
    ensures '.' in name ==> '.' !in name[|name| - |ext| + 1..]
                            && ext == "." + Lower(name[|name| - |ext| + 1..])
  {
    var tail := AfterLastDot(name);
    assert name[|name| - |tail|..] == tail;
    "." + Lower(tail)
  }

  /** The message shown for a failed request: the server's `error` field when it is
      present and not empty (JavaScript's `||` treats "" as missing), the generic
      server message otherwise, the connection message when no response arrived, and
      the catch-all message for any other error. */
  function ErrorMessage(outcome: RequestOutcome): (message: string)
    requires !outcome.Answered?
    ensures outcome.ErrorResponse? && outcome.error.Some? && outcome.error.value != []
            ==> message == outcome.error.value
    ensures outcome.ErrorResponse? && (outcome.error.None? || outcome.error.value == [])
            ==> message == ServerErrorMessage
    ensures outcome.NoResponse? ==> message == ConnectionMessage
    ensures outcome.OtherError? ==> message == UnexpectedMessage
  {
    match outcome
    case ErrorResponse(error) =>
      if error.Some? && error.value != [] then error.value else ServerErrorMessage
    case NoResponse => ConnectionMessage
    case OtherError => UnexpectedMessage
  }

  /** The file passes the client-side checks: within the cap and of an allowed type. */
  predicate PassesChecks(file: DroppedFile) {
    file.size <= MaxUploadSize && FileExtension(file.name) in AllowedTypes
  }

  /** `onDrop`: nothing for an empty drop; otherwise only the first file is looked
      at; an oversized file is refused with the size message whatever its type, a
      file of another type with the type message, and a file that passes both checks
      starts the analysis once and then reports the request's result or error. */
  function OnDrop(acceptedFiles: seq<DroppedFile>, request: RequestOutcome): (calls: seq<Callback>)
    ensures acceptedFiles == [] ==> calls == []
    ensures acceptedFiles != [] && acceptedFiles[0].size > MaxUploadSize
            ==> calls == [AnalysisError(SizeMessage)]
    ensures acceptedFiles != [] && acceptedFiles[0].size <= MaxUploadSize
            && FileExtension(acceptedFiles[0].name) !in AllowedTypes
            ==> calls == [AnalysisError(TypeMessage)]
    ensures AnalysisStart in calls <==> acceptedFiles != [] && PassesChecks(acceptedFiles[0])
    ensures AnalysisStart in calls ==>
              && calls[0] == AnalysisStart
              && calls[1..] == [if request.Answered? then AnalysisResult(request.data)
                                else AnalysisError(ErrorMessage(request))]
    ensures |calls| <= 2
  {
    if |acceptedFiles| == 0 then []
    else
      var file := acceptedFiles[0];
      if file.size > 50 * 1024 * 1024 then [AnalysisError(SizeMessage)]
      else if FileExtension(file.name) !in AllowedTypes then [AnalysisError(TypeMessage)]
      else
        [AnalysisStart] + match request
          case Answered(data) => [AnalysisResult(data)]
          case _ => [AnalysisError(ErrorMessage(request))]
  }

  /** Files after the first one in a drop do not matter. */
  lemma OnlyFirstFileExamined(acceptedFiles: seq<DroppedFile>, request: RequestOutcome)
    requires acceptedFiles != []
    ensures OnDrop(acceptedFiles, request) == OnDrop(acceptedFiles[..1], request)
  {
    assert acceptedFiles[..1][0] == acceptedFiles[0];
  }

  /** The cap is inclusive: a file of exactly 50 MiB with an allowed name starts the
      analysis, one byte more is refused for its size even with an allowed name. */
  lemma SizeCapBoundary(request: RequestOutcome)
    ensures AnalysisStart in OnDrop([DroppedFile("sample.exe", MaxUploadSize)], request)
    ensures OnDrop([DroppedFile("sample.exe", MaxUploadSize + 1)], request) == [AnalysisError(SizeMessage)]
  {
    var name := "sample.exe";
    assert LastIndexOf(name, '.') == 6 by {
      assert name[6] == '.' && name[7] != '.' && name[8] != '.' && name[9] != '.';
    }
    assert name[7..] == "exe";
    assert FileExtension(name) == ".exe";
  }

  /** The server's error text is shown when present; an empty one is replaced. */
  lemma ErrorMessageExamples()
    ensures ErrorMessage(ErrorResponse(Some("File type not allowed"))) == "File type not allowed"
    ensures ErrorMessage(ErrorResponse(Some(""))) == ServerErrorMessage
  {
  }
}
