/** What the three route handlers share: the upload multer hands them, the
    shape of their answers, and the file-name check of the download
    endpoints. */
module RouteCommon {
  import opened Results
  import opened JsText
  import opened JsPath

  /** `req.file` as multer stores it: the path on disk and the name the
      client gave. */
  datatype Upload = Upload(path: string, originalName: string)

  /** A handler's answer: the JSON body of a success, a 400 with its
      reason, or a 500 carrying the error the catch block received. */
  datatype Reply<Body, Reason, Cause> = Ok(body: Body) | BadRequest(reason: Reason) | ServerError(cause: Cause)

  /** `!field` is false: a missing field and the empty text are falsy in
      JavaScript, every other text is truthy. */
  predicate Given(field: Option<string>): (given: bool)
    ensures field.None? ==> !given
    ensures field == Some("") ==> !given
    ensures field.Some? && |field.value| > 0 ==> given
  {
    field.Some? && field.value != ""
  }

  /** The check of `/download/:filename`: no `..`, no `/`, no `\`. */
  function SafeDownloadName(filename: string): (ok: bool)
    ensures ok <==>
      && (forall i :: 0 <= i < |filename| - 1 ==> !(filename[i] == '.' && filename[i + 1] == '.'))
      && '/' !in filename && '\\' !in filename
  {
    ContainsDotDot(filename);
    ContainsChar(filename, '/');
    ContainsChar(filename, '\\');
    !(Contains(filename, "..") || Contains(filename, "/") || Contains(filename, "\\"))
  }

  datatype DownloadReply = InvalidFilename | NotFoundOrExpired | SendFile(name: string)

  /** The download endpoint: refuse an unsafe name, then answer 404 unless
      the temporary directory holds a file of that name. `tempFiles` stands
      for the names for which `fs.existsSync(path.join(tempDir, name))`
      holds; the name `.` passes the check and names the directory itself,
      so it counts as existing, and the stream that follows fails. */
  function Download(filename: string, tempFiles: set<string>): (r: DownloadReply)
    ensures r == InvalidFilename <==> !SafeDownloadName(filename)
    ensures r.SendFile? <==> SafeDownloadName(filename) && filename in tempFiles
    ensures r.SendFile? ==> r.name == filename
  {
    if !SafeDownloadName(filename) then InvalidFilename
    else if filename !in tempFiles then NotFoundOrExpired
    else SendFile(filename)
  }

  /** A name the check lets through is a single path component: it is its
      own basename and not `..`, so joining it to the temporary directory
      stays there (for `.`, it is that directory itself). */
  lemma SafeNameStaysInDirectory(filename: string)
    requires SafeDownloadName(filename)
    ensures Basename(filename) == filename
    ensures filename != ".."
  {
    BasenameOfPlainName(filename);
  }

  /** Any name with a parent-directory step is refused, wherever it sits. */
  lemma TraversalRefused(prefix: string, suffix: string, tempFiles: set<string>)
    ensures Download(prefix + ".." + suffix, tempFiles) == InvalidFilename
  {
    var name := prefix + ".." + suffix;
    assert name[|prefix|] == '.' && name[|prefix| + 1] == '.';
  }
}
