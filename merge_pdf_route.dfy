/** The POST `/merge-pdf` handler (Backend/routes/mergePdf.js): the
    file-count guards, the filter of invalid inputs, the `fileInfo` list,
    the page total, and the merge itself. */
module MergePdfRoute {
  import opened Results
  import opened Seqs
  import opened JsPath
  import opened PdfDocument
  import opened PdfMergeService
  import opened RouteCommon

  /** One entry of `invalidFiles`. */
  datatype InvalidEntry = InvalidEntry(filename: string, error: Option<LoadError>)

  /** One entry of `fileInfo`. */
  datatype FileInfo = FileInfo(filename: string, pageCount: nat, fileSize: nat)

  datatype Rejection = NoPdfFiles | TooFewFiles | InvalidFiles(invalidFiles: seq<InvalidEntry>)

  /** The success body. Where the JSON reports `outputFileSize`, the byte
      length of the merged output, the reply carries the merged document. */
  datatype MergeReply = MergeReply(fileInfo: seq<FileInfo>, totalFiles: nat, totalPages: nat, merged: Document)

  type MergeAnswer = Reply<MergeReply, Rejection, MergeError>

  /** `req.files.map(file => file.path)`. */
  function PathsOf(files: seq<Upload>): (paths: seq<string>)
    ensures |paths| == |files| && forall i :: 0 <= i < |files| ==> paths[i] == files[i].path
  {
    seq(|files|, i requires 0 <= i < |files| => files[i].path)
  }

  /** `validationResults.filter(r => !r.valid).map(...)`. */
  function InvalidEntries(vs: seq<FileValidation>): (bad: seq<InvalidEntry>)
    ensures |bad| <= |vs|
    ensures forall e :: e in bad <==>
      exists i :: 0 <= i < |vs| && !vs[i].valid && e == InvalidEntry(vs[i].filename, vs[i].error)
  {
    if |vs| == 0 then []
    else
      var rest := InvalidEntries(vs[1..]);
      assert forall i :: 1 <= i < |vs| ==> vs[i] == vs[1..][i - 1];
      (if vs[0].valid then [] else [InvalidEntry(vs[0].filename, vs[0].error)]) + rest
  }

  /** `validationResults.map(...)`: one entry per result, in order. */
  function FileInfos(vs: seq<FileValidation>): (info: seq<FileInfo>)
    ensures |info| == |vs|
    ensures forall i :: 0 <= i < |vs| ==> info[i] == FileInfo(vs[i].filename, vs[i].pageCount, vs[i].fileSize)
  {
    seq(|vs|, i requires 0 <= i < |vs| => FileInfo(vs[i].filename, vs[i].pageCount, vs[i].fileSize))
  }

  /** `fileInfo.reduce((sum, file) => sum + file.pageCount, 0)`. */
  function TotalPagesOf(info: seq<FileInfo>): (total: nat)
    ensures forall i :: 0 <= i < |info| ==> info[i].pageCount <= total
  {
    if |info| == 0 then 0
    else
      var init := info[..|info| - 1];
      assert forall i :: 0 <= i < |init| ==> init[i] == info[i];
      TotalPagesOf(init) + info[|info| - 1].pageCount
  }

  /** What the handler answers. */
  function MergeResponse(disk: Disk, files: seq<Upload>): (r: MergeAnswer)
    ensures |files| == 0 ==> r == BadRequest(NoPdfFiles)
    ensures |files| == 1 ==> r == BadRequest(TooFewFiles)
  {
    if |files| == 0 then BadRequest(NoPdfFiles)
    else if |files| < 2 then BadRequest(TooFewFiles)
    else
      var paths := PathsOf(files);
      var validationResults := ValidationsOf(disk, paths);
      var invalidFiles := InvalidEntries(validationResults);
      if |invalidFiles| > 0 then BadRequest(InvalidFiles(invalidFiles))
      else match MergePlan(disk, paths)
        case Failure(e) => ServerError(e)
        case Success(out) => Ok(MergeReply(FileInfos(validationResults), out.fileCount, out.totalPages, out.pages))
  }

  /** The POST handler. */
  method HandleMerge(disk: Disk, files: seq<Upload>) returns (r: MergeAnswer, totalPages: nat)
    ensures r == MergeResponse(disk, files)
    ensures r.Ok? ==> totalPages == TotalPagesOf(r.body.fileInfo)
  {
    totalPages := 0;
    if |files| == 0 {
      return BadRequest(NoPdfFiles), totalPages;
    }
    if |files| < 2 {
      return BadRequest(TooFewFiles), totalPages;
    }
    var pdfPaths := PathsOf(files);
    var validationResults := ValidatePdfs(disk, pdfPaths);
    var invalidFiles := InvalidEntries(validationResults);
    if |invalidFiles| > 0 {
      return BadRequest(InvalidFiles(invalidFiles)), totalPages;
    }
    var fileInfo := FileInfos(validationResults);
    totalPages := TotalPagesOf(fileInfo);
    var mergeResult := MergePdfs(disk, pdfPaths);
    if mergeResult.Failure? {
      return ServerError(mergeResult.error), totalPages;
    }
    var out := mergeResult.value;
    return Ok(MergeReply(fileInfo, out.fileCount, out.totalPages, out.pages)), totalPages;
  }

  /** The filter leaves nothing exactly when every check passed. */
  lemma NoInvalidEntriesIff(vs: seq<FileValidation>)
    ensures |InvalidEntries(vs)| == 0 <==> forall i :: 0 <= i < |vs| ==> vs[i].valid
  {
    var bad := InvalidEntries(vs);
    if |bad| > 0 {
      assert bad[0] in bad;
    }
  }

  /** With two files or more, the request is refused on validation exactly
      when some file does not open. */
  lemma RefusedIffSomeFileFails(disk: Disk, files: seq<Upload>)
    requires |files| >= 2
    ensures MergeResponse(disk, files).BadRequest? <==>
      exists i :: 0 <= i < |files| && Load(disk, files[i].path).Failure?
  {
    var paths := PathsOf(files);
    var vs := ValidationsOf(disk, paths);
    NoInvalidEntriesIff(vs);
    if forall i :: 0 <= i < |vs| ==> vs[i].valid {
      ValidInputsMerge(disk, paths);
      forall i | 0 <= i < |files| ensures Load(disk, files[i].path).Success? {
        assert vs[i] == ValidateFile(disk, paths[i]);
      }
    } else {
      var i :| 0 <= i < |vs| && !vs[i].valid;
      assert vs[i] == ValidateFile(disk, paths[i]) && paths[i] == files[i].path;
    }
  }

  /** A refusal on validation lists, with its filename and error, every
      file that does not open, and no other. */
  lemma InvalidFilesListed(disk: Disk, files: seq<Upload>, e: InvalidEntry)
    requires |files| >= 2 && MergeResponse(disk, files).BadRequest?
    ensures MergeResponse(disk, files).reason.InvalidFiles?
    ensures e in MergeResponse(disk, files).reason.invalidFiles <==>
      exists i :: 0 <= i < |files| && Load(disk, files[i].path).Failure? &&
        e == InvalidEntry(Basename(files[i].path), Some(Load(disk, files[i].path).error))
  {
    var vs := ValidationsOf(disk, PathsOf(files));
    assert forall i :: 0 <= i < |files| ==> vs[i] == ValidateFile(disk, files[i].path);
  }

  /** A success lists one `fileInfo` entry per uploaded file, in upload
      order, each with that file's name and page count; the merge counts
      every file; and the page total the handler adds up equals the merged
      document's page count. */
  lemma SuccessInfoAndTotals(disk: Disk, files: seq<Upload>)
    requires MergeResponse(disk, files).Ok?
    ensures var body := MergeResponse(disk, files).body;
      && |body.fileInfo| == |files| == body.totalFiles
      && (forall i :: 0 <= i < |files| ==>
            (Load(disk, files[i].path).Success? &&
             body.fileInfo[i].filename == Basename(files[i].path) &&
             body.fileInfo[i].pageCount == |Load(disk, files[i].path).value|))
      && TotalPagesOf(body.fileInfo) == body.totalPages == |body.merged|
  {
    var paths := PathsOf(files);
    var vs := ValidationsOf(disk, paths);
    assert forall i :: 0 <= i < |files| ==> vs[i] == ValidateFile(disk, files[i].path);
    NoInvalidEntriesIff(vs);
    ValidInputsMerge(disk, paths);
    TotalPagesIsSum(vs);
  }

  /** Once every file validates, the merge cannot fail: the handler never
      answers a 500 for a set of inputs that all open. */
  lemma ValidatedMergeSucceeds(disk: Disk, files: seq<Upload>)
    requires |files| >= 2 && forall i :: 0 <= i < |files| ==> Load(disk, files[i].path).Success?
    ensures MergeResponse(disk, files).Ok?
  {
    RefusedIffSomeFileFails(disk, files);
    var paths := PathsOf(files);
    var vs := ValidationsOf(disk, paths);
    assert forall i :: 0 <= i < |files| ==> vs[i] == ValidateFile(disk, files[i].path);
    ValidInputsMerge(disk, paths);
  }

  lemma {:induction false} TotalPagesIsSum(vs: seq<FileValidation>)
    ensures TotalPagesOf(FileInfos(vs)) == Sum(PageCounts(vs))
  {
    if |vs| > 0 {
      var init := vs[..|vs| - 1];
      TotalPagesIsSum(init);
      assert FileInfos(vs)[..|vs| - 1] == FileInfos(init);
      assert PageCounts(vs) == PageCounts(init) + [vs[|vs| - 1].pageCount];
      SumAppend(PageCounts(init), vs[|vs| - 1].pageCount);
    }
  }
}
