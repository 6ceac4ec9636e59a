/** The POST `/remove-pages` handler (Backend/routes/removePages.js): a
    sequence of guards with early returns, then the service, then the
    summary of the removal. */
module RemovePagesRoute {
  import opened Results
  import opened JsText
  import opened SortedSets
  import opened PdfDocument
  import opened PdfRemovePagesService
  import opened RouteCommon

  datatype RemoveRequest = RemoveRequest(file: Option<Upload>, pages: Option<string>)

  /** The 400 answers, one per guard; a refused page specification carries
      the document's page count. */
  datatype Rejection =
    | NoPdfUploaded
    | NoPagesSpecified
    | InvalidPdf(error: LoadError)
    | InvalidPageSpecification(rangeError: RangeError, totalPages: nat)
    | NoValidPages

  /** The success body: `fileInfo` and `removalResult`. Where the JSON
      reports `outputFileSize`, the byte length of the saved output, the
      summary carries the saved document itself. */
  datatype RemovalSummary = RemovalSummary(
    originalName: string,
    originalSize: nat,
    originalPages: nat,
    removedPages: seq<int>,
    removedCount: nat,
    remainingCount: nat,
    output: Document)

  type RemoveAnswer = Reply<RemovalSummary, Rejection, RemoveError>

  /** The summary of a service result: `fileInfo` takes the client's name
      and the validated size and page count, and `removalResult` takes the
      service's own list, counts and document. */
  function SummaryOf(file: Upload, validation: Validation, out: RemoveOutput): (s: RemovalSummary)
    ensures s.originalName == file.originalName
    ensures s.originalSize == validation.fileSize && s.originalPages == validation.pageCount
    ensures s.removedPages == out.removedPages && s.output == out.pages
    ensures s.removedCount == out.removedPageCount && s.remainingCount == out.remainingPageCount
  {
    RemovalSummary(file.originalName, validation.fileSize, validation.pageCount,
                   out.removedPages, out.removedPageCount, out.remainingPageCount, out.pages)
  }

  /** What the handler answers, guard by guard. */
  function RemoveResponse(disk: Disk, req: RemoveRequest): (r: RemoveAnswer)
    ensures req.file.None? ==> r == BadRequest(NoPdfUploaded)
    ensures req.file.Some? && !Given(req.pages) ==> r == BadRequest(NoPagesSpecified)
  {
    if req.file.None? then BadRequest(NoPdfUploaded)
    else if !Given(req.pages) then BadRequest(NoPagesSpecified)
    else
      var file := req.file.value;
      var validation := ValidatePdf(disk, file.path);
      if !validation.valid then BadRequest(InvalidPdf(validation.error.value))
      else match RemovalPagesOf(req.pages.value, validation.pageCount)
        case Failure(e) => BadRequest(InvalidPageSpecification(e, validation.pageCount))
        case Success(pagesToRemove) =>
          if |pagesToRemove| == 0 then BadRequest(NoValidPages)
          else match RemovePlan(Load(disk, file.path).value, pagesToRemove)
            case Failure(e) => ServerError(e)
            case Success(out) => Ok(SummaryOf(file, validation, out))
  }

  /** The POST handler. */
  method HandleRemove(disk: Disk, req: RemoveRequest) returns (r: RemoveAnswer)
    ensures r == RemoveResponse(disk, req)
  {
    if req.file.None? {
      return BadRequest(NoPdfUploaded);
    }
    if !Given(req.pages) {
      return BadRequest(NoPagesSpecified);
    }
    var pdfPath := req.file.value.path;
    var validation := ValidatePdf(disk, pdfPath);
    if !validation.valid {
      return BadRequest(InvalidPdf(validation.error.value));
    }
    var parsed := ParsePageRanges(req.pages.value, validation.pageCount);
    if parsed.Failure? {
      return BadRequest(InvalidPageSpecification(parsed.error, validation.pageCount));
    }
    var pagesToRemove := parsed.value;
    if |pagesToRemove| == 0 {
      return BadRequest(NoValidPages);
    }
    var removeResult := RemovePages(disk, pdfPath, pagesToRemove);
    if removeResult.Failure? {
      return ServerError(removeResult.error);
    }
    return Ok(SummaryOf(req.file.value, validation, removeResult.value));
  }

  /** A file that does not open is refused before the page specification
      is read. */
  lemma InvalidPdfRefusedBeforeParsing(disk: Disk, req: RemoveRequest)
    requires req.file.Some? && Given(req.pages) && Load(disk, req.file.value.path).Failure?
    ensures RemoveResponse(disk, req) == BadRequest(InvalidPdf(Load(disk, req.file.value.path).error))
  {
  }

  /** A specification the parser refuses is a 400 that carries the parse
      error and the document's page count. */
  lemma ParseErrorCarriesPageCount(disk: Disk, req: RemoveRequest)
    requires req.file.Some? && Given(req.pages) && Load(disk, req.file.value.path).Success?
    requires RemovalPagesOf(req.pages.value, |Load(disk, req.file.value.path).value|).Failure?
    ensures RemoveResponse(disk, req) == BadRequest(InvalidPageSpecification(
      RemovalPagesOf(req.pages.value, |Load(disk, req.file.value.path).value|).error,
      |Load(disk, req.file.value.path).value|))
  {
  }

  /** The parser never returns an empty list: the first token names at
      least one page. */
  lemma ParsedPagesNeverEmpty(s: string, totalPages: int)
    requires RemovalPagesOf(s, totalPages).Success?
    ensures |RemovalPagesOf(s, totalPages).value| > 0
  {
    RemovalTokensSucceed(s, totalPages);
    RemovalMembership(s, totalPages);
    var first := TokenBounds(Split(s, ',')[0], totalPages).value;
    assert first.low in RemovalPagesOf(s, totalPages).value;
  }

  /** So the handler's empty-list guard can never fire. */
  lemma NoValidPagesIsUnreachable(disk: Disk, req: RemoveRequest)
    ensures RemoveResponse(disk, req) != BadRequest(NoValidPages)
  {
    if req.file.Some? && Given(req.pages) && Load(disk, req.file.value.path).Success? {
      var n := |Load(disk, req.file.value.path).value|;
      if RemovalPagesOf(req.pages.value, n).Success? {
        ParsedPagesNeverEmpty(req.pages.value, n);
      }
    }
  }

  /** A success reports the parsed pages, a removed count equal to their
      number, a remaining count equal to the page count minus it, and a
      document holding exactly the other pages in their order. */
  lemma SuccessCountsAndContent(disk: Disk, req: RemoveRequest)
    requires RemoveResponse(disk, req).Ok?
    ensures req.file.Some? && Given(req.pages) && Load(disk, req.file.value.path).Success?
    ensures var doc := Load(disk, req.file.value.path).value;
      var body := RemoveResponse(disk, req).body;
      && RemovalPagesOf(req.pages.value, |doc|).Success?
      && body.removedPages == RemovalPagesOf(req.pages.value, |doc|).value
      && body.originalPages == |doc|
      && body.removedCount == |body.removedPages|
      && body.remainingCount == |doc| - body.removedCount >= 1
      && body.output == KeptPages(doc, body.removedPages, |doc|)
  {
    var doc := Load(disk, req.file.value.path).value;
    var pages := RemovalPagesOf(req.pages.value, |doc|).value;
    RemovalInDocument(req.pages.value, |doc|);
    assert Distinct(pages);
    RemoveCountForDistinctList(doc, pages);
    RemoveLeavesAPage(doc, pages);
  }

  /** Asking for every page, as `1-n`, passes every guard of the handler
      and is refused by the service, which becomes a 500. */
  lemma EveryPageIsAServerError(disk: Disk, req: RemoveRequest)
    requires req.file.Some? && Load(disk, req.file.value.path).Success?
    requires |Load(disk, req.file.value.path).value| >= 1
    requires req.pages == Some(IntToString(1) + "-" + IntToString(|Load(disk, req.file.value.path).value|))
    ensures RemoveResponse(disk, req) == ServerError(CannotRemoveAllPages)
  {
    var doc := Load(disk, req.file.value.path).value;
    var n := |doc|;
    SingleRangeNamesItsPages(1, n, n);
    IntervalLength(1, n);
    NoInvalidPages(Interval(1, n), n);
  }
}
