/** The POST `/split-pdf` handler (Backend/routes/splitPdf.js): its guards,
    its own lenient reading of the split points, the choice of the result
    list that goes into the archive, and the summary of the produced
    files. */
module SplitPdfRoute {
  import opened Results
  import opened JsText
  import opened SortedSets
  import opened PdfDocument
  import opened PdfSplitService
  import opened RouteCommon

  /* ---------------------------------------------------------------------
     Request and answer
     --------------------------------------------------------------------- */

  /** The `splitPoints` form field: absent, a string, an array whose items
      `Number` has already turned into integers, or a value of any other
      type (an object, say). */
  datatype PointsField = NoPoints | PointsText(text: string) | PointsArray(values: seq<int>) | PointsOther

  datatype SplitRequest = SplitRequest(
    file: Option<Upload>,
    splitType: Option<string>,
    splitPoints: PointsField,
    pageRanges: Option<string>)

  /** The 400 answers, one per guard. */
  datatype Rejection =
    | NoPdfUploaded
    | NoSplitType
    | InvalidPdf(error: LoadError)
    | NoSplitPoints
    | InvalidSplitPointsFormat
    | NoPageRanges
    | InvalidSplitType

  /** The errors that reach the catch block and become a 500. */
  datatype SplitFailure = ServiceFailed(error: SplitError) | RangesFailed(rangesError: RangesError)

  /** One entry of `splitResult.files`; single-page results carry no page
      count. */
  datatype FileSummary = FileSummary(filename: string, pageCount: Option<int>, pageRange: string)

  /** The success body, with the archive's entries. */
  datatype SplitReply = SplitReply(
    operationType: string,
    originalName: string,
    originalSize: nat,
    originalPages: nat,
    totalFiles: nat,
    files: seq<FileSummary>,
    archive: seq<ZipEntry>)

  type SplitAnswer = Reply<SplitReply, Rejection, SplitFailure>

  /* ---------------------------------------------------------------------
     The inline split-point parser
     --------------------------------------------------------------------- */

  /** `.filter(n => !isNaN(n))`: the numbers, in order. */
  function Numbers(nums: seq<Option<int>>): (r: seq<int>)
    ensures |r| <= |nums|
    ensures forall x :: x in r <==> Some(x) in nums
  {
    if |nums| == 0 then []
    else (if nums[0].Some? then [nums[0].value] else []) + Numbers(nums[1..])
  }

  /** `splitPoints.split(',').map(num => parseInt(num.trim())).filter(n => !isNaN(n))`. */
  function LenientSplitPoints(s: string): (points: seq<int>)
    ensures forall x :: x in points <==> Some(x) in NumberTokens(s)
  {
    Numbers(NumberTokens(s))
  }

  /** `!splitPoints` is false: a missing field and the empty text are
      falsy, while any array, even an empty one, is truthy. */
  predicate PointsGiven(field: PointsField): (given: bool)
    ensures field.NoPoints? ==> !given
    ensures field == PointsText("") ==> !given
    ensures field.PointsText? && |field.text| > 0 ==> given
    ensures field.PointsArray? ==> given
    ensures field.PointsOther? ==> given
  {
    match field
    case NoPoints => false
    case PointsText(s) => s != ""
    case PointsArray(_) => true
    case PointsOther => true
  }

  /** The points the handler passes on: read leniently from a string, taken
      as they are from an array, none otherwise. */
  function ParsedSplitPoints(field: PointsField): (points: seq<int>)
    ensures field.PointsText? ==> forall x :: x in points <==> Some(x) in NumberTokens(field.text)
    ensures field.PointsArray? ==> points == field.values
    ensures field.NoPoints? || field.PointsOther? ==> points == []
  {
    match field
    case NoPoints => []
    case PointsText(s) => LenientSplitPoints(s)
    case PointsArray(vs) => vs
    case PointsOther => []
  }

  /** When every token is a number the lenient reading keeps them all, in
      order, so the service's own parser would give the same points. */
  lemma {:induction false} NumbersOfAllNumbers(nums: seq<Option<int>>)
    requires forall i :: 0 <= i < |nums| ==> nums[i].Some?
    ensures |Numbers(nums)| == |nums|
    ensures forall i :: 0 <= i < |nums| ==> Numbers(nums)[i] == nums[i].value
  {
    if |nums| > 0 {
      NumbersOfAllNumbers(nums[1..]);
    }
  }

  /** Where the service's parser accepts a string, the handler's reading
      holds the same values: after the service sorts and de-duplicates,
      both give the same points. */
  lemma LenientAgreesWhereStrictAccepts(s: string, totalPages: int)
    requires SplitPointsOf(s, totalPages).Success?
    ensures SortedSet(LenientSplitPoints(s)) == SplitPointsOf(s, totalPages).value
  {
    var nums := NumberTokens(s);
    PointsAreTheWrittenNumbers(nums, totalPages);
    NumbersOfAllNumbers(nums);
    var values := SplitPointsOf(s, totalPages).value;
    assert SameValues(values, LenientSplitPoints(s)) by {
      forall x ensures x in values <==> x in LenientSplitPoints(s) {
        if x in LenientSplitPoints(s) {
          assert Some(x) in nums;
        }
      }
    }
    SortedSetOfSameValues(values, LenientSplitPoints(s));
    SortedSetOfAscending(values);
  }

  /** `"2,abc"` gives `[2]` here, where the service's parser refuses the same
      text with NotANumber. */
  lemma LenientDropsWords(a: nat, w: string, totalPages: int)
    requires 1 <= a < totalPages
    requires ',' !in w && forall i :: 0 <= i < |w| ==> !IsDigit(w[i])
    ensures LenientSplitPoints(IntToString(a) + "," + w) == [a]
    ensures SplitPointsOf(IntToString(a) + "," + w, totalPages) == Failure(NotANumber)
  {
    var x := IntToString(a);
    DecimalText(a);
    NotInDigits(x, ',');
    SplitFirst(x, ',', w);
    SplitWithoutSeparator(w, ',');
    TrimKeepsNoDigits(w);
    ParseIntNoDigits(Trim(w));
    assert NumberTokens(x + "," + w) == [Some(a), None];
    assert Numbers([None]) == [];
    SplitPointsNotANumber(a, w, totalPages);
  }

  /** A text of commas and blanks holds no number at all and is refused
      with the format error. */
  lemma NoNumberMeansNoPoints(s: string)
    requires forall i :: 0 <= i < |s| ==> !IsDigit(s[i])
    ensures LenientSplitPoints(s) == []
  {
    var parts := Split(s, ',');
    var nums := NumberTokens(s);
    SplitParts(s, ',');
    forall i | 0 <= i < |nums| ensures nums[i] == None {
      PartHasNoDigits(s, parts, i);
      TrimKeepsNoDigits(parts[i]);
      ParseIntNoDigits(Trim(parts[i]));
    }
    NumbersOfNoNumbers(nums);
  }

  lemma {:induction false} NumbersOfNoNumbers(nums: seq<Option<int>>)
    requires forall i :: 0 <= i < |nums| ==> nums[i] == None
    ensures Numbers(nums) == []
  {
    if |nums| > 0 {
      NumbersOfNoNumbers(nums[1..]);
    }
  }

  lemma PartHasNoDigits(s: string, parts: seq<string>, i: nat)
    requires |parts| >= 1 && Join(parts, ',') == s && i < |parts|
    requires forall k :: 0 <= k < |s| ==> !IsDigit(s[k])
    ensures forall k :: 0 <= k < |parts[i]| ==> !IsDigit(parts[i][k])
  {
    JoinHoldsParts(parts, ',', i);
    forall k | 0 <= k < |parts[i]| ensures !IsDigit(parts[i][k]) {
      assert parts[i][k] in s;
    }
  }

  /* ---------------------------------------------------------------------
     Choosing and summarising the results
     --------------------------------------------------------------------- */

  /** `operationType`, which follows from the service that ran: each kind
      of result has its own name. */
  function OperationType(result: ServiceResult): (op: string)
    ensures op == "split" <==> result.SplitOutput?
    ensures op == "extract" <==> result.ExtractOutput?
    ensures op == "individual" <==> result.IndividualOutput?
  {
    match result
    case SplitOutput(_, _, _) => "split"
    case ExtractOutput(_, _, _) => "extract"
    case IndividualOutput(_, _, _) => "individual"
  }

  /** `pdfResults`: the list of the service result matching the operation. */
  function SelectResults(result: ServiceResult): (results: seq<PdfResult>)
    ensures result.SplitOutput? ==> results == result.splitResults
    ensures result.ExtractOutput? ==> results == result.extractResults
    ensures result.IndividualOutput? ==> results == result.individualResults
  {
    match result
    case SplitOutput(rs, _, _) => rs
    case ExtractOutput(rs, _, _) => rs
    case IndividualOutput(rs, _, _) => rs
  }

  /** `pageRange`: `start-end` when both ends are truthy (non-zero), else
      `Page n`; a range result has no `pageNumber`, which prints as
      `undefined`. */
  function PageRangeLabel(file: PdfResult): (shown: string)
    ensures file.PageResult? ==> |shown| > 5 && shown[..5] == "Page " && ParseInt(shown[5..]) == Some(file.pageNumber)
    ensures file.RangeResult? && (file.startPage == 0 || file.endPage == 0) ==> shown == "Page undefined"
  {
    match file
    case RangeResult(_, start, end, _, _) =>
      if start != 0 && end != 0 then IntToString(start) + "-" + IntToString(end) else "Page undefined"
    case PageResult(_, n, _) =>
      PageLabelReadsBack(n);
      "Page " + IntToString(n)
  }

  lemma PageLabelReadsBack(n: int)
    ensures var shown := "Page " + IntToString(n);
      |shown| > 5 && shown[..5] == "Page " && ParseInt(shown[5..]) == Some(n)
  {
    ParseIntOfDecimal(n, "");
    assert IntToString(n) + "" == IntToString(n);
    if n >= 0 {
      NatToStringDigits(n);
    }
    assert ("Page " + IntToString(n))[5..] == IntToString(n);
  }

  function Summary(file: PdfResult): (s: FileSummary)
    ensures s.filename == file.filename
  {
    FileSummary(file.filename, if file.RangeResult? then Some(file.pageCount) else None, PageRangeLabel(file))
  }

  /** `pdfResults.map(...)`: one summary per result, in order. */
  function Summaries(results: seq<PdfResult>): (files: seq<FileSummary>)
    ensures |files| == |results|
    ensures forall k :: 0 <= k < |results| ==> files[k] == Summary(results[k])
  {
    seq(|results|, k requires 0 <= k < |results| => Summary(results[k]))
  }

  /** The archive entries `createZipFromPdfs` appends. */
  function ArchiveOf(results: seq<PdfResult>): (entries: seq<ZipEntry>)
    ensures |entries| == |results|
    ensures forall k :: 0 <= k < |results| ==> entries[k] == ZipEntry(results[k].filename, results[k].pages)
  {
    seq(|results|, k requires 0 <= k < |results| => ZipEntry(results[k].filename, results[k].pages))
  }

  /** The label of a range from page a to page b reads back as a and b. */
  lemma RangeLabelReadsBack(file: PdfResult)
    requires file.RangeResult? && file.startPage >= 1 && file.endPage >= 1
    ensures var shown := PageRangeLabel(file);
      && Split(shown, '-') == [IntToString(file.startPage), IntToString(file.endPage)]
      && ParseInt(IntToString(file.startPage)) == Some(file.startPage)
      && ParseInt(IntToString(file.endPage)) == Some(file.endPage)
  {
    DashedPairText(file.startPage, file.endPage);
    DecimalText(file.startPage);
    DecimalText(file.endPage);
  }

  /* ---------------------------------------------------------------------
     The handler
     --------------------------------------------------------------------- */

  /** The operations behind the `switch`, once the document is open. */
  function RunOperation(doc: Document, splitType: string, req: SplitRequest)
    : (r: Reply<ServiceResult, Rejection, SplitFailure>)
    ensures r.Ok? && splitType == "split-at-pages" ==> r.body.SplitOutput?
    ensures r.Ok? && splitType == "extract-ranges" ==> r.body.ExtractOutput?
    ensures r.Ok? && splitType == "split-individual" ==> r.body.IndividualOutput?
  {
    if splitType == "split-at-pages" then
      if !PointsGiven(req.splitPoints) then BadRequest(NoSplitPoints)
      else
        var points := ParsedSplitPoints(req.splitPoints);
        if |points| == 0 then BadRequest(InvalidSplitPointsFormat)
        else match SplitPlan(doc, points)
          case Failure(e) => ServerError(ServiceFailed(e))
          case Success(out) => Ok(out)
    else if splitType == "extract-ranges" then
      if !Given(req.pageRanges) then BadRequest(NoPageRanges)
      else match PageRangesOf(req.pageRanges.value, |doc|)
        case Failure(e) => ServerError(RangesFailed(e))
        case Success(ranges) =>
          match ExtractPlan(doc, ranges)
          case Failure(e) => ServerError(ServiceFailed(e))
          case Success(out) => Ok(out)
    else if splitType == "split-individual" then Ok(IndividualPlan(doc))
    else BadRequest(InvalidSplitType)
  }

  /** The success body for a service result. */
  function ReplyOf(file: Upload, validation: Validation, result: ServiceResult): (body: SplitReply)
    ensures body.totalFiles == |body.files| == |body.archive| == |SelectResults(result)|
  {
    var results := SelectResults(result);
    SplitReply(OperationType(result), file.originalName, validation.fileSize, validation.pageCount,
               |results|, Summaries(results), ArchiveOf(results))
  }

  /** What the handler answers: the guards in the order the code makes
      them, then the operation, then the archive and the summary. */
  function SplitResponse(disk: Disk, req: SplitRequest): (r: SplitAnswer)
    ensures req.file.None? ==> r == BadRequest(NoPdfUploaded)
    ensures req.file.Some? && !Given(req.splitType) ==> r == BadRequest(NoSplitType)
  {
    if req.file.None? then BadRequest(NoPdfUploaded)
    else if !Given(req.splitType) then BadRequest(NoSplitType)
    else
      var file := req.file.value;
      var validation := ValidatePdf(disk, file.path);
      if !validation.valid then BadRequest(InvalidPdf(validation.error.value))
      else
        match RunOperation(Load(disk, file.path).value, Trim(req.splitType.value), req)
        case BadRequest(reason) => BadRequest(reason)
        case ServerError(cause) => ServerError(cause)
        case Ok(result) => Ok(ReplyOf(file, validation, result))
  }

  /** The POST handler, with its early returns. */
  method HandleSplit(disk: Disk, req: SplitRequest) returns (r: SplitAnswer)
    ensures r == SplitResponse(disk, req)
  {
    if req.file.None? {
      return BadRequest(NoPdfUploaded);
    }
    if !Given(req.splitType) {
      return BadRequest(NoSplitType);
    }
    var pdfPath := req.file.value.path;
    var validation := ValidatePdf(disk, pdfPath);
    if !validation.valid {
      return BadRequest(InvalidPdf(validation.error.value));
    }
    ghost var doc := Load(disk, pdfPath).value;

    var splitType := Trim(req.splitType.value);
    var result: ServiceResult;
    if splitType == "split-at-pages" {
      if !PointsGiven(req.splitPoints) {
        return BadRequest(NoSplitPoints);
      }
      var parsedSplitPoints := ParsedSplitPoints(req.splitPoints);
      if |parsedSplitPoints| == 0 {
        return BadRequest(InvalidSplitPointsFormat);
      }
      var outcome := SplitPdf(disk, pdfPath, parsedSplitPoints);
      if outcome.Failure? {
        return ServerError(ServiceFailed(outcome.error));
      }
      result := outcome.value;
    } else if splitType == "extract-ranges" {
      if !Given(req.pageRanges) {
        return BadRequest(NoPageRanges);
      }
      var ranges := ParsePageRanges(req.pageRanges.value, validation.pageCount);
      if ranges.Failure? {
        return ServerError(RangesFailed(ranges.error));
      }
      // Ranges the parser accepts always fit the open document, so the
      // service's own range check never throws here.
      ParsedRangesFitDocument(doc, req.pageRanges.value);
      var outcome := ExtractPages(disk, pdfPath, ranges.value);
      result := outcome.value;
    } else if splitType == "split-individual" {
      var outcome := SplitToIndividualPages(disk, pdfPath);
      result := outcome.value;
    } else {
      return BadRequest(InvalidSplitType);
    }
    assert RunOperation(doc, splitType, req) == Ok(result);

    var pdfResults := SelectResults(result);
    var entries := CreateZipFromPdfs(pdfResults);
    assert entries == ArchiveOf(pdfResults);
    var files := Summaries(pdfResults);
    return Ok(SplitReply(OperationType(result), req.file.value.originalName, validation.fileSize,
                         validation.pageCount, |pdfResults|, files, entries));
  }

  /* ---------------------------------------------------------------------
     Properties of the handler
     --------------------------------------------------------------------- */

  /** A file that does not open is refused before any split is tried,
      whatever the other fields say. */
  lemma InvalidPdfRefusedFirst(disk: Disk, req: SplitRequest)
    requires req.file.Some? && Given(req.splitType)
    requires Load(disk, req.file.value.path).Failure?
    ensures SplitResponse(disk, req) == BadRequest(InvalidPdf(Load(disk, req.file.value.path).error))
  {
  }

  /** The split type is compared after trimming, and any other value is
      refused: the handler answers InvalidSplitType exactly when the
      trimmed type is none of the three names. */
  lemma UnknownSplitTypeRefused(disk: Disk, req: SplitRequest)
    requires req.file.Some? && Given(req.splitType)
    requires Load(disk, req.file.value.path).Success?
    ensures SplitResponse(disk, req) == BadRequest(InvalidSplitType) <==>
      Trim(req.splitType.value) !in {"split-at-pages", "extract-ranges", "split-individual"}
  {
    var t := Trim(req.splitType.value);
    var doc := Load(disk, req.file.value.path).value;
    if t == "split-at-pages" {
      assert RunOperation(doc, t, req) != BadRequest(InvalidSplitType);
    } else if t == "extract-ranges" {
      assert RunOperation(doc, t, req) != BadRequest(InvalidSplitType);
    }
  }

  /** Splitting at points needs points: a missing or empty field, and a
      field from which no number can be read, are both refused. */
  lemma SplitPointsGuards(disk: Disk, req: SplitRequest)
    requires req.file.Some? && Given(req.splitType) && Load(disk, req.file.value.path).Success?
    requires Trim(req.splitType.value) == "split-at-pages"
    ensures !PointsGiven(req.splitPoints) ==> SplitResponse(disk, req) == BadRequest(NoSplitPoints)
    ensures PointsGiven(req.splitPoints) && |ParsedSplitPoints(req.splitPoints)| == 0 ==>
      SplitResponse(disk, req) == BadRequest(InvalidSplitPointsFormat)
  {
  }

  /** A split-point text without a single digit, such as `abc`, passes the
      presence guard and is refused as badly formatted. */
  lemma WordsOnlyPointsRefused(disk: Disk, req: SplitRequest)
    requires req.file.Some? && Given(req.splitType) && Load(disk, req.file.value.path).Success?
    requires Trim(req.splitType.value) == "split-at-pages"
    requires req.splitPoints.PointsText? && req.splitPoints.text != ""
    requires forall i :: 0 <= i < |req.splitPoints.text| ==> !IsDigit(req.splitPoints.text[i])
    ensures SplitResponse(disk, req) == BadRequest(InvalidSplitPointsFormat)
  {
    NoNumberMeansNoPoints(req.splitPoints.text);
  }

  /** A `splitPoints` that is neither text nor an array is truthy, so it
      passes the presence guard, is read as no points at all, and is
      refused as badly formatted. */
  lemma OtherPointsRefused(disk: Disk, req: SplitRequest)
    requires req.file.Some? && Given(req.splitType) && Load(disk, req.file.value.path).Success?
    requires Trim(req.splitType.value) == "split-at-pages" && req.splitPoints.PointsOther?
    ensures SplitResponse(disk, req) == BadRequest(InvalidSplitPointsFormat)
  {
    SplitPointsGuards(disk, req);
  }

  /** Extracting ranges needs a non-empty `pageRanges` field. */
  lemma MissingRangesRefused(disk: Disk, req: SplitRequest)
    requires req.file.Some? && Given(req.splitType) && Load(disk, req.file.value.path).Success?
    requires Trim(req.splitType.value) == "extract-ranges" && !Given(req.pageRanges)
    ensures SplitResponse(disk, req) == BadRequest(NoPageRanges)
  {
  }

  /** A success always comes from the operation the trimmed type names,
      and its archive holds that operation's results, in order, each under
      its file name; `totalFiles` counts them. */
  lemma ArchiveHoldsTheOperationsResults(disk: Disk, req: SplitRequest)
    requires SplitResponse(disk, req).Ok?
    ensures req.file.Some? && Given(req.splitType) && Load(disk, req.file.value.path).Success?
    ensures var doc := Load(disk, req.file.value.path).value;
      var t := Trim(req.splitType.value);
      var body := SplitResponse(disk, req).body;
      && (t == "split-at-pages" || t == "extract-ranges" || t == "split-individual")
      && body.operationType == (if t == "split-at-pages" then "split" else if t == "extract-ranges" then "extract" else "individual")
      && exists result :: RunOperation(doc, t, req) == Ok(result) &&
           body.archive == ArchiveOf(SelectResults(result)) && body.totalFiles == |SelectResults(result)|
  {
    var doc := Load(disk, req.file.value.path).value;
    var t := Trim(req.splitType.value);
    var result := RunOperation(doc, t, req).body;
    assert RunOperation(doc, t, req) == Ok(result);
  }

  /** Splitting at points whose validation fails in the service never
      answers with a success. */
  lemma SplitServiceErrorIsServerError(disk: Disk, req: SplitRequest)
    requires req.file.Some? && Given(req.splitType) && Load(disk, req.file.value.path).Success?
    requires Trim(req.splitType.value) == "split-at-pages" && PointsGiven(req.splitPoints)
    requires |ParsedSplitPoints(req.splitPoints)| > 0
    requires SplitPlan(Load(disk, req.file.value.path).value, ParsedSplitPoints(req.splitPoints)).Failure?
    ensures SplitResponse(disk, req) ==
      ServerError(ServiceFailed(SplitPlan(Load(disk, req.file.value.path).value, ParsedSplitPoints(req.splitPoints)).error))
  {
  }

  /** An extract request whose ranges text the service refuses answers
      with that parse error as a 500. */
  lemma RangesErrorIsServerError(disk: Disk, req: SplitRequest)
    requires req.file.Some? && Given(req.splitType) && Load(disk, req.file.value.path).Success?
    requires Trim(req.splitType.value) == "extract-ranges" && Given(req.pageRanges)
    requires PageRangesOf(req.pageRanges.value, |Load(disk, req.file.value.path).value|).Failure?
    ensures SplitResponse(disk, req) ==
      ServerError(RangesFailed(PageRangesOf(req.pageRanges.value, |Load(disk, req.file.value.path).value|).error))
  {
  }

  /** The labels of an individual split are `Page 1`, `Page 2`, …, and
      carry no page count. */
  lemma IndividualSummaries(doc: Document, k: nat)
    requires k < |doc|
    ensures Summaries(SelectResults(IndividualPlan(doc)))[k] ==
      FileSummary("page-" + (IntToString(k + 1) + ".pdf"), None, "Page " + IntToString(k + 1))
  {
    IndividualPageShape(doc, k);
  }

  /** The labels of a split at points are the segments' `start-end`, with
      their page counts. */
  lemma SplitSummaries(doc: Document, points: seq<int>, k: nat)
    requires |doc| > 0 && SplitPlan(doc, points).Success? && k < |SplitPlan(doc, points).value.splitResults|
    ensures var seg := SplitPlan(doc, points).value.splitResults[k];
      Summaries(SelectResults(SplitPlan(doc, points).value))[k] ==
        FileSummary(seg.filename, Some(seg.endPage - seg.startPage + 1),
                    IntToString(seg.startPage) + "-" + IntToString(seg.endPage))
  {
    var plan := SplitPlan(doc, points).value;
    var seg := plan.splitResults[k];
    SplitSegmentShape(doc, points, k);
    SplitSegmentsNonEmpty(doc, points, k);
    assert seg.RangeResult? && seg.startPage >= 1 && seg.endPage >= 1;
    assert SelectResults(plan) == plan.splitResults;
    assert Summary(seg) == FileSummary(seg.filename, Some(seg.endPage - seg.startPage + 1),
                                       IntToString(seg.startPage) + "-" + IntToString(seg.endPage));
  }
}
