/** The split service (Backend/services/pdfSplitService.js): split at
    points, extract ranges, split into single pages, the two string parsers
    and the order of the archive entries. Each operation is a method whose
    loops follow the JavaScript; its result is proved equal to a plan
    function, and the properties of the plans are lemmas. */
module PdfSplitService {
  import opened Results
  import opened JsText
  import opened SortedSets
  import opened Seqs
  import opened PdfDocument

  /* ---------------------------------------------------------------------
     Data
     --------------------------------------------------------------------- */

  /** The errors the three split operations throw. */
  datatype SplitError =
    | LoadFailed(cause: LoadError)
    | InvalidSplitPoints(invalid: seq<int>, totalPages: nat)
    | InvalidPageRange(start: int, end: int, totalPages: nat)

  /** A `[start, end]` pair of 1-based page numbers. */
  datatype PageRange = PageRange(start: int, end: int)

  /** One produced PDF: a range of pages (split and extract), or one page
      (individual split), with the name it gets in the archive. */
  datatype PdfResult =
    | RangeResult(pages: Document, startPage: int, endPage: int, pageCount: int, filename: string)
    | PageResult(pages: Document, pageNumber: int, filename: string)

  /** The objects the three operations return. */
  datatype ServiceResult =
    | SplitOutput(splitResults: seq<PdfResult>, originalPageCount: nat, totalSegments: nat)
    | ExtractOutput(extractResults: seq<PdfResult>, originalPageCount: nat, totalFiles: nat)
    | IndividualOutput(individualResults: seq<PdfResult>, originalPageCount: nat, totalFiles: nat)

  /** The documents of a list of results, in order. */
  function PagesOf(results: seq<PdfResult>): (r: seq<Document>)
    ensures |r| == |results| && forall k :: 0 <= k < |results| ==> r[k] == results[k].pages
  {
    seq(|results|, k requires 0 <= k < |results| => results[k].pages)
  }

  /** A fresh document receiving the pages `from .. to - 1` of `doc` one by
      one (`copyPages` and `addPage` in a counting loop). */
  method CopyPages(doc: Document, from: int, to: int) returns (pages: Document)
    requires 0 <= from <= to <= |doc|
    ensures pages == doc[from..to]
  {
    pages := [];
    var j := from;
    while j < to
      invariant from <= j <= to
      invariant pages == doc[from..j]
    {
      pages := pages + [doc[j]];
      j := j + 1;
    }
  }

  /* ---------------------------------------------------------------------
     splitPdf
     --------------------------------------------------------------------- */

  /** The split points refused by the validation filter, in their order. */
  function InvalidPointsOf(points: seq<int>, totalPages: int): (bad: seq<int>)
    ensures forall p :: p in bad <==> p in points && (p < 1 || p >= totalPages)
  {
    if |points| == 0 then []
    else
      (if points[0] < 1 || points[0] >= totalPages then [points[0]] else [])
      + InvalidPointsOf(points[1..], totalPages)
  }

  /** The split points with the page count added, without duplicates, in
      ascending order. */
  function Breakpoints(points: seq<int>, totalPages: int): (bps: seq<int>)
    ensures StrictlyAscending(bps)
    ensures forall x :: x in bps <==> x in points || x == totalPages
  {
    SortedSet(points + [totalPages])
  }

  /** Breakpoints that cut a document of `n` pages: ascending, non-negative,
      ending at the last page. */
  predicate Cuts(bps: seq<int>, n: nat) {
    StrictlyAscending(bps) && |bps| > 0 && bps[0] >= 0 && bps[|bps| - 1] == n
  }

  lemma AscendingLast(s: seq<int>, x: int)
    requires StrictlyAscending(s) && x in s
    ensures x <= s[|s| - 1]
  {
    var i :| 0 <= i < |s| && s[i] == x;
    assert i == |s| - 1 || s[i] < s[|s| - 1];
  }

  /** With every split point valid, the breakpoints cut the document. */
  lemma BreakpointsCut(points: seq<int>, n: nat)
    requires InvalidPointsOf(points, n) == []
    ensures Cuts(Breakpoints(points, n), n)
  {
    var bps := Breakpoints(points, n);
    assert n in bps;
    var last := bps[|bps| - 1];
    assert last in bps;
    assert last <= n by {
      if last != n {
        assert last in points;
      }
    }
    AscendingLast(bps, n);
    assert bps[0] in bps;
    assert bps[0] >= 0 by {
      if bps[0] != n {
        assert bps[0] in points;
      }
    }
  }

  /** 0-based index of the first page of segment `k`. */
  function SegmentStart(bps: seq<int>, k: nat): int
    requires k <= |bps|
  {
    if k == 0 then 0 else bps[k - 1]
  }

  lemma SegmentStartBounds(bps: seq<int>, n: nat, k: nat)
    requires Cuts(bps, n) && k < |bps|
    ensures 0 <= SegmentStart(bps, k) < bps[k] || (k == 0 && bps[0] == 0)
    ensures bps[k] <= n
  {
    if k > 0 {
      assert bps[k - 1] < bps[k];
    }
    assert k == |bps| - 1 || bps[k] < bps[|bps| - 1];
  }

  /** `part-{part}-pages-{start}-{end}.pdf`. */
  function SegmentFilename(part: int, start: int, end: int): string {
    "part-" + (IntToString(part) + PagesSuffix(start, end))
  }

  /** `-pages-{start}-{end}.pdf`: what follows the part number. */
  function PagesSuffix(start: int, end: int): (t: string)
    ensures |t| > 0 && t[0] == '-'
  {
    "-pages-" + IntToString(start) + "-" + IntToString(end) + ".pdf"
  }

  /** Segment `k` of the split: the pages after the previous breakpoint up
      to and including breakpoint `k`. */
  function SegmentAt(doc: Document, bps: seq<int>, k: nat): (r: PdfResult)
    requires Cuts(bps, |doc|) && k < |bps|
  {
    SegmentStartBounds(bps, |doc|, k);
    var start := SegmentStart(bps, k);
    var end := bps[k];
    RangeResult(doc[start..end], start + 1, end, end - start, SegmentFilename(k + 1, start + 1, end))
  }

  function Segments(doc: Document, bps: seq<int>): (r: seq<PdfResult>)
    requires Cuts(bps, |doc|)
    ensures |r| == |bps|
    ensures forall k :: 0 <= k < |bps| ==> r[k] == SegmentAt(doc, bps, k)
  {
    seq(|bps|, k requires 0 <= k < |bps| => SegmentAt(doc, bps, k))
  }

  /** What `splitPdf` computes once the document is open. */
  function SplitPlan(doc: Document, points: seq<int>): (r: Result<ServiceResult, SplitError>)
    ensures r.Failure? ==> r.error == InvalidSplitPoints(InvalidPointsOf(points, |doc|), |doc|)
    ensures r.Success? ==> r.value.SplitOutput? && r.value.originalPageCount == |doc|
  {
    var bad := InvalidPointsOf(points, |doc|);
    if bad != [] then Failure(InvalidSplitPoints(bad, |doc|))
    else
      var bps := Breakpoints(points, |doc|);
      BreakpointsCut(points, |doc|);
      Success(SplitOutput(Segments(doc, bps), |doc|, |bps|))
  }

  /** `splitPdf(pdfPath, splitAtPages)`. */
  method SplitPdf(disk: Disk, pdfPath: string, splitAtPages: seq<int>)
    returns (r: Result<ServiceResult, SplitError>)
    ensures Load(disk, pdfPath).Failure? ==> r == Failure(LoadFailed(Load(disk, pdfPath).error))
    ensures Load(disk, pdfPath).Success? ==> r == SplitPlan(Load(disk, pdfPath).value, splitAtPages)
  {
    var loaded := Load(disk, pdfPath);
    if loaded.Failure? {
      return Failure(LoadFailed(loaded.error));
    }
    var originalPdf := loaded.value;
    var totalPages := |originalPdf|;

    var invalidPages := InvalidPointsOf(splitAtPages, totalPages);
    if |invalidPages| > 0 {
      return Failure(InvalidSplitPoints(invalidPages, totalPages));
    }

    var splitPoints := Breakpoints(splitAtPages, totalPages);
    BreakpointsCut(splitAtPages, totalPages);

    var splitResults := SplitSegments(originalPdf, splitPoints);
    return Success(SplitOutput(splitResults, totalPages, |splitResults|));
  }

  /** The segment loop of `splitPdf`: a moving start index, one new document
      per breakpoint. */
  method SplitSegments(originalPdf: Document, splitPoints: seq<int>) returns (splitResults: seq<PdfResult>)
    requires Cuts(splitPoints, |originalPdf|)
    ensures splitResults == Segments(originalPdf, splitPoints)
  {
    var totalPages := |originalPdf|;
    splitResults := [];
    var startPage := 0;
    for i := 0 to |splitPoints|
      invariant startPage == SegmentStart(splitPoints, i)
      invariant splitResults == Segments(originalPdf, splitPoints)[..i]
    {
      var endPage := splitPoints[i];
      var endIndex := endPage - 1;
      SegmentStartBounds(splitPoints, totalPages, i);
      var newPdf := CopyPages(originalPdf, startPage, endIndex + 1);
      var segmentPages := endIndex - startPage + 1;
      var segment := RangeResult(newPdf, startPage + 1, endPage, segmentPages,
                                 SegmentFilename(i + 1, startPage + 1, endPage));
      assert segment == SegmentAt(originalPdf, splitPoints, i);
      assert Segments(originalPdf, splitPoints)[..i + 1] == splitResults + [segment];
      splitResults := splitResults + [segment];
      startPage := endPage;
    }
    assert splitResults == Segments(originalPdf, splitPoints)[..|splitPoints|];
  }

  /** The split fails exactly when some point lies outside 1..n-1, and then
      it names every such point. */
  lemma SplitFailsIff(doc: Document, points: seq<int>)
    ensures SplitPlan(doc, points).Failure? <==> exists p :: p in points && (p < 1 || p >= |doc|)
  {
    var bad := InvalidPointsOf(points, |doc|);
    if bad != [] {
      assert bad[0] in bad;
    }
  }

  /** One segment per distinct split point, plus the final one. */
  lemma SplitSegmentCount(doc: Document, points: seq<int>)
    requires SplitPlan(doc, points).Success?
    ensures |SplitPlan(doc, points).value.splitResults| == SplitPlan(doc, points).value.totalSegments
    ensures |SplitPlan(doc, points).value.splitResults| == |Elements(points)| + 1
  {
    var n := |doc|;
    assert InvalidPointsOf(points, n) == [];
    var bps := Breakpoints(points, n);
    BreakpointsCut(points, n);
    assert SplitPlan(doc, points).value == SplitOutput(Segments(doc, bps), n, |bps|);
    BreakpointsCount(points, n);
  }

  lemma BreakpointsCount(points: seq<int>, n: int)
    requires n !in points
    ensures |Breakpoints(points, n)| == |Elements(points)| + 1
  {
    var all := points + [n];
    assert Elements(all) == Elements(points) + {n};
    SortedSetLength(all);
  }

  /** Segments are contiguous: the first starts at page 1, each starts right
      after the previous one ends, and the last ends at the last page. */
  lemma SplitSegmentsChain(doc: Document, points: seq<int>)
    requires SplitPlan(doc, points).Success?
    ensures var segs := SplitPlan(doc, points).value.splitResults;
      && |segs| > 0
      && segs[0].startPage == 1
      && segs[|segs| - 1].endPage == |doc|
      && (forall k :: 0 <= k < |segs| - 1 ==> segs[k + 1].startPage == segs[k].endPage + 1)
  {
    var bps := Breakpoints(points, |doc|);
    BreakpointsCut(points, |doc|);
    var segs := Segments(doc, bps);
    assert segs == SplitPlan(doc, points).value.splitResults;
    assert segs[0].startPage == 1;
    assert segs[|segs| - 1].endPage == bps[|bps| - 1];
    forall k | 0 <= k < |segs| - 1 ensures segs[k + 1].startPage == segs[k].endPage + 1 {
      assert segs[k + 1] == SegmentAt(doc, bps, k + 1) && segs[k] == SegmentAt(doc, bps, k);
    }
  }

  /** Each segment holds exactly its pages, reports their number and is
      named after its position and its page range. */
  lemma SplitSegmentShape(doc: Document, points: seq<int>, k: nat)
    requires SplitPlan(doc, points).Success?
    requires k < |SplitPlan(doc, points).value.splitResults|
    ensures var seg := SplitPlan(doc, points).value.splitResults[k];
      && seg.RangeResult?
      && 1 <= seg.startPage <= seg.endPage + 1 && seg.endPage <= |doc|
      && seg.pageCount == seg.endPage - seg.startPage + 1 == |seg.pages|
      && seg.pages == doc[seg.startPage - 1..seg.endPage]
      && seg.filename == "part-" + (IntToString(k + 1) + ("-pages-" + IntToString(seg.startPage)
                                   + "-" + IntToString(seg.endPage) + ".pdf"))
  {
    var bps := Breakpoints(points, |doc|);
    BreakpointsCut(points, |doc|);
    SegmentStartBounds(bps, |doc|, k);
  }

  /** Every segment of a non-empty document holds at least one page. */
  lemma SplitSegmentsNonEmpty(doc: Document, points: seq<int>, k: nat)
    requires |doc| > 0 && SplitPlan(doc, points).Success?
    requires k < |SplitPlan(doc, points).value.splitResults|
    ensures SplitPlan(doc, points).value.splitResults[k].pageCount >= 1
  {
    var bps := Breakpoints(points, |doc|);
    BreakpointsCut(points, |doc|);
    SegmentStartBounds(bps, |doc|, k);
    if k == 0 {
      assert bps[0] in bps;
      assert bps[0] != 0 by {
        if bps[0] != |doc| { assert bps[0] in points; }
      }
    }
  }

  lemma PagesOfSnoc(rs: seq<PdfResult>, k: nat)
    requires 0 < k <= |rs|
    ensures PagesOf(rs[..k]) == PagesOf(rs[..k - 1]) + [rs[k - 1].pages]
  {
  }

  /** The first `k` segments together are the first pages of the document,
      up to the start of segment `k`. */
  lemma {:induction false} SegmentsPrefix(doc: Document, bps: seq<int>, k: nat)
    requires Cuts(bps, |doc|) && k <= |bps|
    ensures 0 <= SegmentStart(bps, k) <= |doc|
    ensures Flatten(PagesOf(Segments(doc, bps)[..k])) == doc[..SegmentStart(bps, k)]
  {
    var segs := Segments(doc, bps);
    if k > 0 {
      SegmentsPrefix(doc, bps, k - 1);
      SegmentPages(doc, bps, k - 1);
      PrefixStep(doc, segs, k, SegmentStart(bps, k - 1), bps[k - 1]);
    } else {
      assert PagesOf(segs[..0]) == [];
    }
  }

  lemma SegmentPages(doc: Document, bps: seq<int>, k: nat)
    requires Cuts(bps, |doc|) && k < |bps|
    ensures 0 <= SegmentStart(bps, k) <= bps[k] <= |doc|
    ensures Segments(doc, bps)[k].pages == doc[SegmentStart(bps, k)..bps[k]]
  {
    SegmentStartBounds(bps, |doc|, k);
  }

  /** One more result whose pages follow on from the prefix extends it. */
  lemma PrefixStep(doc: Document, rs: seq<PdfResult>, k: nat, start: int, end: int)
    requires 0 < k <= |rs| && 0 <= start <= end <= |doc|
    requires Flatten(PagesOf(rs[..k - 1])) == doc[..start]
    requires rs[k - 1].pages == doc[start..end]
    ensures Flatten(PagesOf(rs[..k])) == doc[..end]
  {
    PagesOfSnoc(rs, k);
    FlattenAppend(PagesOf(rs[..k - 1]), doc[start..end]);
    assert doc[..start] + doc[start..end] == doc[..end];
  }

  /** Together the segments are exactly the document, in order: no page is
      lost, repeated or moved. */
  lemma SplitCoversDocument(doc: Document, points: seq<int>)
    requires SplitPlan(doc, points).Success?
    ensures Flatten(PagesOf(SplitPlan(doc, points).value.splitResults)) == doc
  {
    var bps := Breakpoints(points, |doc|);
    BreakpointsCut(points, |doc|);
    var segs := Segments(doc, bps);
    SegmentsPrefix(doc, bps, |bps|);
    assert segs[..|bps|] == segs;
  }

  /** Index of the first breakpoint that is at least `page`. */
  function FirstAtLeast(bps: seq<int>, page: int): (k: nat)
    requires |bps| > 0 && page <= bps[|bps| - 1]
    ensures k < |bps| && page <= bps[k]
    ensures k > 0 ==> bps[k - 1] < page
  {
    if page <= bps[0] then 0 else 1 + FirstAtLeast(bps[1..], page)
  }

  /** A page inside segment `j` is in the segment FirstAtLeast finds. */
  lemma SegmentOfPage(bps: seq<int>, n: nat, page: int, j: nat)
    requires Cuts(bps, n) && page <= n && j < |bps|
    requires SegmentStart(bps, j) < page <= bps[j]
    ensures j == FirstAtLeast(bps, page)
  {
    var k := FirstAtLeast(bps, page);
    assert !(j < k);
    assert !(k < j);
  }

  /** Each page number of the document falls in one segment and no other. */
  lemma SplitPageInOneSegment(doc: Document, points: seq<int>, page: int)
    requires SplitPlan(doc, points).Success? && 1 <= page <= |doc|
    ensures var segs := SplitPlan(doc, points).value.splitResults;
      exists k :: 0 <= k < |segs| && (segs[k].startPage <= page <= segs[k].endPage) &&
        forall j :: 0 <= j < |segs| && segs[j].startPage <= page <= segs[j].endPage ==> j == k
  {
    var bps := Breakpoints(points, |doc|);
    BreakpointsCut(points, |doc|);
    var segs := Segments(doc, bps);
    assert SplitPlan(doc, points).value.splitResults == segs;
    var k := FirstAtLeast(bps, page);
    forall j | 0 <= j < |segs| && segs[j].startPage <= page <= segs[j].endPage
      ensures j == k
    {
      SegmentEnds(doc, bps, j);
      SegmentOfPage(bps, |doc|, page, j);
    }
    SegmentEnds(doc, bps, k);
  }

  lemma SegmentEnds(doc: Document, bps: seq<int>, k: nat)
    requires Cuts(bps, |doc|) && k < |bps|
    ensures Segments(doc, bps)[k].RangeResult?
    ensures Segments(doc, bps)[k].startPage == SegmentStart(bps, k) + 1
    ensures Segments(doc, bps)[k].endPage == bps[k]
  {
  }

  /** Segment file names never repeat: the part number is in the name. */
  lemma SplitFilenamesDistinct(doc: Document, points: seq<int>, i: nat, j: nat)
    requires SplitPlan(doc, points).Success?
    requires i < j < |SplitPlan(doc, points).value.splitResults|
    ensures var segs := SplitPlan(doc, points).value.splitResults;
      segs[i].filename != segs[j].filename
  {
    var bps := Breakpoints(points, |doc|);
    BreakpointsCut(points, |doc|);
    var a := SegmentAt(doc, bps, i);
    var b := SegmentAt(doc, bps, j);
    NumberedNamesDiffer("part-", i + 1, PagesSuffix(a.startPage, a.endPage),
                        j + 1, PagesSuffix(b.startPage, b.endPage));
  }

  /* ---------------------------------------------------------------------
     extractPages
     --------------------------------------------------------------------- */

  /** The validation of one range, stated positively. */
  predicate RangeFits(range: PageRange, totalPages: int) {
    !(range.start < 1 || range.end > totalPages || range.start > range.end)
  }

  function RangeFilename(start: int, end: int): string {
    "pages-" + IntToString(start) + "-" + IntToString(end) + ".pdf"
  }

  /** The output for one range, or the error that aborts the extraction. */
  function ExtractOne(doc: Document, range: PageRange): (r: Result<PdfResult, SplitError>)
    ensures r.Success? <==> RangeFits(range, |doc|)
    ensures r.Failure? ==> r.error == InvalidPageRange(range.start, range.end, |doc|)
  {
    if !RangeFits(range, |doc|) then Failure(InvalidPageRange(range.start, range.end, |doc|))
    else
      Success(RangeResult(doc[range.start - 1..range.end], range.start, range.end,
                          range.end - range.start + 1, RangeFilename(range.start, range.end)))
  }

  function ExtractEach(doc: Document, ranges: seq<PageRange>): (outs: seq<Result<PdfResult, SplitError>>)
    ensures |outs| == |ranges|
    ensures forall k :: 0 <= k < |ranges| ==> outs[k] == ExtractOne(doc, ranges[k])
  {
    seq(|ranges|, k requires 0 <= k < |ranges| => ExtractOne(doc, ranges[k]))
  }

  /** What `extractPages` computes once the document is open: one output
      per range, in the order given, or the first bad range. */
  function ExtractPlan(doc: Document, ranges: seq<PageRange>): (r: Result<ServiceResult, SplitError>)
    ensures r.Success? ==> r.value.ExtractOutput? && r.value.originalPageCount == |doc|
    ensures r.Success? ==> |r.value.extractResults| == r.value.totalFiles == |ranges|
  {
    match Collect(ExtractEach(doc, ranges))
    case Failure(e) => Failure(e)
    case Success(results) => Success(ExtractOutput(results, |doc|, |results|))
  }

  /** `extractPages(pdfPath, pageRanges)`. */
  method ExtractPages(disk: Disk, pdfPath: string, pageRanges: seq<PageRange>)
    returns (r: Result<ServiceResult, SplitError>)
    ensures Load(disk, pdfPath).Failure? ==> r == Failure(LoadFailed(Load(disk, pdfPath).error))
    ensures Load(disk, pdfPath).Success? ==> r == ExtractPlan(Load(disk, pdfPath).value, pageRanges)
  {
    var loaded := Load(disk, pdfPath);
    if loaded.Failure? {
      return Failure(LoadFailed(loaded.error));
    }
    var originalPdf := loaded.value;
    var totalPages := |originalPdf|;
    ghost var outs := ExtractEach(originalPdf, pageRanges);

    var extractResults: seq<PdfResult> := [];
    for rangeIndex := 0 to |pageRanges|
      invariant |extractResults| == rangeIndex
      invariant forall k :: 0 <= k < rangeIndex ==> outs[k] == Success(extractResults[k])
    {
      var start := pageRanges[rangeIndex].start;
      var end := pageRanges[rangeIndex].end;
      if start < 1 || end > totalPages || start > end {
        CollectStopsAt(outs, rangeIndex);
        return Failure(InvalidPageRange(start, end, totalPages));
      }
      var newPdf := CopyPages(originalPdf, start - 1, end);
      var pageCount := end - start + 1;
      extractResults := extractResults + [RangeResult(newPdf, start, end, pageCount, RangeFilename(start, end))];
    }
    CollectAllSucceed(outs, extractResults);
    return Success(ExtractOutput(extractResults, totalPages, |extractResults|));
  }

  /** The extraction succeeds exactly when every range fits the document. */
  lemma ExtractSucceedsIff(doc: Document, ranges: seq<PageRange>)
    ensures ExtractPlan(doc, ranges).Success? <==> forall k :: 0 <= k < |ranges| ==> RangeFits(ranges[k], |doc|)
  {
    var outs := ExtractEach(doc, ranges);
    assert forall k :: 0 <= k < |ranges| ==> (outs[k].Success? <==> RangeFits(ranges[k], |doc|));
  }

  /** Each range gives its own output with exactly its pages, in order:
      overlapping ranges each get the shared pages again. */
  lemma ExtractOutputMatchesRange(doc: Document, ranges: seq<PageRange>, k: nat)
    requires ExtractPlan(doc, ranges).Success? && k < |ranges|
    ensures var out := ExtractPlan(doc, ranges).value.extractResults[k];
      && out.RangeResult?
      && out.startPage == ranges[k].start && out.endPage == ranges[k].end
      && out.pageCount == ranges[k].end - ranges[k].start + 1 == |out.pages|
      && (forall m :: 0 <= m < |out.pages| ==> out.pages[m] == doc[ranges[k].start - 1 + m])
      && out.filename == "pages-" + IntToString(ranges[k].start) + "-" + IntToString(ranges[k].end) + ".pdf"
  {
    var outs := ExtractEach(doc, ranges);
    assert outs[k].Success?;
  }

  /** No de-duplication: the same range twice gives the same output twice,
      under the same file name. */
  lemma ExtractRepeatsRepeatedRanges(doc: Document, ranges: seq<PageRange>, i: nat, j: nat)
    requires ExtractPlan(doc, ranges).Success? && i < |ranges| && j < |ranges|
    requires ranges[i] == ranges[j]
    ensures var outs := ExtractPlan(doc, ranges).value.extractResults;
      outs[i] == outs[j] && outs[i].filename == outs[j].filename
  {
    var outs := ExtractEach(doc, ranges);
    assert outs[i] == outs[j];
  }

  /** A bad range aborts the whole extraction, naming the first bad range. */
  lemma ExtractFailsOnFirstBadRange(doc: Document, ranges: seq<PageRange>, k: nat)
    requires k < |ranges| && !RangeFits(ranges[k], |doc|)
    requires forall j :: 0 <= j < k ==> RangeFits(ranges[j], |doc|)
    ensures ExtractPlan(doc, ranges) == Failure(InvalidPageRange(ranges[k].start, ranges[k].end, |doc|))
  {
    var outs := ExtractEach(doc, ranges);
    FirstFailureAt(outs, k);
  }

  /* ---------------------------------------------------------------------
     splitToIndividualPages
     --------------------------------------------------------------------- */

  function PageFilename(n: int): string {
    "page-" + (IntToString(n) + ".pdf")
  }

  function PageAt(doc: Document, i: nat): PdfResult
    requires i < |doc|
  {
    PageResult([doc[i]], i + 1, PageFilename(i + 1))
  }

  function PagesEach(doc: Document): (r: seq<PdfResult>)
    ensures |r| == |doc|
    ensures forall i :: 0 <= i < |doc| ==> r[i] == PageAt(doc, i)
  {
    seq(|doc|, i requires 0 <= i < |doc| => PageAt(doc, i))
  }

  /** What `splitToIndividualPages` computes once the document is open. */
  function IndividualPlan(doc: Document): (r: ServiceResult)
    ensures r.IndividualOutput? && r.originalPageCount == |doc|
    ensures |r.individualResults| == r.totalFiles == |doc|
  {
    var results := PagesEach(doc);
    IndividualOutput(results, |doc|, |results|)
  }

  /** `splitToIndividualPages(pdfPath)`. */
  method SplitToIndividualPages(disk: Disk, pdfPath: string) returns (r: Result<ServiceResult, SplitError>)
    ensures Load(disk, pdfPath).Failure? ==> r == Failure(LoadFailed(Load(disk, pdfPath).error))
    ensures Load(disk, pdfPath).Success? ==> r == Success(IndividualPlan(Load(disk, pdfPath).value))
  {
    var loaded := Load(disk, pdfPath);
    if loaded.Failure? {
      return Failure(LoadFailed(loaded.error));
    }
    var originalPdf := loaded.value;
    var totalPages := |originalPdf|;

    var individualResults: seq<PdfResult> := [];
    for i := 0 to totalPages
      invariant |individualResults| == i
      invariant forall k :: 0 <= k < i ==> individualResults[k] == PageAt(originalPdf, k)
    {
      var newPdf: Document := [originalPdf[i]];
      individualResults := individualResults + [PageResult(newPdf, i + 1, PageFilename(i + 1))];
    }
    assert individualResults == PagesEach(originalPdf);
    return Success(IndividualOutput(individualResults, totalPages, |individualResults|));
  }

  /** Output `i` is page `i + 1` alone, under `page-{i+1}.pdf`. */
  lemma IndividualPageShape(doc: Document, i: nat)
    requires i < |doc|
    ensures var out := IndividualPlan(doc).individualResults[i];
      && out.PageResult? && out.pages == [doc[i]] && out.pageNumber == i + 1
      && out.filename == "page-" + (IntToString(i + 1) + ".pdf")
  {
  }

  /** No two single-page outputs share a name. */
  lemma IndividualFilenamesDistinct(doc: Document, i: nat, j: nat)
    requires i < j < |doc|
    ensures IndividualPlan(doc).individualResults[i].filename != IndividualPlan(doc).individualResults[j].filename
  {
    NumberedNamesDiffer("page-", i + 1, ".pdf", j + 1, ".pdf");
  }

  /* ---------------------------------------------------------------------
     createZipFromPdfs
     --------------------------------------------------------------------- */

  /** One archive entry: its name and the document stored under it. */
  datatype ZipEntry = ZipEntry(name: string, content: Document)

  /** The entries `createZipFromPdfs` appends: one per result, in the order
      of the results, each under its result's file name. */
  method CreateZipFromPdfs(pdfResults: seq<PdfResult>) returns (entries: seq<ZipEntry>)
    ensures |entries| == |pdfResults|
    ensures forall i :: 0 <= i < |pdfResults| ==>
      entries[i] == ZipEntry(pdfResults[i].filename, pdfResults[i].pages)
  {
    entries := [];
    for index := 0 to |pdfResults|
      invariant |entries| == index
      invariant forall i :: 0 <= i < index ==> entries[i] == ZipEntry(pdfResults[i].filename, pdfResults[i].pages)
    {
      entries := entries + [ZipEntry(pdfResults[index].filename, pdfResults[index].pages)];
    }
  }

  /* ---------------------------------------------------------------------
     parseSplitPoints
     --------------------------------------------------------------------- */

  datatype PointsError = NotANumber | PointOutOfRange(point: int, totalPages: int)

  /** `splitString.split(',').map(num => parseInt(num.trim()))`. */
  function NumberTokens(s: string): (nums: seq<Option<int>>)
    ensures |nums| == |Split(s, ',')|
    ensures forall i :: 0 <= i < |nums| ==> nums[i] == ParseInt(Trim(Split(s, ',')[i]))
  {
    var parts := Split(s, ',');
    seq(|parts|, i requires 0 <= i < |parts| => ParseInt(Trim(parts[i])))
  }

  /** The two checks made on each number. */
  function CheckPoint(num: Option<int>, totalPages: int): (r: Result<int, PointsError>)
    ensures r.Success? <==> num.Some? && 1 <= num.value < totalPages
    ensures r.Success? ==> r.value == num.value
  {
    match num
    case None => Failure(NotANumber)
    case Some(n) => if n < 1 || n >= totalPages then Failure(PointOutOfRange(n, totalPages)) else Success(n)
  }

  function CheckEach(nums: seq<Option<int>>, totalPages: int): (rs: seq<Result<int, PointsError>>)
    ensures |rs| == |nums|
    ensures forall i :: 0 <= i < |nums| ==> rs[i] == CheckPoint(nums[i], totalPages)
  {
    seq(|nums|, i requires 0 <= i < |nums| => CheckPoint(nums[i], totalPages))
  }

  /** The points of a list of parsed numbers: the first bad number's error,
      or the distinct numbers in ascending order. */
  function PointsOf(nums: seq<Option<int>>, totalPages: int): (r: Result<seq<int>, PointsError>)
    ensures r.Success? ==> StrictlyAscending(r.value)
    ensures r.Success? ==> forall p :: p in r.value ==> 1 <= p < totalPages
  {
    var checks := CheckEach(nums, totalPages);
    match Collect(checks)
    case Failure(e) => Failure(e)
    case Success(values) =>
      assert forall j :: 0 <= j < |values| ==> checks[j].Success? && values[j] == checks[j].value;
      Success(SortedSet(values))
  }

  /** What `parseSplitPoints` returns. */
  function SplitPointsOf(s: string, totalPages: int): (r: Result<seq<int>, PointsError>)
    ensures r.Success? ==> StrictlyAscending(r.value)
    ensures r.Success? ==> forall p :: p in r.value ==> 1 <= p < totalPages
  {
    PointsOf(NumberTokens(s), totalPages)
  }

  /** `parseSplitPoints(splitString, totalPages)`. */
  method ParseSplitPoints(splitString: string, totalPages: int) returns (r: Result<seq<int>, PointsError>)
    ensures r == SplitPointsOf(splitString, totalPages)
  {
    var numbers := NumberTokens(splitString);
    r := CheckPoints(numbers, totalPages);
  }

  /** The loop of `parseSplitPoints`: each number is checked in turn and
      added to a set, which is then sorted. */
  method CheckPoints(numbers: seq<Option<int>>, totalPages: int) returns (r: Result<seq<int>, PointsError>)
    ensures r == PointsOf(numbers, totalPages)
  {
    ghost var checks := CheckEach(numbers, totalPages);
    ghost var values: seq<int> := [];
    var points: seq<int> := [];
    for k := 0 to |numbers|
      invariant |values| == k
      invariant forall j :: 0 <= j < k ==> checks[j] == Success(values[j])
      invariant SameValues(points, values)
    {
      if numbers[k].None? {
        CollectStopsAt(checks, k);
        return Failure(NotANumber);
      }
      var num := numbers[k].value;
      if num < 1 || num >= totalPages {
        CollectStopsAt(checks, k);
        return Failure(PointOutOfRange(num, totalPages));
      }
      assert checks[k] == Success(num);
      if num !in points {
        points := points + [num];
      }
      values := values + [num];
    }
    CollectAllSucceed(checks, values);
    SortedSetOfSameValues(points, values);
    return Success(SortedSet(points));
  }

  /** The parsed points are exactly the numbers written, each in 1..n-1. */
  lemma PointsAreTheWrittenNumbers(nums: seq<Option<int>>, totalPages: int)
    requires PointsOf(nums, totalPages).Success?
    ensures forall i :: 0 <= i < |nums| ==> nums[i].Some? && 1 <= nums[i].value < totalPages
    ensures forall x :: x in PointsOf(nums, totalPages).value <==> exists i :: 0 <= i < |nums| && nums[i] == Some(x)
  {
    var checks := CheckEach(nums, totalPages);
    var values := Collect(checks).value;
    assert forall i :: 0 <= i < |nums| ==> checks[i].Success? && values[i] == nums[i].value;
    forall x ensures x in values <==> exists i :: 0 <= i < |nums| && nums[i] == Some(x) {
      if x in values {
        var i :| 0 <= i < |values| && values[i] == x;
        assert nums[i] == Some(x);
      }
    }
  }

  /** The text of one number is one token holding that number. */
  lemma NumberTokensOfOne(n: nat)
    ensures NumberTokens(IntToString(n)) == [Some(n)]
  {
    var s := IntToString(n);
    DecimalText(n);
    NotInDigits(s, ',');
    SplitWithoutSeparator(s, ',');
  }

  /** Two numbers separated by a comma are two tokens, in order. */
  lemma NumberTokensOfTwo(a: nat, b: nat)
    ensures NumberTokens(IntToString(a) + "," + IntToString(b)) == [Some(a), Some(b)]
  {
    var x := IntToString(a);
    var y := IntToString(b);
    DecimalText(a);
    DecimalText(b);
    NotInDigits(x, ',');
    NotInDigits(y, ',');
    SplitTwo(x, ',', y);
  }

  /** A point equal to the page count is out of range: splitting after the
      last page is refused. */
  lemma SplitPointAtLastPageRejected(n: nat)
    requires n >= 1
    ensures SplitPointsOf(IntToString(n), n) == Failure(PointOutOfRange(n, n))
  {
    NumberTokensOfOne(n);
    CollectStopsAt(CheckEach([Some(n)], n), 0);
  }

  /** Page 0 is never a split point. */
  lemma SplitPointZeroRejected(totalPages: int)
    ensures SplitPointsOf(IntToString(0), totalPages) == Failure(PointOutOfRange(0, totalPages))
  {
    NumberTokensOfOne(0);
    CollectStopsAt(CheckEach([Some(0)], totalPages), 0);
  }

  /** Two valid points come back once each, in ascending order, whatever
      order they were written in. */
  lemma SplitPointsOfTwo(a: nat, b: nat, totalPages: int)
    requires 1 <= a < totalPages && 1 <= b < totalPages
    ensures SplitPointsOf(IntToString(a) + "," + IntToString(b), totalPages)
         == Success(if a < b then [a, b] else if a == b then [a] else [b, a])
  {
    NumberTokensOfTwo(a, b);
    PointsOfTwo(a, b, totalPages);
  }

  lemma PointsOfTwo(a: int, b: int, totalPages: int)
    requires 1 <= a < totalPages && 1 <= b < totalPages
    ensures PointsOf([Some(a), Some(b)], totalPages)
         == Success(if a < b then [a, b] else if a == b then [a] else [b, a])
  {
    var checks := CheckEach([Some(a), Some(b)], totalPages);
    assert checks[0] == Success(a) && checks[1] == Success(b);
    CollectAllSucceed(checks, [a, b]);
    assert PointsOf([Some(a), Some(b)], totalPages) == Success(SortedSet([a, b]));
    var expected := if a < b then [a, b] else if a == b then [a] else [b, a];
    SortedSetOfSameValues([a, b], expected);
    SortedSetOfAscending(expected);
  }

  /** A token without digits fails the whole list, even after a valid
      point. */
  lemma SplitPointsNotANumber(a: nat, w: string, totalPages: int)
    requires 1 <= a < totalPages
    requires ',' !in w && forall i :: 0 <= i < |w| ==> !IsDigit(w[i])
    ensures SplitPointsOf(IntToString(a) + "," + w, totalPages) == Failure(NotANumber)
  {
    var x := IntToString(a);
    DecimalText(a);
    NotInDigits(x, ',');
    SplitFirst(x, ',', w);
    SplitWithoutSeparator(w, ',');
    TrimKeepsNoDigits(w);
    ParseIntNoDigits(Trim(w));
    assert NumberTokens(x + "," + w) == [Some(a), None];
    CollectStopsAt(CheckEach([Some(a), None], totalPages), 1);
  }

  /** The empty string is one empty token, which is not a number. */
  lemma SplitPointsOfEmptyString(totalPages: int)
    ensures SplitPointsOf("", totalPages) == Failure(NotANumber)
  {
    assert Split("", ',') == [""];
    assert Trim("") == "";
    ParseIntNoDigits("");
    assert NumberTokens("") == [None];
    CollectStopsAt(CheckEach([None], totalPages), 0);
  }

  /* ---------------------------------------------------------------------
     parsePageRanges
     --------------------------------------------------------------------- */

  datatype RangesError =
    | InvalidRange(token: string)
    | RangeNotInPdf(start: int, end: int, totalPages: int)
    | InvalidPageNumber(token: string)
    | PageNotInPdf(page: int, totalPages: int)

  /** The checks on a `start-end` token, given its two parsed numbers. */
  function CheckRange(token: string, start: Option<int>, end: Option<int>, totalPages: int)
    : (r: Result<PageRange, RangesError>)
    ensures r.Success? <==> start.Some? && end.Some? && 1 <= start.value <= end.value <= totalPages
    ensures r.Success? ==> r.value == PageRange(start.value, end.value)
  {
    if start.None? || end.None? then Failure(InvalidRange(token))
    else if start.value < 1 || end.value > totalPages || start.value > end.value then
      Failure(RangeNotInPdf(start.value, end.value, totalPages))
    else Success(PageRange(start.value, end.value))
  }

  /** The checks on a single-page token, given its parsed number. */
  function CheckPage(token: string, page: Option<int>, totalPages: int): (r: Result<PageRange, RangesError>)
    ensures r.Success? <==> page.Some? && 1 <= page.value <= totalPages
    ensures r.Success? ==> r.value == PageRange(page.value, page.value)
  {
    match page
    case None => Failure(InvalidPageNumber(token))
    case Some(p) =>
      if p < 1 || p > totalPages then Failure(PageNotInPdf(p, totalPages)) else Success(PageRange(p, p))
  }

  /** One comma-separated token: `start-end` (only the first two dash parts
      are read) or a single page. */
  function RangeToken(part: string, totalPages: int): (r: Result<PageRange, RangesError>)
    ensures r.Success? ==> 1 <= r.value.start <= r.value.end <= totalPages
  {
    var trimmed := Trim(part);
    if '-' in trimmed then
      var halves := SplitHolding(trimmed, '-');
      CheckRange(trimmed, ParseInt(Trim(halves[0])), ParseInt(Trim(halves[1])), totalPages)
    else
      CheckPage(trimmed, ParseInt(trimmed), totalPages)
  }

  function RangeTokens(s: string, totalPages: int): (rs: seq<Result<PageRange, RangesError>>)
    ensures |rs| == |Split(s, ',')|
    ensures forall i :: 0 <= i < |rs| ==> rs[i] == RangeToken(Split(s, ',')[i], totalPages)
  {
    var parts := Split(s, ',');
    seq(|parts|, i requires 0 <= i < |parts| => RangeToken(parts[i], totalPages))
  }

  /** What `parsePageRanges` returns: one pair per token, in input order, or
      the first bad token's error. */
  function PageRangesOf(s: string, totalPages: int): (r: Result<seq<PageRange>, RangesError>)
    ensures r.Success? ==> |r.value| == |Split(s, ',')|
    ensures r.Success? ==> forall k :: 0 <= k < |r.value| ==> 1 <= r.value[k].start <= r.value[k].end <= totalPages
  {
    var tokens := RangeTokens(s, totalPages);
    var r := Collect(tokens);
    assert r.Success? ==> forall k :: 0 <= k < |r.value| ==> tokens[k].Success? && r.value[k] == tokens[k].value;
    r
  }

  /** `parsePageRanges(rangeString, totalPages)`. */
  method ParsePageRanges(rangeString: string, totalPages: int) returns (r: Result<seq<PageRange>, RangesError>)
    ensures r == PageRangesOf(rangeString, totalPages)
  {
    var rangeParts := Split(rangeString, ',');
    ghost var tokens := RangeTokens(rangeString, totalPages);
    var ranges: seq<PageRange> := [];
    for k := 0 to |rangeParts|
      invariant |ranges| == k
      invariant forall j :: 0 <= j < k ==> tokens[j] == Success(ranges[j])
    {
      var range := ParseRangePart(rangeParts[k], totalPages);
      if range.Failure? {
        CollectStopsAt(tokens, k);
        return Failure(range.error);
      }
      SuccessesExtend(tokens, ranges, range.value);
      ranges := ranges + [range.value];
    }
    CollectAllSucceed(tokens, ranges);
    return Success(ranges);
  }

  /** The body of the loop of `parsePageRanges`, for one comma-separated
      part. */
  method ParseRangePart(part: string, totalPages: int) returns (r: Result<PageRange, RangesError>)
    ensures r == RangeToken(part, totalPages)
  {
    var trimmed := Trim(part);
    if '-' in trimmed {
      var halves := SplitHolding(trimmed, '-');
      var start := ParseInt(Trim(halves[0]));
      var end := ParseInt(Trim(halves[1]));
      if start.None? || end.None? {
        return Failure(InvalidRange(trimmed));
      }
      if start.value < 1 || end.value > totalPages || start.value > end.value {
        return Failure(RangeNotInPdf(start.value, end.value, totalPages));
      }
      return Success(PageRange(start.value, end.value));
    } else {
      var page := ParseInt(trimmed);
      if page.None? {
        return Failure(InvalidPageNumber(trimmed));
      }
      if page.value < 1 || page.value > totalPages {
        return Failure(PageNotInPdf(page.value, totalPages));
      }
      return Success(PageRange(page.value, page.value));
    }
  }

  /** Whatever parsePageRanges accepts, extractPages accepts too, with one
      output per token. */
  lemma ParsedRangesFitDocument(doc: Document, s: string)
    requires PageRangesOf(s, |doc|).Success?
    ensures ExtractPlan(doc, PageRangesOf(s, |doc|).value).Success?
    ensures |ExtractPlan(doc, PageRangesOf(s, |doc|).value).value.extractResults| == |Split(s, ',')|
  {
    ExtractSucceedsIff(doc, PageRangesOf(s, |doc|).value);
  }

  /** `a-b` with 1 <= a <= b <= n is the range from a to b. */
  lemma RangeTokenOfPair(a: nat, b: nat, totalPages: int)
    requires 1 <= a <= b <= totalPages
    ensures RangeToken(IntToString(a) + "-" + IntToString(b), totalPages) == Success(PageRange(a, b))
  {
    DashedPairText(a, b);
    DecimalText(a);
    DecimalText(b);
  }

  /** `a-b` with a > b is refused as a range outside the document, even when
      both pages exist. */
  lemma RangeTokenReversed(a: nat, b: nat, totalPages: int)
    requires b < a
    ensures RangeToken(IntToString(a) + "-" + IntToString(b), totalPages)
         == Failure(RangeNotInPdf(a, b, totalPages))
  {
    DashedPairText(a, b);
    DecimalText(a);
    DecimalText(b);
  }

  /** A single number p with 1 <= p <= n is the one-page range p-p. */
  lemma RangeTokenOfPage(p: nat, totalPages: int)
    requires 1 <= p <= totalPages
    ensures RangeToken(IntToString(p), totalPages) == Success(PageRange(p, p))
  {
    DecimalText(p);
    NotInDigits(IntToString(p), '-');
  }

  /** A single number outside 1..n is refused as a page outside the
      document. */
  lemma RangeTokenPageOutside(p: nat, totalPages: int)
    requires p < 1 || p > totalPages
    ensures RangeToken(IntToString(p), totalPages) == Failure(PageNotInPdf(p, totalPages))
  {
    DecimalText(p);
    NotInDigits(IntToString(p), '-');
  }

  /** A negative page such as `-3` is read as a range with an empty start,
      so it is an invalid range, not a page outside the document. */
  lemma RangeTokenNegative(p: nat, totalPages: int)
    ensures RangeToken("-" + IntToString(p), totalPages) == Failure(InvalidRange("-" + IntToString(p)))
  {
    var y := IntToString(p);
    var t := "-" + y;
    DecimalTextDigits(p);
    assert IsDigit(t[|t| - 1]);
    TrimUntouched(t);
    assert t[0] == '-';
    NotInDigits(y, '-');
    SplitFirst("", '-', y);
    assert "" + ['-'] + y == t;
    SplitWithoutSeparator(y, '-');
    assert Trim("") == "";
    ParseIntNoDigits("");
  }

  /** A range with no end, such as `3-`, has an empty second part, which is
      not a number: an invalid range. */
  lemma RangeTokenMissingEnd(p: nat, totalPages: int)
    ensures RangeToken(IntToString(p) + "-", totalPages) == Failure(InvalidRange(IntToString(p) + "-"))
  {
    var y := IntToString(p);
    var t := y + "-";
    DecimalTextDigits(p);
    assert IsDigit(t[0]) && t[|t| - 1] == '-';
    TrimUntouched(t);
    assert t[|y|] == '-';
    NotInDigits(y, '-');
    SplitFirst(y, '-', "");
    assert y + ['-'] + "" == t;
    assert Trim("") == "";
    ParseIntNoDigits("");
  }

  /** In `a-b-c` only the first two dash parts are read: the token means
      what `a-b` means. */
  lemma RangeTokenReadsTwoParts(a: nat, b: nat, c: nat, totalPages: int)
    ensures RangeToken(IntToString(a) + "-" + IntToString(b) + "-" + IntToString(c), totalPages)
         == RangeToken(IntToString(a) + "-" + IntToString(b), totalPages)
  {
    var pair := IntToString(a) + "-" + IntToString(b);
    var t := pair + "-" + IntToString(c);
    DecimalText(a);
    DecimalText(b);
    DashedPairText(a, b);
    RangeTokenByParts(pair, totalPages);
    ThreeDashParts(a, b, c);
    DashedTripleTrim(a, b, c);
    RangeTokenByParts(t, totalPages);
  }

  /** A trimmed token holding a dash is read through its first two dash
      parts. */
  lemma RangeTokenByParts(t: string, totalPages: int)
    requires Trim(t) == t && '-' in t
    ensures var parts := Split(t, '-');
      |parts| >= 2 &&
      RangeToken(t, totalPages) == CheckRange(t, ParseInt(Trim(parts[0])), ParseInt(Trim(parts[1])), totalPages)
  {
    assert SplitHolding(t, '-') == Split(t, '-');
  }

  lemma DashedTripleTrim(a: nat, b: nat, c: nat)
    ensures var t := IntToString(a) + "-" + IntToString(b) + "-" + IntToString(c);
      Trim(t) == t && '-' in t
  {
    var t := IntToString(a) + "-" + IntToString(b) + "-" + IntToString(c);
    DecimalTextDigits(a);
    DecimalTextDigits(c);
    assert IsDigit(t[0]) && IsDigit(t[|t| - 1]);
    TrimUntouched(t);
    assert t[|IntToString(a)|] == '-';
  }

  lemma ThreeDashParts(a: nat, b: nat, c: nat)
    ensures Split(IntToString(a) + "-" + IntToString(b) + "-" + IntToString(c), '-')
         == [IntToString(a), IntToString(b), IntToString(c)]
  {
    var x := IntToString(a);
    var y := IntToString(b);
    var z := IntToString(c);
    DecimalTextDigits(a);
    DecimalTextDigits(b);
    DecimalTextDigits(c);
    NotInDigits(x, '-');
    NotInDigits(y, '-');
    NotInDigits(z, '-');
    SplitFirst(x, '-', y + "-" + z);
    assert x + ['-'] + (y + "-" + z) == x + "-" + y + "-" + z;
    SplitTwo(y, '-', z);
  }

  /** Two tokens give two pairs, in input order. */
  lemma PageRangesInInputOrder(a: nat, b: nat, p: nat, totalPages: int)
    requires 1 <= a <= b <= totalPages && 1 <= p <= totalPages
    ensures PageRangesOf(IntToString(a) + "-" + IntToString(b) + "," + IntToString(p), totalPages)
         == Success([PageRange(a, b), PageRange(p, p)])
  {
    var pair := IntToString(a) + "-" + IntToString(b);
    PairAndPageSplit(a, b, p);
    RangeTokenOfPair(a, b, totalPages);
    RangeTokenOfPage(p, totalPages);
    TwoRangeTokens(pair + "," + IntToString(p), totalPages, PageRange(a, b), PageRange(p, p));
  }

  lemma TwoRangeTokens(s: string, totalPages: int, first: PageRange, second: PageRange)
    requires |Split(s, ',')| == 2
    requires RangeToken(Split(s, ',')[0], totalPages) == Success(first)
    requires RangeToken(Split(s, ',')[1], totalPages) == Success(second)
    ensures PageRangesOf(s, totalPages) == Success([first, second])
  {
    var tokens := RangeTokens(s, totalPages);
    assert tokens[0] == Success(first) && tokens[1] == Success(second);
    CollectAllSucceed(tokens, [first, second]);
  }

  lemma PairAndPageSplit(a: nat, b: nat, p: nat)
    ensures Split(IntToString(a) + "-" + IntToString(b) + "," + IntToString(p), ',')
         == [IntToString(a) + "-" + IntToString(b), IntToString(p)]
  {
    DecimalTextDigits(a);
    DecimalTextDigits(b);
    DecimalTextDigits(p);
    NotInDigits(IntToString(a), ',');
    NotInDigits(IntToString(b), ',');
    NotInDigits(IntToString(p), ',');
    SplitTwo(IntToString(a) + "-" + IntToString(b), ',', IntToString(p));
  }

  /** The empty string is one empty token, which is not a page number. */
  lemma PageRangesOfEmptyString(totalPages: int)
    ensures PageRangesOf("", totalPages) == Failure(InvalidPageNumber(""))
  {
    assert Split("", ',') == [""];
    assert Trim("") == "";
    ParseIntNoDigits("");
    CollectStopsAt(RangeTokens("", totalPages), 0);
  }
}
