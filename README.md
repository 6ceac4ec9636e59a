# pdfforge page pipeline, modelled in Dafny

This project models the page-handling core of the pdfforge backend. That core covers five pieces:

- **Split service.** It splits a document at points, extracts page ranges, and splits a document into single pages.
- **Remove-pages service.** It parses a page list and keeps the complement of that list.
- **Merge service.** It concatenates the uploaded files and validates each one.
- **Route handlers.** Three POST handlers (`/split-pdf`, `/remove-pages`, `/merge-pdf`) build on those services, and their download endpoints refuse unsafe file names.
- **Upload gates.** Two upload middlewares parse the size limit and filter files by MIME type or name.

## How the model is built

A PDF is a sequence of pages, `Document = seq<Page>`. The file system and the PDF library together are one map, `Disk`, from a path to a stored file. A stored file has a size and either a document or nothing:
- a path with no entry fails to load with `FileNotFound`;
- an entry without a document fails with `NotAPdf`.

Every `throw` of the JavaScript becomes the `Failure` case of a `Result`, and every HTTP answer becomes a `Reply`:
- `Ok` is a 200;
- `BadRequest` is a 400, with the reason as a datatype;
- `ServerError` is the 500 from the catch block.

Each service operation is a `method` whose loops follow the JavaScript. Each method is proved equal to a plan function, such as `SplitPlan`, `RemovePlan` or `MergePlan`, and the properties the code promises are lemmas about those functions. The route handlers are methods too. Each is proved equal to a response function that takes the guards in the order the code does.

Three JavaScript built-ins are modelled exactly, in `JsText` and `JsPath`:
- `String.prototype.split` with a one-character separator, and `trim`, using the ECMAScript white-space set;
- `parseInt` on decimal text: leading white space, an optional sign, then the longest run of digits, or NaN when there are no digits;
- `path.basename` and `path.extname`, POSIX flavour.

The split, remove-pages and merge routers are defined in `Backend/routes` but are not mounted in `Backend/server.js:102-105`. The model describes what their handlers decide, not that a client can reach them. Those handlers receive their files through `uploadSinglePdf` and `uploadMultiplePdfs` of `Backend/middleware/uploadPdf.js`.

## Model

| member | source | states |
|---|---|---|
| PdfDocument.Load | Backend/services/pdfSplitService.js:14-15 | loading succeeds exactly when the path holds a stored PDF, and yields its pages; a missing path fails as not found |
| PdfDocument.ValidatePdf | Backend/services/pdfRemovePagesService.js:63-84 | valid exactly when the file loads; a valid result carries the page count and file size; otherwise page count 0, size 0 and the load error |
| PdfSplitService.CopyPages | Backend/services/pdfSplitService.js:41-44 | the counting copy loop produces exactly the pages `from .. to-1`, in order |
| PdfSplitService.InvalidPointsOf | Backend/services/pdfSplitService.js:21 | the refused points are exactly the given points below 1 or at least the page count |
| PdfSplitService.Breakpoints | Backend/services/pdfSplitService.js:27 | strictly ascending (so sorted and duplicate-free), and holds exactly the split points together with the page count |
| PdfSplitService.SplitPlan | Backend/services/pdfSplitService.js:20-68 | fails exactly with the list of invalid points and the page count; a success is a split result that reports the original page count |
| PdfSplitService.SplitPdf | Backend/services/pdfSplitService.js:10-73 | a file that does not load fails with its load error; otherwise the result is the split plan of the loaded document |
| PdfSplitService.SplitSegments | Backend/services/pdfSplitService.js:30-60 | the segment loop with its moving `startPage` builds exactly the planned segments |
| PdfSplitService.SplitFailsIff | Backend/services/pdfSplitService.js:21-24 | the split fails if and only if some point is below 1 or at least the page count |
| PdfSplitService.SplitSegmentCount | Backend/services/pdfSplitService.js:27-33 | on success there is one more segment than there are distinct split points, and `totalSegments` is that count |
| PdfSplitService.SplitSegmentsChain | Backend/services/pdfSplitService.js:31-59 | the first segment starts at page 1, the last ends at the last page, and each segment starts right after the previous one ends |
| PdfSplitService.SplitSegmentShape | Backend/services/pdfSplitService.js:34-55 | segment k holds exactly pages start..end of the document, `pageCount = end - start + 1`, and its name is `part-{k+1}-pages-{start}-{end}.pdf` |
| PdfSplitService.SplitSegmentsNonEmpty | Backend/services/pdfSplitService.js:47 | for a non-empty document every segment has at least one page |
| PdfSplitService.SplitCoversDocument | Backend/services/pdfSplitService.js:31-59 | the segments' pages, concatenated in order, are exactly the original document |
| PdfSplitService.SplitPageInOneSegment | Backend/services/pdfSplitService.js:33-59 | every page 1..n lies in exactly one segment |
| PdfSplitService.SplitFilenamesDistinct | Backend/services/pdfSplitService.js:54 | two different segments never share a file name |
| PdfSplitService.ExtractOne | Backend/services/pdfSplitService.js:89-115 | a range succeeds exactly when `1 <= start <= end <= n`; otherwise it fails with that range and the page count |
| PdfSplitService.ExtractPlan | Backend/services/pdfSplitService.js:86-126 | a success is an extract result with one output per range and the original page count |
| PdfSplitService.ExtractPages | Backend/services/pdfSplitService.js:76-131 | a file that does not load fails with its load error; otherwise the result is the extract plan |
| PdfSplitService.ExtractSucceedsIff | Backend/services/pdfSplitService.js:88-95 | extraction succeeds if and only if every range fits the document |
| PdfSplitService.ExtractOutputMatchesRange | Backend/services/pdfSplitService.js:101-115 | output k has range k's bounds, `pageCount = end - start + 1`, exactly pages start..end in order, and the name `pages-{start}-{end}.pdf` |
| PdfSplitService.ExtractRepeatsRepeatedRanges | Backend/services/pdfSplitService.js:109-115 | a repeated range gives a repeated output with the same file name, because nothing is deduplicated |
| PdfSplitService.ExtractFailsOnFirstBadRange | Backend/services/pdfSplitService.js:88-95 | the whole extraction fails with the error of the first range that does not fit |
| PdfSplitService.IndividualPlan | Backend/services/pdfSplitService.js:142-167 | one output per page, and `totalFiles` and the original page count are the page count |
| PdfSplitService.SplitToIndividualPages | Backend/services/pdfSplitService.js:134-173 | a file that does not load fails with its load error; otherwise the result is the individual plan |
| PdfSplitService.IndividualPageShape | Backend/services/pdfSplitService.js:144-155 | output i holds only page i+1, reports page number i+1, and is named `page-{i+1}.pdf` |
| PdfSplitService.IndividualFilenamesDistinct | Backend/services/pdfSplitService.js:154 | two different single-page outputs never share a file name |
| PdfSplitService.CreateZipFromPdfs | Backend/services/pdfSplitService.js:196-199 | one archive entry per result, in input order, under that result's file name and with its pages |
| PdfSplitService.NumberTokens | Backend/services/pdfSplitService.js:233 | one parsed value per comma-separated token: `parseInt` of the trimmed token |
| PdfSplitService.CheckPoint | Backend/services/pdfSplitService.js:236-242 | a point passes exactly when it is a number with `1 <= p < n`, and then it is kept as it is |
| PdfSplitService.SplitPointsOf | Backend/services/pdfSplitService.js:230-251 | an accepted result is strictly ascending, so sorted and duplicate-free, and lies within 1..n-1 |
| PdfSplitService.ParseSplitPoints | Backend/services/pdfSplitService.js:230-251 | the method returns exactly `SplitPointsOf` |
| PdfSplitService.CheckPoints | Backend/services/pdfSplitService.js:235-247 | the loop that fills the Set and sorts it returns exactly the specified points |
| PdfSplitService.PointsAreTheWrittenNumbers | Backend/services/pdfSplitService.js:235-247 | on success every token was a number in 1..n-1, and the result holds exactly the written numbers |
| PdfSplitService.SplitPointAtLastPageRejected | Backend/services/pdfSplitService.js:240-242 | the point n is refused as out of range |
| PdfSplitService.SplitPointZeroRejected | Backend/services/pdfSplitService.js:240-242 | the point 0 is refused as out of range |
| PdfSplitService.SplitPointsOfTwo | Backend/services/pdfSplitService.js:232-247 | `a,b` gives `[a,b]` sorted, and one point when a = b |
| PdfSplitService.SplitPointsNotANumber | Backend/services/pdfSplitService.js:236-238 | a token without digits refuses the whole list as not a number |
| PdfSplitService.SplitPointsOfEmptyString | Backend/services/pdfSplitService.js:233-238 | the empty string is refused as not a number |
| PdfSplitService.CheckRange | Backend/services/pdfSplitService.js:264-275 | a `start-end` token passes exactly when both halves are numbers with `1 <= start <= end <= n`, and gives that pair |
| PdfSplitService.CheckPage | Backend/services/pdfSplitService.js:277-287 | a single token passes exactly when it is a number in 1..n, and gives `[p,p]` |
| PdfSplitService.RangeToken | Backend/services/pdfSplitService.js:259-288 | an accepted token is a pair with `1 <= start <= end <= n` |
| PdfSplitService.PageRangesOf | Backend/services/pdfSplitService.js:254-295 | on success there is one pair per token, each with `1 <= start <= end <= n` |
| PdfSplitService.ParsePageRanges | Backend/services/pdfSplitService.js:254-295 | the method returns exactly `PageRangesOf` |
| PdfSplitService.ParseRangePart | Backend/services/pdfSplitService.js:260-288 | the loop body reads one token exactly as `RangeToken` |
| PdfSplitService.ParsedRangesFitDocument | Backend/services/pdfSplitService.js:271-275 | whatever the range parser accepts, extraction accepts too, with one output per token |
| PdfSplitService.RangeTokenOfPair | Backend/services/pdfSplitService.js:262-275 | `a-b` with `1 <= a <= b <= n` is the pair (a, b) |
| PdfSplitService.RangeTokenReversed | Backend/services/pdfSplitService.js:271-273 | `a-b` with a > b is refused as a range outside the document |
| PdfSplitService.RangeTokenOfPage | Backend/services/pdfSplitService.js:276-287 | a single page p in 1..n is the pair (p, p) |
| PdfSplitService.RangeTokenPageOutside | Backend/services/pdfSplitService.js:283-285 | a single page outside 1..n is refused as outside the document |
| PdfSplitService.RangeTokenNegative | Backend/services/pdfSplitService.js:262-269 | `-p` is refused as an invalid range, because its start is empty |
| PdfSplitService.RangeTokenMissingEnd | Backend/services/pdfSplitService.js:263-269 | `p-` is refused as an invalid range, because its end is empty |
| PdfSplitService.RangeTokenReadsTwoParts | Backend/services/pdfSplitService.js:263-265 | `a-b-c` means exactly what `a-b` means |
| PdfSplitService.PageRangesInInputOrder | Backend/services/pdfSplitService.js:257-291 | `a-b,p` gives `[(a,b), (p,p)]`: input order, no sorting |
| PdfSplitService.PageRangesOfEmptyString | Backend/services/pdfSplitService.js:277-281 | the empty string is refused as the invalid page number `""` |
| PdfRemovePagesService.Interval | Backend/services/pdfRemovePagesService.js:111-113 | holds exactly the numbers low..high |
| PdfRemovePagesService.CheckRange | Backend/services/pdfRemovePagesService.js:99-109 | passes exactly when both halves are numbers with `1 <= start <= end <= n`; start > end is refused as such before the bounds are looked at |
| PdfRemovePagesService.CheckPage | Backend/services/pdfRemovePagesService.js:116-126 | passes exactly when the token is a number in 1..n |
| PdfRemovePagesService.TokenBounds | Backend/services/pdfRemovePagesService.js:93-127 | an accepted token names pages within 1..n |
| PdfRemovePagesService.Covered | Backend/services/pdfRemovePagesService.js:111-113 | holds exactly the pages some accepted token names |
| PdfRemovePagesService.RemovalPagesOf | Backend/services/pdfRemovePagesService.js:87-134 | an accepted result is strictly ascending, so sorted and duplicate-free |
| PdfRemovePagesService.ParsePageRanges | Backend/services/pdfRemovePagesService.js:87-134 | the loop that fills the Set and sorts it returns exactly `RemovalPagesOf` |
| PdfRemovePagesService.ReadToken | Backend/services/pdfRemovePagesService.js:93-127 | the loop body reads one token exactly as `TokenBounds` |
| PdfRemovePagesService.AddPages | Backend/services/pdfRemovePagesService.js:111-113 | adding low..high to the Set gives exactly the old members plus that interval, still without duplicates |
| PdfRemovePagesService.RemovalTokensSucceed | Backend/services/pdfRemovePagesService.js:92-128 | an accepted list means every token passed its checks |
| PdfRemovePagesService.RemovalMembership | Backend/services/pdfRemovePagesService.js:89-130 | on success a page is in the result exactly when some token names it |
| PdfRemovePagesService.RemovalInDocument | Backend/services/pdfRemovePagesService.js:107-124 | on success every returned page lies in 1..n |
| PdfRemovePagesService.RemovalFailsIff | Backend/services/pdfRemovePagesService.js:92-128 | parsing fails if and only if some token is refused |
| PdfRemovePagesService.SingleRangeNamesItsPages | Backend/services/pdfRemovePagesService.js:95-113 | `a-b` gives exactly a, a+1, …, b |
| PdfRemovePagesService.OverlappingTokensCollapse | Backend/services/pdfRemovePagesService.js:89-130 | `p,a-b` with p inside a..b gives just a..b, with no duplicate |
| PdfRemovePagesService.BackwardsRangeRejectedFirst | Backend/services/pdfRemovePagesService.js:103-105 | `a-b` with a > b is refused as start-after-end, whatever the page count |
| PdfRemovePagesService.RangeOutsideRejected | Backend/services/pdfRemovePagesService.js:107-109 | an ordered range that leaves 1..n is refused as outside the document |
| PdfRemovePagesService.PageOutsideRejected | Backend/services/pdfRemovePagesService.js:122-124 | a single page outside 1..n is refused as outside the document |
| PdfRemovePagesService.NegativePageIsInvalidRange | Backend/services/pdfRemovePagesService.js:95-101 | `-p` is refused as an invalid range, because its start is not a number |
| PdfRemovePagesService.WordIsInvalidPageNumber | Backend/services/pdfRemovePagesService.js:116-120 | a dash-free token without digits is refused as an invalid page number |
| PdfRemovePagesService.InvalidPagesOf | Backend/services/pdfRemovePagesService.js:20 | the refused pages are exactly the listed pages outside 1..n |
| PdfRemovePagesService.KeptNumbers | Backend/services/pdfRemovePagesService.js:33-42 | holds exactly the page numbers 1..i that are not listed |
| PdfRemovePagesService.KeptPages | Backend/services/pdfRemovePagesService.js:33-42 | keeps one page per kept number |
| PdfRemovePagesService.RemovePlan | Backend/services/pdfRemovePagesService.js:16-55 | a success reports the original page count, the list as given, its length as the removed count, and the output's length as the remaining count |
| PdfRemovePagesService.RemovePages | Backend/services/pdfRemovePagesService.js:9-60 | a file that does not load fails with its load error; otherwise the result is the remove plan |
| PdfRemovePagesService.KeepPages | Backend/services/pdfRemovePagesService.js:30-43 | the copy loop builds exactly the kept pages |
| PdfRemovePagesService.KeptPagesAreKeptNumbers | Backend/services/pdfRemovePagesService.js:33-42 | the k-th kept page is the original page with the k-th kept number |
| PdfRemovePagesService.KeptNumbersAscending | Backend/services/pdfRemovePagesService.js:33-42 | the kept numbers are strictly ascending |
| PdfRemovePagesService.RemoveFailsOnBadPageIff | Backend/services/pdfRemovePagesService.js:20-23 | the bounds guard fires if and only if some listed page is outside 1..n, and it reports exactly those pages |
| PdfRemovePagesService.RemoveKeepsComplement | Backend/services/pdfRemovePagesService.js:33-42 | the output is exactly the pages 1..n not listed, in their original ascending order |
| PdfRemovePagesService.PlanKeepsPages | Backend/services/pdfRemovePagesService.js:30-43 | a successful removal's document is the kept pages |
| PdfRemovePagesService.RemoveLeavesAPage | Backend/services/pdfRemovePagesService.js:25-27 | a successful removal always leaves at least one page |
| PdfRemovePagesService.RepeatedPageCountsTwice | Backend/services/pdfRemovePagesService.js:25-27 | the list `[1,1]` on a two-page document is refused as removing every page, though page 2 would remain |
| PdfRemovePagesService.RemoveCountForDistinctList | Backend/services/pdfRemovePagesService.js:45-55 | for a duplicate-free list within 1..n, remaining = n - listed, and the all-pages guard fires exactly when nothing would be kept |
| PdfMergeService.LoadInput | Backend/services/pdfMergeService.js:19-35 | succeeds exactly when the file loads; a failure names the file's base name and carries its load error |
| PdfMergeService.MergePlan | Backend/services/pdfMergeService.js:13-47 | a success reports the number of paths as `fileCount` and the merged page count as `totalPages` |
| PdfMergeService.MergePdfs | Backend/services/pdfMergeService.js:9-52 | the for-of loop returns exactly the merge plan |
| PdfMergeService.AddPages | Backend/services/pdfMergeService.js:23-28 | appending a file's pages one by one gives the old pages followed by them |
| PdfMergeService.MergeConcatenates | Backend/services/pdfMergeService.js:15-47 | the merge succeeds if and only if every file loads; its pages are then the concatenation of the files in path order, and its counts are the total length and the number of paths |
| PdfMergeService.MergePageAt | Backend/services/pdfMergeService.js:15-28 | page j of file i sits right after all pages of the files before it |
| PdfMergeService.MergeAbortsOnFirstBadFile | Backend/services/pdfMergeService.js:32-35 | the first file that does not load aborts the merge with an error naming it |
| PdfMergeService.ValidateFile | Backend/services/pdfMergeService.js:59-81 | the result is named by the base name; valid exactly when the file loads, with its page count and size; otherwise 0, 0 and the load error |
| PdfMergeService.ValidationsOf | Backend/services/pdfMergeService.js:55-85 | one result per path, in the same order |
| PdfMergeService.ValidatePdfs | Backend/services/pdfMergeService.js:55-85 | the loop returns exactly one validation per path, in order |
| PdfMergeService.ValidInputsMerge | Backend/services/pdfMergeService.js:39-45 | once every file validates, the merge succeeds and its `totalPages` is the sum of the validated page counts |
| JsPath.Basename | Backend/services/pdfMergeService.js:66 | the base name holds no slash |
| JsPath.ExtName | Backend/middleware/uploadPdf.js:42 | `path.extname` is empty or starts with its dot |
| JsPath.ExtNameShape | Backend/middleware/uploadPdf.js:42 | the extension is empty, or a dot followed by dot-free, slash-free text that ends the basename and is shorter than it |
| JsText.Split | Backend/services/pdfSplitService.js:233 | `split` never gives an empty list; the empty text gives one empty part |
| JsText.SplitParts | Backend/services/pdfSplitService.js:233 | no part holds the separator, and joining the parts with the separator gives the text back |
| JsText.SplitCount | Backend/services/pdfSplitService.js:233 | there is one more part than the text has separators |
| JsText.Trim | Backend/services/pdfSplitService.js:233 | neither end of the trimmed text is ECMAScript white space or a line terminator |
| JsText.TrimUntouched | Backend/routes/splitPdf.js:74 | text with no white space at either end is left as it is |
| JsText.ParseIntOfDecimal | Backend/services/pdfSplitService.js:233 | `parseInt` reads back the decimal text of any integer, whatever non-digit text follows it, so `3x` reads as 3 |
| JsText.ParseIntNoDigits | Backend/services/pdfSplitService.js:233 | `parseInt` of a text without any decimal digit is NaN |
| JsPath.ExtNameOfStemAndExtension | Backend/middleware/uploadPdf.js:42 | the extension of `stem + ext` is `ext` when ext is one dot followed by dot-free text |
| RouteCommon.SafeDownloadName | Backend/routes/splitPdf.js:222 | a name is safe exactly when it holds no `..`, no `/` and no `\` |
| RouteCommon.Download | Backend/routes/splitPdf.js:217-245 | an unsafe name is refused as invalid; for a safe name, the stored file of that name is sent exactly when it exists, and a missing one is a 404 |
| RouteCommon.Given | Backend/routes/splitPdf.js:42-47 | `!field` is true for a missing field and for the empty text, and false for any other text |
| RouteCommon.SafeNameStaysInDirectory | Backend/routes/splitPdf.js:222-229 | a safe name is its own base name and is not `..`, so joining it to the temp directory stays inside that directory |
| RouteCommon.TraversalRefused | Backend/routes/splitPdf.js:222-227 | any name containing `..` is refused as invalid |
| SplitPdfRoute.Numbers | Backend/routes/splitPdf.js:86 | the `isNaN` filter keeps exactly the parsed numbers, and never more entries than tokens |
| SplitPdfRoute.LenientSplitPoints | Backend/routes/splitPdf.js:85-86 | the lenient reading holds exactly the numbers of the tokens |
| SplitPdfRoute.ParsedSplitPoints | Backend/routes/splitPdf.js:85-89 | a text gives exactly the numbers its tokens parse to, an array is taken as it is, and a missing field or a value of any other type gives no points |
| SplitPdfRoute.PointsGiven | Backend/routes/splitPdf.js:77-82 | `!splitPoints` is true for a missing field and the empty text, and false for other text, for every array (the empty array included) and for a value of any other type |
| SplitPdfRoute.NumbersOfAllNumbers | Backend/routes/splitPdf.js:86 | when every token is a number, all are kept in order |
| SplitPdfRoute.LenientAgreesWhereStrictAccepts | Backend/routes/splitPdf.js:85-86 | where the service parser accepts a text, the lenient reading, sorted and deduplicated, gives the same points |
| SplitPdfRoute.LenientDropsWords | Backend/routes/splitPdf.js:85-86 | `a,w` with a word w gives `[a]` here, while the service parser refuses it |
| SplitPdfRoute.NoNumberMeansNoPoints | Backend/routes/splitPdf.js:85-86 | a text without digits gives no points |
| SplitPdfRoute.SelectResults | Backend/routes/splitPdf.js:144-147 | the archive list is the split, extract or individual list, matching the result |
| SplitPdfRoute.OperationType | Backend/routes/splitPdf.js:101-127 | `operationType` is `split`, `extract` or `individual` exactly for the split, extract and individual results |
| SplitPdfRoute.Summary | Backend/routes/splitPdf.js:187-194 | a summary keeps the result's file name |
| SplitPdfRoute.PageRangeLabel | Backend/routes/splitPdf.js:190-193 | a single-page result shows `Page ` and text that parses back to its page number; a range with a zero (falsy) end shows `Page undefined` |
| SplitPdfRoute.Summaries | Backend/routes/splitPdf.js:187-194 | one summary per result, in order |
| SplitPdfRoute.ArchiveOf | Backend/routes/splitPdf.js:151 | one archive entry per result, in order, under its file name |
| SplitPdfRoute.RangeLabelReadsBack | Backend/routes/splitPdf.js:190-192 | a `start-end` label splits and parses back to its two page numbers |
| SplitPdfRoute.RunOperation | Backend/routes/splitPdf.js:74-137 | a success comes from the service that the split type names |
| SplitPdfRoute.ReplyOf | Backend/routes/splitPdf.js:174-196 | `totalFiles`, the summaries and the archive entries all count the selected results |
| SplitPdfRoute.SplitResponse | Backend/routes/splitPdf.js:32-47 | no file is refused first, then a missing split type |
| SplitPdfRoute.HandleSplit | Backend/routes/splitPdf.js:23-212 | the handler with its early returns answers exactly `SplitResponse` |
| SplitPdfRoute.InvalidPdfRefusedFirst | Backend/routes/splitPdf.js:56-63 | a file that does not open is refused with its error before any split is tried |
| SplitPdfRoute.UnknownSplitTypeRefused | Backend/routes/splitPdf.js:74-136 | the answer is "invalid split type" exactly when the trimmed type is none of the three names |
| SplitPdfRoute.SplitPointsGuards | Backend/routes/splitPdf.js:77-96 | missing split points are refused, and so is a field from which no point is read |
| SplitPdfRoute.WordsOnlyPointsRefused | Backend/routes/splitPdf.js:85-96 | a split-point text without digits is refused as badly formatted |
| SplitPdfRoute.OtherPointsRefused | Backend/routes/splitPdf.js:77-96 | a `splitPoints` that is neither text nor an array passes the presence guard, is read as `[]`, and is refused with the format error |
| SplitPdfRoute.MissingRangesRefused | Backend/routes/splitPdf.js:108-113 | extracting without page ranges is refused |
| SplitPdfRoute.ArchiveHoldsTheOperationsResults | Backend/routes/splitPdf.js:144-151 | a success comes from one of the three operations, reports its name, and archives exactly its results |
| SplitPdfRoute.SplitServiceErrorIsServerError | Backend/routes/splitPdf.js:198-211 | a split the service refuses is a 500 carrying that error, never a success |
| SplitPdfRoute.RangesErrorIsServerError | Backend/routes/splitPdf.js:115-118 | page ranges the parser refuses give a 500 carrying that error, never a success |
| SplitPdfRoute.IndividualSummaries | Backend/routes/splitPdf.js:187-194 | a single-page result is summarised as `page-{k}.pdf`, without a page count, as `Page {k}` |
| SplitPdfRoute.SplitSummaries | Backend/routes/splitPdf.js:187-194 | a split segment is summarised with its name, its page count and `start-end` |
| RemovePagesRoute.RemoveResponse | Backend/routes/removePages.js:23-37 | no file is refused first, then missing pages |
| RemovePagesRoute.HandleRemove | Backend/routes/removePages.js:17-144 | the handler with its early returns answers exactly `RemoveResponse` |
| RemovePagesRoute.InvalidPdfRefusedBeforeParsing | Backend/routes/removePages.js:48-56 | a file that does not open is refused with its error before the page list is parsed |
| RemovePagesRoute.ParseErrorCarriesPageCount | Backend/routes/removePages.js:61-72 | a page list the parser refuses is a 400 carrying the parse error and the page count |
| RemovePagesRoute.ParsedPagesNeverEmpty | Backend/routes/removePages.js:74-79 | an accepted page list is never empty |
| RemovePagesRoute.NoValidPagesIsUnreachable | Backend/routes/removePages.js:74-79 | the "no valid pages" answer is never given |
| RemovePagesRoute.SuccessCountsAndContent | Backend/routes/removePages.js:111-127 | a success reports the parsed pages, their number as removed, n minus it (at least 1) as remaining, and a document of exactly the other pages in order |
| RemovePagesRoute.SummaryOf | Backend/routes/removePages.js:116-126 | `fileInfo` reports the client's file name and the validated size and page count; `removalResult` reports the service's removed list and its two counts; where the JSON reports the output's byte length, the model carries the saved document |
| RemovePagesRoute.EveryPageIsAServerError | Backend/routes/removePages.js:129-143 | asking for `1-n` passes every guard of the handler and ends as a 500 "cannot remove all pages" |
| MergePdfRoute.PathsOf | Backend/routes/mergePdf.js:26-27 | one path per uploaded file, in order |
| MergePdfRoute.InvalidEntries | Backend/routes/mergePdf.js:32-39 | the invalid list holds exactly the name and error of each invalid result |
| MergePdfRoute.FileInfos | Backend/routes/mergePdf.js:42-46 | one `fileInfo` entry per validation result, in order, with its name, page count and size |
| MergePdfRoute.MergeResponse | Backend/routes/mergePdf.js:18-24 | no files and a single file are both refused |
| MergePdfRoute.HandleMerge | Backend/routes/mergePdf.js:12-90 | the handler answers exactly `MergeResponse`, and on success the page total it adds up is the sum over `fileInfo` |
| MergePdfRoute.NoInvalidEntriesIff | Backend/routes/mergePdf.js:32-34 | the invalid list is empty if and only if every file validated |
| MergePdfRoute.RefusedIffSomeFileFails | Backend/routes/mergePdf.js:31-40 | with two files or more, the request is refused if and only if some file does not open |
| MergePdfRoute.InvalidFilesListed | Backend/routes/mergePdf.js:31-40 | a refusal lists every file that does not open, with its base name and error, and no other |
| MergePdfRoute.SuccessInfoAndTotals | Backend/routes/mergePdf.js:42-83 | a success has one `fileInfo` entry per file, in upload order, with its name and page count; `totalFiles` is the file count; the summed page total equals the merged page count |
| MergePdfRoute.ValidatedMergeSucceeds | Backend/routes/mergePdf.js:31-51 | two or more files that all open always merge successfully |
| MergePdfRoute.TotalPagesIsSum | Backend/routes/mergePdf.js:48 | the `reduce` over `fileInfo` is the sum of the validated page counts |
| MergePdfRoute.TotalPagesOf | Backend/routes/mergePdf.js:48 | the total is at least the page count of every file |
| UploadMiddleware.ParseSize | Backend/middleware/upload.js:12-19 | the result is the 50 MiB default, or the text matches the pattern at the end of its digits |
| UploadMiddleware.UnitMultiplier | Backend/middleware/upload.js:13-18 | the multiplier is 1 except for `KB`, `MB` and `GB` in any case |
| UploadMiddleware.PrefixedUnit | Backend/middleware/upload.js:13-18 | after upper-casing, `KB`, `MB` and `GB` scale by 1024, 1024² and 1024³, and `BB` and `TB` find no entry and count as 1 |
| UploadMiddleware.ByteUnit | Backend/middleware/upload.js:13-18 | `B` in either case counts as 1 |
| UploadMiddleware.MatchedSize | Backend/middleware/upload.js:14-18 | where the pattern matches, the result is the digits' value times the unit's multiplier |
| UploadMiddleware.UnmatchedSize | Backend/middleware/upload.js:15 | a text the pattern does not match gives 50 MiB |
| UploadMiddleware.SizeInBytes | Backend/middleware/upload.js:13-18 | `nB` (either case) is n bytes |
| UploadMiddleware.SizeWithPrefix | Backend/middleware/upload.js:13-18 | `nKB`, `nMB` and `nGB`, in any case, are n times 1024, 1024² and 1024³; `nBB` and `nTB` match but find no table entry, so they are n |
| UploadMiddleware.SizeOfNumberAndUnit | Backend/middleware/upload.js:12-19 | any number followed by an accepted unit is that number times the unit's multiplier |
| UploadMiddleware.MaxFileSize | Backend/middleware/upload.js:8-21 | an unset limit gives 50 MiB |
| UploadMiddleware.ImageFileFilter | Backend/middleware/upload.js:42-48 | accepted if and only if the MIME type is `image/` followed by anything; otherwise refused as "only images" |
| UploadMiddleware.PdfFileFilter | Backend/middleware/upload.js:51-57 | accepted if and only if the MIME type is `application/pdf` or the last four characters of the name are `.pdf` ignoring case; otherwise refused as "only PDF" |
| UploadMiddleware.LoweredEnding | Backend/middleware/upload.js:52 | the lowercased name ends with `.pdf` exactly when its last four characters equal `.pdf` ignoring case |
| UploadMiddleware.WordFileFilter | Backend/middleware/upload.js:60-76 | accepted if and only if the MIME type is on the Word list or the lowercased `path.extname` is `.doc` or `.docx`; otherwise refused as "only Word" |
| UploadMiddleware.PowerpointFileFilter | Backend/middleware/upload.js:79-95 | accepted if and only if the MIME type is on the PowerPoint list or the lowercased `path.extname` is `.ppt` or `.pptx`; otherwise refused as "only PowerPoint" |
| UploadMiddleware.WordFilterJudgesLastExtension | Backend/middleware/upload.js:60-76 | for `stem + ext`, accepted if and only if the MIME type is allowed or the lowercased last extension is `.doc` or `.docx` |
| UploadMiddleware.PowerpointFilterJudgesLastExtension | Backend/middleware/upload.js:79-95 | for `stem + ext`, accepted if and only if the MIME type is allowed or the lowercased last extension is `.ppt` or `.pptx` |
| UploadMiddleware.SlideShowOnlyByType | Backend/middleware/upload.js:79-95 | a `.ppsx` file passes only through its MIME type, and `application/octet-stream` lets it through |
| UploadPdfMiddleware.PdfFileFilter | Backend/middleware/uploadPdf.js:35-49 | accepted if and only if the MIME type is `application/pdf` or `application/octet-stream` or the lowercased `path.extname` is `.pdf`; otherwise refused as "only PDF" |
| UploadPdfMiddleware.PdfFilterJudgesLastExtension | Backend/middleware/uploadPdf.js:35-49 | for `stem + ext`, accepted if and only if the MIME type is `application/pdf` or `application/octet-stream` or the lowercased last extension is `.pdf`; otherwise refused as "only PDF" |
| UploadPdfMiddleware.NameTestsAgree | Backend/middleware/uploadPdf.js:41-44 | on a slash-free name, the extension test here agrees with the ending test of upload.js, except that it also needs a character before `.pdf` |
| UploadPdfMiddleware.DotFileJudgedDifferently | Backend/middleware/uploadPdf.js:41-44 | the name `.pdf`, sent with another MIME type, is accepted by upload.js and refused here |
| UploadPdfMiddleware.TrailingSlashJudgedDifferently | Backend/middleware/uploadPdf.js:41-44 | the name `stem.pdf/`, sent with another MIME type, is accepted here and refused by upload.js |

## Behaviour worth knowing

- **The empty text is one empty token.** `"".split(',')` is `[""]`, so there is no separate error for empty input:
  - the service's `parseSplitPoints` refuses it as not a number (`PdfSplitService.SplitPointsOfEmptyString`);
  - the split service's `parsePageRanges` refuses it as an invalid page number (`PdfSplitService.PageRangesOfEmptyString`).
- **Tokens with trailing text are read.** `parseInt` reads the leading digits, so `3x` is read as 3 and `2.5` as 2 (`JsText.ParseIntOfDecimal`).
- **A negative page is an invalid range in the remove-pages parser.** The token `-3` holds a dash, so it is split into an empty start and `3`, and it is refused as an invalid range, not as a page out of bounds (`PdfRemovePagesService.NegativePageIsInvalidRange`).
- **Extraction does not deduplicate.** A repeated range gives a repeated output with the same file name (`PdfSplitService.ExtractRepeatsRepeatedRanges`).
- **The not-a-number error names no token.** `parseSplitPoints` prints the parsed value, which is `NaN`, not the text the client sent, so `PointsError.NotANumber` carries no token (Backend/services/pdfSplitService.js:235-237).

## Left out

- PDF parsing, page copying and saving (pdf-lib) are foreign code. A page is an opaque value, and a file either loads to a page sequence or does not.
- `JsText.ParseInt` does not read a `0x` hexadecimal prefix, and JavaScript's 2^53 number precision is not modelled. Integers are unbounded, both for parsed numbers and for the size multiplication in `parseSize`.
- `JsText.ToLower` and `JsText.ToUpper` map ASCII letters only. Unicode case mapping is left out.
- All file-system work is I/O and is left out: reading, writing, `statSync` (the size comes from the disk map), `cleanupFiles`, and the one-hour cleanup timers.
- The archive's compression and stream events are left out. Only the entries, their order and their names are kept.
- `uuid`, `Date.now` and `Math.random` produce the output and temp file names, which are nondeterministic. Those names are left out, and so is the multer disk-storage naming (Backend/middleware/upload.js:27-39).
- multer's wiring and limits are framework plumbing and are left out: the instances, the per-request file counts of 1 and 20, and `UPLOAD_LIMIT`.
- Request fields other than strings are partly left out:
  - an array of split points is modelled as values that `Number` has already turned into integers. `NaN`, fractional and infinite entries are not modelled. A fraction such as `2.5` within 1..n-1 passes the bounds check of Backend/services/pdfSplitService.js:21, drives the segment loop of lines 33-58 with a fractional end and gives a name such as `part-1-pages-1-2.5.pdf`; the model cannot express that;
  - a `splitType` or `pages` that is not a string is not modelled;
  - a `pageRanges` that is truthy but not a string, such as an array, is not modelled. It passes the guard of Backend/routes/splitPdf.js:108, `rangeString.split(',')` at Backend/services/pdfSplitService.js:257 throws, and the handler answers 500 (Backend/routes/splitPdf.js:198-211). `SplitRequest.pageRanges` holds only text.
- Download streaming, its headers and its stream errors are left out (Backend/routes/splitPdf.js:240-262). `path.join` is represented by the lemma that a safe name is its own base name.
- `outputFileSize` (Backend/routes/removePages.js:125, Backend/routes/mergePdf.js:81) is the byte length of pdf-lib's output and is not computed. `RemovalSummary.output` and `MergeReply.merged` carry the document written to the temp file instead.
- MergePdfRoute.HandleMerge returns the summed `totalPages` as a second out-parameter, because the route only logs it.
- The `parseSize` and `maxFileSize` of Backend/middleware/uploadPdf.js:9-17 are the same code as in upload.js. They are modelled once, by `UploadMiddleware.ParseSize` and `UploadMiddleware.MaxFileSize`.
- The download checks of removePages.js and mergePdf.js are the same code as in splitPdf.js. They are modelled once, by `RouteCommon.Download`.
- Console logging, async sequencing, the health endpoints and the rest of the server (CORS, the error handler, shutdown) are left out.
