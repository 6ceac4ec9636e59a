/** The merge service (Backend/services/pdfMergeService.js): concatenating
    the pages of several documents, and checking each input on its own. */
module PdfMergeService {
  import opened Results
  import opened PdfDocument
  import opened JsPath
  import opened Seqs

  /** `Failed to process <basename>: <cause>`, wrapped by `PDF merge failed`. */
  datatype MergeError = FailedToProcess(filename: string, cause: LoadError)

  /** The object `mergePdfs` returns, the merged document standing for its
      bytes. */
  datatype MergeOutput = MergeOutput(pages: Document, totalPages: nat, fileCount: nat)

  /** Opening one input, with the error naming the file. */
  function LoadInput(disk: Disk, path: string): (r: Result<Document, MergeError>)
    ensures r.Success? <==> Load(disk, path).Success?
    ensures r.Success? ==> r.value == Load(disk, path).value
    ensures r.Failure? ==> r.error == FailedToProcess(Basename(path), Load(disk, path).error)
  {
    match Load(disk, path)
    case Success(doc) => Success(doc)
    case Failure(e) => Failure(FailedToProcess(Basename(path), e))
  }

  function LoadEach(disk: Disk, paths: seq<string>): (rs: seq<Result<Document, MergeError>>)
    ensures |rs| == |paths|
    ensures forall i :: 0 <= i < |paths| ==> rs[i] == LoadInput(disk, paths[i])
  {
    seq(|paths|, i requires 0 <= i < |paths| => LoadInput(disk, paths[i]))
  }

  /** What `mergePdfs` computes: the first input that does not open aborts
      the merge; otherwise the pages of every input, input after input. */
  function MergePlan(disk: Disk, paths: seq<string>): (r: Result<MergeOutput, MergeError>)
    ensures r.Success? ==> r.value.fileCount == |paths| && r.value.totalPages == |r.value.pages|
  {
    match Collect(LoadEach(disk, paths))
    case Failure(e) => Failure(e)
    case Success(docs) =>
      var merged := Flatten(docs);
      Success(MergeOutput(merged, |merged|, |paths|))
  }

  /** `mergePdfs(pdfPaths)`: for each path, open it and add each of its
      pages to the merged document. */
  method MergePdfs(disk: Disk, pdfPaths: seq<string>) returns (r: Result<MergeOutput, MergeError>)
    ensures r == MergePlan(disk, pdfPaths)
  {
    var mergedPdf: Document := [];
    ghost var loads := LoadEach(disk, pdfPaths);
    ghost var docs: seq<Document> := [];
    for k := 0 to |pdfPaths|
      invariant |docs| == k
      invariant forall j :: 0 <= j < k ==> loads[j] == Success(docs[j])
      invariant mergedPdf == Flatten(docs)
    {
      var loaded := Load(disk, pdfPaths[k]);
      if loaded.Failure? {
        CollectStopsAt(loads, k);
        return Failure(FailedToProcess(Basename(pdfPaths[k]), loaded.error));
      }
      var pdfDoc := loaded.value;
      mergedPdf := AddPages(mergedPdf, pdfDoc);
      FlattenAppend(docs, pdfDoc);
      assert (docs + [pdfDoc])[..k] == docs;
      docs := docs + [pdfDoc];
    }
    CollectAllSucceed(loads, docs);
    return Success(MergeOutput(mergedPdf, |mergedPdf|, |pdfPaths|));
  }

  /** `pages.forEach(page => mergedPdf.addPage(page))`. */
  method AddPages(mergedPdf: Document, pages: Document) returns (out: Document)
    ensures out == mergedPdf + pages
  {
    out := mergedPdf;
    for q := 0 to |pages|
      invariant out == mergedPdf + pages[..q]
    {
      assert pages[..q + 1] == pages[..q] + [pages[q]];
      out := out + [pages[q]];
    }
    assert pages[..|pages|] == pages;
  }

  /** The documents of the inputs, when every input opens. */
  function LoadedDocs(disk: Disk, paths: seq<string>): (docs: seq<Document>)
    requires forall i :: 0 <= i < |paths| ==> Load(disk, paths[i]).Success?
    ensures |docs| == |paths|
    ensures forall i :: 0 <= i < |paths| ==> docs[i] == Load(disk, paths[i]).value
  {
    seq(|paths|, i requires 0 <= i < |paths| => Load(disk, paths[i]).value)
  }

  /** The merge succeeds exactly when every input opens; then its pages are
      the inputs' pages concatenated in input order, its page count is the
      sum of the inputs' page counts, and its file count is the number of
      inputs. */
  lemma MergeConcatenates(disk: Disk, paths: seq<string>)
    ensures MergePlan(disk, paths).Success? <==> forall i :: 0 <= i < |paths| ==> Load(disk, paths[i]).Success?
    ensures MergePlan(disk, paths).Success? ==>
      && MergePlan(disk, paths).value.pages == Flatten(LoadedDocs(disk, paths))
      && MergePlan(disk, paths).value.totalPages == TotalLength(LoadedDocs(disk, paths))
      && MergePlan(disk, paths).value.fileCount == |paths|
  {
    var loads := LoadEach(disk, paths);
    if MergePlan(disk, paths).Success? {
      var docs := Collect(loads).value;
      assert docs == LoadedDocs(disk, paths);
      FlattenLength(docs);
    } else {
      var k := FirstFailure(loads).value;
      assert Load(disk, paths[k]).Failure?;
    }
  }

  /** Page j of input i sits in the merge right after every page of the
      inputs before it. */
  lemma MergePageAt(disk: Disk, paths: seq<string>, i: nat, j: nat)
    requires forall k :: 0 <= k < |paths| ==> Load(disk, paths[k]).Success?
    requires i < |paths| && j < |Load(disk, paths[i]).value|
    ensures var docs := LoadedDocs(disk, paths);
      var pages := MergePlan(disk, paths).value.pages;
      TotalLength(docs[..i]) + j < |pages| && pages[TotalLength(docs[..i]) + j] == docs[i][j]
  {
    MergeConcatenates(disk, paths);
    FlattenIndex(LoadedDocs(disk, paths), i, j);
  }

  /** The first input that does not open aborts the whole merge, and the
      error names that file; no merged document is returned. */
  lemma MergeAbortsOnFirstBadFile(disk: Disk, paths: seq<string>, k: nat)
    requires k < |paths| && Load(disk, paths[k]).Failure?
    requires forall j :: 0 <= j < k ==> Load(disk, paths[j]).Success?
    ensures MergePlan(disk, paths) == Failure(FailedToProcess(Basename(paths[k]), Load(disk, paths[k]).error))
  {
    CollectStopsAt(LoadEach(disk, paths), k);
  }

  /* ---------------------------------------------------------------------
     validatePdfs
     --------------------------------------------------------------------- */

  /** One entry of `validationResults`. */
  datatype FileValidation = FileValidation(
    filename: string, valid: bool, pageCount: nat, fileSize: nat, error: Option<LoadError>)

  /** The entry for one path: never an exception, a file that does not
      open is reported invalid with zero pages and zero size. */
  function ValidateFile(disk: Disk, path: string): (v: FileValidation)
    ensures v.filename == Basename(path)
    ensures v.valid <==> Load(disk, path).Success?
    ensures v.valid ==> v.pageCount == |disk[path].content.value| && v.fileSize == disk[path].size && v.error.None?
    ensures !v.valid ==> v.pageCount == 0 && v.fileSize == 0 && v.error == Some(Load(disk, path).error)
  {
    var check := ValidatePdf(disk, path);
    FileValidation(Basename(path), check.valid, check.pageCount, check.fileSize, check.error)
  }

  function ValidationsOf(disk: Disk, paths: seq<string>): (vs: seq<FileValidation>)
    ensures |vs| == |paths|
    ensures forall i :: 0 <= i < |paths| ==> vs[i] == ValidateFile(disk, paths[i])
  {
    seq(|paths|, i requires 0 <= i < |paths| => ValidateFile(disk, paths[i]))
  }

  /** `validatePdfs(pdfPaths)`: one entry per path, pushed in path order. */
  method ValidatePdfs(disk: Disk, pdfPaths: seq<string>) returns (validationResults: seq<FileValidation>)
    ensures validationResults == ValidationsOf(disk, pdfPaths)
  {
    validationResults := [];
    for k := 0 to |pdfPaths|
      invariant validationResults == ValidationsOf(disk, pdfPaths[..k])
    {
      var loaded := Load(disk, pdfPaths[k]);
      var entry;
      if loaded.Success? {
        entry := FileValidation(Basename(pdfPaths[k]), true, |loaded.value|, disk[pdfPaths[k]].size, None);
      } else {
        entry := FileValidation(Basename(pdfPaths[k]), false, 0, 0, Some(loaded.error));
      }
      assert pdfPaths[..k + 1] == pdfPaths[..k] + [pdfPaths[k]];
      validationResults := validationResults + [entry];
    }
    assert pdfPaths[..|pdfPaths|] == pdfPaths;
  }

  /** When every input checks out, the merge succeeds and its page count
      is the sum of the page counts the checks report. */
  lemma ValidInputsMerge(disk: Disk, paths: seq<string>)
    requires forall i :: 0 <= i < |paths| ==> ValidationsOf(disk, paths)[i].valid
    ensures MergePlan(disk, paths).Success?
    ensures MergePlan(disk, paths).value.totalPages == Sum(PageCounts(ValidationsOf(disk, paths)))
  {
    forall i | 0 <= i < |paths| ensures Load(disk, paths[i]).Success? {
      assert ValidationsOf(disk, paths)[i] == ValidateFile(disk, paths[i]);
    }
    MergeConcatenates(disk, paths);
    SumIsTotalLength(LoadedDocs(disk, paths), ValidationsOf(disk, paths));
  }

  /** The page counts the checks report, in order. */
  function PageCounts(vs: seq<FileValidation>): (counts: seq<int>)
    ensures |counts| == |vs|
    ensures forall i :: 0 <= i < |vs| ==> counts[i] == vs[i].pageCount
  {
    seq(|vs|, i requires 0 <= i < |vs| => vs[i].pageCount)
  }

  lemma {:induction false} SumIsTotalLength(docs: seq<Document>, vs: seq<FileValidation>)
    requires |docs| == |vs|
    requires forall i :: 0 <= i < |vs| ==> vs[i].pageCount == |docs[i]|
    ensures Sum(PageCounts(vs)) == TotalLength(docs)
  {
    if |vs| > 0 {
      SumIsTotalLength(docs[1..], vs[1..]);
      assert PageCounts(vs)[1..] == PageCounts(vs[1..]);
    }
  }
}
