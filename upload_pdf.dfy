/** The upload gate of Backend/middleware/uploadPdf.js, used for PDF
    uploads: its `pdfFileFilter`, which trusts two MIME types and the last
    extension of the name. Its `parseSize` is the one of upload.js. */
module UploadPdfMiddleware {
  import opened JsText
  import opened JsPath
  import UploadMiddleware

  type UploadedFile = UploadMiddleware.UploadedFile
  type Verdict = UploadMiddleware.Verdict

  const PdfTypes: seq<string> := ["application/pdf", "application/octet-stream"]

  const PdfExtensions: seq<string> := [".pdf"]

  /** `pdfFileFilter`: one of the two trusted MIME types, or a last
      extension that is `.pdf` in any case. */
  function PdfFileFilter(file: UploadedFile): (v: Verdict)
    ensures v.Accepted? <==> file.mimetype in PdfTypes || ToLower(ExtName(file.originalName)) in PdfExtensions
    ensures v.Rejected? ==> v.reason == UploadMiddleware.OnlyPdf
  {
    UploadMiddleware.Decide(
      file.mimetype in PdfTypes || ToLower(ExtName(file.originalName)) in PdfExtensions,
      UploadMiddleware.OnlyPdf)
  }

  /** For a plain name `stem + ext`, only the last extension counts:
      `x.pdf.exe` is judged by `.exe`, and refused with the PDF message
      unless its MIME type is allowed. */
  lemma PdfFilterJudgesLastExtension(file: UploadedFile, stem: string, ext: string)
    requires file.originalName == stem + ext
    requires |stem| > 0 && '/' !in stem
    requires |ext| > 1 && ext[0] == '.' && '.' !in ext[1..] && '/' !in ext
    ensures PdfFileFilter(file).Accepted? <==> file.mimetype in PdfTypes || ToLower(ext) == ".pdf"
    ensures PdfFileFilter(file).Rejected? ==> PdfFileFilter(file).reason == UploadMiddleware.OnlyPdf
  {
    ExtNameOfStemAndExtension(stem, ext);
  }

  /** On a name without slashes, the extension test here and the ending test
      of upload.js agree, except that this one also needs a character before
      the `.pdf`. */
  lemma NameTestsAgree(name: string)
    requires '/' !in name
    ensures ToLower(ExtName(name)) == ".pdf" <==> |name| > 4 && EndsWith(ToLower(name), ".pdf")
  {
    if ToLower(ExtName(name)) == ".pdf" {
      ExtensionGivesEnding(name);
    }
    if |name| > 4 && EndsWith(ToLower(name), ".pdf") {
      EndingGivesExtension(name);
    }
  }

  lemma ExtensionGivesEnding(name: string)
    requires '/' !in name && ToLower(ExtName(name)) == ".pdf"
    ensures |name| > 4 && EndsWith(ToLower(name), ".pdf")
  {
    var ext := ExtName(name);
    var dot := LastIndexOf(name, '.');
    PlainExtName(name);
    assert |ext| == |ToLower(ext)| == 4;
    assert 0 < dot && ext == name[dot..];
    assert dot == |name| - 4;
    LowerOfSuffix(name, dot);
    assert ToLower(name)[|name| - 4..] == ToLower(ext);
  }

  lemma EndingGivesExtension(name: string)
    requires '/' !in name && |name| > 4 && EndsWith(ToLower(name), ".pdf")
    ensures ToLower(ExtName(name)) == ".pdf"
  {
    var k := |name| - 4;
    var lowered := ToLower(name);
    LowerOfSuffix(name, k);
    var tail := name[k..];
    assert ToLower(tail) == ".pdf";
    assert LowerChar(tail[0]) == '.' && LowerChar(tail[1]) == 'p' && LowerChar(tail[2]) == 'd' && LowerChar(tail[3]) == 'f';
    assert forall i :: k < i < |name| ==> name[i] == tail[i - k];
    LastIndexIsUnique(name, '.', k);
    PlainExtName(name);
  }

  /** A file named exactly `.pdf` is a dot-file with no extension: upload.js
      accepts it by its ending, this filter refuses it unless its MIME type
      is allowed. */
  lemma DotFileJudgedDifferently(file: UploadedFile)
    requires file.originalName == ".pdf" && file.mimetype !in PdfTypes
    ensures UploadMiddleware.PdfFileFilter(file).Accepted?
    ensures PdfFileFilter(file) == UploadMiddleware.Rejected(UploadMiddleware.OnlyPdf)
  {
    LowerKeepsPdf(file.originalName);
    EndsWithItself(ToLower(file.originalName));
    DotFileHasNoExtension(file.originalName);
    RejectedWithoutExtension(file);
  }

  lemma EndsWithItself(s: string)
    ensures EndsWith(s, s)
  {
    assert s[0..] == s;
  }

  lemma RejectedWithoutExtension(file: UploadedFile)
    requires file.mimetype !in PdfTypes && ExtName(file.originalName) == ""
    ensures PdfFileFilter(file) == UploadMiddleware.Rejected(UploadMiddleware.OnlyPdf)
  {
    assert ToLower(ExtName(file.originalName)) == "";
  }

  lemma LowerKeepsPdf(name: string)
    requires name == ".pdf"
    ensures ToLower(name) == ".pdf"
  {
    var lowered := ToLower(name);
    assert lowered[0] == '.' && lowered[1] == 'p' && lowered[2] == 'd' && lowered[3] == 'f';
  }

  lemma DotFileHasNoExtension(name: string)
    requires name == ".pdf"
    ensures ExtName(name) == ""
  {
    assert name[0] == '.' && name[1] != '.' && name[2] != '.' && name[3] != '.';
    LastIndexIsUnique(name, '.', 0);
    PlainExtName(name);
  }

  /** A name ending in `.pdf/` keeps its extension here, the trailing
      slash being ignored, but no longer ends with `.pdf` for upload.js. */
  lemma TrailingSlashJudgedDifferently(file: UploadedFile, stem: string)
    requires file.originalName == stem + ".pdf" + "/" && |stem| > 0 && '/' !in stem
    requires file.mimetype !in PdfTypes
    ensures PdfFileFilter(file).Accepted?
    ensures UploadMiddleware.PdfFileFilter(file) == UploadMiddleware.Rejected(UploadMiddleware.OnlyPdf)
  {
    PdfExtensionShape(".pdf");
    SlashedExtension(stem, ".pdf");
    LowerKeepsPdf(".pdf");
    SlashedEnding(file.originalName);
  }

  lemma PdfExtensionShape(ext: string)
    requires ext == ".pdf"
    ensures |ext| == 4 && ext[0] == '.' && '.' !in ext[1..] && '/' !in ext
  {
    assert ext[1..] == ['p', 'd', 'f'];
  }

  lemma SlashedExtension(stem: string, ext: string)
    requires |stem| > 0 && '/' !in stem
    requires |ext| > 1 && ext[0] == '.' && '.' !in ext[1..] && '/' !in ext
    ensures ExtName(stem + ext + "/") == ext
  {
    ExtNameIgnoresTrailingSlash(stem + ext);
    ExtNameOfStemAndExtension(stem, ext);
  }

  lemma SlashedEnding(name: string)
    requires |name| > 0 && name[|name| - 1] == '/'
    ensures !EndsWith(ToLower(name), ".pdf")
  {
    var lowered := ToLower(name);
    assert lowered[|lowered| - 1] == '/';
  }
}
