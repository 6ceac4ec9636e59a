/** What the services need from the PDF library and the file system: a
    document is the sequence of its pages, and an uploaded file either
    opens as a document or does not. */
module PdfDocument {
  import opened Results

  /** A page object; only its identity matters to the pipeline. */
  datatype Page = Page(id: nat)

  type Document = seq<Page>

  /** A file in the upload directory: its size in bytes, and the document
      the PDF library reads from it (None when the bytes are not a PDF). */
  datatype StoredFile = StoredFile(size: nat, content: Option<Document>)

  /** The files present on disk, by path. */
  type Disk = map<string, StoredFile>

  datatype LoadError = FileNotFound(path: string) | NotAPdf

  /** `fs.readFileSync` followed by `PDFDocument.load`. */
  function Load(disk: Disk, path: string): (r: Result<Document, LoadError>)
    ensures r.Success? <==> path in disk && disk[path].content.Some?
    ensures r.Success? ==> r.value == disk[path].content.value
    ensures path !in disk ==> r == Failure(FileNotFound(path))
  {
    if path !in disk then Failure(FileNotFound(path))
    else match disk[path].content
      case None => Failure(NotAPdf)
      case Some(doc) => Success(doc)
  }

  /** The record `validatePdf` returns. */
  datatype Validation = Validation(valid: bool, pageCount: nat, fileSize: nat, error: Option<LoadError>)

  /** `validatePdf(path)`: never throws; a file that does not open is
      reported as invalid with zero pages and zero size. */
  function ValidatePdf(disk: Disk, path: string): (v: Validation)
    ensures v.valid <==> Load(disk, path).Success?
    ensures v.valid ==> v.pageCount == |Load(disk, path).value| && v.fileSize == disk[path].size
    ensures v.valid <==> v.error.None?
    ensures !v.valid ==> v.pageCount == 0 && v.fileSize == 0 && v.error == Some(Load(disk, path).error)
  {
    match Load(disk, path)
    case Success(doc) => Validation(true, |doc|, disk[path].size, None)
    case Failure(e) => Validation(false, 0, 0, Some(e))
  }
}
