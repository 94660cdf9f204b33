/**
 main.py's `validate_file`: the checks an upload must pass before its bytes
 are read, applied in order, the first failing one deciding the error.
 app.py performs no validation.
 */
module Upload {
  import opened Wrappers
  import opened Http
  import opened Text

  /** The parts of FastAPI's `UploadFile` the checks read; each may be missing. */
  datatype UploadFile = UploadFile(size: Option<int>, filename: Option<string>, contentType: Option<string>)

  const MaxFileSize: int := 10 * 1024 * 1024
  const PdfExtension: string := ".pdf"
  const PdfContentType: string := "application/pdf"

  const TooLargeError: HttpError := HttpError(413, "File size too large (max 10MB)")
  const MissingNameError: HttpError := HttpError(400, "Filename is required")
  const NotPdfError: HttpError := HttpError(400, "Only PDF files are supported")
  const ContentTypeError: HttpError := HttpError(400, "Invalid content type. Expected application/pdf")

  /** A known size over 10 MiB; an unknown size, or 0 (falsy in Python), is never too large. */
  predicate TooLarge(f: UploadFile) {
    f.size.Some? && f.size.value > MaxFileSize
  }

  /** A filename that is present and non-empty. */
  predicate Named(f: UploadFile) {
    f.filename.Some? && f.filename.value != ""
  }

  /** The filename ends in `.pdf`, ignoring case. */
  predicate PdfNamed(f: UploadFile) {
    f.filename.Some? && EndsWith(Lower(f.filename.value), PdfExtension)
  }

  /** No content type, an empty one, or exactly `application/pdf`. */
  predicate PdfTyped(f: UploadFile) {
    f.contentType.None? || f.contentType.value == "" || f.contentType.value == PdfContentType
  }

  /** The error `validate_file` raises, or `None` when the upload passes. */
  function Validate(f: UploadFile): (rejection: Option<HttpError>)
    ensures rejection == Some(TooLargeError) <==> TooLarge(f)
    ensures rejection == Some(MissingNameError) <==> !TooLarge(f) && !Named(f)
    ensures rejection == Some(NotPdfError) <==> !TooLarge(f) && Named(f) && !PdfNamed(f)
    ensures rejection == Some(ContentTypeError) <==> !TooLarge(f) && Named(f) && PdfNamed(f) && !PdfTyped(f)
    ensures rejection == None <==> !TooLarge(f) && Named(f) && PdfNamed(f) && PdfTyped(f)
  {
    if f.size.Some? && f.size.value != 0 && f.size.value > MaxFileSize then Some(TooLargeError)
    else if f.filename.None? || f.filename.value == "" then Some(MissingNameError)
    else if !EndsWith(Lower(f.filename.value), PdfExtension) then Some(NotPdfError)
    else if f.contentType.Some? && f.contentType.value != "" && f.contentType.value !in [PdfContentType]
    then Some(ContentTypeError)
    else None
  }

  /** The extension check ignores case: `.PDF`, `.Pdf` and `.pdf` are treated alike. */
  lemma ExtensionCaseIgnored(f: UploadFile, stem: string, ext: string)
    requires |ext| == |PdfExtension|
    requires forall k | 0 <= k < |ext| :: LowerChar(ext[k]) == PdfExtension[k]
    ensures Validate(f.(filename := Some(stem + ext))) == Validate(f.(filename := Some(stem + PdfExtension)))
  {
    assert Lower(ext) == PdfExtension;
    LowerEndsWith(stem, ext, PdfExtension);
    assert Lower(PdfExtension) == PdfExtension;
    LowerEndsWith(stem, PdfExtension, PdfExtension);
  }

  /** Size is checked first: an oversized upload is refused with 413 whatever its name and type. */
  lemma SizeCheckedFirst(size: int, filename: Option<string>, contentType: Option<string>)
    requires size > MaxFileSize
    ensures Validate(UploadFile(Some(size), filename, contentType)).value.status == 413
  {
  }

  /** A text file is refused for its extension before its content type is looked at. */
  lemma TextFileRefusedByExtension()
    ensures Validate(UploadFile(None, Some("test.txt"), Some("text/plain"))) == Some(NotPdfError)
  {
    assert Lower("test.txt")[4..] == ".txt";
  }
}
