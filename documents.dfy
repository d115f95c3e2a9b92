/** A downloaded document as the extraction pipeline sees it. The bytes
    themselves are not modelled: a `Blob` records what each third-party
    reader yields when it is given those bytes (PyPDF2, PyMuPDF with
    Tesseract, python-docx, pandas, zipfile and the lenient UTF-8 decoder).
    A readable archive holds entries that are blobs again, so a blob is an
    inductive value and recursion into an archive is structural. */
module Documents {

  /** `page.extract_text() or ""` for one PyPDF2 page: its text (a `None`
      from the reader is the empty text), or an exception. */
  datatype PageRead = PageText(text: string) | PageRaised

  /** `PyPDF2.PdfReader(stream)`: an exception, or the pages in order. */
  datatype PdfRead = PdfUnreadable | PdfPages(pages: seq<PageRead>)

  /** Rasterising one page at 300 dpi and running Tesseract on it: the
      recognised text, or an exception with its message `str(e)`. */
  datatype OcrPage = Recognised(text: string) | RecognitionRaised(message: string)

  /** `fitz.open(stream=…)`: an exception with its message, or the pages. */
  datatype OcrRead = OcrUnopenable(message: string) | OcrPages(pages: seq<OcrPage>)

  /** python-docx on a temporary copy of the bytes: an exception, or the
      text of each paragraph in document order. */
  datatype DocxRead = DocxUnreadable | Paragraphs(paragraphs: seq<string>)

  /** `pd.read_excel` / `pd.read_csv` followed by `to_string(index=False)`:
      an exception, or the rendered table. */
  datatype TableRead = TableUnreadable | Rendered(text: string)

  /** One name of `namelist()`: opening and reading it either raises or
      yields the bytes of the member. */
  datatype EntryRead = EntryUnreadable | EntryBytes(blob: Blob)

  datatype ZipEntry = ZipEntry(name: string, read: EntryRead)

  /** `zipfile.ZipFile(…)`: an exception, or the names in listing order. */
  datatype ZipRead = ZipUnreadable | ZipListing(entries: seq<ZipEntry>)

  datatype Blob = Blob(
    pdf: PdfRead,
    ocr: OcrRead,
    docx: DocxRead,
    xlsx: TableRead,
    csv: TableRead,
    zip: ZipRead,
    utf8: string)  // `bytes.decode("utf-8", errors="ignore")`, which never raises
}
