/** The file-type dispatcher `extract_text_by_type` (scripts/main.py:137-155)
    with the extractors it routes to: the word-processor and spreadsheet
    readers (scripts/main.py:81-117), the plain-text branch, and the archive
    walk `extract_text_from_zip` (scripts/main.py:119-135), which dispatches
    each admitted member again. */
module Extract {
  import opened Strings
  import opened Clean
  import opened Documents
  import opened Formats
  import opened Pdf

  // ---------------------------------------------------------------------
  // Word-processor documents and tables

  /** The cleaned text of each paragraph that is not blank, in document order. */
  function ParagraphTexts(nfkc: Normalizer, paragraphs: seq<string>): seq<string>
  {
    if paragraphs == [] then []
    else (if AllSpace(paragraphs[0]) then [] else [CleanText(nfkc, paragraphs[0])])
         + ParagraphTexts(nfkc, paragraphs[1..])
  }

  lemma {:induction false} ParagraphTextsAppend(nfkc: Normalizer, a: seq<string>, b: seq<string>)
    ensures ParagraphTexts(nfkc, a + b) == ParagraphTexts(nfkc, a) + ParagraphTexts(nfkc, b)
  {
    if a == [] {
      assert a + b == b;
    } else {
      ConsSplit(a, b);
      ParagraphTextsAppend(nfkc, a[1..], b);
      var head := if AllSpace(a[0]) then [] else [CleanText(nfkc, a[0])];
      ConcatAssoc(head, ParagraphTexts(nfkc, a[1..]), ParagraphTexts(nfkc, b));
    }
  }

  /** What `extract_text_from_docx` yields: the cleaned non-blank paragraphs
      joined by newlines, and the empty text when the document cannot be read. */
  function DocxText(nfkc: Normalizer, read: DocxRead): string
  {
    match read
    case DocxUnreadable => ""
    case Paragraphs(paragraphs) => JoinWith("\n", ParagraphTexts(nfkc, paragraphs))
  }

  /** A blank paragraph, wherever it stands, contributes nothing. */
  lemma DocxSkipsBlank(nfkc: Normalizer, before: seq<string>, p: string, after: seq<string>)
    requires AllSpace(p)
    ensures DocxText(nfkc, Paragraphs(before + [p] + after)) == DocxText(nfkc, Paragraphs(before + after))
  {
    var rest := [p] + after;
    assert before + [p] + after == before + rest;
    ParagraphTextsAppend(nfkc, before, rest);
    ParagraphTextsAppend(nfkc, before, after);
    assert rest[0] == p && rest[1..] == after;
    assert ParagraphTexts(nfkc, rest) == ParagraphTexts(nfkc, after);
  }

  /** A document of blank paragraphs only yields the empty text. */
  lemma {:induction false} DocxAllBlank(nfkc: Normalizer, paragraphs: seq<string>)
    requires forall i :: 0 <= i < |paragraphs| ==> AllSpace(paragraphs[i])
    ensures ParagraphTexts(nfkc, paragraphs) == []
    ensures DocxText(nfkc, Paragraphs(paragraphs)) == ""
  {
    if paragraphs != [] {
      DocxAllBlank(nfkc, paragraphs[1..]);
    }
  }

  /** What `extract_text_from_xlsx` and `extract_text_from_csv` yield: the
      cleaned rendering of the table, or the empty text when it cannot be read. */
  function TableText(nfkc: Normalizer, read: TableRead): string
  {
    match read
    case TableUnreadable => ""
    case Rendered(text) => CleanText(nfkc, text)
  }

  // ---------------------------------------------------------------------
  // Dispatch and archives

  /** `f"\n\n===== From {name} =====\n{inner}\n"`. */
  function Section(name: string, inner: string): string
  {
    "\n\n===== From " + name + " =====\n" + inner + "\n"
  }

  /** What `extract_text_by_type` yields for a blob stored under `name`. */
  function ExtractedText(nfkc: Normalizer, blob: Blob, name: string): string
    decreases blob, 2
  {
    match FormatOf(name)
    case Pdf => PdfText(nfkc, blob.pdf, blob.ocr)
    case Docx => DocxText(nfkc, blob.docx)
    case Xlsx => TableText(nfkc, blob.xlsx)
    case Csv => TableText(nfkc, blob.csv)
    case Zip => ZipText(nfkc, blob.zip)
    case Txt => CleanText(nfkc, blob.utf8)
    case Unsupported => ""
  }

  /** What `extract_text_from_zip` yields: nothing when the archive cannot be
      opened, the sections of its members otherwise. */
  function ZipText(nfkc: Normalizer, read: ZipRead): string
    decreases read, 1
  {
    match read
    case ZipUnreadable => ""
    case ZipListing(entries) => Sections(nfkc, entries)
  }

  /** The sections of the admitted members in listing order, up to the first
      admitted member that cannot be read; the members after it are never
      looked at. */
  function Sections(nfkc: Normalizer, entries: seq<ZipEntry>): string
    decreases entries, 0
  {
    if entries == [] then ""
    else
      var e := entries[0];
      if !Admitted(e.name) then Sections(nfkc, entries[1..])
      else match e.read
        case EntryUnreadable => ""
        case EntryBytes(inner) => Section(e.name, ExtractedText(nfkc, inner, e.name)) + Sections(nfkc, entries[1..])
  }

  /** A member that is skipped, or read without raising. */
  predicate Opens(e: ZipEntry)
  {
    !Admitted(e.name) || e.read.EntryBytes?
  }

  predicate AllOpen(entries: seq<ZipEntry>)
  {
    forall i :: 0 <= i < |entries| ==> Opens(entries[i])
  }

  /** Members are handled one after another: as long as none of the first
      ones raises, the text of a listing is the text of its front followed by
      the text of its back. */
  lemma {:induction false} SectionsAppend(nfkc: Normalizer, a: seq<ZipEntry>, b: seq<ZipEntry>)
    requires AllOpen(a)
    ensures Sections(nfkc, a + b) == Sections(nfkc, a) + Sections(nfkc, b)
  {
    if a == [] {
      assert a + b == b;
    } else {
      ConsSplit(a, b);
      SectionsAppend(nfkc, a[1..], b);
    }
  }

  /** One more member that opens extends the text by its section when it is
      admitted, and by nothing otherwise. */
  lemma SectionsSnoc(nfkc: Normalizer, a: seq<ZipEntry>, e: ZipEntry)
    requires AllOpen(a) && Opens(e)
    ensures AllOpen(a + [e])
    ensures Sections(nfkc, a + [e]) == Sections(nfkc, a)
      + (if Admitted(e.name) then Section(e.name, ExtractedText(nfkc, e.read.blob, e.name)) else "")
  {
    SectionsAppend(nfkc, a, [e]);
    assert [e][1..] == [];
    assert forall i :: 0 <= i < |a| ==> (a + [e])[i] == a[i];
  }

  /** An admitted member that raises ends the walk: the sections appended
      before it are returned and nothing after it is looked at. */
  lemma {:induction false} SectionsStop(nfkc: Normalizer, a: seq<ZipEntry>, e: ZipEntry, b: seq<ZipEntry>)
    requires AllOpen(a) && Admitted(e.name) && e.read == EntryUnreadable
    ensures Sections(nfkc, a + [e] + b) == Sections(nfkc, a)
  {
    SectionsAppend(nfkc, a, [e] + b);
    assert a + [e] + b == a + ([e] + b);
    assert ([e] + b)[0] == e;
  }

  /** Only admitted members are looked at: dropping every other member first
      changes nothing. */
  function AdmittedOnly(entries: seq<ZipEntry>): (r: seq<ZipEntry>)
    ensures forall i :: 0 <= i < |r| ==> Admitted(r[i].name)
    ensures forall e :: e in r <==> e in entries && Admitted(e.name)
    ensures |r| <= |entries|
  {
    if entries == [] then []
    else (if Admitted(entries[0].name) then [entries[0]] else []) + AdmittedOnly(entries[1..])
  }

  /** The filter keeps listing order: filtering a concatenation concatenates
      the filtered parts. */
  lemma {:induction false} AdmittedOnlyAppend(a: seq<ZipEntry>, b: seq<ZipEntry>)
    ensures AdmittedOnly(a + b) == AdmittedOnly(a) + AdmittedOnly(b)
  {
    if a == [] {
      assert a + b == b;
    } else {
      ConsSplit(a, b);
      AdmittedOnlyAppend(a[1..], b);
    }
  }

  lemma {:induction false} SectionsIgnoreUnadmitted(nfkc: Normalizer, entries: seq<ZipEntry>)
    ensures Sections(nfkc, AdmittedOnly(entries)) == Sections(nfkc, entries)
  {
    if entries != [] {
      var e := entries[0];
      var r := AdmittedOnly(entries[1..]);
      SectionsIgnoreUnadmitted(nfkc, entries[1..]);
      if Admitted(e.name) {
        var kept := [e] + r;
        assert AdmittedOnly(entries) == kept;
        assert kept[0] == e && kept[1..] == r;
        assert Sections(nfkc, kept) == Sections(nfkc, entries);
      } else {
        assert AdmittedOnly(entries) == [] + r;
        assert [] + r == r;
      }
    }
  }

  /** A single readable admitted member gives exactly one section headed by
      its own name. */
  lemma SectionsSingle(nfkc: Normalizer, e: ZipEntry, inner: Blob)
    requires Admitted(e.name) && e.read == EntryBytes(inner)
    ensures Sections(nfkc, [e]) == Section(e.name, ExtractedText(nfkc, inner, e.name))
  {
    assert [e][1..] == [];
  }

  /** A `.doc` member is admitted but no extractor handles it: it gives a
      section with an empty body. */
  lemma DocMemberEmpty(nfkc: Normalizer, name: string, inner: Blob)
    requires EndsWith(name, ".doc")
    ensures Sections(nfkc, [ZipEntry(name, EntryBytes(inner))]) == Section(name, "")
  {
    AdmittedRouting(name);
    SectionsSingle(nfkc, ZipEntry(name, EntryBytes(inner)), inner);
  }

  /** No member is handed to the archive extractor, so the text of an
      admitted member never depends on what the archive reader would make
      of it. */
  lemma NoNestedArchive(nfkc: Normalizer, inner: Blob, name: string, other: ZipRead)
    requires Admitted(name)
    ensures ExtractedText(nfkc, inner, name) == ExtractedText(nfkc, inner.(zip := other), name)
  {
    AdmittedRouting(name);
  }

  /** The dispatcher depends on the name only through its lower-cased form. */
  lemma ExtractedIgnoresCase(nfkc: Normalizer, blob: Blob, a: string, b: string)
    requires Lower(a) == Lower(b)
    ensures ExtractedText(nfkc, blob, a) == ExtractedText(nfkc, blob, b)
  {
    FormatIgnoresCase(a, b);
  }

  /** A name with none of the six known extensions yields the empty text. */
  lemma UnsupportedEmpty(nfkc: Normalizer, blob: Blob, name: string)
    requires !(EndsWith(Lower(name), ".pdf") || EndsWith(Lower(name), ".docx")
               || EndsWith(Lower(name), ".xlsx") || EndsWith(Lower(name), ".csv")
               || EndsWith(Lower(name), ".zip") || EndsWith(Lower(name), ".txt"))
    ensures ExtractedText(nfkc, blob, name) == ""
  {
  }

  // ---------------------------------------------------------------------
  // The extractors as the source runs them

  method ExtractByType(nfkc: Normalizer, blob: Blob, name: string) returns (text: string)
    ensures text == ExtractedText(nfkc, blob, name)
    decreases blob, 1
  {
    var format := FormatOf(name);
    match format {
      case Pdf => text := ExtractPdf(nfkc, blob.pdf, blob.ocr);
      case Docx => text := DocxText(nfkc, blob.docx);
      case Xlsx => text := TableText(nfkc, blob.xlsx);
      case Csv => text := TableText(nfkc, blob.csv);
      case Zip => text := ExtractZip(nfkc, blob.zip);
      case Txt => text := CleanText(nfkc, blob.utf8);
      case Unsupported => text := "";
    }
  }

  method ExtractZip(nfkc: Normalizer, read: ZipRead) returns (text: string)
    ensures text == ZipText(nfkc, read)
    decreases read, 0
  {
    text := "";
    match read {
      case ZipUnreadable =>
      case ZipListing(entries) =>
        var i := 0;
        while i < |entries|
          invariant 0 <= i <= |entries|
          invariant AllOpen(entries[..i])
          invariant text == Sections(nfkc, entries[..i])
        {
          var e := entries[i];
          TakeSnoc(entries, i);
          TakeDrop(entries, i + 1);
          if Admitted(e.name) {
            match e.read {
              case EntryUnreadable =>
                SectionsStop(nfkc, entries[..i], e, entries[i + 1..]);
                return;
              case EntryBytes(inner) =>
                var innerText := ExtractByType(nfkc, inner, e.name);
                text := text + Section(e.name, innerText);
            }
          }
          SectionsSnoc(nfkc, entries[..i], e);
          i := i + 1;
        }
        assert entries[..i] == entries;
    }
  }
}
