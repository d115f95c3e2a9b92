/** The page-oriented extractor `extract_text_from_pdf` (scripts/main.py:59-79)
    and its recognition fallback `extract_text_with_ocr` (scripts/main.py:40-57).
    Each is a method with the source's loop, proved equal to a reference
    definition that says which pages contribute which segment. */
module Pdf {
  import opened Strings
  import opened Clean
  import opened Documents

  /** `f"\n\n[{kind} PAGE {page}/{count}]\n"`. */
  function PageTag(kind: string, page: nat, count: nat): string
  {
    "\n\n[" + kind + " PAGE " + NatToString(page) + "/" + NatToString(count) + "]\n"
  }

  /** `f"[OCR failed: {e}]"`. */
  function OcrFailure(message: string): string
  {
    "[OCR failed: " + message + "]"
  }

  /** A text built from tagged segments is not blank: its third character is `[`. */
  lemma {:induction false} TaggedNotBlank(parts: seq<string>)
    requires parts != [] && |parts[0]| >= 3 && parts[0][2] == '['
    ensures Join(parts)[2] == '[' && !AllSpace(Join(parts))
  {
    assert Join(parts) == parts[0] + Join(parts[1..]);
  }

  // ---------------------------------------------------------------------
  // Recognition fallback

  /** Index of the first page whose recognition raises, `|pages|` when none does. */
  function FirstOcrError(pages: seq<OcrPage>): (k: nat)
    ensures k <= |pages|
    ensures forall j :: 0 <= j < k ==> pages[j].Recognised?
    ensures k < |pages| ==> pages[k].RecognitionRaised?
  {
    if pages == [] || pages[0].RecognitionRaised? then 0 else 1 + FirstOcrError(pages[1..])
  }

  /** The segment of one recognised page: the tag `[OCR PAGE page/count]`
      followed by the cleaned recognised text, empty or not. */
  function OcrSegment(nfkc: Normalizer, page: nat, count: nat, raw: string): string
  {
    PageTag("OCR", page, count) + CleanText(nfkc, raw)
  }

  /** One segment per page, for the first `k` pages, in page order. */
  function OcrSegments(nfkc: Normalizer, pages: seq<OcrPage>, k: nat): seq<string>
    requires k <= |pages| && forall j :: 0 <= j < k ==> pages[j].Recognised?
  {
    seq(k, j requires 0 <= j < k => OcrSegment(nfkc, j + 1, |pages|, pages[j].text))
  }

  lemma OcrSegmentsStep(nfkc: Normalizer, pages: seq<OcrPage>, i: nat)
    requires i < |pages| && forall j :: 0 <= j <= i ==> pages[j].Recognised?
    ensures Join(OcrSegments(nfkc, pages, i + 1))
         == Join(OcrSegments(nfkc, pages, i)) + OcrSegment(nfkc, i + 1, |pages|, pages[i].text)
  {
    var segment := OcrSegment(nfkc, i + 1, |pages|, pages[i].text);
    assert OcrSegments(nfkc, pages, i + 1) == OcrSegments(nfkc, pages, i) + [segment];
    JoinAppend(OcrSegments(nfkc, pages, i), [segment]);
    assert Join([segment]) == segment;
  }

  /** What the recognition fallback yields: the placeholder with the first
      error's message when the document cannot be opened or any page raises
      (whatever was recognised before is dropped), and the segments of all
      pages otherwise. */
  function OcrText(nfkc: Normalizer, read: OcrRead): string
  {
    match read
    case OcrUnopenable(message) => OcrFailure(message)
    case OcrPages(pages) =>
      var k := FirstOcrError(pages);
      if k < |pages| then OcrFailure(pages[k].message)
      else Join(OcrSegments(nfkc, pages, |pages|))
  }

  /** The recognition result is blank exactly when the document opens and
      has no pages, and then it is empty. */
  lemma OcrTextBlank(nfkc: Normalizer, read: OcrRead)
    ensures AllSpace(OcrText(nfkc, read)) <==> read == OcrPages([])
    ensures read == OcrPages([]) ==> OcrText(nfkc, read) == ""
  {
    match read
    case OcrUnopenable(message) =>
      assert OcrFailure(message)[0] == '[';
    case OcrPages(pages) =>
      var k := FirstOcrError(pages);
      if k < |pages| {
        assert OcrFailure(pages[k].message)[0] == '[';
      } else if pages != [] {
        var segs := OcrSegments(nfkc, pages, |pages|);
        assert segs[0][2] == '[';
        TaggedNotBlank(segs);
      }
  }

  /** A failure anywhere yields exactly the placeholder: an unopenable
      document, or a page that raises after any number of recognised pages,
      whatever follows it; the text of the recognised pages is discarded. */
  lemma OcrFailureDiscards(nfkc: Normalizer, recognised: seq<OcrPage>, message: string, rest: seq<OcrPage>)
    requires forall j :: 0 <= j < |recognised| ==> recognised[j].Recognised?
    ensures OcrText(nfkc, OcrUnopenable(message)) == "[OCR failed: " + message + "]"
    ensures OcrText(nfkc, OcrPages(recognised + [RecognitionRaised(message)] + rest)) == "[OCR failed: " + message + "]"
  {
    var pages := recognised + [RecognitionRaised(message)] + rest;
    assert pages[|recognised|] == RecognitionRaised(message);
    assert forall j :: 0 <= j < |recognised| ==> pages[j] == recognised[j];
    assert FirstOcrError(pages) == |recognised|;
  }

  /** When every page is recognised there is one segment per page, in page
      order 1..N, each tagged with its number and the page count and holding
      the page's cleaned text, an empty cleaned text included. */
  lemma OcrAllPages(nfkc: Normalizer, pages: seq<OcrPage>)
    requires forall j :: 0 <= j < |pages| ==> pages[j].Recognised?
    ensures OcrText(nfkc, OcrPages(pages))
         == Join(seq(|pages|, j requires 0 <= j < |pages| =>
                       PageTag("OCR", j + 1, |pages|) + CleanText(nfkc, pages[j].text)))
  {
    assert FirstOcrError(pages) == |pages|;
    var segs := OcrSegments(nfkc, pages, |pages|);
    var tagged := seq(|pages|, j requires 0 <= j < |pages| =>
                       PageTag("OCR", j + 1, |pages|) + CleanText(nfkc, pages[j].text));
    assert forall j :: 0 <= j < |pages| ==> segs[j] == tagged[j];
    assert segs == tagged;
  }

  method ExtractWithOcr(nfkc: Normalizer, read: OcrRead) returns (text: string)
    ensures text == OcrText(nfkc, read)
  {
    text := "";
    match read {
      case OcrUnopenable(message) =>
        text := OcrFailure(message);
      case OcrPages(pages) =>
        var count := |pages|;
        var i := 0;
        while i < count
          invariant 0 <= i <= count
          invariant forall j :: 0 <= j < i ==> pages[j].Recognised?
          invariant text == Join(OcrSegments(nfkc, pages, i))
        {
          match pages[i] {
            case RecognitionRaised(message) =>
              assert FirstOcrError(pages) == i;
              text := OcrFailure(message);
              return;
            case Recognised(pageText) =>
              OcrSegmentsStep(nfkc, pages, i);
              text := text + OcrSegment(nfkc, i + 1, count, pageText);
              i := i + 1;
          }
        }
    }
  }

  // ---------------------------------------------------------------------
  // Primary text extraction

  /** Index of the first page whose text extraction raises, `|pages|` when none does. */
  function FirstPageError(pages: seq<PageRead>): (k: nat)
    ensures k <= |pages|
    ensures forall j :: 0 <= j < k ==> pages[j].PageText?
    ensures k < |pages| ==> pages[k].PageRaised?
  {
    if pages == [] || pages[0].PageRaised? then 0 else 1 + FirstPageError(pages[1..])
  }

  /** The cleaned text of each of the first `k` pages, in page order. */
  function CleanedPages(nfkc: Normalizer, pages: seq<PageRead>, k: nat): seq<string>
    requires k <= FirstPageError(pages)
  {
    seq(k, p requires 0 <= p < k => CleanText(nfkc, pages[p].text))
  }

  /** The page number (from 1) and text of each cleaned page that is not
      empty, in page order. */
  function Kept(cleaned: seq<string>): seq<(nat, string)>
  {
    if cleaned == [] then []
    else
      var n := |cleaned|;
      Kept(cleaned[..n - 1]) + (if cleaned[n - 1] != "" then [(n, cleaned[n - 1])] else [])
  }

  /** Every entry of `kept` names a page of `cleaned`, carries that page's
      text, and that text is not empty. */
  predicate KeptEntriesSound(cleaned: seq<string>, kept: seq<(nat, string)>)
  {
    forall j :: 0 <= j < |kept| ==>
      1 <= kept[j].0 <= |cleaned| && kept[j].1 != "" && kept[j].1 == cleaned[kept[j].0 - 1]
  }

  /** The entries of `kept` are in strictly increasing page order. */
  predicate KeptEntriesOrdered(kept: seq<(nat, string)>)
  {
    forall j :: 0 <= j < |kept| - 1 ==> kept[j].0 < kept[j + 1].0
  }

  lemma {:induction false} KeptSound(cleaned: seq<string>)
    ensures KeptEntriesSound(cleaned, Kept(cleaned))
  {
    if cleaned != [] {
      var n := |cleaned|;
      var init := cleaned[..n - 1];
      KeptSound(init);
      var before := Kept(init);
      var kept := Kept(cleaned);
      forall j | 0 <= j < |kept|
        ensures 1 <= kept[j].0 <= n && kept[j].1 != "" && kept[j].1 == cleaned[kept[j].0 - 1]
      {
        if j < |before| {
          assert kept[j] == before[j];
          assert cleaned[before[j].0 - 1] == init[before[j].0 - 1];
        }
      }
    }
  }

  lemma {:induction false} KeptOrdered(cleaned: seq<string>)
    ensures KeptEntriesOrdered(Kept(cleaned))
  {
    if cleaned != [] {
      var n := |cleaned|;
      var init := cleaned[..n - 1];
      KeptOrdered(init);
      KeptSound(init);
      var before := Kept(init);
      var kept := Kept(cleaned);
      forall j | 0 <= j < |kept| - 1
        ensures kept[j].0 < kept[j + 1].0
      {
        assert kept[j] == before[j];
        if j + 1 < |before| {
          assert kept[j + 1] == before[j + 1];
        }
      }
    }
  }

  /** Every page whose cleaned text is not empty is kept, with that text. */
  lemma {:induction false} KeptComplete(cleaned: seq<string>)
    ensures forall p :: 0 <= p < |cleaned| && cleaned[p] != "" ==> (p + 1, cleaned[p]) in Kept(cleaned)
  {
    if cleaned != [] {
      var n := |cleaned|;
      var init := cleaned[..n - 1];
      KeptComplete(init);
      forall p | 0 <= p < n && cleaned[p] != ""
        ensures (p + 1, cleaned[p]) in Kept(cleaned)
      {
        if p < n - 1 {
          assert cleaned[p] == init[p];
        }
      }
    }
  }

  /** Nothing is kept exactly when every page cleans to the empty text. */
  lemma {:induction false} KeptNone(cleaned: seq<string>)
    ensures Kept(cleaned) == [] <==> forall p :: 0 <= p < |cleaned| ==> cleaned[p] == ""
  {
    KeptComplete(cleaned);
    var kept := Kept(cleaned);
    if kept != [] {
      KeptSound(cleaned);
      assert cleaned[kept[0].0 - 1] != "";
    }
  }

  /** When no page cleans to the empty text, every page is kept. */
  lemma {:induction false} KeptAll(cleaned: seq<string>)
    requires forall p :: 0 <= p < |cleaned| ==> cleaned[p] != ""
    ensures Kept(cleaned) == seq(|cleaned|, p requires 0 <= p < |cleaned| => (p + 1, cleaned[p]))
  {
    if cleaned != [] {
      var n := |cleaned|;
      KeptAll(cleaned[..n - 1]);
    }
  }

  /** The segment of one kept page: the tag `[PDF PAGE page/count]` followed
      by the page's cleaned text. */
  function PdfSegment(page: nat, count: nat, cleaned: string): string
  {
    PageTag("PDF", page, count) + cleaned
  }

  function PdfSegments(kept: seq<(nat, string)>, count: nat): seq<string>
  {
    seq(|kept|, j requires 0 <= j < |kept| => PdfSegment(kept[j].0, count, kept[j].1))
  }

  /** The segments of the kept pages, joined in order. */
  function RenderPdf(kept: seq<(nat, string)>, count: nat): string
  {
    Join(PdfSegments(kept, count))
  }

  lemma RenderPdfSnoc(kept: seq<(nat, string)>, count: nat, page: nat, cleaned: string)
    ensures RenderPdf(kept + [(page, cleaned)], count) == RenderPdf(kept, count) + PdfSegment(page, count, cleaned)
  {
    var segment := PdfSegment(page, count, cleaned);
    assert PdfSegments(kept + [(page, cleaned)], count) == PdfSegments(kept, count) + [segment];
    JoinAppend(PdfSegments(kept, count), [segment]);
    assert Join([segment]) == segment;
  }

  lemma KeptAppend(cleaned: seq<string>, c: string)
    ensures Kept(cleaned + [c]) == Kept(cleaned) + (if c != "" then [(|cleaned| + 1, c)] else [])
  {
    var after := cleaned + [c];
    assert after[..|after| - 1] == cleaned;
  }

  /** One more page extends the rendered text by that page's segment when
      its cleaned text is not empty, and leaves it alone otherwise. */
  lemma KeptSnoc(cleaned: seq<string>, c: string, count: nat)
    ensures RenderPdf(Kept(cleaned + [c]), count)
         == RenderPdf(Kept(cleaned), count) + (if c != "" then PdfSegment(|cleaned| + 1, count, c) else "")
  {
    KeptAppend(cleaned, c);
    if c != "" {
      RenderPdfSnoc(Kept(cleaned), count, |cleaned| + 1, c);
    } else {
      assert Kept(cleaned + [c]) == Kept(cleaned);
    }
  }

  lemma CleanedPagesStep(nfkc: Normalizer, pages: seq<PageRead>, i: nat)
    requires i < FirstPageError(pages)
    ensures CleanedPages(nfkc, pages, i + 1) == CleanedPages(nfkc, pages, i) + [CleanText(nfkc, pages[i].text)]
  {
  }

  lemma RenderPdfBlank(kept: seq<(nat, string)>, count: nat)
    ensures AllSpace(RenderPdf(kept, count)) <==> kept == []
  {
    if kept != [] {
      var segs := PdfSegments(kept, count);
      assert segs[0][2] == '[';
      TaggedNotBlank(segs);
    }
  }

  /** The pages of the primary path that contribute a segment; none when the
      reader cannot parse the document at all. */
  function PrimaryPages(nfkc: Normalizer, read: PdfRead): seq<(nat, string)>
  {
    match read
    case PdfUnreadable => []
    case PdfPages(pages) => Kept(CleanedPages(nfkc, pages, FirstPageError(pages)))
  }

  function PageCount(read: PdfRead): nat
  {
    match read
    case PdfUnreadable => 0
    case PdfPages(pages) => |pages|
  }

  /** The text the primary path accumulates, up to the first page that raises. */
  function PrimaryText(nfkc: Normalizer, read: PdfRead): string
  {
    RenderPdf(PrimaryPages(nfkc, read), PageCount(read))
  }

  /** What `extract_text_from_pdf` yields for a document that the primary
      reader sees as `pdf` and the recognition reader as `ocr`: the
      recognition result when no page contributed a segment, the primary
      segments otherwise. */
  function PdfText(nfkc: Normalizer, pdf: PdfRead, ocr: OcrRead): string
  {
    var kept := PrimaryPages(nfkc, pdf);
    if kept == [] then OcrText(nfkc, ocr) else RenderPdf(kept, PageCount(pdf))
  }

  /** The either/or rule of the source, stated with its own whitespace test:
      the recognition result replaces the primary text wholesale exactly when
      the primary text is blank, which includes a parse failure of the whole
      document; otherwise the primary text is returned unchanged. */
  lemma PdfTextEitherOr(nfkc: Normalizer, pdf: PdfRead, ocr: OcrRead)
    ensures AllSpace(PrimaryText(nfkc, pdf)) ==> PdfText(nfkc, pdf, ocr) == OcrText(nfkc, ocr)
    ensures !AllSpace(PrimaryText(nfkc, pdf)) ==> PdfText(nfkc, pdf, ocr) == PrimaryText(nfkc, pdf)
    ensures pdf == PdfUnreadable ==> PdfText(nfkc, pdf, ocr) == OcrText(nfkc, ocr)
  {
    RenderPdfBlank(PrimaryPages(nfkc, pdf), PageCount(pdf));
  }

  /** For a document the reader can parse, recognition takes over exactly
      when every page read before the first failing one cleans to the empty
      text (so a failure on the first page always falls back). */
  lemma PdfOcrFallback(nfkc: Normalizer, pages: seq<PageRead>, ocr: OcrRead)
    ensures (forall p :: 0 <= p < FirstPageError(pages) ==> CleanText(nfkc, pages[p].text) == "")
              ==> PdfText(nfkc, PdfPages(pages), ocr) == OcrText(nfkc, ocr)
    ensures (exists p :: 0 <= p < FirstPageError(pages) && CleanText(nfkc, pages[p].text) != "")
              ==> PdfText(nfkc, PdfPages(pages), ocr) == PrimaryText(nfkc, PdfPages(pages))
  {
    var cleaned := CleanedPages(nfkc, pages, FirstPageError(pages));
    KeptNone(cleaned);
    if exists p :: 0 <= p < FirstPageError(pages) && CleanText(nfkc, pages[p].text) != "" {
      var p :| 0 <= p < FirstPageError(pages) && CleanText(nfkc, pages[p].text) != "";
      assert cleaned[p] != "";
    }
  }

  /** A document whose every page yields text that survives cleaning gives one
      `[PDF PAGE i/N]` segment per page, in order 1..N, and no recognition. */
  lemma PdfAllPagesExtractable(nfkc: Normalizer, pages: seq<PageRead>, ocr: OcrRead)
    requires pages != []
    requires forall p :: 0 <= p < |pages| ==> pages[p].PageText? && CleanText(nfkc, pages[p].text) != ""
    ensures PdfText(nfkc, PdfPages(pages), ocr) ==
      Join(seq(|pages|, p requires 0 <= p < |pages| => PdfSegment(p + 1, |pages|, CleanText(nfkc, pages[p].text))))
  {
    assert FirstPageError(pages) == |pages|;
    var cleaned := CleanedPages(nfkc, pages, |pages|);
    KeptAll(cleaned);
    var kept := Kept(cleaned);
    assert kept == PrimaryPages(nfkc, PdfPages(pages));
    assert kept[0].0 == 1;
    assert PdfSegments(kept, |pages|)
        == seq(|pages|, p requires 0 <= p < |pages| => PdfSegment(p + 1, |pages|, CleanText(nfkc, pages[p].text)));
  }

  /** The body of the source's `try` block: the page loop, breaking off at
      the first page that raises, accumulating the primary text. */
  method ExtractPdfPages(nfkc: Normalizer, pages: seq<PageRead>) returns (text: string)
    ensures text == PrimaryText(nfkc, PdfPages(pages))
  {
    text := "";
    var count := |pages|;
    var i := 0;
    while i < count && pages[i].PageText?
      invariant 0 <= i <= FirstPageError(pages)
      invariant text == RenderPdf(Kept(CleanedPages(nfkc, pages, i)), count)
      decreases count - i
    {
      var cleaned := CleanText(nfkc, pages[i].text);
      CleanedPagesStep(nfkc, pages, i);
      KeptSnoc(CleanedPages(nfkc, pages, i), cleaned, count);
      if cleaned != "" {
        text := text + PdfSegment(i + 1, count, cleaned);
      }
      i := i + 1;
    }
  }

  /** The test `not text.strip()` on the primary text picks the branch of
      `PdfText`. */
  lemma PdfFallbackTest(nfkc: Normalizer, pdf: PdfRead, ocr: OcrRead)
    ensures Strip(PrimaryText(nfkc, pdf)) == "" ==> PdfText(nfkc, pdf, ocr) == OcrText(nfkc, ocr)
    ensures Strip(PrimaryText(nfkc, pdf)) != "" ==> PdfText(nfkc, pdf, ocr) == PrimaryText(nfkc, pdf)
  {
    RenderPdfBlank(PrimaryPages(nfkc, pdf), PageCount(pdf));
    StripSpec(PrimaryText(nfkc, pdf));
  }

  /** `extract_text_from_pdf`: the primary text (empty when the document
      cannot be parsed), replaced by the recognition result when blank. */
  method ExtractPdf(nfkc: Normalizer, pdf: PdfRead, ocr: OcrRead) returns (text: string)
    ensures text == PdfText(nfkc, pdf, ocr)
  {
    text := "";
    if pdf.PdfPages? {
      text := ExtractPdfPages(nfkc, pdf.pages);
    }
    assert text == PrimaryText(nfkc, pdf);
    PdfFallbackTest(nfkc, pdf, ocr);
    if Strip(text) == "" {
      text := ExtractWithOcr(nfkc, ocr);
    }
  }
}
