/** The download-and-extract loop of scripts/main.py:218-259: for every
    collected tender (all of them, not only the rows the title filter
    keeps), each attachment URL is downloaded and its text extracted,
    retried with recognition when it is blank and the URL's last dot
    segment is `pdf`, cleaned, and appended under a `--- From <name> ---`
    header. Downloading is an abstract function from a URL to its outcome. */
module Tenders {
  import opened Strings
  import opened Clean
  import opened Documents
  import opened Formats
  import opened Pdf
  import opened Extract
  import opened Scrape

  /** `requests.get(url)`: a response with its status and body, or an exception. */
  datatype Fetch = Response(status: int, body: Blob) | FetchRaised

  /** `url.split('.')[-1].lower()`. */
  function FileType(url: string): string
  {
    Lower(AfterLast(url, '.'))
  }

  /** `os.path.basename(url)`. */
  function Basename(url: string): string
  {
    AfterLast(url, '/')
  }

  /** The text kept for one downloaded attachment: what the dispatcher makes
      of the body under the URL's name, replaced by the recognition result
      when it is blank and the file type is `pdf`, then cleaned once more. */
  function AttachmentText(nfkc: Normalizer, url: string, body: Blob): string
  {
    var text := ExtractedText(nfkc, body, url);
    var retried := if AllSpace(text) && FileType(url) == "pdf" then OcrText(nfkc, body.ocr) else text;
    CleanText(nfkc, retried)
  }

  /** `f"\n\n--- From {os.path.basename(url)} ---\n{text}\n"`. */
  function AttachmentSection(url: string, text: string): string
  {
    "\n\n--- From " + Basename(url) + " ---\n" + text + "\n"
  }

  /** What one attachment adds to the tender's text: its section when the
      download answers 200, nothing for any other status or an exception. */
  function Contribution(nfkc: Normalizer, download: string -> Fetch, url: string): string
  {
    match download(url)
    case FetchRaised => ""
    case Response(status, body) => if status == 200 then AttachmentSection(url, AttachmentText(nfkc, url, body)) else ""
  }

  /** The combined text of a tender: the contributions of its attachments in
      list order. */
  function CombinedText(nfkc: Normalizer, download: string -> Fetch, urls: seq<string>): string
  {
    if urls == [] then "" else Contribution(nfkc, download, urls[0]) + CombinedText(nfkc, download, urls[1..])
  }

  predicate Delivered(download: string -> Fetch, url: string)
  {
    download(url).Response? && download(url).status == 200
  }

  lemma {:induction false} CombinedTextAppend(nfkc: Normalizer, download: string -> Fetch, a: seq<string>, b: seq<string>)
    ensures CombinedText(nfkc, download, a + b) == CombinedText(nfkc, download, a) + CombinedText(nfkc, download, b)
  {
    if a == [] {
      assert a + b == b;
    } else {
      ConsSplit(a, b);
      CombinedTextAppend(nfkc, download, a[1..], b);
      ConcatAssoc(Contribution(nfkc, download, a[0]), CombinedText(nfkc, download, a[1..]), CombinedText(nfkc, download, b));
    }
  }

  /** An attachment that does not download with status 200, wherever it
      stands, contributes nothing. */
  lemma CombinedSkipsUndelivered(nfkc: Normalizer, download: string -> Fetch, a: seq<string>, url: string, b: seq<string>)
    requires !Delivered(download, url)
    ensures CombinedText(nfkc, download, a + [url] + b) == CombinedText(nfkc, download, a + b)
  {
    CombinedTextAppend(nfkc, download, a + [url], b);
    CombinedTextAppend(nfkc, download, a, [url]);
    CombinedTextAppend(nfkc, download, a, b);
    CombinedUndeliveredSingle(nfkc, download, url);
    var x := CombinedText(nfkc, download, a);
    var y := CombinedText(nfkc, download, b);
    assert x + "" == x;
  }

  lemma CombinedUndeliveredSingle(nfkc: Normalizer, download: string -> Fetch, url: string)
    requires !Delivered(download, url)
    ensures CombinedText(nfkc, download, [url]) == ""
  {
    assert [url][1..] == [];
  }

  /** A tender none of whose attachments downloads gets the empty text. */
  lemma {:induction false} CombinedNoneDelivered(nfkc: Normalizer, download: string -> Fetch, urls: seq<string>)
    requires forall i :: 0 <= i < |urls| ==> !Delivered(download, urls[i])
    ensures CombinedText(nfkc, download, urls) == ""
  {
    if urls != [] {
      CombinedNoneDelivered(nfkc, download, urls[1..]);
    }
  }

  /** A single delivered attachment gives exactly one section, headed by the
      URL's base name. */
  lemma CombinedSingle(nfkc: Normalizer, download: string -> Fetch, url: string)
    requires Delivered(download, url)
    ensures CombinedText(nfkc, download, [url]) == AttachmentSection(url, AttachmentText(nfkc, url, download(url).body))
  {
    assert [url][1..] == [];
  }

  /** Each section body is a cleaned text. */
  lemma AttachmentTextClean(nfkc: Normalizer, url: string, body: Blob)
    ensures CleanShape(AttachmentText(nfkc, url, body))
  {
    var text := ExtractedText(nfkc, body, url);
    CleanTextShape(nfkc, if AllSpace(text) && FileType(url) == "pdf" then OcrText(nfkc, body.ocr) else text);
  }

  /** A URL with a dot whose last dot segment is `pdf` in any case ends in
      `.pdf` once lower-cased, so the dispatcher sends it to the PDF extractor. */
  lemma PdfTypeRoutesToPdf(url: string)
    requires '.' in url && FileType(url) == "pdf"
    ensures FormatOf(url) == Pdf
  {
    var r := AfterLast(url, '.');
    AfterLastSplit(url, '.');
    LowerEndsWith(url, ['.'] + r);
    DottedLower(r);
    assert EndsWith(Lower(url), ".pdf");
  }

  lemma DottedLower(r: string)
    requires Lower(r) == "pdf"
    ensures Lower(['.'] + r) == ".pdf"
  {
    assert Lower(['.'] + r)[0] == '.';
    assert forall k :: 1 <= k < |r| + 1 ==> Lower(['.'] + r)[k] == Lower(r)[k - 1];
  }

  /** The recognition retry of the loop never changes anything for a URL
      that contains a dot: such a URL is either not of type `pdf`, or went
      through the PDF extractor, whose blank result is already the
      recognition result of the same bytes. */
  lemma RetryRedundant(nfkc: Normalizer, url: string, body: Blob)
    requires '.' in url
    ensures AttachmentText(nfkc, url, body) == CleanText(nfkc, ExtractedText(nfkc, body, url))
  {
    if FileType(url) == "pdf" {
      PdfTypeRoutesToPdf(url);
      PdfTextEitherOr(nfkc, body.pdf, body.ocr);
    }
  }

  /** Only a URL without a dot can make the retry matter: the URL `pdf` has
      file type `pdf` but no extension, so the dispatcher returns nothing
      and the recognition result is used. */
  lemma RetryWithoutDot(nfkc: Normalizer, body: Blob)
    ensures FileType("pdf") == "pdf" && FormatOf("pdf") == Unsupported
    ensures AttachmentText(nfkc, "pdf", body) == CleanText(nfkc, OcrText(nfkc, body.ocr))
  {
    AfterLastOfSep("pdf", '.');
    assert Lower("pdf") == "pdf";
  }

  /** Steps 3 to 6 of the source for one downloaded attachment: detect the
      file type, extract, retry a blank `pdf` with recognition, clean. */
  method ExtractAttachment(nfkc: Normalizer, url: string, fileBytes: Blob) returns (text: string)
    ensures text == AttachmentText(nfkc, url, fileBytes)
  {
    var fileType := Lower(AfterLast(url, '.'));
    var extracted := ExtractByType(nfkc, fileBytes, url);
    var retried := extracted;
    StripBlank(extracted);
    if Strip(extracted) == "" && fileType == "pdf" {
      retried := ExtractWithOcr(nfkc, fileBytes.ocr);
    }
    assert retried == if AllSpace(extracted) && FileType(url) == "pdf" then OcrText(nfkc, fileBytes.ocr) else extracted;
    text := CleanText(nfkc, retried);
  }

  lemma CombinedTextSnoc(nfkc: Normalizer, download: string -> Fetch, urls: seq<string>, url: string)
    ensures CombinedText(nfkc, download, urls + [url]) == CombinedText(nfkc, download, urls) + Contribution(nfkc, download, url)
  {
    CombinedTextAppend(nfkc, download, urls, [url]);
    assert [url][1..] == [];
    assert CombinedText(nfkc, download, [url]) == Contribution(nfkc, download, url) + "";
  }

  /** The inner loop of the source over one tender's attachment URLs. */
  method CombineAttachments(nfkc: Normalizer, download: string -> Fetch, urls: seq<string>) returns (combined: string)
    ensures combined == CombinedText(nfkc, download, urls)
  {
    combined := "";
    var i := 0;
    while i < |urls|
      invariant 0 <= i <= |urls|
      invariant combined == CombinedText(nfkc, download, urls[..i])
    {
      var url := urls[i];
      TakeSnoc(urls, i);
      CombinedTextSnoc(nfkc, download, urls[..i], url);
      var r := download(url);
      match r {
        case FetchRaised =>
        case Response(status, fileBytes) =>
          if status == 200 {
            var text := ExtractAttachment(nfkc, url, fileBytes);
            combined := combined + AttachmentSection(url, text);
          }
      }
      i := i + 1;
    }
    assert urls[..i] == urls;
  }

  /** The combined text of every collected tender, in table order. */
  function TenderTexts(nfkc: Normalizer, download: string -> Fetch, tenders: seq<Tender>): seq<string>
  {
    seq(|tenders|, k requires 0 <= k < |tenders| => CombinedText(nfkc, download, tenders[k].attachments))
  }

  /** The texts of a longer table extend the texts of its prefix by the
      combined text of the next tender. */
  lemma TenderTextsSnoc(nfkc: Normalizer, download: string -> Fetch, tenders: seq<Tender>, n: nat)
    requires n < |tenders|
    ensures TenderTexts(nfkc, download, tenders[..n + 1])
         == TenderTexts(nfkc, download, tenders[..n]) + [CombinedText(nfkc, download, tenders[n].attachments)]
  {
    var longer := TenderTexts(nfkc, download, tenders[..n + 1]);
    var shorter := TenderTexts(nfkc, download, tenders[..n]);
    var last := CombinedText(nfkc, download, tenders[n].attachments);
    assert forall k :: 0 <= k < n ==> tenders[..n + 1][k] == tenders[..n][k];
    SeqSnoc(longer, shorter, last);
  }

  lemma SeqSnoc<T>(longer: seq<T>, shorter: seq<T>, last: T)
    requires |longer| == |shorter| + 1 && longer[|shorter|] == last
    requires forall k :: 0 <= k < |shorter| ==> longer[k] == shorter[k]
    ensures longer == shorter + [last]
  {
  }

  /** The outer loop of the source: one combined text per collected tender,
      in table order. */
  method ExtractTenderTexts(nfkc: Normalizer, download: string -> Fetch, tenders: seq<Tender>) returns (texts: seq<string>)
    ensures texts == TenderTexts(nfkc, download, tenders)
  {
    texts := [];
    var idx := 0;
    while idx < |tenders|
      invariant 0 <= idx <= |tenders|
      invariant texts == TenderTexts(nfkc, download, tenders[..idx])
    {
      var combinedText := CombineAttachments(nfkc, download, tenders[idx].attachments);
      TenderTextsSnoc(nfkc, download, tenders, idx);
      texts := texts + [combinedText];
      idx := idx + 1;
    }
    assert tenders[..idx] == tenders;
  }
}
