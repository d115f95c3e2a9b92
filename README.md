# TANMIA tender scraper: a verified model of its extraction pipeline

TANMIA collects public calls for tenders from the listing pages of
`https://tanmia.ma/appels-doffres/`. For each posting it downloads the
attached documents and reduces them to one normalised block of text. This
project models the core of `scripts/main.py` and proves properties of the
model. The core covers:

- `clean_text`, the text normaliser;
- the format dispatcher `extract_text_by_type`;
- the PDF extractor with its OCR fallback;
- the archive extractor;
- the per-tender attachment loop;
- the keyword title filter;
- the crawl of the listing pages with its stop-on-first-other-date rule.

Third-party readers are not modelled; what each one yields is an input. These
readers are PyPDF2, PyMuPDF with Tesseract, python-docx, pandas, `zipfile`
and the lenient UTF-8 decoder. A `Documents.Blob` records, for one downloaded
byte string, what every reader returns on it: text, pages, entries or an
exception. An archive's entries are blobs again, so recursion into an archive
is structural.

Unicode NFKC is an abstract parameter `nfkc: string -> string`. The HTTP
requests are also parameters:

- `download` is one attachment request;
- `listing` is one listing page, already parsed into article cards;
- `fetch` is one posting page, already parsed into heading and attachment links.

Modules, in dependency order:

- `Strings`: whitespace as `str.isspace` defines it, Latin-1 lower-casing, suffix and substring tests, `strip`, joins, `split(sep)[-1]`.
- `Clean`: `clean_text` and its two regular-expression substitutions.
- `Documents`: reader outcomes.
- `Formats`: the dispatcher's routing and the archive's member filter.
- `Pdf`: the page loop, the OCR loop and the either/or rule.
- `Extract`: the dispatcher, the docx, table and text extractors, and the archive loop.
- `Scrape`: the crawl.
- `TitleFilter`: the keyword filter.
- `Tenders`: the attachment loop and the tender loop.

Each loop in the source is a method with that loop. The method is proved equal
to a reference function, and the lemmas state the properties of
that function.

Points where the code behaves in a way a reader might not expect:

- The archive filter at `scripts/main.py:126` does not admit `.zip`, so an archive inside an archive is never opened. One level of entries is all that is ever extracted (`Extract.NoNestedArchive`, `Formats.AdmittedRouting`).
- The docx reader's temporary file is created with `delete=False` and never removed (`scripts/main.py:84`). No cleanup is claimed.
- The tender loop at `scripts/main.py:220` runs over every scraped tender (`df`), not over the filtered table. `Tenders.ExtractTenderTexts` takes the unfiltered list.

## Model

| member | source | states |
|---|---|---|
| Strings.LowerSpec | scripts/main.py:138 | lower-casing keeps the length, leaves no capital, moves each capital 32 code points up and keeps every other character |
| Strings.LowerIdempotent | scripts/main.py:138 | lower-casing a lower-cased name changes nothing |
| Strings.LowerKeepsSuffix | scripts/main.py:138-149 | a name ending in a lower-case suffix still ends in it after lower-casing |
| Strings.Contains | scripts/main.py:211 | reference definition of the substring test; `Strings.ContainsIff` states what it means |
| Strings.ContainsIff | scripts/main.py:211 | the substring test holds exactly when the word occurs at some index |
| Strings.Strip | scripts/main.py:38 | reference definition of `str.strip()`; its properties are in `Strings.StripSpec` and `Strings.StripSplit` |
| Strings.StripSplit | scripts/main.py:38 | stripping a text whose middle part lies between two non-whitespace characters keeps the middle part whole |
| Strings.StripSpec | scripts/main.py:38 | `strip` leaves no leading or trailing whitespace, keeps every non-whitespace character in order, is empty exactly for an all-whitespace text, is the identity on an already stripped text, and returns a slice of its input |
| Strings.AfterLast | scripts/main.py:232 | `split(sep)[-1]` holds no separator, is a suffix of the input, and is the whole input or preceded by a separator |
| Strings.AfterLastSplit | scripts/main.py:232 | when the separator occurs, the last segment is shorter than the input and follows the last separator |
| Clean.CleanText | scripts/main.py:31-38 | reference definition of `clean_text`; its properties are in `Clean.CleanTextShape`, `Clean.CleanTextGap` and `Clean.CleanTextIdempotent` |
| Clean.Tidy | scripts/main.py:36-38 | reference definition of the two substitutions followed by `strip`; `Clean.TidyGap` states how it treats a gap |
| Clean.CollapseBlankLines | scripts/main.py:36 | reference definition of `re.sub(r'\n\s*\n+', '\n\n', ·)` as a leftmost, greedy scan; its properties are in the `Clean.CollapseBlankLines*` lemmas |
| Clean.CollapseBlanks | scripts/main.py:37 | reference definition of `re.sub(r'[ \t]+', ' ', ·)`; its properties are in the `Clean.CollapseBlanks*` lemmas |
| Clean.CleanTextShape | scripts/main.py:31-38 | an empty text cleans to `""`; every cleaned text has no leading or trailing whitespace, no tab, no two adjacent spaces, no three consecutive newlines, at most two newlines per whitespace run, and cleaning keeps exactly the non-whitespace characters of the NFKC form |
| Clean.CollapseBlankLinesTight | scripts/main.py:36 | after the first substitution every whitespace run holds at most two newlines, and two only when adjacent |
| Clean.CollapseBlankLinesConcatL | scripts/main.py:36 | the first substitution acts on `x` and `y` separately when `x` ends with a non-whitespace character |
| Clean.CollapseBlankLinesConcatR | scripts/main.py:36 | the first substitution acts on `x` and `y` separately when `y` starts with a non-whitespace character |
| Clean.CollapseBlankLinesGap | scripts/main.py:36 | the first substitution on `a + r + b`, with `r` between two non-whitespace characters, is its image on `a`, on `r` and on `b`, concatenated |
| Clean.CollapseBlankLinesManyNewlines | scripts/main.py:36 | an all-whitespace text whose first newline is at `i` and last at `j > i` becomes `w[..i] + "\n\n" + w[j+1..]` |
| Clean.CollapseBlankLinesOneNewline | scripts/main.py:36 | a text with at most one newline is unchanged by the first substitution |
| Clean.CollapseBlankLinesRunMany | scripts/main.py:36 | a whitespace run between two words whose first newline is at `i` and last at `j > i` becomes `r[..i] + "\n\n" + r[j+1..]` |
| Clean.CollapseBlankLinesRunFew | scripts/main.py:36 | a whitespace run with at most one newline is left unchanged |
| Clean.CollapseBlankLinesKeepsNonSpace | scripts/main.py:36 | the first substitution rewrites only whitespace |
| Clean.CollapseBlankLinesFixed | scripts/main.py:36 | the first substitution leaves a text that is already tight unchanged |
| Clean.CollapseBlanksShape | scripts/main.py:37 | the second substitution leaves no tab and no double space and keeps tight newlines tight |
| Clean.CollapseBlanksConcatL | scripts/main.py:37 | the second substitution acts on `x` and `y` separately when `x` ends with a character other than space or tab |
| Clean.CollapseBlanksConcatR | scripts/main.py:37 | the second substitution acts on `x` and `y` separately when `y` starts with a character other than space or tab |
| Clean.CollapseBlanksRun | scripts/main.py:37 | a non-empty run of spaces and tabs between two other characters becomes exactly one space |
| Clean.CollapseBlanksKeepsNonSpace | scripts/main.py:37 | the second substitution rewrites only whitespace |
| Clean.CollapseBlanksFixed | scripts/main.py:37 | a text without tabs or double spaces is a fixpoint of the second substitution |
| Clean.TidyGap | scripts/main.py:36-38 | after NFKC, a gap between two words splits the cleaned text into the cleaned left part, the gap's image and the cleaned right part |
| Clean.CleanTextGap | scripts/main.py:31-38 | a whitespace gap between two words of the NFKC form stays a non-empty whitespace gap `GapImage(r)` between two non-whitespace characters, holding two newlines when the gap held two or more and otherwise as many newlines as it held |
| Clean.GapNewlines | scripts/main.py:36-37 | a gap keeps its newline count when it is 0 or 1 and ends with exactly two, adjacent, when it had two or more: `CollapseBlanks` of what precedes the first newline, `"\n\n"`, `CollapseBlanks` of what follows the last |
| Clean.GapNoNewline | scripts/main.py:36-37 | a gap without a newline only has its runs of spaces and tabs collapsed, and gains no newline |
| Clean.GapOneNewline | scripts/main.py:36-37 | a gap with one newline keeps exactly that newline, with collapsed blanks on either side |
| Clean.GapManyNewlines | scripts/main.py:36-37 | a gap with two or more newlines holds exactly two adjacent newlines, with the blanks before the first and after the last newline collapsed |
| Clean.CleanTextIdempotent | scripts/main.py:31-38 | cleaning a cleaned text changes nothing, provided NFKC fixes it |
| Formats.SuffixesExclusive | scripts/main.py:139-149 | no name ends in two of the six extensions, so at most one branch applies |
| Formats.FormatOf | scripts/main.py:137-155 | each format is chosen exactly when the lower-cased name ends in its extension, and `Unsupported` exactly when it ends in none |
| Formats.FormatIgnoresCase | scripts/main.py:138 | two names equal after lower-casing are routed alike |
| Formats.ReportPdfMixedCase | scripts/main.py:138-140 | `report.PDF` and `report.pdf` both route to the PDF extractor |
| Formats.AdmittedRouting | scripts/main.py:126 | an admitted archive member never routes to the archive extractor, and it routes to `Unsupported` exactly when it ends in `.doc` |
| Formats.UpperCaseMemberSkipped | scripts/main.py:126 | the member filter is case-sensitive: `SCAN.PDF` is skipped although the dispatcher would route it to the PDF extractor |
| Pdf.FirstOcrError | scripts/main.py:46-55 | the index of the first page whose recognition raises, with all earlier pages recognised |
| Pdf.OcrText | scripts/main.py:40-57 | reference definition of the OCR result; its properties are in `Pdf.OcrTextBlank`, `Pdf.OcrFailureDiscards` and `Pdf.OcrAllPages` |
| Pdf.OcrTextBlank | scripts/main.py:43-57 | the OCR result is blank exactly when the document opens with no pages, and it is then `""` |
| Pdf.OcrFailureDiscards | scripts/main.py:54-55 | an unopenable document, or a raising page after any recognised pages, yields exactly `[OCR failed: <msg>]`, whatever came before or after |
| Pdf.OcrAllPages | scripts/main.py:46-52 | with every page recognised, the result has one `[OCR PAGE i/N]` segment per page in order 1..N, each holding that page's cleaned text, empty or not |
| Pdf.ExtractWithOcr | scripts/main.py:40-57 | the OCR loop returns the OCR reference text |
| Pdf.FirstPageError | scripts/main.py:66-71 | the index of the first page whose text extraction raises, with all earlier pages read |
| Pdf.KeptSound | scripts/main.py:66-70 | every kept page carries its own page number and its non-empty cleaned text |
| Pdf.KeptOrdered | scripts/main.py:66-70 | page numbers of kept pages strictly increase |
| Pdf.KeptComplete | scripts/main.py:69-70 | every page with non-empty cleaned text is kept |
| Pdf.KeptNone | scripts/main.py:69-70 | no page is kept exactly when every cleaned page is empty |
| Pdf.KeptAll | scripts/main.py:66-70 | when every cleaned page is non-empty, every page is kept, numbered 1..N |
| Pdf.RenderPdfBlank | scripts/main.py:70-74 | the tagged primary text is blank exactly when no page was kept |
| Pdf.PdfText | scripts/main.py:59-79 | reference definition of the PDF result; its properties are in `Pdf.PdfTextEitherOr`, `Pdf.PdfOcrFallback`, `Pdf.PdfAllPagesExtractable` and the `Pdf.Kept*` lemmas |
| Pdf.PdfTextEitherOr | scripts/main.py:62-79 | the result is the OCR result when the primary text is whitespace-only, including after a parse exception; otherwise it is the primary text, never a merge |
| Pdf.PdfOcrFallback | scripts/main.py:66-76 | for a parsable document, OCR is used exactly when every page before the first failing page cleans to `""` |
| Pdf.PdfAllPagesExtractable | scripts/main.py:66-70 | when every page reads and cleans non-empty, the result is one `[PDF PAGE i/N]` segment per page in order |
| Pdf.ExtractPdfPages | scripts/main.py:64-71 | the page loop inside the `try`, breaking off at the first raising page, returns the primary text of the kept pages |
| Pdf.PdfFallbackTest | scripts/main.py:73-76 | the test `not text.strip()` on the primary text selects the recognition result exactly when the reference takes it |
| Pdf.ExtractPdf | scripts/main.py:59-79 | the page loop with its break on an exception and its fallback returns the PDF reference text |
| Extract.DocxText | scripts/main.py:81-92 | reference definition of the docx result; its properties are in `Extract.DocxSkipsBlank` and `Extract.DocxAllBlank` |
| Extract.TableText | scripts/main.py:95-117 | reference definition of the xlsx and csv results: the cleaned rendered table, or `""` when reading raises; its body has the clean shape by `Clean.CleanTextShape` |
| Extract.ParagraphTextsAppend | scripts/main.py:88 | the docx paragraph comprehension distributes over concatenation |
| Extract.DocxSkipsBlank | scripts/main.py:88 | a whitespace-only paragraph contributes nothing, not even a line break |
| Extract.DocxAllBlank | scripts/main.py:88 | a document of blank paragraphs extracts to `""` |
| Extract.ZipText | scripts/main.py:119-135 | reference definition of the archive result: `""` when the archive does not open, the sections otherwise; `Extract.ExtractZip` connects it to the loop |
| Extract.Sections | scripts/main.py:125-131 | reference definition of the member walk; its properties are in the `Extract.Sections*` lemmas |
| Extract.SectionsAppend | scripts/main.py:125-131 | over members that open, the sections of a concatenation are the concatenation of sections, in listing order |
| Extract.SectionsSnoc | scripts/main.py:125-131 | one more member that opens adds its `===== From <name> =====` section if admitted and nothing otherwise |
| Extract.SectionsStop | scripts/main.py:128-135 | an admitted member whose read raises ends the archive with the sections already appended |
| Extract.AdmittedOnly | scripts/main.py:126 | a member is kept exactly when it is listed and admitted, and no more members are kept than listed |
| Extract.AdmittedOnlyAppend | scripts/main.py:125-126 | the filter keeps listing order: filtering a concatenation concatenates the filtered parts |
| Extract.SectionsIgnoreUnadmitted | scripts/main.py:126 | members outside the filter contribute nothing |
| Extract.SectionsSingle | scripts/main.py:126-131 | unfolding lemma: an admitted readable member yields a header section around its recursive extraction |
| Extract.DocMemberEmpty | scripts/main.py:126-131 | a `.doc` member yields its header with an empty body |
| Extract.NoNestedArchive | scripts/main.py:126 | the text of an admitted member never depends on its archive contents |
| Extract.ExtractedText | scripts/main.py:137-155 | reference definition of the dispatcher's result; its properties are in `Extract.ExtractedIgnoresCase`, `Extract.UnsupportedEmpty` and `Formats.FormatOf` |
| Extract.ExtractedIgnoresCase | scripts/main.py:137-138 | the dispatcher's result depends only on the lower-cased name |
| Extract.UnsupportedEmpty | scripts/main.py:153-155 | a name with none of the six extensions extracts to `""` |
| Extract.ExtractByType | scripts/main.py:137-155 | the dispatcher returns the reference extraction of the blob |
| Extract.ExtractZip | scripts/main.py:119-135 | the archive loop returns `""` for an unopenable archive and otherwise the sections up to the first failing member |
| Scrape.Collect | scripts/main.py:173-198 | reference definition of the card loop; its properties are in the `Scrape.Collect*` lemmas |
| Scrape.CollectAppend | scripts/main.py:173-198 | over cards that do not stop the crawl, the collected tenders of a concatenation concatenate |
| Scrape.CollectStopped | scripts/main.py:180-183 | once a card stops the crawl, later cards change nothing |
| Scrape.CollectStoppedIff | scripts/main.py:171-183 | a page stops the crawl exactly when some dated card has another date |
| Scrape.CollectAll | scripts/main.py:173-198 | with no stopping card, each card contributes its tender, in order |
| Scrape.CollectSound | scripts/main.py:185-198 | every collected tender comes from one card with a link and a 200 posting page |
| Scrape.CollectSingle | scripts/main.py:174-198 | unfolding lemma: a card without date, link or 200 response is skipped; an other-dated card stops; else it yields `Title`, `URL`, `Attachments` |
| Scrape.ScrapeFrom | scripts/main.py:160-201 | reference definition of the crawl from one listing page on; its properties are in `Scrape.ScrapeStopsAtMismatch` and `Scrape.ScrapeFromStep` |
| Scrape.ScrapeStopsAtMismatch | scripts/main.py:200-201 | a page with a stopping card is the last page crawled |
| Scrape.ScrapeFromStep | scripts/main.py:160-201 | unfolding lemma: a 200 listing page contributes its tenders, then the crawl moves on unless stopped |
| Scrape.CollectPage | scripts/main.py:173-198 | the article loop appends the collected tenders and sets the stop flag exactly when the crawl stops |
| Scrape.ScrapeListings | scripts/main.py:158-201 | the page loop over pages 1..5, stopping on a non-200 page or the stop flag, returns the reference crawl |
| TitleFilter.Excluded | scripts/main.py:205-211 | reference definition of the regular-expression test on the lower-cased title |
| TitleFilter.FilterRelevant | scripts/main.py:210-213 | reference definition of the filtered table; its properties are in the `TitleFilter.FilterRelevant*` lemmas |
| TitleFilter.FilterRelevantMembers | scripts/main.py:205-213 | a tender is kept exactly when its lower-cased title contains none of the nine excluded words |
| TitleFilter.FilterRelevantAppend | scripts/main.py:211 | the filter keeps row order and distributes over concatenation |
| TitleFilter.FilterRelevantKeepsAll | scripts/main.py:210-213 | a table with no excluded title, the empty table included, passes unchanged |
| TitleFilter.CapitalisedWordExcluded | scripts/main.py:211 | `Achat de matériel` is dropped: the test is on the lower-cased title |
| Tenders.AttachmentText | scripts/main.py:232-245 | reference definition of one section body; its properties are in `Tenders.AttachmentTextClean`, `Tenders.RetryRedundant` and `Tenders.RetryWithoutDot` |
| Tenders.Contribution | scripts/main.py:228-252 | reference definition of what one attachment adds; `Tenders.CombinedSingle` and `Tenders.CombinedSkipsUndelivered` state it |
| Tenders.CombinedText | scripts/main.py:222-253 | reference definition of the combined text; its properties are in the `Tenders.Combined*` lemmas |
| Tenders.CombinedTextAppend | scripts/main.py:224-253 | the combined text of a concatenation of URL lists concatenates, in attachment order |
| Tenders.CombinedSkipsUndelivered | scripts/main.py:228-252 | an attachment without a 200 response, or whose request raises, contributes nothing |
| Tenders.CombinedNoneDelivered | scripts/main.py:222-252 | with no delivered attachment the combined text is `""` |
| Tenders.CombinedSingle | scripts/main.py:228-248 | unfolding lemma: a delivered attachment contributes `--- From <basename> ---` around its cleaned, possibly OCR-retried text |
| Tenders.AttachmentTextClean | scripts/main.py:245 | every section body has the clean shape |
| Tenders.PdfTypeRoutesToPdf | scripts/main.py:232-239 | a URL with a dot whose file type is `pdf` is routed to the PDF extractor |
| Tenders.RetryRedundant | scripts/main.py:236-245 | for a URL with a dot, the OCR retry never changes the section body |
| Tenders.RetryWithoutDot | scripts/main.py:232-242 | the retry does change the result for the dotless URL `pdf`, which the dispatcher calls unsupported |
| Tenders.ExtractAttachment | scripts/main.py:229-245 | the per-attachment steps return the reference section body |
| Tenders.CombineAttachments | scripts/main.py:222-253 | the attachment loop returns the reference combined text |
| Tenders.TenderTexts | scripts/main.py:218-255 | reference definition: the closed form that the tender loop `Tenders.ExtractTenderTexts` is proved equal to, one combined text per tender, in table order |
| Tenders.ExtractTenderTexts | scripts/main.py:218-255 | the tender loop returns the reference list of texts |

## Left out

- HTTP requests and HTML parsing (requests, BeautifulSoup) are I/O. Their outcomes are parameters: a listing's status and cards, a posting's status, heading and links, a download's status and reader outcomes, or a raised request.
- The third-party readers are foreign code. What each yields on a byte string is part of the input blob: PyPDF2, PyMuPDF rasterisation, Tesseract, python-docx, pandas `read_excel`/`read_csv`/`to_string`, `zipfile` and `bytes.decode`. The contents of the bytes are not modelled.
- Unicode NFKC is an abstract function. Its tables are not modelled.
- Strings.Lower: maps ASCII and Latin-1 capitals only; the rest of Unicode case mapping is not modelled.
- The docx temporary file: its creation and the fact that it is never deleted are file-system effects.
- `datetime.now()` and the target date string are left out; the target date is a parameter. The `print` logging is left out.
- The webhook loop (`scripts/main.py:264-297`) is I/O with `time.sleep`. It reads `Extracted_Text` from `df_filtered`, which was copied before that column was added.
- `scripts/tanmia_bot.py` is not part of this model. It repeats the crawl and the webhook posting.
- Raised requests in the crawl are not modelled: a listing request (`scripts/main.py:164`) or a posting request (`scripts/main.py:191`) that raises aborts the script, since neither sits in a `try`, and a posting link without `href` raises `KeyError` at `scripts/main.py:188`. In the model every request answers with a status, and a card's link is present or absent.
- Requests are functions of the URL: `listing`, `fetch` and `download` answer two requests to the same URL alike, whereas the source sends a separate `requests.get` each time (`scripts/main.py:164`, `scripts/main.py:191`, `scripts/main.py:227`). This shows for an attachment URL listed twice in one posting, or a posting linked from two cards; no lemma relies on it.
- Tenders.RetryRedundant: holds only because the model gives both OCR runs on the same bytes the same outcome; a non-deterministic OCR engine is not modelled.
- Tenders.ExtractAttachment: an exception from the extractors is not modelled, because every extractor catches its own exceptions. Only a raising request reaches the handler at `scripts/main.py:251`.
- Floating-point and pandas' rendering of tables are not modelled; a rendered table is just a string.
