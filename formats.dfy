/** The routing decision of `extract_text_by_type` (scripts/main.py:137-155)
    and the member filter of `extract_text_from_zip` (scripts/main.py:126),
    as a total map from a file name to a format. */
module Formats {
  import opened Strings

  datatype Format = Pdf | Docx | Xlsx | Csv | Zip | Txt | Unsupported

  /** The six extensions the dispatcher knows; pairwise, no name can end in two of them. */
  lemma SuffixesExclusive(n: string)
    ensures EndsWith(n, ".pdf") ==> !EndsWith(n, ".docx") && !EndsWith(n, ".xlsx") && !EndsWith(n, ".csv")
                                    && !EndsWith(n, ".zip") && !EndsWith(n, ".txt")
    ensures EndsWith(n, ".docx") ==> !EndsWith(n, ".xlsx") && !EndsWith(n, ".csv")
                                     && !EndsWith(n, ".zip") && !EndsWith(n, ".txt")
    ensures EndsWith(n, ".xlsx") ==> !EndsWith(n, ".csv") && !EndsWith(n, ".zip") && !EndsWith(n, ".txt")
    ensures EndsWith(n, ".csv") ==> !EndsWith(n, ".zip") && !EndsWith(n, ".txt")
    ensures EndsWith(n, ".zip") ==> !EndsWith(n, ".txt")
  {
    if |n| >= 4 {
      LastTwo(n, ".pdf");
      LastTwo(n, ".docx");
      LastTwo(n, ".xlsx");
      LastTwo(n, ".csv");
      LastTwo(n, ".zip");
      LastTwo(n, ".txt");
    }
  }

  lemma LastTwo(n: string, suffix: string)
    requires |suffix| >= 2
    ensures EndsWith(n, suffix) ==> n[|n| - 1] == suffix[|suffix| - 1] && n[|n| - 2] == suffix[|suffix| - 2]
  {
    if EndsWith(n, suffix) {
      EndsWithAt(n, suffix, |suffix| - 1);
      EndsWithAt(n, suffix, |suffix| - 2);
    }
  }

  /** The format `extract_text_by_type` routes a file name to: decided by the
      lower-cased name's extension alone, one format per extension, and
      `Unsupported` for every other name. Because the extensions are pairwise
      exclusive the order of the tests does not matter. */
  function FormatOf(name: string): (f: Format)
    ensures f == Pdf <==> EndsWith(Lower(name), ".pdf")
    ensures f == Docx <==> EndsWith(Lower(name), ".docx")
    ensures f == Xlsx <==> EndsWith(Lower(name), ".xlsx")
    ensures f == Csv <==> EndsWith(Lower(name), ".csv")
    ensures f == Zip <==> EndsWith(Lower(name), ".zip")
    ensures f == Txt <==> EndsWith(Lower(name), ".txt")
    ensures f == Unsupported <==> !(EndsWith(Lower(name), ".pdf") || EndsWith(Lower(name), ".docx")
                                    || EndsWith(Lower(name), ".xlsx") || EndsWith(Lower(name), ".csv")
                                    || EndsWith(Lower(name), ".zip") || EndsWith(Lower(name), ".txt"))
  {
    var n := Lower(name);
    SuffixesExclusive(n);
    if EndsWith(n, ".pdf") then Pdf
    else if EndsWith(n, ".docx") then Docx
    else if EndsWith(n, ".xlsx") then Xlsx
    else if EndsWith(n, ".csv") then Csv
    else if EndsWith(n, ".zip") then Zip
    else if EndsWith(n, ".txt") then Txt
    else Unsupported
  }

  /** Two names that agree once lower-cased are routed alike. */
  lemma FormatIgnoresCase(a: string, b: string)
    requires Lower(a) == Lower(b)
    ensures FormatOf(a) == FormatOf(b)
  {
  }

  lemma ReportPdfMixedCase()
    ensures FormatOf("report.PDF") == FormatOf("report.pdf") == Pdf
  {
    PdfSuffixLower();
    LowerEndsWith("report.PDF", ".PDF");
    LowerEndsWith("report.pdf", ".pdf");
  }

  lemma PdfSuffixLower()
    ensures Lower(".PDF") == ".pdf" && Lower(".pdf") == ".pdf"
  {
    assert LowerChar('P') == 'p' && LowerChar('D') == 'd' && LowerChar('F') == 'f';
    assert LowerChar('p') == 'p' && LowerChar('d') == 'd' && LowerChar('f') == 'f' && LowerChar('.') == '.';
  }

  /** The case-sensitive member filter of `extract_text_from_zip`. */
  predicate Admitted(name: string)
  {
    EndsWith(name, ".pdf") || EndsWith(name, ".docx") || EndsWith(name, ".doc")
    || EndsWith(name, ".csv") || EndsWith(name, ".xlsx") || EndsWith(name, ".txt")
  }

  lemma LowerFixes(suffix: string)
    requires forall k :: 0 <= k < |suffix| ==> 'a' <= suffix[k] <= 'z' || suffix[k] == '.'
    ensures forall k :: 0 <= k < |suffix| ==> LowerChar(suffix[k]) == suffix[k]
  {
  }

  /** An admitted member is never routed to the archive extractor, so an
      archive inside an archive is never opened; a `.doc` member is admitted
      but routed to `Unsupported`; every other admitted member gets a
      dedicated extractor. */
  lemma AdmittedRouting(name: string)
    requires Admitted(name)
    ensures FormatOf(name) != Zip
    ensures EndsWith(name, ".doc") <==> FormatOf(name) == Unsupported
  {
    var n := Lower(name);
    LowerFixes(".pdf"); LowerFixes(".docx"); LowerFixes(".doc");
    LowerFixes(".csv"); LowerFixes(".xlsx"); LowerFixes(".txt");
    if EndsWith(name, ".pdf") { LowerKeepsSuffix(name, ".pdf"); LastTwo(name, ".pdf"); }
    if EndsWith(name, ".docx") { LowerKeepsSuffix(name, ".docx"); LastTwo(name, ".docx"); }
    if EndsWith(name, ".csv") { LowerKeepsSuffix(name, ".csv"); LastTwo(name, ".csv"); }
    if EndsWith(name, ".xlsx") { LowerKeepsSuffix(name, ".xlsx"); LastTwo(name, ".xlsx"); }
    if EndsWith(name, ".txt") { LowerKeepsSuffix(name, ".txt"); LastTwo(name, ".txt"); }
    if EndsWith(name, ".doc") {
      LowerKeepsSuffix(name, ".doc");
      LastTwo(n, ".doc");
      LastTwo(n, ".pdf"); LastTwo(n, ".docx"); LastTwo(n, ".xlsx");
      LastTwo(n, ".csv"); LastTwo(n, ".zip"); LastTwo(n, ".txt");
    } else {
      LastTwo(name, ".doc");
    }
    SuffixesExclusive(n);
  }

  lemma UpperCaseMemberSkipped()
    ensures !Admitted("SCAN.PDF") && FormatOf("SCAN.PDF") == Pdf
  {
    LastTwo("SCAN.PDF", ".pdf"); LastTwo("SCAN.PDF", ".docx"); LastTwo("SCAN.PDF", ".doc");
    LastTwo("SCAN.PDF", ".csv"); LastTwo("SCAN.PDF", ".xlsx"); LastTwo("SCAN.PDF", ".txt");
    PdfSuffixLower();
    LowerEndsWith("SCAN.PDF", ".PDF");
  }
}
