/** The title keyword filter of scripts/main.py:205-213: a tender is kept
    when its lower-cased title contains none of nine excluded words. */
module TitleFilter {
  import opened Strings
  import opened Scrape

  const ExcludedWords: seq<string> := [
    "construction", "installation", "travaux",
    "fourniture", "achat", "equipement", "supply", "acquisition", "nettoyage"
  ]

  /** The regular expression `construction|installation|…` finds a match in
      the lower-cased title exactly when one of the words occurs in it. */
  predicate Excluded(title: string)
  {
    exists k :: 0 <= k < |ExcludedWords| && Contains(Lower(title), ExcludedWords[k])
  }

  /** The rows whose title is not excluded, in table order. An empty table is
      passed through as it is. */
  function FilterRelevant(tenders: seq<Tender>): seq<Tender>
  {
    if tenders == [] then []
    else (if Excluded(tenders[0].title) then [] else [tenders[0]]) + FilterRelevant(tenders[1..])
  }

  /** A row is kept exactly when it is a row of the table whose title
      contains none of the excluded words. */
  lemma {:induction false} FilterRelevantMembers(tenders: seq<Tender>)
    ensures forall t :: t in FilterRelevant(tenders) <==> t in tenders && !Excluded(t.title)
  {
    if tenders != [] {
      FilterRelevantMembers(tenders[1..]);
      assert tenders == [tenders[0]] + tenders[1..];
    }
  }

  /** Filtering keeps the order of the table: the kept rows of a table are
      the kept rows of its front followed by those of its back. */
  lemma {:induction false} FilterRelevantAppend(a: seq<Tender>, b: seq<Tender>)
    ensures FilterRelevant(a + b) == FilterRelevant(a) + FilterRelevant(b)
  {
    if a == [] {
      assert a + b == b;
    } else {
      ConsSplit(a, b);
      FilterRelevantAppend(a[1..], b);
      ConcatAssoc(if Excluded(a[0].title) then [] else [a[0]], FilterRelevant(a[1..]), FilterRelevant(b));
    }
  }

  /** A table without excluded titles is kept whole. */
  lemma {:induction false} FilterRelevantKeepsAll(tenders: seq<Tender>)
    requires forall i :: 0 <= i < |tenders| ==> !Excluded(tenders[i].title)
    ensures FilterRelevant(tenders) == tenders
  {
    if tenders != [] {
      FilterRelevantKeepsAll(tenders[1..]);
      assert tenders == [tenders[0]] + tenders[1..];
    }
  }

  /** The test is on the lower-cased title: a capitalised excluded word
      excludes the row too. */
  lemma CapitalisedWordExcluded(url: string, attachments: seq<string>)
    ensures FilterRelevant([Tender("Achat de matériel", url, attachments)]) == []
  {
    var title := "Achat de matériel";
    assert Lower(title)[..5] == "achat";
    assert ExcludedWords[4] == "achat";
    assert Contains(Lower(title), ExcludedWords[4]);
    assert [Tender(title, url, attachments)][1..] == [];
  }
}
