/** The listing crawl of scripts/main.py:158-201: up to five listing pages,
    newest first, collecting the tenders posted on the target date and
    stopping at the first post from another date. Both HTTP requests and
    the HTML parsing are abstract: a listing page is its status and its post
    cards, an article page is its status, its heading and its attachment
    links. */
module Scrape {
  import opened Strings

  datatype Option<T> = None | Some(value: T)

  /** One `article.elementor-post` of a listing page: the text of its date
      span, if any, and the `href` of its title link, if it has a title with
      a link. */
  datatype Card = Card(date: Option<string>, link: Option<string>)

  datatype Listing = Listing(status: int, cards: seq<Card>)

  /** An article page: the status, the text of its first `h1`, if any, and
      the `href` of every `.post-attachments a[href]`, in document order. */
  datatype Article = Article(status: int, heading: Option<string>, attachments: seq<string>)

  /** One row of the results table. */
  datatype Tender = Tender(title: string, url: string, attachments: seq<string>)

  const BaseUrl: string := "https://tanmia.ma/appels-doffres/"
  const MaxPages: nat := 5

  /** `f"{BASE_URL}{page_num}/"`. */
  function PageUrl(page: nat): string
  {
    BaseUrl + NatToString(page) + "/"
  }

  /** The row recorded for an article fetched from `url`: its stripped heading,
      or `Untitled` when it has none. */
  function TenderOf(url: string, page: Article): Tender
  {
    Tender(if page.heading.Some? then Strip(page.heading.value) else "Untitled", url, page.attachments)
  }

  /** What one listing page contributes: the tenders collected, and whether
      a post from another date was met, which ends the whole crawl. */
  datatype Collected = Collected(tenders: seq<Tender>, stopped: bool)

  /** A card whose date is present and, stripped, is not the target: it ends
      the crawl. */
  predicate StopsCrawl(target: string, c: Card)
  {
    c.date.Some? && Strip(c.date.value) != target
  }

  /** What one card that does not stop the crawl contributes: nothing when
      it has no date, no title link, or an article that does not load, and
      its article's row otherwise. */
  function CardTenders(target: string, fetch: string -> Article, c: Card): seq<Tender>
  {
    if c.date.Some? && c.link.Some? && fetch(c.link.value).status == 200
    then [TenderOf(c.link.value, fetch(c.link.value))]
    else []
  }

  /** The walk over the post cards of one listing page, up to the first card
      that stops the crawl. */
  function Collect(target: string, fetch: string -> Article, cards: seq<Card>): Collected
  {
    if cards == [] then Collected([], false)
    else if StopsCrawl(target, cards[0]) then Collected([], true)
    else
      var rest := Collect(target, fetch, cards[1..]);
      Collected(CardTenders(target, fetch, cards[0]) + rest.tenders, rest.stopped)
  }

  /** Before the first stopping card, the cards are handled one after
      another: a page's tenders are its front's followed by its back's. */
  lemma {:induction false} CollectAppend(target: string, fetch: string -> Article, a: seq<Card>, b: seq<Card>)
    requires !Collect(target, fetch, a).stopped
    ensures Collect(target, fetch, a + b).tenders == Collect(target, fetch, a).tenders + Collect(target, fetch, b).tenders
    ensures Collect(target, fetch, a + b).stopped == Collect(target, fetch, b).stopped
  {
    if a == [] {
      assert a + b == b;
    } else {
      ConsSplit(a, b);
      CollectAppend(target, fetch, a[1..], b);
      var head := CardTenders(target, fetch, a[0]);
      var front := Collect(target, fetch, a[1..]).tenders;
      var back := Collect(target, fetch, b).tenders;
      assert Collect(target, fetch, a + b).tenders == head + (front + back);
      ConcatAssoc(head, front, back);
    }
  }

  /** Once a stopping card has been met, later cards change nothing. */
  lemma {:induction false} CollectStopped(target: string, fetch: string -> Article, a: seq<Card>, b: seq<Card>)
    requires Collect(target, fetch, a).stopped
    ensures Collect(target, fetch, a + b) == Collect(target, fetch, a)
  {
    if a != [] {
      ConsSplit(a, b);
      if !StopsCrawl(target, a[0]) {
        CollectStopped(target, fetch, a[1..], b);
      }
    }
  }

  /** A page is stopped exactly when one of its cards stops the crawl. */
  lemma {:induction false} CollectStoppedIff(target: string, fetch: string -> Article, cards: seq<Card>)
    ensures Collect(target, fetch, cards).stopped <==> exists j :: 0 <= j < |cards| && StopsCrawl(target, cards[j])
  {
    if cards != [] {
      CollectStoppedIff(target, fetch, cards[1..]);
      if exists j :: 0 <= j < |cards[1..]| && StopsCrawl(target, cards[1..][j]) {
        var j :| 0 <= j < |cards[1..]| && StopsCrawl(target, cards[1..][j]);
        assert StopsCrawl(target, cards[j + 1]);
      }
      if exists j :: 0 <= j < |cards| && StopsCrawl(target, cards[j]) {
        var j :| 0 <= j < |cards| && StopsCrawl(target, cards[j]);
        if j > 0 {
          assert StopsCrawl(target, cards[1..][j - 1]);
        }
      }
    }
  }

  /** Without a stopping card, a page contributes every card's row in order:
      the row of each dated target-day card with a title link whose article
      loads. */
  lemma {:induction false} CollectAll(target: string, fetch: string -> Article, cards: seq<Card>)
    requires forall j :: 0 <= j < |cards| ==> !StopsCrawl(target, cards[j])
    ensures !Collect(target, fetch, cards).stopped
    ensures Collect(target, fetch, cards).tenders == CardsTenders(target, fetch, cards)
  {
    if cards != [] {
      CollectAll(target, fetch, cards[1..]);
    }
  }

  /** The rows of the cards taken one by one, in order. */
  function CardsTenders(target: string, fetch: string -> Article, cards: seq<Card>): seq<Tender>
  {
    if cards == [] then [] else CardTenders(target, fetch, cards[0]) + CardsTenders(target, fetch, cards[1..])
  }

  /** Every collected row comes from a card of the page dated on the target
      day, whose title link loads, and is that article's row. */
  lemma {:induction false} CollectSound(target: string, fetch: string -> Article, cards: seq<Card>)
    ensures forall t :: t in Collect(target, fetch, cards).tenders ==>
      exists j :: 0 <= j < |cards| && CardTenders(target, fetch, cards[j]) == [t]
  {
    if cards != [] {
      CollectSound(target, fetch, cards[1..]);
      forall t | t in Collect(target, fetch, cards).tenders
        ensures exists j :: 0 <= j < |cards| && CardTenders(target, fetch, cards[j]) == [t]
      {
        if t !in Collect(target, fetch, cards[1..]).tenders {
          assert CardTenders(target, fetch, cards[0]) == [t];
        } else {
          var j :| 0 <= j < |cards[1..]| && CardTenders(target, fetch, cards[1..][j]) == [t];
          assert cards[1..][j] == cards[j + 1];
        }
      }
    }
  }

  /** The tenders of the listing pages from `page` on. A page that does not
      load ends the crawl, and so does a page that met a post from another
      date, after its own tenders. */
  function ScrapeFrom(target: string, listing: string -> Listing, fetch: string -> Article, page: nat): seq<Tender>
    decreases MaxPages + 1 - page
  {
    if page > MaxPages then []
    else
      var l := listing(PageUrl(page));
      if l.status != 200 then []
      else
        var c := Collect(target, fetch, l.cards);
        c.tenders + (if c.stopped then [] else ScrapeFrom(target, listing, fetch, page + 1))
  }

  /** The whole crawl: listing pages 1 to 5. */
  function Scrape(target: string, listing: string -> Listing, fetch: string -> Article): seq<Tender>
  {
    ScrapeFrom(target, listing, fetch, 1)
  }

  /** A page that meets a post from another date is the last one read. */
  lemma ScrapeStopsAtMismatch(target: string, listing: string -> Listing, fetch: string -> Article, page: nat)
    requires 1 <= page <= MaxPages && listing(PageUrl(page)).status == 200
    requires exists j :: 0 <= j < |listing(PageUrl(page)).cards| && StopsCrawl(target, listing(PageUrl(page)).cards[j])
    ensures ScrapeFrom(target, listing, fetch, page) == Collect(target, fetch, listing(PageUrl(page)).cards).tenders
  {
    CollectStoppedIff(target, fetch, listing(PageUrl(page)).cards);
  }

  lemma CollectSingle(target: string, fetch: string -> Article, c: Card)
    ensures Collect(target, fetch, [c])
         == if StopsCrawl(target, c) then Collected([], true) else Collected(CardTenders(target, fetch, c), false)
  {
    assert [c][1..] == [];
    assert CardTenders(target, fetch, c) + [] == CardTenders(target, fetch, c);
  }

  /** A listing page that loads contributes its tenders, then the crawl goes
      on to the next page unless this one met a post from another date. */
  lemma ScrapeFromStep(target: string, listing: string -> Listing, fetch: string -> Article, page: nat)
    requires 1 <= page <= MaxPages && listing(PageUrl(page)).status == 200
    ensures var c := Collect(target, fetch, listing(PageUrl(page)).cards);
      ScrapeFrom(target, listing, fetch, page)
        == c.tenders + (if c.stopped then [] else ScrapeFrom(target, listing, fetch, page + 1))
  {
  }

  /** The inner loop of the source over the post cards of one listing page:
      appends the page's tenders to `results` and reports whether a post
      from another date was met. */
  method CollectPage(target: string, fetch: string -> Article, cards: seq<Card>, results: seq<Tender>)
    returns (extended: seq<Tender>, stopScraping: bool)
    ensures extended == results + Collect(target, fetch, cards).tenders
    ensures stopScraping == Collect(target, fetch, cards).stopped
  {
    extended := results;
    stopScraping := false;
    var j := 0;
    while j < |cards|
      invariant 0 <= j <= |cards|
      invariant !Collect(target, fetch, cards[..j]).stopped
      invariant extended == results + Collect(target, fetch, cards[..j]).tenders
    {
      var card := cards[j];
      ghost var before := Collect(target, fetch, cards[..j]).tenders;
      CollectAppend(target, fetch, cards[..j], [card]);
      CollectSingle(target, fetch, card);
      TakeSnoc(cards, j);
      if card.date.Some? {
        var postDate := Strip(card.date.value);
        if postDate != target {
          CollectStopped(target, fetch, cards[..j + 1], cards[j + 1..]);
          TakeDrop(cards, j + 1);
          assert before + [] == before;
          stopScraping := true;
          return;
        }
        if card.link.Some? {
          var articleUrl := card.link.value;
          var page := fetch(articleUrl);
          if page.status == 200 {
            extended := extended + [TenderOf(articleUrl, page)];
          }
        }
      }
      assert extended == (results + before) + CardTenders(target, fetch, card);
      ConcatAssoc(results, before, CardTenders(target, fetch, card));
      j := j + 1;
    }
    assert cards[..j] == cards;
  }

  /** The outer loop of the source over listing pages 1 to 5, with its
      `stop_scraping` flag. */
  method ScrapeListings(target: string, listing: string -> Listing, fetch: string -> Article) returns (results: seq<Tender>)
    ensures results == Scrape(target, listing, fetch)
  {
    results := [];
    var pageNum := 1;
    while pageNum <= MaxPages
      invariant 1 <= pageNum <= MaxPages + 1
      invariant results + ScrapeFrom(target, listing, fetch, pageNum) == Scrape(target, listing, fetch)
      decreases MaxPages + 1 - pageNum
    {
      var resp := listing(PageUrl(pageNum));
      if resp.status != 200 {
        assert ScrapeFrom(target, listing, fetch, pageNum) == [];
        assert results + [] == results;
        break;
      }
      ghost var start := results;
      var stopScraping;
      results, stopScraping := CollectPage(target, fetch, resp.cards, results);
      ghost var c := Collect(target, fetch, resp.cards);
      ScrapeFromStep(target, listing, fetch, pageNum);
      if stopScraping {
        assert results == start + ScrapeFrom(target, listing, fetch, pageNum);
        break;
      }
      ghost var rest := ScrapeFrom(target, listing, fetch, pageNum + 1);
      ConcatAssoc(start, c.tenders, rest);
      pageNum := pageNum + 1;
    }
  }
}
