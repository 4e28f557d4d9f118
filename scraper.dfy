/** The crawl controller and review extractor of `scraper.py`.

    The browser is replaced by its observable results: for every product, the outcome
    of each of the `PAGES_PER_PRODUCT` page requests it may make, and for every page
    that loads, its review blocks. The CSV file is a `ReviewsCsv` object holding an
    existence flag and its lines. */
module Scraper {
  import opened Strings
  import opened Reviews

  const PAGES_PER_PRODUCT: nat := 10
  const SCRAPE_DATE: string := "2025-01-20"
  const VERIFIED_YES: string := "Yes"
  const UNKNOWN_SHOE: string := "Unknown Shoe"
  const BADGE: string := "Verified Buyer"
  const MIN_TEXT_LENGTH: nat := 10


  /** A `div.user-review` block: either its star count and its text as extracted by
      the HTML parser, or a block whose processing raised. */
  datatype Block = Ok(activeStars: nat, rawText: string) | Fail

  /** One page request: the fetch or the parse raised, or the page loaded with these blocks. */
  datatype PageOutcome = Failure | Page(blocks: seq<Block>)

  // ---------------------------------------------------------------------------
  // Product name and page addresses

  /** `link.split('#')[0]`: the link up to its first `#`. */
  function CleanLink(link: string): (r: string)
    ensures '#' !in r
    ensures r <= link
    ensures |r| < |link| ==> link[|r|] == '#'
  {
    var pieces := Split(link, '#');
    JoinSplit(link, '#');
    assert |pieces| > 1 ==> link == pieces[0] + ['#'] + Join(pieces[1..], '#');
    pieces[0]
  }

  /** `clean_link.split('/')[-2].replace('-', ' ').title()`, with the `IndexError` of a
      link without `/` caught and replaced by "Unknown Shoe". */
  function ProductName(link: string): string {
    var parts := Split(CleanLink(link), '/');
    if |parts| < 2 then UNKNOWN_SHOE
    else Title(ReplaceAll(parts[|parts| - 2], "-", " "))
  }

  /** `review_url_base.format(page)`, where `review_url_base` is the link followed by
      `/reviews?page={}`: the trailing field takes the page number. A brace of the
      link that is not doubled opens or closes another field, and `format` then
      raises: a second automatic field has no argument left, a numbered or named
      field cannot be mixed with the automatic one, and a lone brace is malformed.
      That is `None`. */
  function ReviewPageUrl(cleanLink: string, page: nat): Option<string> {
    match FormatLiteral(cleanLink)
    case None => None
    case Some(literal) => Some(literal + "/reviews?page=" + Decimal(page))
  }

  /** The segment the name is built from is the `/`-free text that ends at the last
      `/` of the truncated link and starts right after the `/` before it (or at the
      start). */
  lemma {:induction false} SecondToLastSegment(link: string)
    requires '/' in CleanLink(link)
    ensures var clean := CleanLink(link);
            var parts := Split(clean, '/');
            var seg := parts[|parts| - 2];
            '/' !in seg &&
            exists i: nat, j: nat {:trigger clean[i..j]} ::
              i <= j < |clean| && clean[i..j] == seg && clean[j] == '/' &&
              '/' !in clean[j + 1..] && (i == 0 || clean[i - 1] == '/')
  {
    SplitSecondToLast(CleanLink(link), '/');
  }

  /** The name has no `/`, `#` or `-`; a truncated link without `/` is "Unknown Shoe". */
  lemma {:induction false} ProductNameShape(link: string)
    ensures '/' !in CleanLink(link) ==> ProductName(link) == UNKNOWN_SHOE
    ensures '/' !in ProductName(link) && '#' !in ProductName(link) && '-' !in ProductName(link)
  {
    var clean := CleanLink(link);
    var parts := Split(clean, '/');
    if |parts| >= 2 {
      var seg := parts[|parts| - 2];
      SplitChars(clean, '/');
      assert '#' !in seg && '/' !in seg;
      var dashless := ReplaceAll(seg, "-", " ");
      assert "-" == ['-'];
      ReplaceChars(seg, "-", " ");
      ReplaceCharRemoves(seg, '-', " ");
      assert '#' !in dashless && '/' !in dashless && '-' !in dashless;
      TitleNonLetters(dashless);
    }
  }

  /** A link made of one `/`-free, `#`-free segment between two slashes is named after
      that segment. */
  lemma {:induction false} ProductNameOfSegment(seg: string)
    requires '/' !in seg && '#' !in seg
    ensures '/' in CleanLink("/" + seg + "/")
    ensures ProductName("/" + seg + "/") == Title(ReplaceAll(seg, "-", " "))
  {
    var link := "/" + seg + "/";
    assert '#' !in link;
    assert CleanLink(link) == link;
    var pieces := [[], seg, []];
    assert Join(pieces, '/') == link by {
      assert Join(pieces[1..], '/') == seg + ['/'] + Join(pieces[2..], '/');
    }
    SplitJoin(pieces, '/');
  }

  /** The fallback is not the only way to that name: a link with a `/` whose segment
      reads "Unknown Shoe" gets it too, so only one direction of "the name is
      Unknown Shoe exactly when the link has no `/`" holds. */
  lemma UnknownShoeWithSlash()
    ensures var link := "/" + UNKNOWN_SHOE + "/";
            '/' in CleanLink(link) && ProductName(link) == UNKNOWN_SHOE
  {
    var name := UNKNOWN_SHOE;
    assert '-' !in name && '/' !in name && '#' !in name;
    assert TitleCasedFrom(UNKNOWN_SHOE, 0);
    TitleOfTitleCased(name);
    ProductNameOfSegment(name);
    assert "-" == ['-'];
    ReplaceCharAbsent(name, '-', " ");
  }

  /** Different pages of a product have different addresses; whether an address
      can be built at all does not depend on the page. */
  lemma {:induction false} ReviewPageUrlInjective(cleanLink: string, p: nat, q: nat)
    ensures ReviewPageUrl(cleanLink, p).None? <==> ReviewPageUrl(cleanLink, q).None?
    ensures ReviewPageUrl(cleanLink, p).Some? ==>
      (ReviewPageUrl(cleanLink, p) == ReviewPageUrl(cleanLink, q) <==> p == q)
  {
    if FormatLiteral(cleanLink).Some? && ReviewPageUrl(cleanLink, p) == ReviewPageUrl(cleanLink, q) {
      var prefix := FormatLiteral(cleanLink).value + "/reviews?page=";
      assert Decimal(p) == ReviewPageUrl(cleanLink, p).value[|prefix|..];
      assert Decimal(q) == ReviewPageUrl(cleanLink, q).value[|prefix|..];
      DecimalInjective(p, q);
    }
  }

  /** A link without braces gives the address `clean_link + "/reviews?page=" + str(p)`. */
  lemma PlainReviewPageUrl(cleanLink: string, page: nat)
    requires forall k :: 0 <= k < |cleanLink| ==> !IsBrace(cleanLink[k])
    ensures ReviewPageUrl(cleanLink, page) == Some(cleanLink + "/reviews?page=" + Decimal(page))
  {
    FormatLiteralPlain(cleanLink);
  }

  /** A link with a brace that is not doubled, after a well-formed start, gives no
      address for any page. */
  lemma BracedReviewPageUrl(before: string, after: string, page: nat)
    requires FormatLiteral(before).Some?
    requires after != [] && IsBrace(after[0]) && (|after| < 2 || after[1] != after[0])
    ensures ReviewPageUrl(before + after, page) == None
  {
    FormatLiteralLoneBrace([], after);
    assert [] + after == after;
    FormatLiteralAppend(before, after);
  }

  /** The link `a{{b}c`: its `}` is not doubled, so no address is built. */
  lemma LateLoneBrace(page: nat)
    ensures ReviewPageUrl("a" + "{{" + "b" + "}" + "c", page) == None
  {
    var before := "a" + "{{" + "b";
    FormatLiteralDoubledBrace("a", '{', "b");
    assert "a" + ['{', '{'] + "b" == before;
    BracedReviewPageUrl(before, "}" + "c", page);
    assert before + ("}" + "c") == "a" + "{{" + "b" + "}" + "c";
  }

  // ---------------------------------------------------------------------------
  // Review extraction

  /** `raw_text.replace("\n", " ").replace("Verified Buyer", "")` */
  function NormaliseText(raw: string): string {
    ReplaceAll(ReplaceAll(raw, "\n", " "), BADGE, "")
  }

  /** Normalised text holds no line feed. */
  lemma {:induction false} NormaliseRemovesNewlines(raw: string)
    ensures '\n' !in NormaliseText(raw)
  {
    assert "\n" == ['\n'];
    ReplaceCharRemoves(raw, '\n', " ");
    ReplaceChars(ReplaceAll(raw, "\n", " "), BADGE, "");
  }

  /** The records one block contributes: none for a block that raised or whose
      normalised text has at most ten characters, otherwise exactly one. */
  function BlockRecords(name: string, b: Block): seq<Review> {
    match b
    case Fail => []
    case Ok(stars, raw) =>
      var text := NormaliseText(raw);
      if |text| > MIN_TEXT_LENGTH then [Review(name, text, stars, SCRAPE_DATE, VERIFIED_YES)] else []
  }

  /** The records a page's blocks contribute, in block order. */
  function PageRecords(name: string, blocks: seq<Block>): seq<Review> {
    Concat(seq(|blocks|, k requires 0 <= k < |blocks| => BlockRecords(name, blocks[k])))
  }

  lemma {:induction false} PageRecordsAppend(name: string, a: seq<Block>, b: seq<Block>)
    ensures PageRecords(name, a + b) == PageRecords(name, a) + PageRecords(name, b)
  {
    var ba := seq(|a|, k requires 0 <= k < |a| => BlockRecords(name, a[k]));
    var bb := seq(|b|, k requires 0 <= k < |b| => BlockRecords(name, b[k]));
    var ab := a + b;
    assert seq(|ab|, k requires 0 <= k < |ab| => BlockRecords(name, ab[k])) == ba + bb;
    ConcatAppend(ba, bb);
  }

  lemma {:induction false} PageRecordsSingle(name: string, b: Block)
    ensures PageRecords(name, [b]) == BlockRecords(name, b)
  {
    var bs := seq(1, k requires 0 <= k < 1 => BlockRecords(name, [b][k]));
    assert bs == [] + [BlockRecords(name, b)];
    ConcatSnoc([], BlockRecords(name, b));
  }

  /** What a stored record looks like. */
  predicate ScrapedRecord(name: string, r: Review) {
    r.productName == name && r.reviewDate == SCRAPE_DATE && r.verified == VERIFIED_YES &&
    |r.reviewText| > MIN_TEXT_LENGTH && '\n' !in r.reviewText
  }

  /** Every record of a page is made from one of its blocks that did not raise: its
      rating is that block's active-star count and its text that block's normalised text. */
  lemma {:induction false} PageRecordsFromBlocks(name: string, blocks: seq<Block>)
    ensures forall r :: r in PageRecords(name, blocks) ==>
      ScrapedRecord(name, r) &&
      exists k :: (0 <= k < |blocks| && blocks[k].Ok? &&
        r.rating == blocks[k].activeStars && r.reviewText == NormaliseText(blocks[k].rawText))
    decreases |blocks|
  {
    if blocks != [] {
      var init, b := blocks[..|blocks| - 1], blocks[|blocks| - 1];
      assert blocks == init + [b];
      PageRecordsAppend(name, init, [b]);
      PageRecordsSingle(name, b);
      PageRecordsFromBlocks(name, init);
      if b.Ok? { NormaliseRemovesNewlines(b.rawText); }
      forall r | r in PageRecords(name, blocks)
        ensures ScrapedRecord(name, r)
        ensures exists k :: (0 <= k < |blocks| && blocks[k].Ok? &&
          r.rating == blocks[k].activeStars && r.reviewText == NormaliseText(blocks[k].rawText))
      {
        if r in PageRecords(name, init) {
          var k :| 0 <= k < |init| && init[k].Ok? &&
            r.rating == init[k].activeStars && r.reviewText == NormaliseText(init[k].rawText);
          assert blocks[k] == init[k];
        } else {
          assert r in BlockRecords(name, b);
        }
      }
    }
  }

  /** A block that raises is skipped and every other block of the page is still
      processed; a block that yields a record puts it between the records of the
      blocks before and after it. */
  lemma {:induction false} BlockIndependence(name: string, before: seq<Block>, b: Block, after: seq<Block>)
    ensures PageRecords(name, before + [b] + after) ==
      PageRecords(name, before) + BlockRecords(name, b) + PageRecords(name, after)
    ensures b == Fail ==>
      PageRecords(name, before + [b] + after) == PageRecords(name, before + after)
  {
    PageRecordsAppend(name, before + [b], after);
    PageRecordsAppend(name, before, [b]);
    PageRecordsSingle(name, b);
    PageRecordsAppend(name, before, after);
  }

  // ---------------------------------------------------------------------------
  // The page loop of one product

  /** The records a page outcome contributes: none for a page that raised. */
  function OutcomeRecords(name: string, o: PageOutcome): seq<Review> {
    match o
    case Failure => []
    case Page(blocks) => PageRecords(name, blocks)
  }

  /** The records of a sequence of requested pages, in page order. */
  function CrawlRecords(name: string, outcomes: seq<PageOutcome>): seq<Review> {
    Concat(seq(|outcomes|, k requires 0 <= k < |outcomes| => OutcomeRecords(name, outcomes[k])))
  }

  lemma {:induction false} CrawlRecordsAppend(name: string, a: seq<PageOutcome>, b: seq<PageOutcome>)
    ensures CrawlRecords(name, a + b) == CrawlRecords(name, a) + CrawlRecords(name, b)
  {
    var ba := seq(|a|, k requires 0 <= k < |a| => OutcomeRecords(name, a[k]));
    var bb := seq(|b|, k requires 0 <= k < |b| => OutcomeRecords(name, b[k]));
    var ab := a + b;
    assert seq(|ab|, k requires 0 <= k < |ab| => OutcomeRecords(name, ab[k])) == ba + bb;
    ConcatAppend(ba, bb);
  }

  lemma {:induction false} CrawlRecordsSingle(name: string, o: PageOutcome)
    ensures CrawlRecords(name, [o]) == OutcomeRecords(name, o)
  {
    var bs := seq(1, k requires 0 <= k < 1 => OutcomeRecords(name, [o][k]));
    assert bs == [] + [OutcomeRecords(name, o)];
    ConcatSnoc([], OutcomeRecords(name, o));
  }

  /** A page whose fetch or parse raised contributes no records and does not disturb
      the records of the other pages. */
  lemma {:induction false} FailedPageContributesNothing(name: string, before: seq<PageOutcome>, after: seq<PageOutcome>)
    ensures CrawlRecords(name, before + [Failure] + after) ==
      CrawlRecords(name, before) + CrawlRecords(name, after)
  {
    CrawlRecordsAppend(name, before + [Failure], after);
    CrawlRecordsAppend(name, before, [Failure]);
    CrawlRecordsSingle(name, Failure);
  }

  /** The number of pages requested when the loop is at page index `i` (0-based):
      every page up to and including the first page that loads empty, or all of them. */
  function RequestCountFrom(pages: seq<PageOutcome>, i: nat): (n: nat)
    requires i <= |pages|
    ensures i <= n <= |pages|
    ensures i < |pages| ==> i < n
    ensures forall q :: i <= q < n - 1 ==> pages[q] != Page([])
    ensures n < |pages| ==> pages[n - 1] == Page([])
    decreases |pages| - i
  {
    if i == |pages| then |pages|
    else if pages[i] == Page([]) then i + 1
    else RequestCountFrom(pages, i + 1)
  }

  function RequestCount(pages: seq<PageOutcome>): nat
    requires |pages| == PAGES_PER_PRODUCT
  {
    RequestCountFrom(pages, 0)
  }

  /** Pages are requested from 1 upwards, at most `PAGES_PER_PRODUCT` of them; the crawl
      goes on past every page that raised or had blocks, and ends at the first page
      that loads without blocks. */
  lemma {:induction false} RequestCountStopsAtFirstEmptyPage(pages: seq<PageOutcome>)
    requires |pages| == PAGES_PER_PRODUCT
    ensures 1 <= RequestCount(pages) <= PAGES_PER_PRODUCT
    ensures forall q :: 0 <= q < RequestCount(pages) - 1 ==> pages[q] != Page([])
    ensures RequestCount(pages) < PAGES_PER_PRODUCT ==> pages[RequestCount(pages) - 1] == Page([])
    ensures forall q :: 0 <= q < PAGES_PER_PRODUCT && pages[q] == Page([]) ==> RequestCount(pages) <= q + 1
  {
  }

  /** The number of pages actually requested for a product: none when no address
      can be built from its truncated link. */
  function RequestedPages(cleanLink: string, pages: seq<PageOutcome>): (n: nat)
    requires |pages| == PAGES_PER_PRODUCT
    ensures n <= PAGES_PER_PRODUCT
  {
    RequestCountStopsAtFirstEmptyPage(pages);
    if FormatLiteral(cleanLink).None? then 0 else RequestCount(pages)
  }

  /** The records of one product, in page order and then block order. */
  function ProductRecords(link: string, pages: seq<PageOutcome>): seq<Review>
    requires |pages| == PAGES_PER_PRODUCT
  {
    CrawlRecords(ProductName(link), pages[..RequestedPages(CleanLink(link), pages)])
  }

  /** A product whose addresses cannot be built yields no records, whatever the
      browser would have returned. */
  lemma UnformattableLinkYieldsNothing(link: string, pages: seq<PageOutcome>)
    requires |pages| == PAGES_PER_PRODUCT
    requires FormatLiteral(CleanLink(link)).None?
    ensures ProductRecords(link, pages) == []
  {
    assert pages[..0] == [];
  }

  /** One more requested page adds its own records after the earlier ones. */
  lemma CrawlStep(name: string, pages: seq<PageOutcome>, p: nat)
    requires p < |pages|
    ensures CrawlRecords(name, pages[..p + 1]) == CrawlRecords(name, pages[..p]) + OutcomeRecords(name, pages[p])
  {
    assert pages[..p + 1] == pages[..p] + [pages[p]];
    CrawlRecordsAppend(name, pages[..p], [pages[p]]);
    CrawlRecordsSingle(name, pages[p]);
  }

  /** A page that loads without blocks is the last one requested and adds nothing. */
  lemma EmptyPageEndsCrawl(name: string, pages: seq<PageOutcome>, p: nat)
    requires p < |pages| && pages[p] == Page([])
    ensures RequestCountFrom(pages, p) == p + 1
    ensures OutcomeRecords(name, pages[p]) == []
  {
    assert PageRecords(name, []) == [];
  }

  /** The loop over the review blocks of one fetched page: returns the records the
      page contributes. */
  method CrawlPage(name: string, blocks: seq<Block>) returns (records: seq<Review>)
    ensures records == PageRecords(name, blocks)
  {
    records := [];
    var j := 0;
    assert PageRecords(name, blocks[..0]) == [] by { assert blocks[..0] == []; }
    while j < |blocks|
      invariant 0 <= j <= |blocks|
      invariant records == PageRecords(name, blocks[..j])
    {
      assert blocks[..j + 1] == blocks[..j] + [blocks[j]];
      PageRecordsAppend(name, blocks[..j], [blocks[j]]);
      PageRecordsSingle(name, blocks[j]);
      match blocks[j] {
      case Fail =>
        // processing the block raised: it is skipped
      case Ok(stars, raw) =>
        var text := NormaliseText(raw);
        if |text| > MIN_TEXT_LENGTH {
          records := records + [Review(name, text, stars, SCRAPE_DATE, VERIFIED_YES)];
        }
      }
      j := j + 1;
    }
    assert blocks[..j] == blocks;
  }

  /** The inner `for page in range(1, PAGES_PER_PRODUCT + 1)` loop with its nested
      block loop: returns the records collected and the addresses requested. */
  method CrawlProduct(cleanLink: string, name: string, pages: seq<PageOutcome>)
    returns (records: seq<Review>, urls: seq<string>)
    requires |pages| == PAGES_PER_PRODUCT
    ensures |urls| == RequestedPages(cleanLink, pages)
    ensures forall k :: 0 <= k < |urls| ==> ReviewPageUrl(cleanLink, k + 1) == Some(urls[k])
    ensures records == CrawlRecords(name, pages[..|urls|])
  {
    records, urls := [], [];
    ghost var plain := FormatLiteral(cleanLink);
    var page := 1;
    assert CrawlRecords(name, pages[..0]) == [] by { assert pages[..0] == []; }
    while page <= PAGES_PER_PRODUCT
      invariant 1 <= page <= PAGES_PER_PRODUCT + 1
      invariant plain.None? ==> urls == []
      invariant plain.Some? ==> |urls| == page - 1
      invariant plain.Some? ==> RequestCountFrom(pages, page - 1) == RequestCount(pages)
      invariant forall k :: 0 <= k < |urls| ==> ReviewPageUrl(cleanLink, k + 1) == Some(urls[k])
      invariant records == CrawlRecords(name, pages[..|urls|])
    {
      var url := ReviewPageUrl(cleanLink, page);
      match url {
      case None =>
        // building the address raised inside the page's try: the page is skipped
      case Some(u) =>
        urls := urls + [u];
        CrawlStep(name, pages, page - 1);
        match pages[page - 1] {
        case Failure =>
          // the fetch or the parse raised: the page is skipped
        case Page(blocks) =>
          if blocks == [] {
            // a page without review blocks ends this product's crawl
            EmptyPageEndsCrawl(name, pages, page - 1);
            break;
          }
          var pageRecords := CrawlPage(name, blocks);
          records := records + pageRecords;
        }
      }
      page := page + 1;
    }
  }

  // ---------------------------------------------------------------------------
  // The CSV file and the product loop

  datatype CsvLine = HeaderLine | RowLine(row: Review)

  function RowLines(rows: seq<Review>): (lines: seq<CsvLine>)
    ensures |lines| == |rows|
    ensures forall k :: 0 <= k < |rows| ==> lines[k] == RowLine(rows[k])
    ensures HeaderLine !in lines
  {
    seq(|rows|, k requires 0 <= k < |rows| => RowLine(rows[k]))
  }

  /** `reviews.csv`: whether it exists and its lines. A file that does not exist is empty. */
  class ReviewsCsv {
    var fileExists: bool
    var lines: seq<CsvLine>

    ghost predicate Valid()
      reads this
    {
      !fileExists ==> lines == []
    }

    constructor Absent()
      ensures Valid() && !fileExists && lines == []
    {
      fileExists := false;
      lines := [];
    }

    constructor Existing(content: seq<CsvLine>)
      ensures Valid() && fileExists && lines == content
    {
      fileExists := true;
      lines := content;
    }

    /** `df.to_csv(CSV_FILE, mode='a', header=not os.path.exists(CSV_FILE))` */
    method AppendRows(rows: seq<Review>)
      requires Valid()
      modifies this
      ensures Valid() && fileExists
      ensures lines == old(lines) + (if old(fileExists) then [] else [HeaderLine]) + RowLines(rows)
    {
      var header := !fileExists;
      lines := lines + (if header then [HeaderLine] else []) + RowLines(rows);
      fileExists := true;
    }
  }

  predicate WellFetched(products: seq<string>, fetched: seq<seq<PageOutcome>>) {
    |fetched| == |products| && forall k :: 0 <= k < |fetched| ==> |fetched[k]| == PAGES_PER_PRODUCT
  }

  /** The records of each product, in list order. */
  function ProductBatches(products: seq<string>, fetched: seq<seq<PageOutcome>>): seq<seq<Review>>
    requires WellFetched(products, fetched)
  {
    seq(|products|, k requires 0 <= k < |products| => ProductRecords(products[k], fetched[k]))
  }

  /** All records of a run, product after product in list order. */
  function RunRecords(products: seq<string>, fetched: seq<seq<PageOutcome>>): seq<Review>
    requires WellFetched(products, fetched)
  {
    Concat(ProductBatches(products, fetched))
  }

  /** The lines a run appends to a file that did or did not exist at its start. */
  function RunLines(existed: bool, rows: seq<Review>): seq<CsvLine> {
    (if !existed && rows != [] then [HeaderLine] else []) + RowLines(rows)
  }

  lemma {:induction false} RowLinesAppend(a: seq<Review>, b: seq<Review>)
    ensures RowLines(a + b) == RowLines(a) + RowLines(b)
  {
  }

  /** What one product adds to the lines of a run: nothing when it has no records,
      otherwise its rows, preceded by the header when no file existed before. */
  lemma {:induction false} RunLinesStep(existed: bool, before: seq<Review>, records: seq<Review>)
    ensures RunLines(existed, before + records) == RunLines(existed, before) +
      (if records == [] then []
       else (if existed || before != [] then [] else [HeaderLine]) + RowLines(records))
  {
    RowLinesAppend(before, records);
    if records == [] {
      assert before + records == before;
    }
  }

  /** One pass of the product loop before the save: truncates the link, derives the
      product name and crawls the product's pages. */
  method ScrapeProduct(link: string, pages: seq<PageOutcome>) returns (records: seq<Review>)
    requires |pages| == PAGES_PER_PRODUCT
    ensures records == ProductRecords(link, pages)
  {
    var cleanLink := CleanLink(link);
    var name := ProductName(link);
    var urls;
    records, urls := CrawlProduct(cleanLink, name, pages);
  }

  lemma {:induction false} LinesStep(initial: seq<CsvLine>, existed: bool, before: seq<Review>,
      records: seq<Review>, oldLines: seq<CsvLine>, oldExists: bool, newLines: seq<CsvLine>)
    requires oldLines == initial + RunLines(existed, before)
    requires oldExists == (existed || before != [])
    requires newLines == if records == [] then oldLines
                         else oldLines + (if oldExists then [] else [HeaderLine]) + RowLines(records)
    ensures newLines == initial + RunLines(existed, before + records)
  {
    RunLinesStep(existed, before, records);
  }

  lemma {:induction false} BatchesStep(
      products: seq<string>, fetched: seq<seq<PageOutcome>>, done: seq<seq<Review>>, records: seq<Review>)
    requires WellFetched(products, fetched) && |done| < |products|
    requires forall k :: 0 <= k < |done| ==> done[k] == ProductRecords(products[k], fetched[k])
    requires records == ProductRecords(products[|done|], fetched[|done|])
    ensures forall k :: 0 <= k < |done| + 1 ==> (done + [records])[k] == ProductRecords(products[k], fetched[k])
  {
  }

  /** `scrape_manual_list()`: crawls every product in order and appends each product's
      records, if it has any, to the file right after its crawl. */
  method ScrapeManualList(csv: ReviewsCsv, products: seq<string>, fetched: seq<seq<PageOutcome>>)
    requires WellFetched(products, fetched)
    requires csv.Valid()
    modifies csv
    ensures csv.Valid()
    ensures csv.fileExists == (old(csv.fileExists) || RunRecords(products, fetched) != [])
    ensures csv.lines == old(csv.lines) + RunLines(old(csv.fileExists), RunRecords(products, fetched))
  {
    ghost var existed, initial := csv.fileExists, csv.lines;
    ghost var done: seq<seq<Review>> := [];
    var i := 0;
    while i < |products|
      invariant 0 <= i <= |products| && |done| == i
      invariant forall k :: 0 <= k < i ==> done[k] == ProductRecords(products[k], fetched[k])
      invariant csv.Valid()
      invariant csv.fileExists == (existed || Concat(done) != [])
      invariant csv.lines == initial + RunLines(existed, Concat(done))
    {
      var records := ScrapeProduct(products[i], fetched[i]);
      ghost var before := Concat(done);
      ConcatSnoc(done, records);
      BatchesStep(products, fetched, done, records);
      ghost var oldLines, oldExists := csv.lines, csv.fileExists;
      if records != [] {
        csv.AppendRows(records);
      }
      LinesStep(initial, existed, before, records, oldLines, oldExists, csv.lines);
      done := done + [records];
      i := i + 1;
    }
    assert done == ProductBatches(products, fetched);
  }

  /** Rows appear in product-list order: the records of the products before a given
      product come first, then its own records, then those of the products after it. */
  lemma {:induction false} RunRecordsInProductOrder(products: seq<string>, fetched: seq<seq<PageOutcome>>, k: nat)
    requires WellFetched(products, fetched) && k < |products|
    ensures RunRecords(products, fetched) ==
      Concat(ProductBatches(products, fetched)[..k]) + ProductRecords(products[k], fetched[k]) +
      Concat(ProductBatches(products, fetched)[k + 1..])
  {
    ConcatSplit(ProductBatches(products, fetched), k);
  }

  /** A run that starts without a file writes at most one header, before every row,
      and every other line is a row; a run that starts with a file writes no header.
      No line is written when no product yields a record. */
  lemma {:induction false} HeaderOnce(products: seq<string>, fetched: seq<seq<PageOutcome>>)
    requires WellFetched(products, fetched)
    ensures HeaderLine !in RunLines(true, RunRecords(products, fetched))
    ensures var lines := RunLines(false, RunRecords(products, fetched));
            (lines == [] <==>
              forall k :: 0 <= k < |products| ==> ProductRecords(products[k], fetched[k]) == []) &&
            (lines != [] ==>
              lines[0] == HeaderLine && lines[1..] == RowLines(RunRecords(products, fetched))) &&
            forall k :: 0 < k < |lines| ==> lines[k] != HeaderLine
  {
    var batches := ProductBatches(products, fetched);
    ConcatEmpty(batches);
    assert forall k :: 0 <= k < |products| ==> batches[k] == ProductRecords(products[k], fetched[k]);
  }
}
