/** The fixed list of product pages the scraper crawls, and the run over it. */
module Targets {
  import opened Scraper

  const TARGET_PRODUCTS: seq<string> := [
    "https://www.snapdeal.com/product/asian-mexico11-beige-mens-sneakers/5188147402095882363",
    "https://www.snapdeal.com/product/asian-everest24-black-mens-trekking/8070451150763703721",
    "https://www.snapdeal.com/product/campus-oxyfit-n-blue-running/4899917063895353934",
    "https://www.snapdeal.com/product/asian-desire-lifestyle-white-casual/629748687908",
    "https://www.snapdeal.com/product/asian-white-mesh-textile-sport/662912850947",
    "https://www.snapdeal.com/product/asian-blue-running-shoes/6917529689503073923",
    "https://www.snapdeal.com/product/asian-blue-running-shoes/647066066887",
    "https://www.snapdeal.com/product/asian-blue-sport-shoes-for/646041775158",
    "https://www.snapdeal.com/product/asian-superfit-blue-running-shoes/673170361588",
    "https://www.snapdeal.com/product/asian-cosco-navy-mens-sports/7493990423950623709",
    "https://www.snapdeal.com/product/asian-white-mesh-textile-sport/6917529690553932803"
  ]

  /** One run of the scraper over the fixed product list. */
  method ScrapeTargets(csv: ReviewsCsv, fetched: seq<seq<PageOutcome>>)
    requires WellFetched(TARGET_PRODUCTS, fetched)
    requires csv.Valid()
    modifies csv
    ensures csv.Valid()
    ensures csv.fileExists == (old(csv.fileExists) || RunRecords(TARGET_PRODUCTS, fetched) != [])
    ensures csv.lines == old(csv.lines) + RunLines(old(csv.fileExists), RunRecords(TARGET_PRODUCTS, fetched))
  {
    ScrapeManualList(csv, TARGET_PRODUCTS, fetched);
  }
}
