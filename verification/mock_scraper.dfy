/** `MockScraper` and `GoogleImagesScraper` of lib/scraper.ts: a fixed
    number of placeholder images per item, in descending score order. */
module MockScraper {
  import opened Text
  import opened Seqs
  import opened StableSort
  import opened ScrapeResult
  import Uri

  /** `domains[0] || 'example.com'`. */
  function MockDomain(domains: seq<string>): (d: string)
    ensures d != ""
    ensures |domains| > 0 && domains[0] != "" ==> d == domains[0]
  {
    if |domains| > 0 && domains[0] != "" then domains[0] else "example.com"
  }

  /** `Math.min(topN, 3)` loop iterations, none for a negative `topN`. */
  function MockCount(topN: int): (n: nat)
    ensures n <= 3 && (topN >= 0 ==> n <= topN)
    ensures topN >= 3 ==> n == 3
    ensures 0 <= topN <= 3 ==> n == topN
  {
    if topN <= 0 then 0 else if topN < 3 then topN else 3
  }

  const MockUrlPrefix: string := "https://via.placeholder.com/400x300/3b82f6/ffffff?text="
  const MockThumbnailPrefix: string := "https://via.placeholder.com/150x150/3b82f6/ffffff?text="

  function MockImage(itemName: string, domains: seq<string>, i: nat): ImageResult {
    ImageResult(
      i + 1,
      Uri.NumberedUrl(MockUrlPrefix, itemName, i + 1),
      MockThumbnailPrefix + Uri.Encode(itemName),
      itemName + " - Product Image " + NatToString(i + 1),
      MockDomain(domains),
      0.95 - (i as real) * 0.1,
      0.90 - (i as real) * 0.1)
  }

  function MockImages(itemName: string, domains: seq<string>, topN: int): (r: seq<ImageResult>)
    ensures |r| == MockCount(topN)
    ensures forall i :: 0 <= i < |r| ==> r[i].rank == i + 1 && r[i].sourceDomain == MockDomain(domains)
  {
    seq(MockCount(topN), i requires 0 <= i < MockCount(topN) => MockImage(itemName, domains, i))
  }

  /** `MockScraper.scrapeImages(options)`. */
  function ScrapeImages(o: ScrapeOptions): (r: map<string, seq<ImageResult>>)
    ensures r.Keys == set k | k in o.itemNames
  {
    map k | k in o.itemNames :: MockImages(k, o.domains, TopN(o))
  }

  /** `GoogleImagesScraper.scrapeImages(options)` delegates to a fresh
      `MockScraper`. */
  function GoogleScrapeImages(o: ScrapeOptions): (r: map<string, seq<ImageResult>>)
    ensures r == ScrapeImages(o)
  {
    ScrapeImages(o)
  }

  /** The images of one item have strictly decreasing scores and
      confidences, and each URL carries the item name and the image number
      recoverably. */
  lemma MockImagesDecreasing(itemName: string, domains: seq<string>, topN: int)
    ensures var r := MockImages(itemName, domains, topN);
      && (forall i, j :: 0 <= i < j < |r| ==> r[i].score > r[j].score && r[i].confidence > r[j].confidence)
      && (forall i :: 0 <= i < |r| ==> r[i].url == Uri.NumberedUrl(MockUrlPrefix, itemName, r[i].rank))
  {
    var r := MockImages(itemName, domains, topN);
    assert forall i :: 0 <= i < |r| ==> r[i] == MockImage(itemName, domains, i);
  }

  /** Each item gets `min(topN, 3)` images ranked 1 to k in list order,
      with strictly decreasing scores and confidences, so the list is
      already in the order a stable descending sort by score would give. */
  lemma MockImagesOrdered(o: ScrapeOptions, k: string)
    requires k in o.itemNames
    ensures var r := ScrapeImages(o)[k];
      && |r| == MockCount(TopN(o))
      && (forall i :: 0 <= i < |r| ==> r[i].rank == i + 1 && r[i].sourceDomain == MockDomain(o.domains))
      && (forall i, j :: 0 <= i < j < |r| ==> r[i].score > r[j].score && r[i].confidence > r[j].confidence)
      && SortDesc(r, ScoreOf) == r
  {
    var r := ScrapeImages(o)[k];
    assert r == MockImages(k, o.domains, TopN(o));
    MockImagesDecreasing(k, o.domains, TopN(o));
    SortDescOfSorted(r, ScoreOf);
  }
}
