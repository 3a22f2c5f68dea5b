/** The `ImageResult` and `ScrapeOptions` shapes that lib/scraper.ts and
    lib/scraper-v2.ts both declare. */
module ScrapeResult {
  import opened Optional

  datatype ImageResult = ImageResult(
    rank: int,
    url: string,
    thumbnail: string,
    title: string,
    sourceDomain: string,
    score: real,
    confidence: real)

  /** An absent `extraKeyword` is the empty string; absent `maxResults` and
      `topN` are `None` and take their destructuring defaults. */
  datatype ScrapeOptions = ScrapeOptions(
    itemNames: seq<string>,
    domains: seq<string>,
    extraKeyword: string,
    maxResults: Option<int>,
    topN: Option<int>)

  function ScoreOf(r: ImageResult): real {
    r.score
  }

  /** `topN = 3` in the destructuring of the options. */
  function TopN(o: ScrapeOptions): int {
    o.topN.GetOr(3)
  }

  /** `maxResults = 10` in the destructuring of the options. */
  function MaxResults(o: ScrapeOptions): int {
    o.maxResults.GetOr(10)
  }
}
