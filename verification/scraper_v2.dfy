/** `RealScraper.scrapeImages` of lib/scraper-v2.ts: for every item, one
    search per domain, the images converted with position-based scores, the
    whole list sorted by score and cut to the top N. The search is a
    function parameter returning `None` where the call throws; the pure
    generator of lib/image-search.ts is one such function, for which
    `WithGeneratorSearch` states the result sizes. */
module ScraperV2 {
  import opened Optional
  import opened Seqs
  import opened StableSort
  import opened ScrapeResult
  import ImageSearch

  type Search = (string, string, int) -> Option<seq<ImageSearch.ImageSearchResult>>

  /** `extraKeyword ? `${extraKeyword} ${itemName}` : itemName`. */
  function SearchQuery(extraKeyword: string, itemName: string): (q: string)
    ensures extraKeyword == "" ==> q == itemName
    ensures extraKeyword != "" ==> q == extraKeyword + " " + itemName
  {
    if extraKeyword != "" then extraKeyword + " " + itemName else itemName
  }

  /** The `forEach` conversion of one domain's images, pushed after `base`
      earlier results: the `j`-th image scores `0.95 - 0.05 j`. */
  function Converted(images: seq<ImageSearch.ImageSearchResult>, domain: string, base: nat): (r: seq<ImageResult>)
    ensures |r| == |images|
    ensures forall j :: 0 <= j < |r| ==>
      && r[j].rank == base + j + 1
      && r[j].sourceDomain == domain
      && r[j].url == images[j].url
      && r[j].score == 0.95 - (j as real) * 0.05
      && r[j].confidence == 0.90 - (j as real) * 0.05
  {
    seq(|images|, j requires 0 <= j < |images| =>
      ImageResult(base + j + 1, images[j].url, images[j].thumbnail, images[j].title, domain,
                  0.95 - (j as real) * 0.05, 0.90 - (j as real) * 0.05))
  }

  /** The number of images the successful searches of the domains return. */
  function TotalFound(query: string, domains: seq<string>, maxResults: int, search: Search): nat
    decreases |domains|
  {
    if |domains| == 0 then 0
    else
      var prev := TotalFound(query, domains[..|domains| - 1], maxResults, search);
      match search(query, domains[|domains| - 1], maxResults)
      case None => prev
      case Some(images) => prev + |images|
  }

  /** `itemResults` after the loop over the domains, before sorting: ranks
      are positions in the concatenation, a throwing search adds nothing. */
  function ItemResults(query: string, domains: seq<string>, maxResults: int, search: Search): (r: seq<ImageResult>)
    ensures |r| == TotalFound(query, domains, maxResults, search)
    ensures forall p :: 0 <= p < |r| ==> r[p].rank == p + 1 && r[p].sourceDomain in domains
    decreases |domains|
  {
    if |domains| == 0 then []
    else
      var init := domains[..|domains| - 1];
      var d := domains[|domains| - 1];
      var prev := ItemResults(query, init, maxResults, search);
      assert forall p :: 0 <= p < |prev| ==> prev[p].sourceDomain in domains by {
        assert forall x :: x in init ==> x in domains;
      }
      match search(query, d, maxResults)
      case None => prev
      case Some(images) => prev + Converted(images, d, |prev|)
  }

  /** A domain whose search throws is skipped: the results are exactly those
      of the same domain list without it. */
  lemma {:induction false} FailedDomainSkipped(query: string, before: seq<string>, d: string, after: seq<string>,
                                               maxResults: int, search: Search)
    requires search(query, d, maxResults).None?
    ensures ItemResults(query, before + [d] + after, maxResults, search)
         == ItemResults(query, before + after, maxResults, search)
    decreases |after|
  {
    if |after| == 0 {
      assert before + [d] + after == before + [d];
      assert (before + [d])[..|before|] == before;
      assert before + after == before;
    } else {
      var a0 := after[..|after| - 1];
      var last := after[|after| - 1];
      FailedDomainSkipped(query, before, d, a0, maxResults, search);
      assert (before + [d] + after)[..|before + [d] + after| - 1] == before + [d] + a0;
      assert (before + after)[..|before + after| - 1] == before + a0;
    }
  }

  /** The list kept for one item: stable descending sort, then `slice(0, topN)`. */
  function ScrapeItem(itemName: string, o: ScrapeOptions, search: Search): (r: seq<ImageResult>)
    ensures |r| == SliceEnd(TotalFound(SearchQuery(o.extraKeyword, itemName), o.domains, MaxResults(o), search), TopN(o))
    ensures TopN(o) >= 0 ==> |r| <= TopN(o)
    ensures SortedDesc(r, ScoreOf)
    ensures forall p :: 0 <= p < |r| ==> r[p].sourceDomain in o.domains
  {
    var all := ItemResults(SearchQuery(o.extraKeyword, itemName), o.domains, MaxResults(o), search);
    var sorted := SortDesc(all, ScoreOf);
    KeptResults(all, TopN(o), o.domains);
    SliceTo(sorted, TopN(o))
  }

  /** Sorting and cutting keep the results in descending score order and
      bring in none from another domain. */
  lemma KeptResults(all: seq<ImageResult>, topN: int, domains: seq<string>)
    requires forall p :: 0 <= p < |all| ==> all[p].sourceDomain in domains
    ensures SortedDesc(SliceTo(SortDesc(all, ScoreOf), topN), ScoreOf)
    ensures forall p :: 0 <= p < |SliceTo(SortDesc(all, ScoreOf), topN)| ==>
      SliceTo(SortDesc(all, ScoreOf), topN)[p].sourceDomain in domains
  {
    var sorted := SortDesc(all, ScoreOf);
    var r := SliceTo(sorted, topN);
    forall p | 0 <= p < |sorted| ensures sorted[p].sourceDomain in domains {
      assert sorted[p] in multiset(all);
    }
    assert forall p :: 0 <= p < |r| ==> r[p] == sorted[p];
  }

  /** `scrapeImages(options)`: one entry per item name, a repeated name
      computing the same list again. */
  function ScrapeImages(o: ScrapeOptions, search: Search): (r: map<string, seq<ImageResult>>)
    ensures r.Keys == set k | k in o.itemNames
    ensures forall k :: k in r ==> r[k] == ScrapeItem(k, o, search)
  {
    map k | k in o.itemNames :: ScrapeItem(k, o, search)
  }

  /** The kept list is a best-first prefix of all results: every result left
      out scores no higher than any kept one. */
  lemma ScrapeItemKeepsBest(itemName: string, o: ScrapeOptions, search: Search)
    ensures var all := ItemResults(SearchQuery(o.extraKeyword, itemName), o.domains, MaxResults(o), search);
      var r := ScrapeItem(itemName, o, search);
      && r <= SortDesc(all, ScoreOf)
      && multiset(r) <= multiset(all)
  {
    var all := ItemResults(SearchQuery(o.extraKeyword, itemName), o.domains, MaxResults(o), search);
    var sorted := SortDesc(all, ScoreOf);
    var r := ScrapeItem(itemName, o, search);
    assert sorted == r + sorted[|r|..];
    assert multiset(sorted) == multiset(r) + multiset(sorted[|r|..]);
  }

  /** The search the scraper imports: the pure generator, which never throws. */
  function GeneratorSearch(): Search {
    (q: string, d: string, n: int) => Some(ImageSearch.SearchImages(q, d, n))
  }

  lemma {:induction false} GeneratorTotal(query: string, domains: seq<string>, maxResults: int)
    ensures TotalFound(query, domains, maxResults, GeneratorSearch())
         == |domains| * ImageSearch.GeneratedCount(maxResults)
    decreases |domains|
  {
    if |domains| > 0 {
      GeneratorTotal(query, domains[..|domains| - 1], maxResults);
    }
  }

  /** With the image-search generator every domain yields
      `min(maxResults, 10)` images, so each item keeps
      `min(topN, |domains| * min(maxResults, 10))` of them. */
  lemma WithGeneratorSearch(itemName: string, o: ScrapeOptions)
    requires TopN(o) >= 0
    ensures var total := |o.domains| * ImageSearch.GeneratedCount(MaxResults(o));
      |ScrapeItem(itemName, o, GeneratorSearch())| == if TopN(o) < total then TopN(o) else total
  {
    GeneratorTotal(SearchQuery(o.extraKeyword, itemName), o.domains, MaxResults(o));
  }
}
