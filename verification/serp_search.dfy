/** The image candidate selection pipeline of `GoogleImageScraper` in
    lib/google-image-scraper.ts: one search (`searchImages`), the demo
    fallback (`generateDemoImages`) and the batch (`searchMultipleProducts`).
    The SerpAPI request is a function parameter answering a query and a
    result count with the raw image list or a failure, and the URL parser
    behind `new URL(url).hostname` is a parameter too. */
module SerpSearch {
  import opened Text
  import opened Seqs
  import opened Optional
  import opened DomainMatch
  import opened Query
  import opened Scoring
  import opened StableSort
  import Uri

  /** A `GoogleImageResult`. */
  datatype GoogleImageResult = GoogleImageResult(
    rank: int,
    url: string,
    thumbnail: string,
    title: string,
    sourceDomain: string,
    sourceUrl: string,
    width: Option<int>,
    height: Option<int>,
    score: real,
    matchedDomain: string)

  /** What the provider call yields: a thrown error, or `images_results`
      (an absent list is the empty list). */
  datatype ProviderReply = Failure | Images(images: seq<SerpImage>)

  function ScoreOf(r: GoogleImageResult): real {
    r.score
  }

  /** `extractHostFromUrl(url)`: the lower-cased host the parser finds, or
      the empty string for a URL it rejects. */
  function ExtractHost(url: string, parseHost: string -> Option<string>): (h: string)
    ensures Lower(h) == h
    ensures parseHost(url).None? ==> h == ""
  {
    match parseHost(url)
    case None => ""
    case Some(host) => LowerIdempotent(host); Lower(host)
  }

  function HostOf(img: SerpImage, parseHost: string -> Option<string>): string {
    ExtractHost(img.link, parseHost)
  }

  /** The `[isMatch, matchedDomain]` pair of the loop: without a domain list
      every host passes with an empty matched domain. */
  function Scope(host: string, domains: seq<string>): (m: MatchResult)
    ensures !m.matched ==> m.domain == ""
  {
    if |domains| > 0 then HostMatches(host, domains) else MatchResult(true, "")
  }

  /** The images the loop does not skip. */
  function Keeps(domains: seq<string>, parseHost: string -> Option<string>): SerpImage -> bool {
    img => Scope(HostOf(img, parseHost), domains).matched
  }

  /** The result pushed for a kept image. */
  function ToResult(name: string, domains: seq<string>, parseHost: string -> Option<string>,
                    img: SerpImage, rank: int): (r: GoogleImageResult)
    ensures r.rank == rank && 0.0 <= r.score <= 1.4
    ensures r.url == (if img.original != "" then img.original else img.thumbnail)
    ensures r.thumbnail == img.thumbnail
    ensures r.title == (if img.title != "" then img.title else name)
    ensures r.sourceDomain == ExtractHost(img.link, parseHost) && Lower(r.sourceDomain) == r.sourceDomain
    ensures r.sourceUrl == img.link
    ensures r.width == img.originalWidth && r.height == img.originalHeight
    ensures r.matchedDomain == Scope(r.sourceDomain, domains).domain
    ensures |domains| == 0 ==> r.matchedDomain == ""
    ensures r.score == ScoreCandidate(name, img, r.matchedDomain)
  {
    var host := HostOf(img, parseHost);
    var m := Scope(host, domains).domain;
    GoogleImageResult(
      rank,
      if img.original != "" then img.original else img.thumbnail,
      img.thumbnail,
      if img.title != "" then img.title else name,
      host,
      img.link,
      img.originalWidth,
      img.originalHeight,
      ScoreCandidate(name, img, m),
      m)
  }

  function Maker(name: string, domains: seq<string>, parseHost: string -> Option<string>):
    (SerpImage, int) -> GoogleImageResult
  {
    (img: SerpImage, rank: int) => ToResult(name, domains, parseHost, img, rank)
  }

  /** The loop over the provider's images, in provider order: a kept image
      is pushed with rank one more than the number pushed before it. */
  function Collect(name: string, domains: seq<string>, images: seq<SerpImage>,
                   parseHost: string -> Option<string>): (r: seq<GoogleImageResult>)
    ensures |r| <= |images|
  {
    NumberKept(images, Keeps(domains, parseHost), Maker(name, domains, parseHost))
  }

  /** The loop is the filter of the images by domain scope, each kept image
      numbered by its place among the kept ones. */
  lemma CollectIsNumberedFilter(name: string, domains: seq<string>,
                                images: seq<SerpImage>, parseHost: string -> Option<string>)
    ensures var kept := Filter(images, Keeps(domains, parseHost));
      var r := Collect(name, domains, images, parseHost);
      |r| == |kept| && forall i :: 0 <= i < |r| ==> r[i] == ToResult(name, domains, parseHost, kept[i], i + 1)
  {
    NumberKeptIsNumberedFilter(images, Keeps(domains, parseHost), Maker(name, domains, parseHost));
  }

  /** Without a domain list no image is skipped. */
  lemma NoDomainsKeepsEverything(name: string, images: seq<SerpImage>, parseHost: string -> Option<string>)
    ensures |Collect(name, [], images, parseHost)| == |images|
  {
    CollectIsNumberedFilter(name, [], images, parseHost);
    var p := Keeps([], parseHost);
    assert forall i :: 0 <= i < |images| ==> p(images[i]);
  }

  const DemoDefaultDomains: seq<string> := ["example.com"]

  /** `domains.length > 0 ? domains : ['example.com']`. */
  function TargetDomains(domains: seq<string>): (t: seq<string>)
    ensures |t| > 0
  {
    if |domains| > 0 then domains else DemoDefaultDomains
  }

  const DemoUrlPrefix: string := "https://via.placeholder.com/400x300/3b82f6/ffffff?text="
  const DemoThumbnailPrefix: string := "https://via.placeholder.com/200x150/3b82f6/ffffff?text="

  /** The page URL of a demo image. */
  function DemoPageUrl(domain: string, name: string): string {
    "https://" + domain + "/product/" + Uri.Encode(name)
  }

  function DemoImage(name: string, targets: seq<string>, i: nat): GoogleImageResult
    requires |targets| > 0
  {
    var d := targets[i % |targets|];
    GoogleImageResult(
      i + 1,
      DemoUrlPrefix + Uri.Encode(name),
      DemoThumbnailPrefix + Uri.Encode(name),
      name + " - Demo Image " + NatToString(i + 1),
      d,
      DemoPageUrl(d, name),
      Some(400),
      Some(300),
      0.9 - (i as real) * 0.1,
      d)
  }

  /** `generateDemoImages(productName, domains)`: three results cycling
      through the target domains, ranked 1 to 3, scored 0.9, 0.8 and 0.7,
      each credited to its own domain. */
  function DemoImages(name: string, domains: seq<string>): (r: seq<GoogleImageResult>)
    ensures |r| == 3
    ensures forall i :: 0 <= i < 3 ==>
      && r[i].rank == i + 1
      && r[i].sourceDomain == TargetDomains(domains)[i % |TargetDomains(domains)|]
      && r[i].matchedDomain == r[i].sourceDomain
      && r[i].score == 0.9 - (i as real) * 0.1
      && r[i].width == Some(400) && r[i].height == Some(300)
  {
    var t := TargetDomains(domains);
    [DemoImage(name, t, 0), DemoImage(name, t, 1), DemoImage(name, t, 2)]
  }

  /** The demo results come out best first, and each one names the product
      in its page URL in a form that decodes back to the exact name. */
  lemma DemoImagesOrderedAndNamed(name: string, domains: seq<string>)
    ensures SortedDesc(DemoImages(name, domains), ScoreOf)
    ensures forall i :: 0 <= i < 3 ==>
      var r := DemoImages(name, domains)[i];
      var prefix := "https://" + r.sourceDomain + "/product/";
      && r.sourceDomain in TargetDomains(domains)
      && |prefix| <= |r.sourceUrl| && r.sourceUrl[..|prefix|] == prefix
      && Uri.Decode(r.sourceUrl[|prefix|..]) == Some(name)
  {
    var t := TargetDomains(domains);
    DemoImageNamed(name, t, 0);
    DemoImageNamed(name, t, 1);
    DemoImageNamed(name, t, 2);
  }

  lemma DemoImageNamed(name: string, targets: seq<string>, i: nat)
    requires |targets| > 0
    ensures var r := DemoImage(name, targets, i);
      var prefix := "https://" + r.sourceDomain + "/product/";
      && r.sourceDomain in targets
      && |prefix| <= |r.sourceUrl| && r.sourceUrl[..|prefix|] == prefix
      && Uri.Decode(r.sourceUrl[|prefix|..]) == Some(name)
  {
    DemoPageUrlDecodes(targets[i % |targets|], name);
  }

  /** The product name is recovered from the tail of a demo page URL. */
  lemma DemoPageUrlDecodes(domain: string, name: string)
    ensures var prefix := "https://" + domain + "/product/";
      && |prefix| <= |DemoPageUrl(domain, name)|
      && DemoPageUrl(domain, name)[..|prefix|] == prefix
      && Uri.Decode(DemoPageUrl(domain, name)[|prefix|..]) == Some(name)
  {
    var prefix := "https://" + domain + "/product/";
    assert DemoPageUrl(domain, name) == prefix + Uri.Encode(name);
    Uri.DecodeEncode(name);
  }

  /** `searchImages(productName, domains, maxResults)`: without a key, or
      when the provider call fails, the demo results; otherwise the kept
      candidates sorted by score, best first. */
  function SearchImages(name: string, domains: seq<string>, maxResults: int, hasKey: bool,
                        call: (string, int) -> ProviderReply,
                        parseHost: string -> Option<string>): seq<GoogleImageResult>
  {
    if !hasKey then DemoImages(name, domains)
    else match call(BuildQuery(name, domains), maxResults)
      case Failure => DemoImages(name, domains)
      case Images(images) => SortDesc(Collect(name, domains, images, parseHost), ScoreOf)
  }

  /** The two fallback paths return exactly the demo results. */
  lemma SearchFallback(name: string, domains: seq<string>, maxResults: int, hasKey: bool,
                       call: (string, int) -> ProviderReply, parseHost: string -> Option<string>)
    requires !hasKey || call(BuildQuery(name, domains), maxResults).Failure?
    ensures SearchImages(name, domains, maxResults, hasKey, call, parseHost) == DemoImages(name, domains)
    ensures |SearchImages(name, domains, maxResults, hasKey, call, parseHost)| == 3
  {
  }

  /** On a provider reply the output is a stable descending sort of the
      kept candidates: sorted by score, the same results, and results of
      equal score in provider order. */
  lemma SearchOrdersByScore(name: string, domains: seq<string>, maxResults: int,
                            call: (string, int) -> ProviderReply, parseHost: string -> Option<string>, v: real)
    requires call(BuildQuery(name, domains), maxResults).Images?
    ensures var images := call(BuildQuery(name, domains), maxResults).images;
      var c := Collect(name, domains, images, parseHost);
      var r := SearchImages(name, domains, maxResults, true, call, parseHost);
      && SortedDesc(r, ScoreOf)
      && multiset(r) == multiset(c)
      && |r| <= |images|
      && Filter(r, KeyIs(ScoreOf, v)) == Filter(c, KeyIs(ScoreOf, v))
  {
    var images := call(BuildQuery(name, domains), maxResults).images;
    SortIsStable(Collect(name, domains, images, parseHost), ScoreOf, v);
  }

  /** On a provider reply the output holds exactly the candidates in scope:
      as many results as kept images, and without a domain list every
      image. */
  lemma SearchCountsKept(name: string, domains: seq<string>, maxResults: int,
                         call: (string, int) -> ProviderReply, parseHost: string -> Option<string>)
    requires call(BuildQuery(name, domains), maxResults).Images?
    ensures var images := call(BuildQuery(name, domains), maxResults).images;
      var r := SearchImages(name, domains, maxResults, true, call, parseHost);
      && |r| == |Filter(images, Keeps(domains, parseHost))|
      && (|domains| == 0 ==> |r| == |images|)
  {
    var images := call(BuildQuery(name, domains), maxResults).images;
    CollectIsNumberedFilter(name, domains, images, parseHost);
    if |domains| == 0 {
      NoDomainsKeepsEverything(name, images, parseHost);
    }
  }

  /** Every result of a provider reply comes from a kept candidate: with a
      domain list its page host matches and its matched domain is the one
      `hostMatches` reports; without one its matched domain is empty. */
  lemma SearchScopesToDomains(name: string, domains: seq<string>, maxResults: int,
                              call: (string, int) -> ProviderReply, parseHost: string -> Option<string>)
    requires call(BuildQuery(name, domains), maxResults).Images?
    ensures var r := SearchImages(name, domains, maxResults, true, call, parseHost);
      forall i :: 0 <= i < |r| ==>
        && (|domains| > 0 ==> HostMatches(r[i].sourceDomain, domains) == MatchResult(true, r[i].matchedDomain))
        && (|domains| == 0 ==> r[i].matchedDomain == "")
  {
    var images := call(BuildQuery(name, domains), maxResults).images;
    var c := Collect(name, domains, images, parseHost);
    CollectInScope(name, domains, images, parseHost);
    PermutationInScope(c, SortDesc(c, ScoreOf), domains);
  }

  /** A result as the loop builds it: with a domain list its host matches
      and its matched domain is the one reported; without one the matched
      domain is empty. */
  predicate InScope(x: GoogleImageResult, domains: seq<string>) {
    && (|domains| > 0 ==> HostMatches(x.sourceDomain, domains) == MatchResult(true, x.matchedDomain))
    && (|domains| == 0 ==> x.matchedDomain == "")
  }

  lemma CollectInScope(name: string, domains: seq<string>, images: seq<SerpImage>,
                       parseHost: string -> Option<string>)
    ensures var c := Collect(name, domains, images, parseHost);
      forall j :: 0 <= j < |c| ==> InScope(c[j], domains)
  {
    var c := Collect(name, domains, images, parseHost);
    var kept := Filter(images, Keeps(domains, parseHost));
    CollectIsNumberedFilter(name, domains, images, parseHost);
    forall j | 0 <= j < |c| ensures InScope(c[j], domains) {
      assert Keeps(domains, parseHost)(kept[j]);
    }
  }

  lemma PermutationInScope(c: seq<GoogleImageResult>, r: seq<GoogleImageResult>, domains: seq<string>)
    requires multiset(r) == multiset(c)
    requires forall j :: 0 <= j < |c| ==> InScope(c[j], domains)
    ensures forall i :: 0 <= i < |r| ==> InScope(r[i], domains)
  {
    forall i | 0 <= i < |r| ensures InScope(r[i], domains) {
      assert r[i] in multiset(c);
    }
  }

  function Ranks(r: seq<GoogleImageResult>): (ks: seq<int>)
    ensures |ks| == |r|
  {
    seq(|r|, i requires 0 <= i < |r| => r[i].rank)
  }

  /** Ranks are handed out before the sort, so after it they are the
      numbers 1 to n, each exactly once, though not necessarily in output
      order. */
  lemma SearchRanksArePermutation(name: string, domains: seq<string>, maxResults: int,
                                  call: (string, int) -> ProviderReply, parseHost: string -> Option<string>)
    requires call(BuildQuery(name, domains), maxResults).Images?
    ensures var r := SearchImages(name, domains, maxResults, true, call, parseHost);
      && (forall i :: 0 <= i < |r| ==> 1 <= r[i].rank <= |r|)
      && NoDuplicates(Ranks(r))
  {
    var images := call(BuildQuery(name, domains), maxResults).images;
    var c := Collect(name, domains, images, parseHost);
    CollectRanks(name, domains, images, parseHost);
    RanksOfPermutation(c, SortDesc(c, ScoreOf));
  }

  /** The loop numbers the results it pushes 1, 2, 3, … in push order. */
  lemma CollectRanks(name: string, domains: seq<string>, images: seq<SerpImage>, parseHost: string -> Option<string>)
    ensures var c := Collect(name, domains, images, parseHost);
      forall i :: 0 <= i < |c| ==> c[i].rank == i + 1
  {
    CollectIsNumberedFilter(name, domains, images, parseHost);
  }

  /** A reordering of results numbered 1 to n carries each number once. */
  lemma RanksOfPermutation(c: seq<GoogleImageResult>, r: seq<GoogleImageResult>)
    requires forall i :: 0 <= i < |c| ==> c[i].rank == i + 1
    requires multiset(r) == multiset(c)
    ensures forall i :: 0 <= i < |r| ==> 1 <= r[i].rank <= |r|
    ensures NoDuplicates(Ranks(r))
  {
    assert |r| == |c| by {
      assert |multiset(r)| == |multiset(c)|;
    }
    assert NoDuplicates(c) by {
      forall i, j | 0 <= i < j < |c| ensures c[i] != c[j] {
        assert c[i].rank != c[j].rank;
      }
    }
    PermutationKeepsDistinct(c, r);
    forall i | 0 <= i < |r|
      ensures exists j :: 0 <= j < |c| && c[j] == r[i]
    {
      assert r[i] in multiset(c);
    }
    forall i, j | 0 <= i < j < |r|
      ensures Ranks(r)[i] != Ranks(r)[j]
    {
      var a :| 0 <= a < |c| && c[a] == r[i];
      var b :| 0 <= b < |c| && c[b] == r[j];
    }
  }

  /** The provider call made for the `j`-th product of a batch. */
  function NthCall(provider: (nat, string, int) -> ProviderReply, j: nat): (string, int) -> ProviderReply {
    (q: string, n: int) => provider(j, q, n)
  }

  /** `searchMultipleProducts(productNames, domains, maxResultsPerItem, topN)`:
      each product's results cut with `slice(0, topN)`, later products with
      the same name overwriting earlier ones. The provider answers each call
      of the batch separately, keyed by the call's position. */
  function SearchMultiple(names: seq<string>, domains: seq<string>, maxPerItem: int, topN: int, hasKey: bool,
                          provider: (nat, string, int) -> ProviderReply,
                          parseHost: string -> Option<string>): (r: map<string, seq<GoogleImageResult>>)
    ensures forall k :: k in r <==> k in names
    decreases |names|
  {
    if |names| == 0 then map[]
    else
      var j := |names| - 1;
      var prev := SearchMultiple(names[..j], domains, maxPerItem, topN, hasKey, provider, parseHost);
      KeysSnoc(names);
      prev[names[j] := BatchEntry(names[j], j, domains, maxPerItem, topN, hasKey, provider, parseHost)]
  }

  /** The results kept for the `j`-th product of a batch. */
  function BatchEntry(name: string, j: nat, domains: seq<string>, maxPerItem: int, topN: int, hasKey: bool,
                      provider: (nat, string, int) -> ProviderReply,
                      parseHost: string -> Option<string>): seq<GoogleImageResult>
  {
    SliceTo(SearchImages(name, domains, maxPerItem, hasKey, NthCall(provider, j), parseHost), topN)
  }

  /** Each product maps to a prefix of at most `topN` results of the search
      made for its last occurrence in the batch. */
  lemma SearchMultipleKeepsLastSearch(names: seq<string>, domains: seq<string>, maxPerItem: int,
                                      topN: int, hasKey: bool,
                                      provider: (nat, string, int) -> ProviderReply,
                                      parseHost: string -> Option<string>, k: string)
    requires k in names
    ensures var r := SearchMultiple(names, domains, maxPerItem, topN, hasKey, provider, parseHost);
      var full := SearchImages(k, domains, maxPerItem, hasKey, NthCall(provider, LastIndex(names, k)), parseHost);
      && r[k] == SliceTo(full, topN)
      && r[k] <= full
      && (topN >= 0 ==> |r[k]| <= topN)
  {
    LastOccurrenceWins(names, domains, maxPerItem, topN, hasKey, provider, parseHost, k);
  }

  /** The entry of a product is the one computed for its last occurrence. */
  lemma {:induction false} LastOccurrenceWins(names: seq<string>, domains: seq<string>, maxPerItem: int,
                                              topN: int, hasKey: bool,
                                              provider: (nat, string, int) -> ProviderReply,
                                              parseHost: string -> Option<string>, k: string)
    requires k in names
    ensures SearchMultiple(names, domains, maxPerItem, topN, hasKey, provider, parseHost)[k]
         == BatchEntry(k, LastIndex(names, k), domains, maxPerItem, topN, hasKey, provider, parseHost)
    decreases |names|
  {
    var j := |names| - 1;
    if names[j] != k {
      assert k in names[..j] by {
        assert names == names[..j] + [names[j]];
      }
      LastOccurrenceWins(names[..j], domains, maxPerItem, topN, hasKey, provider, parseHost, k);
      LastIndexOfPrefix(names, k);
    }
  }

  lemma KeysSnoc(names: seq<string>)
    requires |names| > 0
    ensures forall k :: k in names <==> k in names[..|names| - 1] || k == names[|names| - 1]
  {
    assert names == names[..|names| - 1] + [names[|names| - 1]];
  }

  lemma LastIndexOfPrefix<T>(xs: seq<T>, x: T)
    requires |xs| > 0 && xs[|xs| - 1] != x && x in xs[..|xs| - 1]
    ensures LastIndex(xs, x) == LastIndex(xs[..|xs| - 1], x)
  {
  }
}
