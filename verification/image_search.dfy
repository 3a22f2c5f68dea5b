/** The network-free generator of lib/image-search.ts: `searchImages`
    builds image URLs on three free image services from a cleaned query, and
    `generatePlaceholderImages` builds placeholder URLs. The `site:` query
    and its encoded form that `searchImages` computes are never used, so
    they are not modelled; an absent or empty domain is the empty string. */
module ImageSearch {
  import opened Text
  import opened Seqs
  import opened Optional
  import Uri

  /** An `ImageSearchResult`; both generators always set width 400 and
      height 300. */
  datatype ImageSearchResult = ImageSearchResult(
    url: string,
    thumbnail: string,
    title: string,
    source: string,
    width: int,
    height: int)

  datatype ImageSource = Unsplash | Picsum | LoremFlickr

  const Sources: seq<ImageSource> := [Unsplash, Picsum, LoremFlickr]

  function SourceName(s: ImageSource): string {
    match s
    case Unsplash => "Unsplash"
    case Picsum => "Picsum"
    case LoremFlickr => "LoremFlickr"
  }

  /** The `getUrl` of each source. */
  function SourceUrl(s: ImageSource, q: string, i: nat): string {
    match s
    case Unsplash => "https://source.unsplash.com/400x300/?" + q + "," + NatToString(i)
    case Picsum => "https://picsum.photos/seed/" + q + NatToString(i) + "/400/300"
    case LoremFlickr => "https://loremflickr.com/400/300/" + q + "?random=" + NatToString(i)
  }

  /** The `getThumbnail` of each source. */
  function SourceThumbnail(s: ImageSource, q: string, i: nat): string {
    match s
    case Unsplash => "https://source.unsplash.com/200x150/?" + q + "," + NatToString(i)
    case Picsum => "https://picsum.photos/seed/" + q + NatToString(i) + "/200/150"
    case LoremFlickr => "https://loremflickr.com/200/150/" + q + "?random=" + NatToString(i)
  }

  /** `query.replace(/[^a-zA-Z0-9]/g, '').toLowerCase()`. */
  function CleanQuery(query: string): (r: string)
    ensures AllChars(r, IsLowerAlnum)
    ensures |r| <= |query|
  {
    Lower(Filter(query, IsAlnum))
  }

  /** Cleaning keeps exactly the ASCII letters and digits, lower-cased, in
      their order: it is the same as lower-casing first and then dropping
      every other character. */
  lemma {:induction false} CleanQueryIsLowerFilter(query: string)
    ensures CleanQuery(query) == Filter(Lower(query), IsAlnum)
    decreases |query|
  {
    if |query| > 0 {
      var c, rest := query[0], query[1..];
      CleanQueryIsLowerFilter(rest);
      var lq := Lower(query);
      LowerTail(query);
      FilterCons(lq, IsAlnum);
      FilterCons(query, IsAlnum);
      if IsAlnum(c) {
        LowerAppend([c], Filter(rest, IsAlnum));
      }
    }
  }

  /** Cleaning a cleaned query changes nothing. */
  lemma CleanQueryIdempotent(query: string)
    ensures CleanQuery(CleanQuery(query)) == CleanQuery(query)
  {
    var c := CleanQuery(query);
    assert forall i :: 0 <= i < |c| ==> IsAlnum(c[i]) && !IsUpper(c[i]);
    LowerOfLower(c);
  }

  /** `Math.min(limit, 10)` iterations of `i < …`, none for a limit below 1. */
  function GeneratedCount(limit: int): (n: nat)
    ensures n <= 10 && n <= (if limit > 0 then limit else 0)
    ensures limit >= 10 ==> n == 10
    ensures 0 <= limit <= 10 ==> n == limit
  {
    if limit <= 0 then 0 else if limit < 10 then limit else 10
  }

  function GeneratedImage(query: string, domain: string, i: nat): ImageSearchResult {
    var s := Sources[i % 3];
    var q := CleanQuery(query);
    ImageSearchResult(
      SourceUrl(s, q, i),
      SourceThumbnail(s, q, i),
      query + " - Image " + NatToString(i + 1),
      if domain != "" then domain else SourceName(s),
      400,
      300)
  }

  /** `searchImages(query, domain, limit)`: at most ten images, cycling
      through Unsplash, Picsum and LoremFlickr, titled with the raw query and
      credited to the domain when one is given. */
  function SearchImages(query: string, domain: string, limit: int): (r: seq<ImageSearchResult>)
    ensures |r| == GeneratedCount(limit)
    ensures forall i :: 0 <= i < |r| ==> r[i].width == 400 && r[i].height == 300
    ensures forall i :: 0 <= i < |r| ==> r[i].source == (if domain != "" then domain else SourceName(Sources[i % 3]))
  {
    seq(GeneratedCount(limit), i requires 0 <= i < GeneratedCount(limit) => GeneratedImage(query, domain, i))
  }

  /** Every generated URL embeds the cleaned query, which holds only
      lower-case ASCII letters and digits, and result `i` comes from source
      `i mod 3`. */
  lemma SearchUsesCleanQuery(query: string, domain: string, limit: int)
    ensures var r := SearchImages(query, domain, limit);
      forall i :: 0 <= i < |r| ==>
        && r[i].url == SourceUrl(Sources[i % 3], CleanQuery(query), i)
        && r[i].thumbnail == SourceThumbnail(Sources[i % 3], CleanQuery(query), i)
        && r[i].title == query + " - Image " + NatToString(i + 1)
        && AllChars(CleanQuery(query), IsLowerAlnum)
  {
  }

  /** The output depends on the query only through its cleaned form, except
      for the titles. */
  lemma SameCleanQuerySameUrls(q1: string, q2: string, domain: string, limit: int)
    requires CleanQuery(q1) == CleanQuery(q2)
    ensures var a := SearchImages(q1, domain, limit);
      var b := SearchImages(q2, domain, limit);
      |a| == |b| && forall i :: 0 <= i < |a| ==>
        a[i].url == b[i].url && a[i].thumbnail == b[i].thumbnail && a[i].source == b[i].source
  {
  }

  const PlaceholderUrlPrefix: string := "https://via.placeholder.com/400x300/3b82f6/ffffff?text="
  const PlaceholderThumbnailPrefix: string := "https://via.placeholder.com/200x150/3b82f6/ffffff?text="

  function PlaceholderImage(query: string, domain: string, i: nat): ImageSearchResult {
    ImageSearchResult(
      Uri.NumberedUrl(PlaceholderUrlPrefix, query, i + 1),
      PlaceholderThumbnailPrefix + Uri.Encode(query),
      query + " - Image " + NatToString(i + 1),
      if domain != "" then domain else "placeholder",
      400,
      300)
  }

  /** `generatePlaceholderImages(query, domain, limit)`: `limit` images, none
      for a negative limit. */
  function PlaceholderImages(query: string, domain: string, limit: int): (r: seq<ImageSearchResult>)
    ensures |r| == (if limit > 0 then limit else 0)
    ensures forall i :: 0 <= i < |r| ==>
      r[i].source == (if domain != "" then domain else "placeholder") && r[i].width == 400 && r[i].height == 300
  {
    var n := if limit > 0 then limit else 0;
    seq(n, i requires 0 <= i < n => PlaceholderImage(query, domain, i))
  }

  /** A placeholder URL carries the query and the image number recoverably:
      the encoded query holds no `+`, so the first `+` after the prefix
      separates it from the number, and both decode back exactly. */
  lemma PlaceholderUrlRoundTrip(query: string, domain: string, limit: int, i: nat)
    requires i < |PlaceholderImages(query, domain, limit)|
    ensures var url := PlaceholderImages(query, domain, limit)[i].url;
      var text := url[|PlaceholderUrlPrefix|..];
      var cut := |Uri.Encode(query)|;
      && url[..|PlaceholderUrlPrefix|] == PlaceholderUrlPrefix
      && cut < |text| && text[cut] == '+' && '+' !in text[..cut]
      && Uri.Decode(text[..cut]) == Some(query)
      && AllChars(text[cut + 1..], IsDigit)
      && ParseNat(text[cut + 1..]) == i + 1
  {
    assert PlaceholderImages(query, domain, limit)[i].url == Uri.NumberedUrl(PlaceholderUrlPrefix, query, i + 1);
    Uri.NumberedUrlRoundTrip(PlaceholderUrlPrefix, query, i + 1);
  }

}
