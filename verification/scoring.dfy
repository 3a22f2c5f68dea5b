/** The relevance heuristic for one provider candidate (`scoreCandidate` in
    lib/google-image-scraper.ts): token overlap, phrase, domain, size and
    keyword terms with their exact constants, clamped at 0 and rounded to
    four decimals. */
module Scoring {
  import opened Text
  import opened Seqs
  import opened Normalize
  import opened Optional

  /** One raw image of the provider's `images_results`; a missing text field
      is the empty string, which every use treats like `undefined`. */
  datatype SerpImage = SerpImage(
    position: int,
    thumbnail: string,
    source: string,
    title: string,
    link: string,
    original: string,
    originalWidth: Option<int>,
    originalHeight: Option<int>)

  const BadWords: seq<string> :=
    ["placeholder", "thumb", "thumbnail", "sprite", "swatch", "icon", "logo", "sample", "gif"]

  /** `new Set(tokenize(s))`. */
  function TokenSet(s: string): set<string> {
    set t | t in Tokenize(s)
  }

  /** `[title || '', source || ''].join(' ')`. */
  function CandidateText(c: SerpImage): string {
    c.title + " " + c.source
  }

  lemma SubsetCard<T>(a: set<T>, b: set<T>)
    requires a <= b
    ensures |a| <= |b|
  {
    assert b == a + (b - a);
  }

  /** `|n ∩ m| / |n|`, or 0 for an empty `n`. */
  function OverlapRatio<T>(n: set<T>, m: set<T>): (r: real)
    ensures 0.0 <= r <= 1.0
    ensures |n| == 0 ==> r == 0.0
    ensures r == 1.0 ==> n <= m
  {
    SubsetCard(n * m, n);
    if |n| == 0 then 0.0
    else
      assert |n * m| == |n| ==> n * m == n by {
        if |n * m| == |n| && n * m != n {
          var t :| t in n && t !in n * m;
          SubsetCard(n * m, n - {t});
        }
      }
      RatioBounds(|n * m|, |n|);
      (|n * m| as real) / (|n| as real)
  }

  lemma RatioBounds(a: nat, b: nat)
    requires a <= b && 0 < b
    ensures 0.0 <= (a as real) / (b as real) <= 1.0
    ensures (a as real) / (b as real) == 1.0 ==> a == b
  {
    var q := (a as real) / (b as real);
    assert q * (b as real) == a as real;
  }

  /** Share of the product's distinct tokens that also occur in the
      candidate's title and source label. */
  function Overlap(name: string, c: SerpImage): (r: real)
    ensures 0.0 <= r <= 1.0
    ensures |TokenSet(name)| == 0 ==> r == 0.0
    ensures r == 1.0 ==> TokenSet(name) <= TokenSet(CandidateText(c))
  {
    OverlapRatio(TokenSet(name), TokenSet(CandidateText(c)))
  }

  function PhraseBoost(name: string, c: SerpImage): (r: real)
    ensures r == 0.0 || r == 0.25
  {
    if Contains(NormalizeText(CandidateText(c)), NormalizeText(name)) then 0.25 else 0.0
  }

  function DomainBoost(matchedDomain: string): real {
    if matchedDomain != "" then 0.15 else 0.0
  }

  /** Penalty for small images: only when both dimensions are known and
      non-zero (`original_width || 0` treats a missing width as 0). */
  function SizePenalty(c: SerpImage): (r: real)
    ensures r == 0.0 || r == 0.2 || r == 0.5
  {
    var w := c.originalWidth.GetOr(0);
    var h := c.originalHeight.GetOr(0);
    if w != 0 && h != 0 then
      var minEdge := if w < h then w else h;
      if minEdge < 100 then 0.5 else if minEdge < 200 then 0.2 else 0.0
    else 0.0
  }

  /** `[original || '', link || '', title || ''].join(' ')`. */
  function UrlBlob(c: SerpImage): string {
    c.original + " " + c.link + " " + c.title
  }

  /** The case-insensitive test of the bad-word pattern: some listed word
      occurs in the lower-cased text. */
  predicate HasBadWord(s: string) {
    exists k :: 0 <= k < |BadWords| && Contains(Lower(s), BadWords[k])
  }

  function BadPenalty(c: SerpImage): (r: real)
    ensures r == 0.0 || r == 0.3
  {
    if HasBadWord(UrlBlob(c)) then 0.3 else 0.0
  }

  /** The sum of the terms before clamping and rounding. */
  function RawScore(name: string, c: SerpImage, matchedDomain: string): (r: real)
    ensures -0.8 <= r <= 1.4
  {
    Overlap(name, c) + PhraseBoost(name, c) + DomainBoost(matchedDomain) - SizePenalty(c) - BadPenalty(c)
  }

  /** `Math.round(x * 10000) / 10000` for `x >= 0`, where rounding half up
      coincides with JavaScript's `Math.round`. */
  function Round4(x: real): (r: real)
    requires x >= 0.0
    ensures r >= 0.0
    ensures x - 0.00005 < r <= x + 0.00005
  {
    ((x * 10000.0 + 0.5).Floor as real) / 10000.0
  }

  lemma Round4Monotone(x: real, y: real)
    requires 0.0 <= x <= y
    ensures Round4(x) <= Round4(y)
  {
    var fx := (x * 10000.0 + 0.5).Floor;
    var fy := (y * 10000.0 + 0.5).Floor;
    assert fx <= fy;
  }

  lemma Round4Fixes(n: nat)
    ensures Round4(n as real / 10000.0) == n as real / 10000.0
  {
    var x := n as real / 10000.0;
    assert x * 10000.0 + 0.5 == n as real + 0.5;
    assert (n as real + 0.5).Floor == n;
  }

  function Max0(x: real): real {
    if x > 0.0 then x else 0.0
  }

  /** `scoreCandidate(productName, candidate, matchedDomain)`. The score lies
      in [0, 1.4] and is within half a unit of the fourth decimal of the
      clamped sum of its terms. */
  function ScoreCandidate(name: string, c: SerpImage, matchedDomain: string): (r: real)
    ensures 0.0 <= r <= 1.4
    ensures Max0(RawScore(name, c, matchedDomain)) - 0.00005 < r
    ensures r <= Max0(RawScore(name, c, matchedDomain)) + 0.00005
  {
    var x := Max0(RawScore(name, c, matchedDomain));
    Round4Monotone(x, 1.4);
    Round4Fixes(14000);
    Round4(x)
  }

  /** The domain bonus adds exactly 0.15 to the sum of terms when a domain was
      matched, so a matched domain never lowers the score. */
  lemma MatchedDomainNeverLowersScore(name: string, c: SerpImage, matchedDomain: string)
    ensures matchedDomain != "" ==>
      RawScore(name, c, matchedDomain) == RawScore(name, c, "") + 0.15
    ensures ScoreCandidate(name, c, matchedDomain) >= ScoreCandidate(name, c, "")
  {
    var a := Max0(RawScore(name, c, ""));
    var b := Max0(RawScore(name, c, matchedDomain));
    Round4Monotone(a, b);
  }

  /** A name that normalizes to the empty string always earns the phrase
      bonus, because every text includes the empty string. */
  lemma EmptyNameEarnsPhraseBonus(name: string, c: SerpImage)
    requires NormalizeText(name) == ""
    ensures PhraseBoost(name, c) == 0.25
  {
    ContainsEmpty(NormalizeText(CandidateText(c)));
  }

  /** The overlap term sees only the set of the name's words, compared
      without regard to case: reordering or repeating words, or changing
      the case of their letters, leaves it unchanged. */
  lemma OverlapIgnoresWordOrder(ws1: seq<string>, ws2: seq<string>, c: SerpImage)
    requires forall k :: 0 <= k < |ws1| ==> AlnumWord(ws1[k])
    requires forall k :: 0 <= k < |ws2| ==> AlnumWord(ws2[k])
    requires (set w | w in LowerAll(ws1)) == (set w | w in LowerAll(ws2))
    ensures Overlap(Join(ws1, " "), c) == Overlap(Join(ws2, " "), c)
  {
    assert Tokenize(Join(ws1, " ")) == LowerAll(ws1) by { LowerWordsTokenize(ws1); }
    assert Tokenize(Join(ws2, " ")) == LowerAll(ws2) by { LowerWordsTokenize(ws2); }
    assert TokenSet(Join(ws1, " ")) == TokenSet(Join(ws2, " "));
  }

  /** A word of ASCII letters and digits in any case. */
  ghost predicate AlnumWord(w: string) {
    |w| > 0 && forall i :: 0 <= i < |w| ==> IsAlnum(w[i])
  }

  lemma LowerAlnumWord(w: string)
    requires AlnumWord(w)
    ensures IsWord(Lower(w))
  {
  }

  /** Words of letters and digits joined by spaces tokenize to the same
      words lower-cased. */
  lemma LowerWordsTokenize(ws: seq<string>)
    requires forall k :: 0 <= k < |ws| ==> AlnumWord(ws[k])
    ensures Tokenize(Join(ws, " ")) == LowerAll(ws)
  {
    LowerWordsTokenizeLower(ws);
    TokenizeIgnoresCase(Join(ws, " "));
  }

  lemma LowerWordsTokenizeLower(ws: seq<string>)
    requires forall k :: 0 <= k < |ws| ==> AlnumWord(ws[k])
    ensures Tokenize(Lower(Join(ws, " "))) == LowerAll(ws)
  {
    LowerJoinWords(ws);
    TokenizeLowerWords(ws);
  }

  lemma LowerJoinWords(ws: seq<string>)
    ensures Lower(Join(ws, " ")) == Join(LowerAll(ws), " ")
  {
    LowerJoin(ws, " ");
  }

  lemma TokenizeLowerWords(ws: seq<string>)
    requires forall k :: 0 <= k < |ws| ==> AlnumWord(ws[k])
    ensures Tokenize(Join(LowerAll(ws), " ")) == LowerAll(ws)
  {
    LowerAllWords(ws);
    TokenizeJoin(LowerAll(ws));
  }

  lemma LowerAllWords(ws: seq<string>)
    requires forall k :: 0 <= k < |ws| ==> AlnumWord(ws[k])
    ensures forall k :: 0 <= k < |LowerAll(ws)| ==> IsWord(LowerAll(ws)[k])
  {
    forall k | 0 <= k < |ws| ensures IsWord(LowerAll(ws)[k]) {
      LowerAlnumWord(ws[k]);
    }
  }


  /** The size penalty applies only when both dimensions are known and
      non-zero: 0.5 below a 100-pixel shorter edge, 0.2 below 200. */
  lemma SizePenaltyCases(c: SerpImage)
    ensures var w := c.originalWidth.GetOr(0);
      var h := c.originalHeight.GetOr(0);
      var m := if w < h then w else h;
      && (SizePenalty(c) == 0.5 <==> w != 0 && h != 0 && m < 100)
      && (SizePenalty(c) == 0.2 <==> w != 0 && h != 0 && 100 <= m < 200)
      && (SizePenalty(c) == 0.0 <==> w == 0 || h == 0 || m >= 200)
  {
  }

  /** The keyword test ignores ASCII case. */
  lemma BadWordIgnoresCase(s: string)
    ensures HasBadWord(Lower(s)) == HasBadWord(s)
  {
    LowerIdempotent(s);
  }
}
