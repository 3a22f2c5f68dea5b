/** Domain scoping of candidate pages (`hostMatches` in
    lib/google-image-scraper.ts). */
module DomainMatch {
  import opened Text

  /** The `[isMatch, matchedDomain]` pair `hostMatches` returns. */
  datatype MatchResult = MatchResult(matched: bool, domain: string)

  /** `host` is `domain` itself or one of its subdomains. */
  predicate Covers(host: string, domain: string) {
    host == domain || EndsWith(host, "." + domain)
  }

  /** The loop of `hostMatches` over the allowed domains, on a host already
      lower-cased. */
  function FirstCovering(host: string, allowed: seq<string>): (r: MatchResult)
    ensures !r.matched ==> r.domain == ""
    decreases |allowed|
  {
    if |allowed| == 0 then MatchResult(false, "")
    else
      var d := Lower(allowed[0]);
      if Covers(host, d) then MatchResult(true, d)
      else FirstCovering(host, allowed[1..])
  }

  /** `hostMatches(host, allowedDomains)`: both sides are compared in lower
      case and the first allowed domain, in list order, that the host equals
      or is a subdomain of wins. */
  function HostMatches(host: string, allowed: seq<string>): (r: MatchResult)
    ensures !r.matched ==> r.domain == ""
    ensures r.matched ==> Covers(Lower(host), r.domain)
  {
    CoveringResult(Lower(host), allowed);
    FirstCovering(Lower(host), allowed)
  }

  /** `HostMatches` reports the first covering domain, and no match exactly
      when no domain of the list covers the host. */
  lemma {:induction false} HostMatchesIsFirstMatch(host: string, allowed: seq<string>)
    ensures var r := HostMatches(host, allowed);
      && (!r.matched <==> forall k :: 0 <= k < |allowed| ==> !Covers(Lower(host), Lower(allowed[k])))
      && (!r.matched ==> r.domain == "")
      && (forall k :: 0 <= k < |allowed| && Covers(Lower(host), Lower(allowed[k]))
            && (forall j :: 0 <= j < k ==> !Covers(Lower(host), Lower(allowed[j])))
            ==> r == MatchResult(true, Lower(allowed[k])))
  {
    FirstCoveringSpec(Lower(host), allowed);
  }

  lemma {:induction false} FirstCoveringSpec(h: string, allowed: seq<string>)
    ensures var r := FirstCovering(h, allowed);
      && (!r.matched <==> forall k :: 0 <= k < |allowed| ==> !Covers(h, Lower(allowed[k])))
      && (forall k :: 0 <= k < |allowed| && Covers(h, Lower(allowed[k]))
            && (forall j :: 0 <= j < k ==> !Covers(h, Lower(allowed[j])))
            ==> r == MatchResult(true, Lower(allowed[k])))
    decreases |allowed|
  {
    if |allowed| > 0 {
      FirstCoveringSpec(h, allowed[1..]);
      var r := FirstCovering(h, allowed);
      if !Covers(h, Lower(allowed[0])) {
        forall k | 0 <= k < |allowed| && Covers(h, Lower(allowed[k]))
          && (forall j :: 0 <= j < k ==> !Covers(h, Lower(allowed[j])))
          ensures r == MatchResult(true, Lower(allowed[k]))
        {
          assert k > 0;
          assert allowed[1..][k - 1] == allowed[k];
          forall j | 0 <= j < k - 1
            ensures !Covers(h, Lower(allowed[1..][j]))
          {
            assert allowed[1..][j] == allowed[j + 1];
          }
        }
        if !r.matched {
          forall k | 0 <= k < |allowed|
            ensures !Covers(h, Lower(allowed[k]))
          {
            if k > 0 {
              assert allowed[1..][k - 1] == allowed[k];
            }
          }
        }
      }
    }
  }

  /** A match is domain-delimited: a host that is not the domain itself has a
      dot right before the domain, so a mere textual suffix never matches. */
  lemma HostMatchIsDelimited(host: string, allowed: seq<string>)
    ensures var r := HostMatches(host, allowed);
      r.matched && Lower(host) != r.domain ==>
        |Lower(host)| > |r.domain| && Lower(host)[|Lower(host)| - |r.domain| - 1] == '.'
        && EndsWith(Lower(host), r.domain)
  {
    var h := Lower(host);
    var r := HostMatches(host, allowed);
    FirstCoveringSpec(h, allowed);
    if r.matched && h != r.domain {
      var d := r.domain;
      assert Covers(h, d) by { CoveringResult(h, allowed); }
      assert h[|h| - |d| - 1..] == "." + d;
      assert h[|h| - |d|..] == ("." + d)[1..];
    }
  }

  lemma {:induction false} CoveringResult(h: string, allowed: seq<string>)
    ensures FirstCovering(h, allowed).matched ==> Covers(h, FirstCovering(h, allowed).domain)
    decreases |allowed|
  {
    if |allowed| > 0 {
      CoveringResult(h, allowed[1..]);
    }
  }

  /** A subdomain matches its parent domain: any label followed by a dot in
      front of a lower-case domain. */
  lemma SubdomainMatches(sub: string, d: string)
    requires Lower(d) == d && Lower(sub) == sub
    ensures HostMatches(sub + "." + d, [d]) == MatchResult(true, d)
  {
    var h := sub + "." + d;
    LowerAppend(sub + ".", d);
    LowerAppend(sub, ".");
    assert h[|h| - |d| - 1..] == "." + d;
  }

  /** A host that merely ends with the domain's letters, with no dot before
      them, does not match. */
  lemma SuffixWithoutDotDoesNotMatch(p: string, d: string)
    requires Lower(d) == d && Lower(p) == p
    requires |p| > 0 && p[|p| - 1] != '.'
    ensures HostMatches(p + d, [d]) == MatchResult(false, "")
  {
    var h := p + d;
    LowerAppend(p, d);
    var tail := h[|h| - |d| - 1..];
    assert tail[0] == p[|p| - 1];
    assert ("." + d)[0] == '.';
    assert tail != "." + d;
    assert Lower(h) == h && h != d;
    assert !Covers(h, Lower(d));
    assert [d][1..] == [];
    assert FirstCovering(h, [d][1..]) == MatchResult(false, "");
  }

  /** With overlapping domains the earlier one in the list wins, even when
      the later one is the host itself. */
  lemma FirstListedDomainWins(sub: string, d: string)
    requires Lower(d) == d && Lower(sub) == sub
    ensures HostMatches(sub + "." + d, [d, sub + "." + d]) == MatchResult(true, d)
  {
    var h := sub + "." + d;
    SubdomainMatches(sub, d);
    assert Covers(Lower(h), Lower(d));
  }
}
