/** The provider query for one product (`buildQuery` in
    lib/google-image-scraper.ts). */
module Query {
  import opened Text
  import opened Seqs

  function Quoted(name: string): string {
    "\"" + name + "\""
  }

  /** `domains.map(d => `site:${d}`)`. */
  function SiteTerms(domains: seq<string>): (r: seq<string>)
    ensures |r| == |domains|
    ensures forall k :: 0 <= k < |r| ==> r[k] == "site:" + domains[k]
  {
    seq(|domains|, k requires 0 <= k < |domains| => "site:" + domains[k])
  }

  /** `buildQuery(productName, domains)`: the product name in double quotes,
      inserted verbatim (embedded quotes are not escaped), preceded by one
      `site:` term or by a parenthesised `OR` of `site:` terms. */
  function BuildQuery(name: string, domains: seq<string>): string
  {
    if |domains| == 0 then Quoted(name)
    else if |domains| == 1 then "site:" + domains[0] + " " + Quoted(name)
    else "(" + Join(SiteTerms(domains), " OR ") + ") " + Quoted(name)
  }

  /** The quoted product name always closes the query, whatever the domains. */
  lemma QueryEndsWithQuotedName(name: string, domains: seq<string>)
    ensures EndsWith(BuildQuery(name, domains), Quoted(name))
  {
    var q := BuildQuery(name, domains);
    var pre := q[..|q| - |Quoted(name)|];
    assert q == pre + Quoted(name);
  }

  /** The product name read back from a query: the text between the first
      double quote and the closing one. */
  function NameOf(q: string): string
  {
    if '"' in q && |q| >= FirstIndex(q, '"') + 2 then q[FirstIndex(q, '"') + 1..|q| - 1] else ""
  }

  /** When no domain holds a double quote, the product name is recovered
      exactly from the query, even a name that itself holds quotes. */
  lemma {:induction false} QueryNameRoundTrip(name: string, domains: seq<string>)
    requires forall k :: 0 <= k < |domains| ==> '"' !in domains[k]
    ensures NameOf(BuildQuery(name, domains)) == name
  {
    var q := BuildQuery(name, domains);
    var prefix: string;
    if |domains| == 0 {
      prefix := "";
    } else if |domains| == 1 {
      prefix := "site:" + domains[0] + " ";
    } else {
      var terms := SiteTerms(domains);
      JoinChars(terms, " OR ", c => c != '"');
      prefix := "(" + Join(terms, " OR ") + ") ";
    }
    assert q == prefix + "\"" + name + "\"";
    assert '"' !in prefix;
    QuoteAfterPrefix(prefix, name, q);
  }

  lemma QuoteAfterPrefix(prefix: string, name: string, q: string)
    requires '"' !in prefix && q == prefix + "\"" + name + "\""
    ensures NameOf(q) == name
  {
    var i := |prefix|;
    assert q[i] == '"';
    assert forall j :: 0 <= j < i ==> q[j] == prefix[j];
    assert FirstIndex(q, '"') == i;
    assert q[i + 1..|q| - 1] == name;
  }

  /** A part of a join occurs in the joined string. */
  lemma {:induction false} JoinHasPart(parts: seq<string>, sep: string, k: nat)
    requires k < |parts|
    ensures Contains(Join(parts, sep), parts[k])
    decreases |parts|
  {
    var j := Join(parts, sep);
    if |parts| == 1 {
      assert OccursAt(j, parts[k], 0);
    } else {
      var tail := Join(parts[1..], sep);
      assert j == parts[0] + sep + tail;
      if k == 0 {
        assert OccursAt(j, parts[0], 0);
      } else {
        JoinHasPart(parts[1..], sep, k - 1);
        ContainsAt(tail, parts[k]);
        var i :| OccursAt(tail, parts[k], i);
        var off := |parts[0]| + |sep|;
        assert j[off + i..off + i + |parts[k]|] == tail[i..i + |parts[k]|];
        assert OccursAt(j, parts[k], off + i);
      }
    }
    ContainsAt(j, parts[k]);
  }

  /** Every target domain is named in the query by its own `site:` term. */
  lemma QueryNamesEveryDomain(name: string, domains: seq<string>, k: nat)
    requires k < |domains|
    ensures Contains(BuildQuery(name, domains), "site:" + domains[k])
  {
    var q := BuildQuery(name, domains);
    var t := "site:" + domains[k];
    if |domains| == 1 {
      assert OccursAt(q, t, 0);
    } else {
      var terms := SiteTerms(domains);
      var j := Join(terms, " OR ");
      JoinHasPart(terms, " OR ", k);
      ContainsAt(j, t);
      var i :| OccursAt(j, t, i);
      assert q == "(" + j + ") " + Quoted(name);
      assert q[1 + i..1 + i + |t|] == j[i..i + |t|];
      assert OccursAt(q, t, 1 + i);
    }
    ContainsAt(q, t);
  }
}
