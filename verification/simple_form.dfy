/** The input helpers of components/SimpleScraperForm.tsx: the item and
    domain list parsers, the parser for an uploaded text file, the guard in
    front of the scrape request and the rule that stops polling for results.
    The request and the polling replies themselves are parameters. */
module SimpleForm {
  import opened Text
  import opened Seqs
  import opened Optional

  /** The character class of `/[\n,;]+/`. */
  predicate IsListSeparator(c: char) { c == '\n' || c == ',' || c == ';' }

  predicate NonEmpty(s: string) { |s| > 0 }

  predicate HasNoSeparator(s: string) {
    forall i :: 0 <= i < |s| ==> !IsListSeparator(s[i])
  }

  /** A piece a parser may return: non-empty, without surrounding white
      space and without list separators. */
  predicate IsListEntry(s: string) {
    |s| > 0 && Trim(s) == s && HasNoSeparator(s)
  }

  /** A parsed domain: an entry that is its own lower-case form. */
  predicate IsDomainEntry(s: string) {
    IsListEntry(s) && Lower(s) == s
  }

  function TrimAll(pieces: seq<string>): (r: seq<string>)
    ensures |r| == |pieces|
    ensures forall k :: 0 <= k < |r| ==> r[k] == Trim(pieces[k])
  {
    seq(|pieces|, k requires 0 <= k < |pieces| => Trim(pieces[k]))
  }

  function LowerTrimAll(pieces: seq<string>): (r: seq<string>)
    ensures |r| == |pieces|
    ensures forall k :: 0 <= k < |r| ==> r[k] == Lower(Trim(pieces[k]))
  {
    seq(|pieces|, k requires 0 <= k < |pieces| => Lower(Trim(pieces[k])))
  }

  /** The pieces of `text.split(/[\n,;]+/)`. */
  function Pieces(text: string): (r: seq<string>)
    ensures |r| >= 1
  {
    SplitOnRuns(text, IsListSeparator)
  }

  lemma PiecesHaveNoSeparator(text: string)
    ensures forall k :: 0 <= k < |Pieces(text)| ==> HasNoSeparator(Pieces(text)[k])
  {
    var ps := Pieces(text);
    forall k | 0 <= k < |ps| ensures HasNoSeparator(ps[k]) {
      assert AllChars(ps[k], c => !IsListSeparator(c));
    }
  }

  /** The characters of a trimmed piece all come from the original. */
  lemma TrimChars(s: string)
    ensures forall i :: 0 <= i < |Trim(s)| ==> Trim(s)[i] in s
  {
    TrimIsInfix(s);
    var o := |s| - |TrimStart(s)|;
    forall i | 0 <= i < |Trim(s)|
      ensures Trim(s)[i] in s
    {
      assert Trim(s)[i] == s[o + i];
    }
  }

  /** The trimmed form of a piece without separators is an entry unless it
      is empty; lower-casing it keeps it one. */
  lemma TrimmedPieceIsEntry(piece: string)
    requires HasNoSeparator(piece)
    ensures |Trim(piece)| > 0 ==> IsListEntry(Trim(piece))
    ensures |Trim(piece)| > 0 ==> IsDomainEntry(Lower(Trim(piece)))
  {
    var t := Trim(piece);
    TrimChars(piece);
    TrimIdempotent(piece);
    var l := Lower(t);
    LowerIdempotent(t);
    if |t| > 0 {
      TrimOfTrimmed(l);
    }
  }

  /** The list before deduplication: trimmed, empty pieces dropped. */
  function KeptItems(text: string): seq<string> {
    Filter(TrimAll(Pieces(text)), NonEmpty)
  }

  /** The same, every piece lower-cased after trimming. */
  function KeptDomains(text: string): seq<string> {
    Filter(LowerTrimAll(Pieces(text)), NonEmpty)
  }

  /** `parseItems(text)`: split on runs of newlines, commas and semicolons,
      trim, drop empty pieces, keep the first occurrence of each. */
  function ParseItems(text: string): (r: seq<string>)
    ensures NoDuplicates(r)
    ensures |r| <= |KeptItems(text)|
  {
    Dedup(KeptItems(text))
  }

  /** `parseDomains(text)`: as `ParseItems`, lower-casing every piece after
      trimming it. */
  function ParseDomains(text: string): (r: seq<string>)
    ensures NoDuplicates(r)
    ensures |r| <= |KeptDomains(text)|
  {
    Dedup(KeptDomains(text))
  }

  /** Every parsed item is non-empty, trimmed and free of separators. */
  lemma ParseItemsEntries(text: string)
    ensures forall k :: 0 <= k < |ParseItems(text)| ==> IsListEntry(ParseItems(text)[k])
  {
    var ps := Pieces(text);
    var trimmed := TrimAll(ps);
    PiecesHaveNoSeparator(text);
    forall j | 0 <= j < |trimmed| && NonEmpty(trimmed[j]) ensures IsListEntry(trimmed[j]) {
      TrimmedPieceIsEntry(ps[j]);
    }
    FilterMembers(trimmed, NonEmpty);
    assert forall k :: 0 <= k < |KeptItems(text)| ==> IsListEntry(KeptItems(text)[k]);
    DedupAll(KeptItems(text), IsListEntry);
  }

  /** Every parsed domain is an entry and contains no upper-case letter. */
  lemma ParseDomainsEntries(text: string)
    ensures forall k :: 0 <= k < |ParseDomains(text)| ==> IsDomainEntry(ParseDomains(text)[k])
  {
    var ps := Pieces(text);
    var lowered := LowerTrimAll(ps);
    PiecesHaveNoSeparator(text);
    forall j | 0 <= j < |lowered| && NonEmpty(lowered[j]) ensures IsDomainEntry(lowered[j]) {
      TrimmedPieceIsEntry(ps[j]);
    }
    FilterMembers(lowered, NonEmpty);
    assert forall k :: 0 <= k < |KeptDomains(text)| ==> IsDomainEntry(KeptDomains(text)[k]);
    DedupAll(KeptDomains(text), IsDomainEntry);
  }

  /** A string is parsed as an item exactly when it is non-empty and is the
      trimmed form of some piece of the input. */
  lemma ParseItemsMembers(text: string, x: string)
    ensures x in ParseItems(text) <==>
      x != "" && exists j :: 0 <= j < |Pieces(text)| && Trim(Pieces(text)[j]) == x
  {
    var trimmed := TrimAll(Pieces(text));
    var kept := KeptItems(text);
    FilterMembers(trimmed, NonEmpty);
    assert x in ParseItems(text) <==> x in kept;
    assert x in kept <==> x in trimmed && x != "";
  }

  /** A string is parsed as a domain exactly when it is non-empty and is the
      lower-cased trimmed form of some piece of the input. */
  lemma ParseDomainsMembers(text: string, x: string)
    ensures x in ParseDomains(text) <==>
      x != "" && exists j :: 0 <= j < |Pieces(text)| && Lower(Trim(Pieces(text)[j])) == x
  {
    var lowered := LowerTrimAll(Pieces(text));
    var kept := KeptDomains(text);
    FilterMembers(lowered, NonEmpty);
    assert x in ParseDomains(text) <==> x in kept;
    assert x in kept <==> x in lowered && x != "";
  }

  /** The items keep the order of their first occurrences in the input. */
  lemma ParseItemsOrder(text: string)
    ensures var r := ParseItems(text);
      forall i, j :: 0 <= i < j < |r| ==> FirstIndex(KeptItems(text), r[i]) < FirstIndex(KeptItems(text), r[j])
  {
    DedupFirstOccurrenceOrder(KeptItems(text));
  }

  /** Parsing inverts listing one entry per line: distinct entries joined
      with newlines parse back to the same list, in the same order. */
  lemma ParseItemsOfLines(items: seq<string>)
    requires |items| > 0 && NoDuplicates(items)
    requires forall k :: 0 <= k < |items| ==> IsListEntry(items[k])
    ensures ParseItems(Join(items, "\n")) == items
  {
    forall k | 0 <= k < |items| ensures AllChars(items[k], x => !IsListSeparator(x)) {
      assert HasNoSeparator(items[k]);
    }
    SplitOnRunsJoin(items, '\n', IsListSeparator);
    assert TrimAll(items) == items;
    assert KeptItems(Join(items, "\n")) == items;
    DedupOfDistinct(items);
  }

  /** Parsing is a normal form: the parsed items, one per line, parse to
      themselves. */
  lemma ParseItemsIdempotent(text: string)
    ensures ParseItems(text) == [] || ParseItems(Join(ParseItems(text), "\n")) == ParseItems(text)
  {
    if ParseItems(text) != [] {
      ParseItemsEntries(text);
      ParseItemsOfLines(ParseItems(text));
    }
  }

  /** The domain parser inverts listing lower-case domains one per line. */
  lemma ParseDomainsOfLines(domains: seq<string>)
    requires |domains| > 0 && NoDuplicates(domains)
    requires forall k :: 0 <= k < |domains| ==> IsDomainEntry(domains[k])
    ensures ParseDomains(Join(domains, "\n")) == domains
  {
    forall k | 0 <= k < |domains| ensures AllChars(domains[k], x => !IsListSeparator(x)) {
      assert HasNoSeparator(domains[k]);
    }
    SplitOnRunsJoin(domains, '\n', IsListSeparator);
    assert LowerTrimAll(domains) == domains;
    assert KeptDomains(Join(domains, "\n")) == domains;
    DedupOfDistinct(domains);
  }

  /** `handleSubmit`'s guard: a request is made only when both parsed lists
      are non-empty, and it carries exactly the parsed lists. */
  datatype Request = Request(items: seq<string>, domains: seq<string>)

  function Submit(itemsText: string, domainsText: string): (r: Option<Request>)
    ensures r.Some? <==> |ParseItems(itemsText)| > 0 && |ParseDomains(domainsText)| > 0
    ensures r.Some? ==> r.value.items == ParseItems(itemsText) && r.value.domains == ParseDomains(domainsText)
  {
    var items := ParseItems(itemsText);
    var doms := ParseDomains(domainsText);
    if |items| == 0 then None
    else if |doms| == 0 then None
    else Some(Request(items, doms))
  }

  predicate IsBlankChar(c: char) { IsListSeparator(c) || IsSpace(c) }

  /** Text holding nothing but separators and white space makes no request. */
  lemma BlankInputMakesNoRequest(itemsText: string, domainsText: string)
    requires forall i :: 0 <= i < |itemsText| ==> IsBlankChar(itemsText[i])
    ensures ParseItems(itemsText) == []
    ensures Submit(itemsText, domainsText) == None
  {
    var ps := Pieces(itemsText);
    SplitOnRunsKeeps(itemsText, IsListSeparator, IsBlankChar);
    PiecesHaveNoSeparator(itemsText);
    forall j | 0 <= j < |ps| ensures Trim(ps[j]) == "" {
      assert AllChars(ps[j], IsBlankChar);
      assert HasNoSeparator(ps[j]);
      AllSpaceTrimsToEmpty(ps[j]);
    }
    if ParseItems(itemsText) != [] {
      ParseItemsMembers(itemsText, ParseItems(itemsText)[0]);
    }
  }

  lemma {:induction false} AllSpaceTrimsToEmpty(s: string)
    requires forall i :: 0 <= i < |s| ==> IsSpace(s[i])
    ensures TrimStart(s) == "" && Trim(s) == ""
    decreases |s|
  {
    if |s| > 0 {
      AllSpaceTrimsToEmpty(s[1..]);
    }
  }

  /** A character property every character of the input has, every piece
      between separator runs has too. */
  lemma {:induction false} SplitOnRunsKeeps(s: string, isSep: char -> bool, p: char -> bool)
    requires AllChars(s, p)
    ensures forall k :: 0 <= k < |SplitOnRuns(s, isSep)| ==> AllChars(SplitOnRuns(s, isSep)[k], p)
    decreases |s|
  {
    if |s| > 0 {
      var rest := SplitOnRuns(s[1..], isSep);
      SplitOnRunsKeeps(s[1..], isSep, p);
      if !isSep(s[0]) {
        assert AllChars([s[0]] + rest[0], p);
      }
    }
  }

  /** The first comma-separated field of a line, trimmed. */
  function FirstField(line: string): (f: string)
    ensures ',' !in f && Trim(f) == f
  {
    var field := Split(line, ',')[0];
    TrimChars(field);
    TrimIdempotent(field);
    Trim(field)
  }

  function FirstFields(lines: seq<string>): (r: seq<string>)
    ensures |r| == |lines|
    ensures forall k :: 0 <= k < |r| ==> r[k] == FirstField(lines[k])
  {
    seq(|lines|, k requires 0 <= k < |lines| => FirstField(lines[k]))
  }

  /** Whether the first line is a header: its lower-cased form contains
      `product`. */
  predicate IsHeader(line: string) {
    Contains(Lower(line), "product")
  }

  /** The product list read from an uploaded text file: after a header
      line, the trimmed first comma field of every later line; without
      one, every trimmed line; empty results dropped. */
  function UploadProducts(text: string): seq<string> {
    var lines := Split(text, '\n');
    if IsHeader(lines[0]) then Filter(FirstFields(lines[1..]), NonEmpty)
    else Filter(TrimAll(lines), NonEmpty)
  }

  /** `setItemNames(products.join('\n'))`: the text the item box then shows. */
  function UploadText(text: string): string {
    Join(UploadProducts(text), "\n")
  }

  /** A product line of the item box: non-empty, trimmed, single-line. */
  predicate IsProductLine(s: string) {
    |s| > 0 && Trim(s) == s && '\n' !in s
  }

  /** Every uploaded product is a non-empty trimmed single line, and after a
      header line none contains a comma. */
  lemma UploadProductsShape(text: string)
    ensures var r := UploadProducts(text);
      && (forall k :: 0 <= k < |r| ==> IsProductLine(r[k]))
      && (IsHeader(Split(text, '\n')[0]) ==> forall k :: 0 <= k < |r| ==> ',' !in r[k])
  {
    var lines := Split(text, '\n');
    var r := UploadProducts(text);
    if IsHeader(lines[0]) {
      var fs := FirstFields(lines[1..]);
      FilterMembers(fs, NonEmpty);
      forall j | 0 <= j < |fs| && NonEmpty(fs[j]) ensures IsProductLine(fs[j]) {
        var field := Split(lines[1..][j], ',')[0];
        TrimChars(field);
        assert '\n' !in lines[1..][j];
        assert forall c :: c in field ==> c in lines[1..][j] by {
          SplitChars(lines[1..][j], ',');
        }
      }
    } else {
      var ts := TrimAll(lines);
      FilterMembers(ts, NonEmpty);
      forall j | 0 <= j < |ts| && NonEmpty(ts[j]) ensures IsProductLine(ts[j]) {
        TrimChars(lines[j]);
        TrimIdempotent(lines[j]);
      }
    }
  }

  /** Every character of a piece of `Split` occurs in the input. */
  lemma {:induction false} SplitChars(s: string, c: char)
    ensures forall c' :: c' in Split(s, c)[0] ==> c' in s
    decreases |s|
  {
    if |s| > 0 {
      SplitChars(s[1..], c);
    }
  }

  /** A file of plain product lines, the first of which does not look like a
      header, uploads exactly those lines. */
  lemma UploadPlainLines(names: seq<string>)
    requires |names| > 0 && !IsHeader(names[0])
    requires forall k :: 0 <= k < |names| ==> IsProductLine(names[k])
    ensures UploadProducts(Join(names, "\n")) == names
  {
    SplitJoin(names, '\n');
    assert TrimAll(names) == names;
  }

  /** Rows `name,rest` of a product table. */
  function Rows(names: seq<string>, rest: seq<string>): (r: seq<string>)
    requires |rest| == |names|
    ensures |r| == |names|
    ensures forall k :: 0 <= k < |r| ==> r[k] == names[k] + [','] + rest[k]
  {
    seq(|names|, k requires 0 <= k < |names| => names[k] + [','] + rest[k])
  }

  /** A file with a header line and then one row per product, the product
      name first and further columns after a comma, uploads exactly the
      product names. */
  lemma UploadWithHeader(header: string, names: seq<string>, rest: seq<string>)
    requires IsHeader(header) && '\n' !in header
    requires |rest| == |names|
    requires forall k :: 0 <= k < |names| ==> IsProductLine(names[k]) && ',' !in names[k] && '\n' !in rest[k]
    ensures UploadProducts(Join([header] + Rows(names, rest), "\n")) == names
  {
    var rows := Rows(names, rest);
    var lines := [header] + rows;
    SplitJoin(lines, '\n');
    assert lines[1..] == rows;
    forall k | 0 <= k < |rows| ensures FirstField(rows[k]) == names[k] {
      SplitConcat(names[k], ',', rest[k]);
      SplitWithoutSeparator(names[k], ',');
    }
    assert FirstFields(rows) == names;
  }
}
