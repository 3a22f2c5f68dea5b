/** `generateCSV` of lib/csv-export.ts: one header line and one record per
    product, fields quoted as in rules 6 and 7 of section 2 of RFC 4180, and
    records separated by a bare line feed. The entry sequence is the
    `Object.entries` enumeration as the caller supplies it, with integer-like
    keys already first; it is not the product list. The number formatting of
    `score.toString()` is a function parameter. */
module CsvExport {
  import opened Text
  import opened Optional

  /** The selected image of a product; a missing field is the empty string,
      a missing score is `None`. */
  datatype CsvImage = CsvImage(
    url: string,
    sourceUrl: string,
    matchedDomain: string,
    sourceDomain: string,
    score: Option<real>)

  /** One `[productName, image]` pair; a falsy image is `None`. */
  datatype Entry = Entry(productName: string, image: Option<CsvImage>)

  const Headers: seq<string> :=
    ["Product Name", "Selected Image URL", "Source Page URL", "Matched Domain", "Score"]

  /** `headers.join(',')`. */
  const HeaderLine: string := Join(Headers, ",")

  /** The five column values of one entry. The matched domain falls back to
      the source domain, and a score of 0 is falsy and leaves the column
      empty like a missing one. */
  function Row(e: Entry, scoreText: real -> string): (r: seq<string>)
    ensures |r| == 5 && r[0] == e.productName
    ensures e.image.None? ==> r[1..] == ["", "", "", ""]
    ensures e.image.Some? ==>
      r[3] == (if e.image.value.matchedDomain != "" then e.image.value.matchedDomain
               else e.image.value.sourceDomain)
    ensures e.image.Some? ==> r[1] == e.image.value.url && r[2] == e.image.value.sourceUrl
    ensures e.image.Some? && (e.image.value.score.None? || e.image.value.score == Some(0.0)) ==> r[4] == ""
    ensures e.image.Some? && e.image.value.score.Some? && e.image.value.score.value != 0.0 ==>
      r[4] == scoreText(e.image.value.score.value)
  {
    match e.image
    case None => [e.productName, "", "", "", ""]
    case Some(img) =>
      [e.productName,
       img.url,
       img.sourceUrl,
       if img.matchedDomain != "" then img.matchedDomain
       else if img.sourceDomain != "" then img.sourceDomain
       else "",
       match img.score
       case None => ""
       case Some(x) => if x != 0.0 then scoreText(x) else ""]
  }

  /** `value.replace(/"/g, '""')`. */
  function DoubleQuotes(v: string): (r: string)
    ensures |r| >= |v|
  {
    if |v| == 0 then ""
    else if v[0] == '"' then "\"\"" + DoubleQuotes(v[1..])
    else [v[0]] + DoubleQuotes(v[1..])
  }

  predicate NeedsQuotes(v: string) {
    ',' in v || '"' in v
  }

  /** The field rule: quoted with inner quotes doubled exactly when the value
      holds a comma or a quote; a line break alone does not trigger it. */
  function Escape(v: string): (r: string)
    ensures !NeedsQuotes(v) ==> r == v
    ensures NeedsQuotes(v) ==> |r| >= |v| + 2 && r[0] == '"' && r[|r| - 1] == '"'
  {
    if NeedsQuotes(v) then "\"" + DoubleQuotes(v) + "\"" else v
  }

  function EscapeAll(fields: seq<string>): (r: seq<string>)
    ensures |r| == |fields|
    ensures forall k :: 0 <= k < |r| ==> r[k] == Escape(fields[k])
  {
    seq(|fields|, k requires 0 <= k < |fields| => Escape(fields[k]))
  }

  function Record(fields: seq<string>): string {
    Join(EscapeAll(fields), ",")
  }

  function Records(entries: seq<Entry>, scoreText: real -> string): (r: seq<string>)
    ensures |r| == |entries|
    ensures forall k :: 0 <= k < |r| ==> r[k] == Record(Row(entries[k], scoreText))
  {
    seq(|entries|, k requires 0 <= k < |entries| => Record(Row(entries[k], scoreText)))
  }

  /** `generateCSV(results)`. */
  function GenerateCsv(entries: seq<Entry>, scoreText: real -> string): string {
    Join([HeaderLine] + Records(entries, scoreText), "\n")
  }

  /** The header line reads as a record of the five column names: none of
      them needs quoting, and none holds a line feed. */
  lemma HeaderLineIsHeaders()
    ensures HeaderLine == Record(Headers)
    ensures '\n' !in HeaderLine
  {
    HeadersArePlain();
    var e := EscapeAll(Headers);
    forall k | 0 <= k < 5 ensures e[k] == Headers[k] && AllChars(Headers[k], NotLineFeed) {
      assert PlainHeader(Headers[k]);
    }
    assert e == Headers;
    JoinChars(Headers, ",", NotLineFeed);
  }

  predicate PlainHeader(h: string) {
    ',' !in h && '"' !in h && '\n' !in h
  }

  lemma HeadersArePlain()
    ensures forall k :: 0 <= k < |Headers| ==> PlainHeader(Headers[k])
  {
    assert PlainHeader("Product Name");
    assert PlainHeader("Selected Image URL");
    assert PlainHeader("Source Page URL");
    assert PlainHeader("Matched Domain");
    assert PlainHeader("Score");
  }

  /** The output opens with the header line, followed by a line feed when
      there is at least one record. */
  lemma CsvStartsWithHeader(entries: seq<Entry>, scoreText: real -> string)
    ensures var csv := GenerateCsv(entries, scoreText);
      && |HeaderLine| <= |csv| && csv[..|HeaderLine|] == HeaderLine
      && (|entries| == 0 ==> csv == HeaderLine)
      && (|entries| > 0 ==> csv[|HeaderLine|] == '\n')
  {
    var rs := Records(entries, scoreText);
    if |entries| > 0 {
      JoinCons(HeaderLine, rs, "\n");
    }
  }

  /** Escaping adds no line feed: a record spans one line exactly when its
      fields do. */
  lemma {:induction false} DoubleQuotesKeepsOtherChars(v: string, c: char)
    requires c != '"'
    ensures c in DoubleQuotes(v) <==> c in v
    decreases |v|
  {
    if |v| > 0 {
      DoubleQuotesKeepsOtherChars(v[1..], c);
      assert v == [v[0]] + v[1..];
    }
  }

  lemma RecordWithoutLineFeed(fields: seq<string>)
    requires forall k :: 0 <= k < |fields| ==> '\n' !in fields[k]
    ensures '\n' !in Record(fields)
  {
    var e := EscapeAll(fields);
    forall k | 0 <= k < |e| ensures AllChars(e[k], NotLineFeed) {
      DoubleQuotesKeepsOtherChars(fields[k], '\n');
    }
    JoinChars(e, ",", NotLineFeed);
  }

  predicate NotLineFeed(c: char) {
    c != '\n'
  }

  /** When no field holds a line feed, splitting the output on line feeds
      gives back the header and the records, so there are exactly one more
      lines than entries. */
  lemma LinesAreHeaderAndRecords(entries: seq<Entry>, scoreText: real -> string)
    requires forall k, j :: 0 <= k < |entries| && 0 <= j < 5 ==> '\n' !in Row(entries[k], scoreText)[j]
    ensures Split(GenerateCsv(entries, scoreText), '\n') == [HeaderLine] + Records(entries, scoreText)
    ensures |Split(GenerateCsv(entries, scoreText), '\n')| == |entries| + 1
  {
    var lines := [HeaderLine] + Records(entries, scoreText);
    HeaderLineIsHeaders();
    forall k | 0 <= k < |lines| ensures '\n' !in lines[k] {
      if k > 0 {
        RecordWithoutLineFeed(Row(entries[k - 1], scoreText));
      }
    }
    SplitJoin(lines, '\n');
  }

  /** The pair a field parser returns: the field value and the unread input. */
  datatype Parsed = Parsed(field: string, rest: string)

  /** An unquoted field: everything up to the next comma. */
  function ParseBare(s: string): (p: Parsed)
    ensures |p.rest| <= |s|
    ensures |p.rest| > 0 ==> p.rest[0] == ','
    decreases |s|
  {
    if |s| == 0 || s[0] == ',' then Parsed("", s)
    else
      var p := ParseBare(s[1..]);
      Parsed([s[0]] + p.field, p.rest)
  }

  /** The inside of a quoted field, after its opening quote: a doubled quote
      stands for one quote and a single one closes the field. */
  function ParseQuoted(s: string): (p: Parsed)
    ensures |p.rest| < |s| || (|s| == 0 && p.rest == "")
    decreases |s|
  {
    if |s| == 0 then Parsed("", "")
    else if s[0] == '"' then
      if |s| > 1 && s[1] == '"' then
        var p := ParseQuoted(s[2..]);
        Parsed("\"" + p.field, p.rest)
      else Parsed("", s[1..])
    else
      var p := ParseQuoted(s[1..]);
      Parsed([s[0]] + p.field, p.rest)
  }

  function ParseField(s: string): (p: Parsed)
    ensures |p.rest| <= |s|
  {
    if |s| > 0 && s[0] == '"' then ParseQuoted(s[1..]) else ParseBare(s)
  }

  /** A quote-aware record splitter: fields separated by commas outside
      quotes. */
  function ParseRecord(s: string): (fields: seq<string>)
    ensures |fields| >= 1
    decreases |s|
  {
    var p := ParseField(s);
    if |p.rest| > 0 && p.rest[0] == ',' then [p.field] + ParseRecord(p.rest[1..])
    else [p.field]
  }

  predicate EndsField(rest: string) {
    |rest| == 0 || rest[0] == ','
  }

  lemma {:induction false} ParseBareRoundTrip(v: string, rest: string)
    requires ',' !in v && EndsField(rest)
    ensures ParseBare(v + rest) == Parsed(v, rest)
    decreases |v|
  {
    if |v| > 0 {
      assert (v + rest)[1..] == v[1..] + rest;
      ParseBareRoundTrip(v[1..], rest);
      assert [v[0]] + v[1..] == v;
    } else {
      assert v + rest == rest;
    }
  }

  lemma {:induction false} ParseQuotedRoundTrip(v: string, rest: string)
    requires EndsField(rest)
    ensures ParseQuoted(DoubleQuotes(v) + "\"" + rest) == Parsed(v, rest)
    decreases |v|
  {
    var s := DoubleQuotes(v) + "\"" + rest;
    if |v| == 0 {
      assert s == "\"" + rest;
      assert s[1..] == rest;
    } else if v[0] == '"' {
      assert s == "\"\"" + (DoubleQuotes(v[1..]) + "\"" + rest);
      assert s[2..] == DoubleQuotes(v[1..]) + "\"" + rest;
      ParseQuotedRoundTrip(v[1..], rest);
      assert "\"" + v[1..] == v;
    } else {
      assert s == [v[0]] + (DoubleQuotes(v[1..]) + "\"" + rest);
      assert s[1..] == DoubleQuotes(v[1..]) + "\"" + rest;
      ParseQuotedRoundTrip(v[1..], rest);
      assert [v[0]] + v[1..] == v;
    }
  }

  /** Section 2 of RFC 4180, rules 6 and 7: reading an escaped field back
      yields the value exactly, and stops at the comma that follows it. */
  lemma EscapeRoundTrip(v: string, rest: string)
    requires EndsField(rest)
    ensures ParseField(Escape(v) + rest) == Parsed(v, rest)
  {
    if NeedsQuotes(v) {
      QuotedFieldRoundTrip(v, rest);
    } else {
      BareFieldRoundTrip(v, rest);
    }
  }

  lemma QuotedFieldRoundTrip(v: string, rest: string)
    requires EndsField(rest)
    ensures ParseField("\"" + DoubleQuotes(v) + "\"" + rest) == Parsed(v, rest)
  {
    var t := DoubleQuotes(v) + "\"" + rest;
    var s := ['"'] + t;
    assert "\"" + DoubleQuotes(v) + "\"" + rest == s;
    assert s[0] == '"' && s[1..] == t;
    ParseQuotedRoundTrip(v, rest);
  }

  lemma BareFieldRoundTrip(v: string, rest: string)
    requires !NeedsQuotes(v) && EndsField(rest)
    ensures ParseField(v + rest) == Parsed(v, rest)
  {
    ParseBareRoundTrip(v, rest);
    if |v| > 0 {
      assert (v + rest)[0] == v[0];
    } else {
      assert v + rest == rest;
    }
  }

  /** The quote-aware splitter recovers every field of a record. */
  lemma {:induction false} ParseRecordRoundTrip(fields: seq<string>)
    requires |fields| >= 1
    ensures ParseRecord(Record(fields)) == fields
    decreases |fields|
  {
    var e := EscapeAll(fields);
    if |fields| == 1 {
      assert Record(fields) == Escape(fields[0]);
      EscapeRoundTrip(fields[0], "");
      assert Escape(fields[0]) + "" == Escape(fields[0]);
    } else {
      var tail := Record(fields[1..]);
      assert EscapeAll(fields[1..]) == e[1..];
      JoinCons(e[0], e[1..], ",");
      assert [e[0]] + e[1..] == e;
      assert Record(fields) == Escape(fields[0]) + ("," + tail);
      EscapeRoundTrip(fields[0], "," + tail);
      assert ("," + tail)[1..] == tail;
      ParseRecordRoundTrip(fields[1..]);
      assert [fields[0]] + fields[1..] == fields;
    }
  }

  /** Every record reads back as exactly its five column values. */
  lemma RecordsHaveFiveFields(entries: seq<Entry>, scoreText: real -> string, k: nat)
    requires k < |entries|
    ensures ParseRecord(Records(entries, scoreText)[k]) == Row(entries[k], scoreText)
    ensures |ParseRecord(Records(entries, scoreText)[k])| == 5
  {
    ParseRecordRoundTrip(Row(entries[k], scoreText));
  }
}
