/** The tag inputs of components/ScraperForm.tsx: a list of product tags and
    a list of domain tags, each grown from a text box and shrunk by the
    remove button of a tag, and the guard in front of the scrape request.
    Both lists use the same handlers, so one `TagList` models either. */
module TagForm {
  import opened Text
  import opened Seqs
  import opened Optional

  /** The tags shown and the text currently in the box. */
  datatype TagList = TagList(tags: seq<string>, current: string)

  const Empty: TagList := TagList([], "")

  /** The box's `onChange`: the text is replaced, the tags stay. */
  function Edit(t: TagList, text: string): (r: TagList)
    ensures r.tags == t.tags && r.current == text
  {
    t.(current := text)
  }

  /** `addItem` / `addDomain`: the trimmed text is appended and the box
      cleared unless the text is blank or already a tag; otherwise nothing
      changes. */
  function AddTag(t: TagList): (r: TagList)
    ensures t.tags <= r.tags && |r.tags| <= |t.tags| + 1
    ensures Trim(t.current) != "" ==> Trim(t.current) in r.tags
    ensures |r.tags| > |t.tags| ==> r.tags[|t.tags|] == Trim(t.current) && r.current == ""
    ensures |r.tags| == |t.tags| ==> r == t
  {
    var x := Trim(t.current);
    if x != "" && x !in t.tags then TagList(t.tags + [x], "") else t
  }

  function Differs(tag: string): string -> bool {
    s => s != tag
  }

  /** `removeItem` / `removeDomain`: every copy of the tag goes, the others
      stay in order, and the box is untouched. */
  function RemoveTag(t: TagList, tag: string): (r: TagList)
    ensures tag !in r.tags
    ensures forall k :: 0 <= k < |t.tags| && t.tags[k] != tag ==> t.tags[k] in r.tags
    ensures forall k :: 0 <= k < |r.tags| ==> r.tags[k] in t.tags
    ensures r.current == t.current
  {
    FilterMembers(t.tags, Differs(tag));
    TagList(Filter(t.tags, Differs(tag)), t.current)
  }

  /** The tag lists the handlers build: distinct, non-empty and trimmed. */
  ghost predicate Valid(tags: seq<string>) {
    && NoDuplicates(tags)
    && forall k :: 0 <= k < |tags| ==> |tags[k]| > 0 && Trim(tags[k]) == tags[k]
  }

  /** Every handler keeps the tag list valid, starting from the empty one. */
  lemma ValidPreserved(t: TagList, tag: string, text: string)
    requires Valid(t.tags)
    ensures Valid(Empty.tags)
    ensures Valid(Edit(t, text).tags)
    ensures Valid(AddTag(t).tags)
    ensures Valid(RemoveTag(t, tag).tags)
  {
    TrimIdempotent(t.current);
    FilterNoDuplicates(t.tags, Differs(tag));
  }

  /** Removing a tag just added restores the list it was added to. */
  lemma RemoveAfterAdd(t: TagList)
    requires Valid(t.tags)
    requires Trim(t.current) != "" && Trim(t.current) !in t.tags
    ensures RemoveTag(AddTag(t), Trim(t.current)).tags == t.tags
  {
    var x := Trim(t.current);
    FilterAppend(t.tags, [x], Differs(x));
    assert Filter(t.tags, Differs(x)) == t.tags;
  }

  /** Typing the same text again after adding it adds nothing. */
  lemma AddTwiceAddsOnce(t: TagList)
    ensures AddTag(Edit(AddTag(t), t.current)).tags == AddTag(t).tags
  {
  }

  /** Text differing only in surrounding white space names the same tag. */
  lemma AddIgnoresSurroundingSpace(t: TagList, text: string)
    ensures AddTag(Edit(t, Trim(text))).tags == AddTag(Edit(t, text)).tags
  {
    TrimIdempotent(text);
  }

  /** The form values `react-hook-form` passes to `onSubmit`. */
  datatype FormValues = FormValues(keyword: string, maxImages: int, topN: int)

  /** The defaults the form starts from. */
  const DefaultValues: FormValues := FormValues("", 10, 3)

  /** The `min`/`max` rules registered on the two number fields; a form that
      breaks them never reaches `onSubmit`. */
  predicate InRange(v: FormValues) {
    1 <= v.maxImages <= 50 && 1 <= v.topN <= 10
  }

  /** The body of the scrape request. */
  datatype Request = Request(
    itemNames: seq<string>,
    domains: seq<string>,
    extraKeyword: string,
    maxResultsPerItem: int,
    topN: int)

  /** Submitting the form: a request only for values in range and with at
      least one tag in each list, carrying the tags as they are. */
  function Submit(items: TagList, domains: TagList, v: FormValues): (r: Option<Request>)
    ensures r.Some? <==> InRange(v) && |items.tags| > 0 && |domains.tags| > 0
    ensures r.Some? ==> r.value.itemNames == items.tags && r.value.domains == domains.tags
    ensures r.Some? ==> 1 <= r.value.maxResultsPerItem <= 50 && 1 <= r.value.topN <= 10
  {
    if !InRange(v) then None
    else if |items.tags| == 0 then None
    else if |domains.tags| == 0 then None
    else Some(Request(items.tags, domains.tags, v.keyword, v.maxImages, v.topN))
  }

  /** A request needs one successful add in each list: from empty lists and
      the default values, adding one non-blank product and one non-blank
      domain makes a request for exactly those two, trimmed. */
  lemma FirstRequest(item: string, domain: string)
    requires Trim(item) != "" && Trim(domain) != ""
    ensures var r := Submit(AddTag(Edit(Empty, item)), AddTag(Edit(Empty, domain)), DefaultValues);
      r == Some(Request([Trim(item)], [Trim(domain)], "", 10, 3))
    ensures Submit(Empty, AddTag(Edit(Empty, domain)), DefaultValues) == None
  {
    assert AddTag(Edit(Empty, item)).tags == [] + [Trim(item)] == [Trim(item)];
    assert AddTag(Edit(Empty, domain)).tags == [] + [Trim(domain)] == [Trim(domain)];
  }
}
