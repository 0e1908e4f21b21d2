/** The tag filter and the next-page rule of `ExecQuery`
    (client/api_client.go, copied in command/api_client.go), over pages
    already decoded from the JSON answer. */
module Query {

  import opened Text

  /** A page of the answer: its title and its search snippets. */
  datatype PageRecord = PageRecord(title: string, snippets: seq<string>)

  /** One tag is found for a snippet: as `<b>tag</b>` in the snippet or as
      text in the title, both compared in lower case. */
  predicate TagHit(snippet: string, title: string, tag: string) {
    Contains(ToLower(snippet), "<b>" + ToLower(tag) + "</b>")
      || Contains(ToLower(title), ToLower(tag))
  }

  /** The tag test ignores case: lower-casing the snippet, the title or the
      tag beforehand changes nothing, and two tags that differ only in the
      case of their letters find the same snippets. */
  lemma TagHitIgnoresCase(snippet: string, title: string, tag: string, other: string)
    requires |other| == |tag| && forall k :: 0 <= k < |tag| ==> LowerChar(tag[k]) == LowerChar(other[k])
    ensures TagHit(snippet, title, tag) == TagHit(ToLower(snippet), ToLower(title), ToLower(tag))
    ensures TagHit(snippet, title, tag) == TagHit(snippet, title, other)
  {
    ToLowerIdempotent(snippet);
    ToLowerIdempotent(title);
    ToLowerIdempotent(tag);
    ToLowerCaseBlind(tag, other);
  }

  /** Every tag is found for the snippet. */
  predicate AllTags(snippet: string, title: string, tags: seq<string>) {
    forall k :: 0 <= k < |tags| ==> TagHit(snippet, title, tags[k])
  }

  /** Some snippet of the page finds every tag. */
  predicate Kept(p: PageRecord, tags: seq<string>) {
    exists j :: 0 <= j < |p.snippets| && AllTags(p.snippets[j], p.title, tags)
  }

  /** The titles the filter keeps, in page order: every title with no
      tags, the kept pages' titles otherwise. */
  function FilteredTitles(pages: seq<PageRecord>, tags: seq<string>): seq<string>
    decreases |pages|
  {
    if pages == [] then []
    else
      var p := pages[|pages| - 1];
      FilteredTitles(pages[..|pages| - 1], tags) + (if |tags| == 0 || Kept(p, tags) then [p.title] else [])
  }

  /** The `all` accumulator over the tags for one snippet. */
  method MatchesAll(snippet: string, title: string, tags: seq<string>) returns (all: bool)
    ensures all <==> AllTags(snippet, title, tags)
  {
    all := true;
    for i := 0 to |tags|
      invariant all <==> AllTags(snippet, title, tags[..i])
    {
      all := all && TagHit(snippet, title, tags[i]);
      assert tags[..i + 1] == tags[..i] + [tags[i]];
    }
    assert tags[..|tags|] == tags;
  }

  /** The loop over the decoded pages: with tags, the title of a page is
      appended at its first snippet that finds every tag. */
  method FilterTitles(pages: seq<PageRecord>, tags: seq<string>) returns (titles: seq<string>)
    ensures titles == FilteredTitles(pages, tags)
  {
    titles := [];
    for i := 0 to |pages|
      invariant titles == FilteredTitles(pages[..i], tags)
    {
      var p := pages[i];
      assert pages[..i + 1][..i] == pages[..i];
      ghost var before := titles;
      if |tags| > 0 {
        var j := 0;
        while j < |p.snippets|
          invariant 0 <= j <= |p.snippets|
          invariant titles == before
          invariant forall m :: 0 <= m < j ==> !AllTags(p.snippets[m], p.title, tags)
        {
          var all := MatchesAll(p.snippets[j], p.title, tags);
          if all {
            titles := titles + [p.title];
            break;
          }
          j := j + 1;
        }
      } else {
        titles := titles + [p.title];
      }
    }
    assert pages[..|pages|] == pages;
  }

  /** Whether the answer asks for the page of results at `skip + limit`. */
  predicate NeedsNextPage(count: int, skip: int, limit: int) {
    count > limit + skip || count == limit
  }

  /** The positive part of `x`. */
  function Excess(x: int): nat {
    if x > 0 then x else 0
  }

  /** How many further queries the recursion of `ExecQuery` makes from
      `skip` when every answer reports the same `count`: it stops at the
      first skip that needs no next page, and asks at every skip before. A
      count other than the limit always stops it, after at most
      `count - skip - limit` further queries. */
  function FollowUps(count: int, skip: int, limit: int): (n: nat)
    requires limit > 0 && count != limit
    ensures !NeedsNextPage(count, skip + n * limit, limit)
    ensures forall m :: 0 <= m < n ==> NeedsNextPage(count, skip + m * limit, limit)
    ensures n <= Excess(count - skip - limit)
    decreases Excess(count - skip - limit)
  {
    if NeedsNextPage(count, skip, limit) then
      var n' := FollowUps(count, skip + limit, limit);
      ShiftSkips(count, skip, limit, n');
      n' + 1
    else 0
  }

  /** The skips after `skip + limit` are the skips after `skip`, one
      query later. */
  lemma ShiftSkips(count: int, skip: int, limit: int, n: nat)
    requires limit > 0 && NeedsNextPage(count, skip, limit)
    requires !NeedsNextPage(count, (skip + limit) + n * limit, limit)
    requires forall m :: 0 <= m < n ==> NeedsNextPage(count, (skip + limit) + m * limit, limit)
    ensures !NeedsNextPage(count, skip + (n + 1) * limit, limit)
    ensures forall m :: 0 <= m < n + 1 ==> NeedsNextPage(count, skip + m * limit, limit)
  {
    assert skip + (n + 1) * limit == (skip + limit) + n * limit;
    forall m | 0 <= m < n + 1
      ensures NeedsNextPage(count, skip + m * limit, limit)
    {
      if m > 0 {
        assert skip + m * limit == (skip + limit) + (m - 1) * limit;
      }
    }
  }

  /** The titles `ExecQuery` returns from `skip` when every answer reports
      the same `count`: the filtered titles of the page at `skip` (given by
      `titlesAt`, the model fetches nothing), followed by those of the
      recursive query at `skip + limit` when the answer asks for one. */
  function Collected(titlesAt: int -> seq<string>, count: int, skip: int, limit: int): (r: seq<string>)
    requires limit > 0 && count != limit
    ensures |titlesAt(skip)| <= |r| && r[..|titlesAt(skip)|] == titlesAt(skip)
    ensures !NeedsNextPage(count, skip, limit) ==> r == titlesAt(skip)
    decreases Excess(count - skip - limit)
  {
    titlesAt(skip) + (if NeedsNextPage(count, skip, limit) then Collected(titlesAt, count, skip + limit, limit) else [])
  }

  /** The titles of the pages at `skip`, `skip + limit`, ...,
      `skip + n * limit`, in that order. */
  function PagesFrom(titlesAt: int -> seq<string>, skip: int, limit: int, n: nat): seq<string>
    decreases n
  {
    titlesAt(skip) + (if n == 0 then [] else PagesFrom(titlesAt, skip + limit, limit, n - 1))
  }

  /** The recursion reads exactly the pages at `skip + m * limit` for
      `m` up to `FollowUps`, and concatenates their titles in order. */
  lemma {:induction false} CollectedPages(titlesAt: int -> seq<string>, count: int, skip: int, limit: int)
    requires limit > 0 && count != limit
    ensures Collected(titlesAt, count, skip, limit) == PagesFrom(titlesAt, skip, limit, FollowUps(count, skip, limit))
    decreases Excess(count - skip - limit)
  {
    if NeedsNextPage(count, skip, limit) {
      CollectedPages(titlesAt, count, skip + limit, limit);
    }
  }

  // ---------------------------------------------------------------------
  // What the filter promises

  /** The titles of all pages, in order. */
  function Titles(pages: seq<PageRecord>): (r: seq<string>)
    ensures |r| == |pages| && forall k :: 0 <= k < |pages| ==> r[k] == pages[k].title
  {
    seq(|pages|, k requires 0 <= k < |pages| => pages[k].title)
  }

  /** With no tags every title is kept, in order. */
  lemma {:induction false} NoTagsKeepsAll(pages: seq<PageRecord>)
    ensures FilteredTitles(pages, []) == Titles(pages)
    decreases |pages|
  {
    if pages != [] {
      NoTagsKeepsAll(pages[..|pages| - 1]);
    }
  }

  /** The filter works page by page: the titles of a concatenation are the
      titles of each part, in order. */
  lemma {:induction false} FilterAppend(a: seq<PageRecord>, b: seq<PageRecord>, tags: seq<string>)
    ensures FilteredTitles(a + b, tags) == FilteredTitles(a, tags) + FilteredTitles(b, tags)
    decreases |b|
  {
    if b == [] {
      assert a + b == a;
    } else {
      assert (a + b)[..|a + b| - 1] == a + b[..|b| - 1];
      FilterAppend(a, b[..|b| - 1], tags);
    }
  }

  /** A page yields its title once when there are no tags or some snippet
      finds every tag, and nothing otherwise. */
  lemma OnePage(p: PageRecord, tags: seq<string>)
    ensures FilteredTitles([p], tags) == if |tags| == 0 || Kept(p, tags) then [p.title] else []
  {
    assert [p][..0] == [];
  }

  /** With tags, a page without snippets is never kept. */
  lemma NoSnippetsDropped(p: PageRecord, tags: seq<string>)
    requires |tags| > 0 && p.snippets == []
    ensures FilteredTitles([p], tags) == []
  {
    OnePage(p, tags);
  }

  /** At most one title per page, and exactly one per page with no tags. */
  lemma {:induction false} FilterLength(pages: seq<PageRecord>, tags: seq<string>)
    ensures |FilteredTitles(pages, tags)| <= |pages|
    ensures |tags| == 0 ==> |FilteredTitles(pages, tags)| == |pages|
    decreases |pages|
  {
    if pages != [] {
      FilterLength(pages[..|pages| - 1], tags);
    }
  }

  /** Every kept title belongs to a page that has no tags to meet or a
      snippet finding every tag. */
  lemma {:induction false} FilterSound(pages: seq<PageRecord>, tags: seq<string>, t: string)
    requires t in FilteredTitles(pages, tags)
    ensures exists k :: 0 <= k < |pages| && pages[k].title == t && (|tags| == 0 || Kept(pages[k], tags))
    decreases |pages|
  {
    var init := pages[..|pages| - 1];
    var p := pages[|pages| - 1];
    if t in FilteredTitles(init, tags) {
      FilterSound(init, tags, t);
      var k :| 0 <= k < |init| && init[k].title == t && (|tags| == 0 || Kept(init[k], tags));
      assert pages[k] == init[k];
    } else {
      assert pages[|pages| - 1] == p;
    }
  }

  /** Every page that has no tags to meet or a snippet finding every tag
      contributes its title. */
  lemma FilterComplete(pages: seq<PageRecord>, tags: seq<string>, k: nat)
    requires k < |pages| && (|tags| == 0 || Kept(pages[k], tags))
    ensures pages[k].title in FilteredTitles(pages, tags)
  {
    assert pages == pages[..k] + [pages[k]] + pages[k + 1..];
    FilterAppend(pages[..k] + [pages[k]], pages[k + 1..], tags);
    FilterAppend(pages[..k], [pages[k]], tags);
    OnePage(pages[k], tags);
  }

  /** A count equal to the limit asks for the next page again whatever the
      skip, so an answer that keeps that count never ends the recursion. */
  lemma CountAtLimitRepeats(count: int, limit: int, skip: int, n: nat)
    requires count == limit
    ensures NeedsNextPage(count, skip + n * limit, limit)
  {
  }

}
