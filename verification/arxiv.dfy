/** The arXiv client (src/services/arxivService.ts): the request built from
    a query, the error path for a failed response, and the normaliser that
    turns each Atom `entry` element of the feed into a `Paper`. Entries are
    abstract records holding the text and attributes the normaliser reads
    (RFC 4287: `atom:id` and `atom:title` in section 4.2, `atom:link`
    attributes in section 4.2.7, `atom:category` `term` in section 4.2.2). */
module Arxiv {
  import opened Types
  import opened Strings
  import opened Seqs

  // ---------------------------------------------------------------------
  // The request and the response
  // ---------------------------------------------------------------------

  const ApiUrl: string := "https://export.arxiv.org/api/query"
  /** The search term used when the query is empty. */
  const DefaultSearchTerm: string := "cat:cs.CV"

  /** The parameters of the query URL, before percent-encoding. */
  datatype Request = Request(
    searchQuery: string,
    start: nat,
    maxResults: nat,
    sortBy: string,
    sortOrder: string)

  /** What `fetch` yields: a rejected promise, or a response whose body
      parses to a sequence of entries. */
  datatype Response =
    | NetworkError(reason: string)
    | Response(ok: bool, statusText: string, entries: seq<Entry>)

  /** The request for `fetchArxivPapers(query, maxResults, start)`
      (arxivService.ts:14-23). */
  function SearchRequest(query: string, maxResults: nat := 25, start: nat := 0): (r: Request)
    ensures r.searchQuery != ""
    ensures query != "" ==> r.searchQuery == query
    ensures r.start == start && r.maxResults == maxResults
    ensures r.sortBy == "submittedDate" && r.sortOrder == "descending"
  {
    Request(if query == "" then DefaultSearchTerm else query, start, maxResults,
            "submittedDate", "descending")
  }

  /** `fetchArxivPapers`: the papers of a successful response, one per
      entry in feed order; a response that is not ok raises an error
      naming its status text, and a rejected fetch is rethrown. The
      transport and the clock (`new Date().toISOString()`) are parameters. */
  function FetchArxivPapers(respond: Request -> Response, now: string, query: string,
                            maxResults: nat := 25, start: nat := 0): (r: Result<seq<Paper>>)
    ensures var resp := respond(SearchRequest(query, maxResults, start));
            r.Success? <==> resp.Response? && resp.ok
    ensures var resp := respond(SearchRequest(query, maxResults, start));
            resp.Response? && !resp.ok ==>
              r == Failure("Error fetching arXiv data: " + resp.statusText)
    ensures var resp := respond(SearchRequest(query, maxResults, start));
            resp.NetworkError? ==> r == Failure(resp.reason)
    ensures var resp := respond(SearchRequest(query, maxResults, start));
            r.Success? ==>
              |r.value| == |resp.entries|
              && forall i :: 0 <= i < |r.value| ==> r.value[i] == NormalizeEntry(resp.entries[i], i, now)
  {
    var resp := respond(SearchRequest(query, maxResults, start));
    match resp
    case NetworkError(reason) => Failure(reason)
    case Response(ok, statusText, entries) =>
      if !ok then Failure("Error fetching arXiv data: " + statusText)
      else Success(NormalizeEntries(entries, now))
  }

  // ---------------------------------------------------------------------
  // Feed entries
  // ---------------------------------------------------------------------

  /** A `link` element: its `href`, `title` and `type` attributes. */
  datatype Link = Link(href: Option<string>, title: Option<string>, mediaType: Option<string>)

  /** An `entry` element: the text of its first `id`, `title`, `summary`
      and `published` descendants (None when there is none), the text of
      the first `name` of each `author`, its links, the `term` attribute of
      each `category`, and the `term` of its first `primary_category`. */
  datatype Entry = Entry(
    idText: Option<string>,
    title: Option<string>,
    summary: Option<string>,
    authorNames: seq<Option<string>>,
    published: Option<string>,
    links: seq<Link>,
    categoryTerms: seq<Option<string>>,
    primaryCategoryTerm: Option<string>)

  /** `id?.textContent || ""`. */
  function IdText(e: Entry): string
  {
    e.idText.GetOr("")
  }

  /** `s.split("/").pop()`: the text after the last slash. */
  function LastSegment(s: string): (r: string)
    ensures '/' !in r
    ensures |r| <= |s| && s[|s| - |r|..] == r
    ensures |r| < |s| ==> s[|s| - |r| - 1] == '/'
  {
    var pieces := Split(s, '/');
    SplitLast(s, '/');
    pieces[|pieces| - 1]
  }

  /** The arXiv id of the entry at `index` (arxivService.ts:68-69). */
  function ArxivIdOf(e: Entry, index: nat): string
  {
    var segment := LastSegment(IdText(e));
    if segment != "" then segment else "arxiv-" + NatToString(index)
  }

  /** The `rel`-independent rule that picks the PDF link (arxivService.ts:55-57). */
  predicate IsPdfLink(l: Link)
  {
    l.title == Some("pdf") || l.mediaType == Some("application/pdf")
  }

  /** The href of the first PDF link, or "" when there is none or it has
      no href (arxivService.ts:55-58). */
  function PdfUrl(links: seq<Link>): (r: string)
    ensures (forall i :: 0 <= i < |links| ==> !IsPdfLink(links[i])) ==> r == ""
    ensures forall i :: 0 <= i < |links| && IsPdfLink(links[i])
                        && (forall j :: 0 <= j < i ==> !IsPdfLink(links[j]))
                        ==> r == links[i].href.GetOr("")
  {
    match Find(links, IsPdfLink)
    case None => ""
    case Some(l) => l.href.GetOr("")
  }

  /** `term || ""` for each category. */
  function TermTexts(terms: seq<Option<string>>): (r: seq<string>)
    ensures |r| == |terms|
    ensures forall i :: 0 <= i < |terms| ==> r[i] == terms[i].GetOr("")
  {
    seq(|terms|, i requires 0 <= i < |terms| => terms[i].GetOr(""))
  }

  predicate NonEmpty(t: string)
  {
    t != ""
  }

  /** The tags: the category terms that are present and non-empty, in
      order (arxivService.ts:61-62). */
  function TagsOf(e: Entry): seq<string>
  {
    Filter(TermTexts(e.categoryTerms), NonEmpty)
  }

  /** The primary category: the `primary_category` term, else the first
      tag, else "" (arxivService.ts:65). */
  function PrimaryCategoryOf(e: Entry): string
  {
    var tags := TagsOf(e);
    if Truthy(e.primaryCategoryTerm) then e.primaryCategoryTerm.value
    else if |tags| > 0 then tags[0]
    else ""
  }

  /** `text.replace(/\\n/g, " ").trim()`: the regular expression matches
      a backslash followed by the letter n (not a line feed), and each such
      pair becomes a space before white space is trimmed. */
  function CleanText(text: string): string
  {
    Trim(ReplaceAll(text, "\\n", " "))
  }

  /** The cleaned text, or `fallback` when the element is missing or its
      cleaned text is empty (arxivService.ts:75-76). */
  function TextOr(text: Option<string>, fallback: string): string
  {
    if text.Some? && CleanText(text.value) != "" then CleanText(text.value) else fallback
  }

  /** `author-<entry index>-<author index>` (arxivService.ts:48). */
  function AuthorId(index: nat, authorIndex: nat): string
  {
    "author-" + NatToString(index) + "-" + NatToString(authorIndex)
  }

  /** The authors of the entry at `index`, in order (arxivService.ts:44-51). */
  function AuthorsOf(names: seq<Option<string>>, index: nat): (r: seq<Author>)
    ensures |r| == |names|
  {
    seq(|names|, j requires 0 <= j < |names| =>
      Author(AuthorId(index, j),
             if Truthy(names[j]) then names[j].value else "Unknown Author",
             None))
  }

  /** The placeholder image chosen by the entry's position (arxivService.ts:86). */
  function ImageUrl(index: nat): string
  {
    "https://images.unsplash.com/photo-" + NatToString(index % 5 + 1)
      + "?auto=format&fit=crop&w=500&h=300"
  }

  /** The paper made from the entry at position `index` (arxivService.ts:42-88);
      `now` stands for `new Date().toISOString()`. Every field has a
      fallback, so the mapping is total. */
  function NormalizeEntry(e: Entry, index: nat, now: string): (p: Paper)
    ensures p.id == "arxiv-" + p.arxivId.GetOr("") && p.arxivId.Some?
    ensures p.title != "" && p.abstractText != ""
    ensures |p.authors| == |e.authorNames|
    ensures p.journal == Some("arXiv") && p.citations == 0 && p.conference.None?
    ensures p.url == IdText(e)
  {
    var arxivId := ArxivIdOf(e, index);
    Paper(
      id := "arxiv-" + arxivId,
      title := TextOr(e.title, "Untitled Paper"),
      authors := AuthorsOf(e.authorNames, index),
      abstractText := TextOr(e.summary, "No abstract available"),
      publishDate := if Truthy(e.published) then e.published.value else now,
      conference := None,
      journal := Some("arXiv"),
      citations := 0,
      tags := TagsOf(e),
      url := IdText(e),
      imageUrl := Some(ImageUrl(index)),
      arxivId := Some(arxivId),
      pdfUrl := Some(PdfUrl(e.links)),
      primaryCategory := Some(PrimaryCategoryOf(e)))
  }

  /** `entries.map((entry, index) => ...)`. */
  function NormalizeEntries(entries: seq<Entry>, now: string): (r: seq<Paper>)
    ensures |r| == |entries|
    ensures forall i :: 0 <= i < |entries| ==> r[i] == NormalizeEntry(entries[i], i, now)
  {
    seq(|entries|, i requires 0 <= i < |entries| => NormalizeEntry(entries[i], i, now))
  }

  // ---------------------------------------------------------------------
  // Properties of the request
  // ---------------------------------------------------------------------

  /** The default search term is used exactly when the query is empty or is
      the default term itself; the defaults are 25 results from index 0. */
  lemma SearchTermDefault(query: string)
    ensures SearchRequest(query).searchQuery == DefaultSearchTerm
            <==> query == "" || query == DefaultSearchTerm
    ensures SearchRequest(query).start == 0 && SearchRequest(query).maxResults == 25
  {
  }

  /** A response that is not ok, or a rejected fetch, yields no papers. */
  lemma FailedResponseYieldsNoPapers(respond: Request -> Response, now: string, query: string,
                                     maxResults: nat, start: nat)
    requires var resp := respond(SearchRequest(query, maxResults, start));
             resp.NetworkError? || !resp.ok
    ensures FetchArxivPapers(respond, now, query, maxResults, start).Failure?
  {
  }

  // ---------------------------------------------------------------------
  // Properties of the normaliser
  // ---------------------------------------------------------------------

  /** The text "arxiv-" followed by digits contains no slash. */
  lemma FallbackIdHasNoSlash(index: nat)
    ensures '/' !in "arxiv-" + NatToString(index)
  {
    var s := "arxiv-" + NatToString(index);
    forall k | 0 <= k < |s| ensures s[k] != '/' {
      if k >= 6 { assert s[k] == NatToString(index)[k - 6]; }
    }
  }

  /** The arXiv id contains no slash; it is the whole id text when that has
      no slash, the text after its last slash when that is not empty, and
      "arxiv-<index>" otherwise. */
  lemma ArxivIdShape(e: Entry, index: nat)
    ensures '/' !in ArxivIdOf(e, index)
    ensures '/' !in IdText(e) && IdText(e) != "" ==> ArxivIdOf(e, index) == IdText(e)
    ensures var s := IdText(e); var a := ArxivIdOf(e, index);
            LastSegment(s) != "" ==> |a| < |s| + 1 && s[|s| - |a|..] == a
  {
    FallbackIdHasNoSlash(index);
    var s := IdText(e);
    if '/' !in s {
      SplitFree(s, '/');
    }
  }

  /** Every paper id is "arxiv-" followed by a non-empty arXiv id. */
  lemma PaperIdShape(e: Entry, index: nat, now: string)
    ensures var p := NormalizeEntry(e, index, now);
            StartsWith(p.id, "arxiv-") && |p.id| > 6 && p.arxivId == Some(p.id[6..])
  {
    var p := NormalizeEntry(e, index, now);
    assert p.id[..6] == "arxiv-";
  }

  /** Two entries whose ids end in different non-empty segments, or that
      both fall back to their positions, give papers with different ids. */
  lemma PaperIdsDistinct(e1: Entry, i1: nat, e2: Entry, i2: nat, now: string)
    requires var s1 := LastSegment(IdText(e1)); var s2 := LastSegment(IdText(e2));
             (s1 != "" && s2 != "" && s1 != s2) || (s1 == "" && s2 == "" && i1 != i2)
    ensures NormalizeEntry(e1, i1, now).id != NormalizeEntry(e2, i2, now).id
  {
    var a1, a2 := ArxivIdOf(e1, i1), ArxivIdOf(e2, i2);
    if "arxiv-" + a1 == "arxiv-" + a2 {
      assert a1 == ("arxiv-" + a1)[6..];
      assert a2 == ("arxiv-" + a2)[6..];
      if LastSegment(IdText(e1)) == "" {
        var n1, n2 := NatToString(i1), NatToString(i2);
        assert n1 == a1[6..] && n2 == a2[6..];
        NatToStringInjective(i1, i2);
      }
    }
  }

  /** The pieces of an author id are "author", the entry index and the
      author index. */
  lemma AuthorIdPieces(index: nat, authorIndex: nat)
    ensures Split(AuthorId(index, authorIndex), '-')
            == ["author", NatToString(index), NatToString(authorIndex)]
  {
    var a, b := NatToString(index), NatToString(authorIndex);
    assert AuthorId(index, authorIndex) == "author" + ['-'] + a + ['-'] + b;
    assert '-' !in "author" && '-' !in a && '-' !in b by {
      assert forall k :: 0 <= k < |a| ==> IsDigit(a[k]);
      assert forall k :: 0 <= k < |b| ==> IsDigit(b[k]);
    }
    SplitThree("author", a, b, '-');
  }

  /** Three separator-free pieces joined by the separator split back into them. */
  lemma SplitThree(x: string, a: string, b: string, c: char)
    requires c !in x && c !in a && c !in b
    ensures Split(x + [c] + a + [c] + b, c) == [x, a, b]
  {
    JoinThreeShape(x, a, b, c);
    SplitTwo(a, b, c);
    SplitAfterFree(x, a + ([c] + b), c);
    assert [x] + [a, b] == [x, a, b];
  }

  lemma JoinThreeShape(x: string, a: string, b: string, c: char)
    ensures x + [c] + a + [c] + b == x + ([c] + (a + ([c] + b)))
  {
  }

  /** Two separator-free pieces joined by the separator split back into them. */
  lemma SplitTwo(a: string, b: string, c: char)
    requires c !in a && c !in b
    ensures Split(a + ([c] + b), c) == [a, b]
  {
    SplitFree(b, c);
    SplitAfterFree(a, b, c);
    assert [a] + [b] == [a, b];
  }

  /** Author ids are distinct across all authors of all entries. */
  lemma AuthorIdsDistinct(i1: nat, j1: nat, i2: nat, j2: nat)
    requires i1 != i2 || j1 != j2
    ensures AuthorId(i1, j1) != AuthorId(i2, j2)
  {
    AuthorIdPieces(i1, j1);
    AuthorIdPieces(i2, j2);
    if AuthorId(i1, j1) == AuthorId(i2, j2) {
      NatToStringInjective(i1, i2);
      NatToStringInjective(j1, j2);
    }
  }

  /** Author j of the paper from entry `index` keeps the entry's j-th name,
      or "Unknown Author" when that is missing or empty. */
  lemma AuthorsSpec(e: Entry, index: nat, now: string, j: nat)
    requires j < |e.authorNames|
    ensures var a := NormalizeEntry(e, index, now).authors[j];
            && a.id == AuthorId(index, j)
            && a.name == (if Truthy(e.authorNames[j]) then e.authorNames[j].value else "Unknown Author")
            && a.name != ""
  {
  }

  /** A tag is exactly a present, non-empty category term, and tags keep
      the order of the terms. */
  lemma TagsSpec(e: Entry, t: string)
    ensures t in TagsOf(e) <==> t != "" && exists i :: 0 <= i < |e.categoryTerms| && e.categoryTerms[i] == Some(t)
    ensures IsSubsequence(TagsOf(e), TermTexts(e.categoryTerms))
  {
    var terms := TermTexts(e.categoryTerms);
    FilterMembership(terms, NonEmpty, t);
    FilterIsSubsequence(terms, NonEmpty);
    if t != "" && t in terms {
      var i :| 0 <= i < |terms| && terms[i] == t;
      assert e.categoryTerms[i] == Some(t);
    }
    if t != "" && exists i :: 0 <= i < |e.categoryTerms| && e.categoryTerms[i] == Some(t) {
      var i :| 0 <= i < |e.categoryTerms| && e.categoryTerms[i] == Some(t);
      assert terms[i] == t;
    }
  }

  /** The primary category is empty exactly when the entry has no non-empty
      primary term and no non-empty category term; a non-empty primary
      term always wins. */
  lemma PrimaryCategorySpec(e: Entry)
    ensures PrimaryCategoryOf(e) == ""
            <==> !Truthy(e.primaryCategoryTerm)
                 && forall i :: 0 <= i < |e.categoryTerms| ==> !Truthy(e.categoryTerms[i])
    ensures Truthy(e.primaryCategoryTerm) ==> PrimaryCategoryOf(e) == e.primaryCategoryTerm.value
    ensures !Truthy(e.primaryCategoryTerm) ==>
              forall i :: 0 <= i < |e.categoryTerms| && Truthy(e.categoryTerms[i])
                          && (forall j :: 0 <= j < i ==> !Truthy(e.categoryTerms[j]))
                          ==> PrimaryCategoryOf(e) == e.categoryTerms[i].value
  {
    var tags := TagsOf(e);
    var terms := TermTexts(e.categoryTerms);
    if |tags| > 0 {
      assert NonEmpty(tags[0]);
    }
    if exists i :: 0 <= i < |e.categoryTerms| && Truthy(e.categoryTerms[i]) {
      var i :| 0 <= i < |e.categoryTerms| && Truthy(e.categoryTerms[i]);
      assert terms[i] in terms;
      FilterMembership(terms, NonEmpty, terms[i]);
    }
    forall i | 0 <= i < |e.categoryTerms| && Truthy(e.categoryTerms[i])
                 && (forall j :: 0 <= j < i ==> !Truthy(e.categoryTerms[j]))
      ensures tags[0] == e.categoryTerms[i].value
    {
      assert forall j :: 0 <= j < i ==> !NonEmpty(terms[j]);
      FilterFirst(terms, NonEmpty, i);
    }
  }

  /** Titles and abstracts are never empty and never begin or end with
      white space, and the fallback is used whenever the element is missing
      or its cleaned text is empty. */
  lemma TextDefaults(text: Option<string>, fallback: string)
    requires fallback != "" && !IsSpace(fallback[0]) && !IsSpace(fallback[|fallback| - 1])
    ensures var r := TextOr(text, fallback);
            && r != "" && !IsSpace(r[0]) && !IsSpace(r[|r| - 1])
            && (r == fallback <== text.None? || CleanText(text.value) == "")
  {
  }

  /** The PDF URL is empty unless some link is a PDF link with a non-empty href. */
  lemma PdfUrlEmpty(links: seq<Link>)
    ensures PdfUrl(links) != "" ==>
            exists i :: 0 <= i < |links| && IsPdfLink(links[i]) && links[i].href == Some(PdfUrl(links))
  {
    var r := Find(links, IsPdfLink);
    if r.Some? {
      var i :| 0 <= i < |links| && links[i] == r.value && IsPdfLink(links[i]);
      if PdfUrl(links) != "" {
        assert links[i].href == Some(PdfUrl(links));
      }
    }
  }
}
