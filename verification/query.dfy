/** The query engine of the home page (src/pages/Index.tsx): free-text
    search over the catalog, and the conference, year and topic filters
    selected as compound keys "<category>-<option>". */
module Query {
  import opened Types
  import opened Strings
  import opened Seqs

  // ---------------------------------------------------------------------
  // Free-text search (Index.tsx:28-44, 103-110)
  // ---------------------------------------------------------------------

  /** The lower-cased query occurs in the lower-cased title, abstract,
      some author's name or some tag. */
  predicate MatchesQuery(p: Paper, lowerQuery: string)
  {
    || Contains(Lower(p.title), lowerQuery)
    || Contains(Lower(p.abstractText), lowerQuery)
    || (exists i :: 0 <= i < |p.authors| && Contains(Lower(p.authors[i].name), lowerQuery))
    || (exists i :: 0 <= i < |p.tags| && Contains(Lower(p.tags[i]), lowerQuery))
  }

  /** `!query.trim()`: the query is empty once white space is trimmed. */
  predicate IsBlank(query: string)
  {
    Trim(query) == ""
  }

  /** The papers that match the query, lower-cased but not trimmed. */
  function SearchFilter(papers: seq<Paper>, query: string): seq<Paper>
  {
    Filter(papers, p => MatchesQuery(p, Lower(query)))
  }

  /** `handleSearch(query)`: the whole catalog for a blank query, else the
      catalog papers that match it. */
  function SearchResults(catalog: seq<Paper>, query: string): seq<Paper>
  {
    if IsBlank(query) then catalog else SearchFilter(catalog, query)
  }

  // ---------------------------------------------------------------------
  // Filter keys and the category predicates (Index.tsx:47-100)
  // ---------------------------------------------------------------------

  const ConferenceCategory: string := "conference"
  const YearCategory: string := "year"
  const TopicCategory: string := "topic"

  /** `key.startsWith(category + '-')`. */
  predicate HasCategory(key: string, category: string)
  {
    StartsWith(key, category + "-")
  }

  /** `key.split('-')[1]`: the text between the first and second hyphens. */
  function OptionSegment(key: string): string
    requires '-' in key
  {
    Split(key, '-')[1]
  }

  /** A key with a category prefix has a second segment. */
  lemma CategoryKeyHasHyphen(key: string, category: string)
    requires HasCategory(key, category)
    ensures '-' in key
  {
    assert key[|category|] == (category + "-")[|category|];
  }

  /** Some active key belongs to the category. */
  predicate CategoryActive(filters: set<string>, category: string)
  {
    exists k :: k in filters && HasCategory(k, category)
  }

  /** `new Date(publishDate).getFullYear().toString()`, for ISO dates read
      as the four leading digits; any other text gives "NaN". */
  function YearOf(publishDate: string): string
  {
    if |publishDate| >= 4 && forall i :: 0 <= i < 4 ==> IsDigit(publishDate[i])
    then publishDate[..4] else "NaN"
  }

  /** The topic a topic key stands for: its second segment with hyphens
      replaced by spaces, lower-cased (Index.tsx:92). */
  function TopicText(key: string): string
    requires '-' in key
  {
    Lower(ReplaceAll(OptionSegment(key), "-", " "))
  }

  /** Some tag of the paper, lower-cased, contains `topic`. */
  predicate TagMentions(p: Paper, topic: string)
  {
    exists i :: 0 <= i < |p.tags| && Contains(Lower(p.tags[i]), topic)
  }

  /** Conference rule (Index.tsx:67-75): a paper with a conference must
      equal, ignoring case, the option of some conference key; a paper
      with no (or an empty) conference is never excluded. */
  predicate ConferencePasses(p: Paper, filters: set<string>)
  {
    || !CategoryActive(filters, ConferenceCategory)
    || !Truthy(p.conference)
    || exists k :: k in filters && HasCategory(k, ConferenceCategory)
                   && (CategoryKeyHasHyphen(k, ConferenceCategory);
                       Lower(OptionSegment(k)) == Lower(p.conference.value))
  }

  /** Year rule (Index.tsx:78-85). */
  predicate YearPasses(p: Paper, filters: set<string>)
  {
    || !CategoryActive(filters, YearCategory)
    || exists k :: k in filters && HasCategory(k, YearCategory)
                   && (CategoryKeyHasHyphen(k, YearCategory);
                       OptionSegment(k) == YearOf(p.publishDate))
  }

  /** Topic rule (Index.tsx:88-97). */
  predicate TopicPasses(p: Paper, filters: set<string>)
  {
    || !CategoryActive(filters, TopicCategory)
    || exists k :: k in filters && HasCategory(k, TopicCategory)
                   && (CategoryKeyHasHyphen(k, TopicCategory); TagMentions(p, TopicText(k)))
  }

  /** The predicate of `papers.filter` at Index.tsx:65-100. */
  predicate PassesFilters(p: Paper, filters: set<string>)
  {
    ConferencePasses(p, filters) && YearPasses(p, filters) && TopicPasses(p, filters)
  }

  function CategoryFilter(papers: seq<Paper>, filters: set<string>): seq<Paper>
  {
    Filter(papers, p => PassesFilters(p, filters))
  }

  /** The list shown after `handleFilterChange` leaves `filters` active:
      the search results alone when no filter is left, else the filtered
      catalog narrowed by the current search when that is not blank. */
  function FilterChangeResults(catalog: seq<Paper>, filters: set<string>, query: string): seq<Paper>
  {
    if filters == {} then SearchResults(catalog, query)
    else
      var results := CategoryFilter(catalog, filters);
      if IsBlank(query) then results else SearchFilter(results, query)
  }

  // ---------------------------------------------------------------------
  // Properties of search
  // ---------------------------------------------------------------------

  /** A query made of white space only shows the whole catalog in order;
      any other query shows the matching papers. */
  lemma BlankQueryShowsCatalog(catalog: seq<Paper>, query: string)
    ensures AllSpace(query) ==> SearchResults(catalog, query) == catalog
    ensures !AllSpace(query) ==> SearchResults(catalog, query) == SearchFilter(catalog, query)
  {
    TrimEmptyIff(query);
  }

  /** The search results are the catalog papers that pass the search, in
      catalog order, each as often as in the catalog. */
  lemma SearchResultsSpec(catalog: seq<Paper>, query: string, p: Paper)
    ensures p in SearchResults(catalog, query)
            <==> p in catalog && (IsBlank(query) || MatchesQuery(p, Lower(query)))
    ensures multiset(SearchResults(catalog, query))[p]
            == if IsBlank(query) || MatchesQuery(p, Lower(query)) then multiset(catalog)[p] else 0
  {
    var f := (q: Paper) => MatchesQuery(q, Lower(query));
    if !IsBlank(query) {
      FilterMembership(catalog, f, p);
      FilterMultiplicity(catalog, f, p);
    }
  }

  /** The search keeps catalog order. */
  lemma SearchResultsOrder(catalog: seq<Paper>, query: string)
    ensures IsSubsequence(SearchResults(catalog, query), catalog)
  {
    if IsBlank(query) {
      SubsequenceReflexive(catalog);
    } else {
      FilterIsSubsequence(catalog, (q: Paper) => MatchesQuery(q, Lower(query)));
    }
  }

  /** The query is not trimmed before matching: " vit" is not blank, yet a
      paper titled "ViT" does not match it, while "vit" does. */
  lemma UntrimmedQueryScenario(p: Paper)
    requires p.title == "ViT" && p.abstractText == "" && p.authors == [] && p.tags == []
    ensures !IsBlank(" vit") && Trim(" vit") == "vit"
    ensures SearchResults([p], " vit") == []
    ensures SearchResults([p], "vit") == [p]
  {
    var v := "vit";
    LowerVit();
    assert !IsSpace(v[0]) && !IsSpace(v[2]);
    assert " vit" == [' '] + v;
    UntrimmedQueryMisses(p, v);
  }

  /** A leading space is kept in the query: for an unpadded lower-case `v`,
      the query " " + v is not blank, trims to `v`, and misses a paper
      whose only text is a title lower-casing to `v`, which `v` itself
      finds. */
  lemma UntrimmedQueryMisses(p: Paper, v: string)
    requires |v| > 0 && !IsSpace(v[0]) && !IsSpace(v[|v| - 1]) && Lower(v) == v
    requires Lower(p.title) == v && p.abstractText == "" && p.authors == [] && p.tags == []
    ensures !IsBlank([' '] + v) && Trim([' '] + v) == v
    ensures SearchResults([p], [' '] + v) == []
    ensures SearchResults([p], v) == [p]
  {
    TrimOneLeadingSpace(v);
    PaddedQueryMisses(p, v);
    ExactQueryFinds(p, v);
  }

  lemma PaddedQueryMisses(p: Paper, v: string)
    requires Trim([' '] + v) == v && |v| > 0 && Lower(v) == v
    requires Lower(p.title) == v && p.abstractText == "" && p.authors == [] && p.tags == []
    ensures SearchResults([p], [' '] + v) == []
  {
    PaddedMismatch(p, v);
    SearchOne(p, [' '] + v);
  }

  lemma PaddedMismatch(p: Paper, v: string)
    requires Lower(v) == v
    requires Lower(p.title) == v && p.abstractText == "" && p.authors == [] && p.tags == []
    ensures !MatchesQuery(p, Lower([' '] + v))
  {
    var q := [' '] + v;
    LowerLeadingSpace(v);
    assert !Contains(v, q);
    assert !Contains(Lower(""), q);
  }

  lemma ExactQueryFinds(p: Paper, v: string)
    requires |v| > 0 && !IsSpace(v[0]) && !IsSpace(v[|v| - 1])
    requires Lower(p.title) == Lower(v)
    ensures SearchResults([p], v) == [p]
  {
    TrimUnpadded(v);
    assert OccursAt(Lower(v), Lower(v), 0);
    SearchOne(p, v);
  }

  /** Searching a one-paper list keeps the paper exactly when it matches. */
  lemma SearchOne(p: Paper, query: string)
    requires !IsBlank(query)
    ensures SearchResults([p], query) == if MatchesQuery(p, Lower(query)) then [p] else []
  {
    FilterHead([p], (r: Paper) => MatchesQuery(r, Lower(query)));
  }

  /** A leading space survives lower-casing. */
  lemma LowerLeadingSpace(v: string)
    requires Lower(v) == v
    ensures Lower([' '] + v) == [' '] + v
  {
    var q := [' '] + v;
    forall k | 0 <= k < |q| ensures Lower(q)[k] == q[k] {
      if k > 0 {
        assert q[k] == v[k - 1] && Lower(v)[k - 1] == LowerChar(v[k - 1]);
      }
    }
  }

  /** One leading space before an unpadded string is trimmed away. */
  lemma TrimOneLeadingSpace(v: string)
    requires |v| > 0 && !IsSpace(v[0]) && !IsSpace(v[|v| - 1])
    ensures Trim([' '] + v) == v
  {
    TrimUnpadded(v);
    assert ([' '] + v)[1..] == v;
  }

  lemma LowerVit()
    ensures Lower("ViT") == "vit" && Lower("vit") == "vit"
  {
  }


  // ---------------------------------------------------------------------
  // Properties of filtering
  // ---------------------------------------------------------------------

  /** With no active key, every category imposes no constraint. */
  lemma NoFiltersPassAll(p: Paper)
    ensures PassesFilters(p, {})
  {
  }

  /** Whatever the active keys, the list shown is exactly the catalog
      papers that pass every category and the (untrimmed) search, in
      catalog order. */
  lemma FilterChangeSpec(catalog: seq<Paper>, filters: set<string>, query: string, p: Paper)
    ensures p in FilterChangeResults(catalog, filters, query)
            <==> p in catalog && PassesFilters(p, filters)
                 && (IsBlank(query) || MatchesQuery(p, Lower(query)))
  {
    var f := (q: Paper) => PassesFilters(q, filters);
    var g := (q: Paper) => MatchesQuery(q, Lower(query));
    if filters == {} {
      SearchResultsSpec(catalog, query, p);
    } else {
      FilterMembership(catalog, f, p);
      if !IsBlank(query) {
        FilterMembership(CategoryFilter(catalog, filters), g, p);
      }
    }
  }

  /** Filtering first and searching second is the same as searching first
      and filtering second; with no key left it is the search alone. */
  lemma FilterThenSearchCommute(catalog: seq<Paper>, filters: set<string>, query: string)
    ensures FilterChangeResults(catalog, filters, query)
            == CategoryFilter(SearchResults(catalog, query), filters)
  {
    var f := (q: Paper) => PassesFilters(q, filters);
    var g := (q: Paper) => MatchesQuery(q, Lower(query));
    var s := SearchResults(catalog, query);
    if filters == {} {
      forall i | 0 <= i < |s| ensures f(s[i]) { NoFiltersPassAll(s[i]); }
      FilterAllPass(s, f);
    } else if !IsBlank(query) {
      FilterCommute(catalog, f, g);
    }
  }

  /** The list shown is a subsequence of the catalog, of the filter-only
      list and of the search-only list. */
  lemma FilterChangeOrder(catalog: seq<Paper>, filters: set<string>, query: string)
    ensures IsSubsequence(FilterChangeResults(catalog, filters, query), catalog)
    ensures IsSubsequence(FilterChangeResults(catalog, filters, query), CategoryFilter(catalog, filters))
    ensures IsSubsequence(FilterChangeResults(catalog, filters, query), SearchResults(catalog, query))
  {
    var f := (q: Paper) => PassesFilters(q, filters);
    var g := (q: Paper) => MatchesQuery(q, Lower(query));
    var r := FilterChangeResults(catalog, filters, query);
    var c := CategoryFilter(catalog, filters);
    var s := SearchResults(catalog, query);
    FilterIsSubsequence(catalog, f);
    SearchResultsOrder(catalog, query);
    FilterThenSearchCommute(catalog, filters, query);
    FilterIsSubsequence(s, f);
    if filters == {} {
      forall i | 0 <= i < |catalog| ensures f(catalog[i]) { NoFiltersPassAll(catalog[i]); }
      FilterAllPass(catalog, f);
    } else if IsBlank(query) {
      SubsequenceReflexive(c);
    } else {
      FilterIsSubsequence(c, g);
    }
    SubsequenceTransitive(r, s, catalog);
  }

  // ---------------------------------------------------------------------
  // Decoding a key: the second hyphen-separated segment
  // ---------------------------------------------------------------------

  /** A key built as category + "-" + option belongs to the category, and
      its decoded option is the part of `option` before its first hyphen:
      the whole option exactly when the option has no hyphen. */
  lemma SegmentOfKey(category: string, option: string)
    requires '-' !in category
    ensures HasCategory(category + "-" + option, category)
    ensures '-' in category + "-" + option
    ensures OptionSegment(category + "-" + option) == Split(option, '-')[0]
    ensures OptionSegment(category + "-" + option) == option <==> '-' !in option
  {
    var key := category + "-" + option;
    assert key[..|category + "-"|] == category + "-";
    assert key[|category|] == '-';
    assert key == category + ("-" + option);
    SplitAfterFree(category, option, '-');
    if '-' !in option {
      SplitFree(option, '-');
    } else {
      assert '-' !in Split(option, '-')[0];
    }
  }

  /** The hyphen-to-space replacement of the topic rule never changes
      anything: the decoded segment contains no hyphen. */
  lemma TopicReplaceIsIdentity(key: string)
    requires '-' in key
    ensures ReplaceAll(OptionSegment(key), "-", " ") == OptionSegment(key)
    ensures TopicText(key) == Lower(OptionSegment(key))
  {
    var seg := OptionSegment(key);
    assert '-' !in seg;
    forall i | 0 <= i <= |seg| - 1 ensures !OccursAt(seg, "-", i) {
      assert seg[i..i + 1][0] == seg[i];
    }
    ReplaceAllAbsent(seg, "-", " ");
  }

  // ---------------------------------------------------------------------
  // OR within a category, AND across categories
  // ---------------------------------------------------------------------

  predicate IsFilterCategory(category: string)
  {
    category == ConferenceCategory || category == YearCategory || category == TopicCategory
  }

  /** The verdict of one category's rule. */
  predicate CategoryPasses(p: Paper, filters: set<string>, category: string)
    requires IsFilterCategory(category)
  {
    if category == ConferenceCategory then ConferencePasses(p, filters)
    else if category == YearCategory then YearPasses(p, filters)
    else TopicPasses(p, filters)
  }

  /** A key belongs to at most one of the three categories. */
  lemma CategoriesDisjoint(key: string, c: string, d: string)
    requires IsFilterCategory(c) && IsFilterCategory(d)
    requires HasCategory(key, c) && HasCategory(key, d)
    ensures c == d
  {
    assert key[0] == (c + "-")[0] == (d + "-")[0];
  }

  /** A key of another category leaves a category's verdict unchanged. */
  lemma OtherCategoryUnchanged(p: Paper, filters: set<string>, key: string, category: string)
    requires IsFilterCategory(category) && !HasCategory(key, category)
    ensures CategoryPasses(p, filters + {key}, category) == CategoryPasses(p, filters, category)
  {
    assert CategoryActive(filters + {key}, category) == CategoryActive(filters, category);
  }

  /** OR within a category: selecting one more option of a category that
      is already constrained never removes a paper. */
  lemma MoreOptionsWiden(p: Paper, filters: set<string>, key: string, category: string)
    requires IsFilterCategory(category) && HasCategory(key, category)
    requires CategoryActive(filters, category)
    ensures PassesFilters(p, filters) ==> PassesFilters(p, filters + {key})
  {
    var others := if category == ConferenceCategory then [YearCategory, TopicCategory]
                  else if category == YearCategory then [ConferenceCategory, TopicCategory]
                  else [ConferenceCategory, YearCategory];
    forall d | d in others ensures CategoryPasses(p, filters + {key}, d) == CategoryPasses(p, filters, d) {
      if HasCategory(key, d) { CategoriesDisjoint(key, category, d); }
      OtherCategoryUnchanged(p, filters, key, d);
    }
    assert CategoryActive(filters + {key}, category);
    if PassesFilters(p, filters) {
      assert CategoryPasses(p, filters, category);
      assert CategoryPasses(p, filters + {key}, category);
      assert CategoryPasses(p, filters + {key}, ConferenceCategory);
      assert CategoryPasses(p, filters + {key}, YearCategory);
      assert CategoryPasses(p, filters + {key}, TopicCategory);
    }
  }

  /** AND across categories: selecting the first option of a category
      that was not constrained never adds a paper. */
  lemma NewCategoryNarrows(p: Paper, filters: set<string>, key: string, category: string)
    requires IsFilterCategory(category) && HasCategory(key, category)
    requires !CategoryActive(filters, category)
    ensures PassesFilters(p, filters + {key}) ==> PassesFilters(p, filters)
  {
    var others := if category == ConferenceCategory then [YearCategory, TopicCategory]
                  else if category == YearCategory then [ConferenceCategory, TopicCategory]
                  else [ConferenceCategory, YearCategory];
    forall d | d in others ensures CategoryPasses(p, filters + {key}, d) == CategoryPasses(p, filters, d) {
      if HasCategory(key, d) { CategoriesDisjoint(key, category, d); }
      OtherCategoryUnchanged(p, filters, key, d);
    }
    assert CategoryPasses(p, filters, category);
    if PassesFilters(p, filters + {key}) {
      assert CategoryPasses(p, filters, ConferenceCategory);
      assert CategoryPasses(p, filters, YearCategory);
      assert CategoryPasses(p, filters, TopicCategory);
    }
  }

  // ---------------------------------------------------------------------
  // A single selected option
  // ---------------------------------------------------------------------

  /** The conference rule for one active conference key. */
  lemma ConferenceOneKey(p: Paper, key: string)
    requires HasCategory(key, ConferenceCategory)
    ensures '-' in key
    ensures ConferencePasses(p, {key})
            <==> !Truthy(p.conference) || Lower(OptionSegment(key)) == Lower(p.conference.value)
  {
    CategoryKeyHasHyphen(key, ConferenceCategory);
    assert CategoryActive({key}, ConferenceCategory);
  }

  /** Only "conference-<option>" selected: a paper passes exactly when it
      has no conference or its conference equals the option ignoring case. */
  lemma SingleConferenceKey(p: Paper, option: string)
    requires '-' !in option
    ensures PassesFilters(p, {ConferenceCategory + "-" + option})
            <==> !Truthy(p.conference) || Lower(option) == Lower(p.conference.value)
  {
    var key := ConferenceCategory + "-" + option;
    SegmentOfKey(ConferenceCategory, option);
    OnlyOneCategory(key, ConferenceCategory, YearCategory);
    OnlyOneCategory(key, ConferenceCategory, TopicCategory);
    ConferenceOneKey(p, key);
  }

  /** A single key leaves every other category inactive. */
  lemma OnlyOneCategory(key: string, category: string, other: string)
    requires IsFilterCategory(category) && IsFilterCategory(other) && other != category
    requires HasCategory(key, category)
    ensures !CategoryActive({key}, other)
  {
    if HasCategory(key, other) { CategoriesDisjoint(key, category, other); }
  }

  /** Only "year-<option>" selected: a paper passes exactly when the year
      of its publication date is the option. */
  lemma SingleYearKey(p: Paper, option: string)
    requires '-' !in option
    ensures PassesFilters(p, {YearCategory + "-" + option}) <==> option == YearOf(p.publishDate)
  {
    var key := YearCategory + "-" + option;
    SegmentOfKey(YearCategory, option);
    OnlyOneCategory(key, YearCategory, ConferenceCategory);
    OnlyOneCategory(key, YearCategory, TopicCategory);
  }


  /** Only "topic-<option>" selected: a paper passes exactly when some tag
      contains the option's text before its first hyphen, ignoring case;
      so "topic-object-detection" looks for "object". */
  lemma SingleTopicKey(p: Paper, option: string)
    ensures PassesFilters(p, {TopicCategory + "-" + option})
            <==> TagMentions(p, Lower(Split(option, '-')[0]))
  {
    var key := TopicCategory + "-" + option;
    SegmentOfKey(TopicCategory, option);
    TopicReplaceIsIdentity(key);
    OnlyOneCategory(key, TopicCategory, ConferenceCategory);
    OnlyOneCategory(key, TopicCategory, YearCategory);
    TopicOneKey(p, key);
  }

  /** The topic rule for one active topic key. */
  lemma TopicOneKey(p: Paper, key: string)
    requires HasCategory(key, TopicCategory)
    ensures '-' in key
    ensures TopicPasses(p, {key}) <==> TagMentions(p, TopicText(key))
  {
    CategoryKeyHasHyphen(key, TopicCategory);
    assert CategoryActive({key}, TopicCategory);
  }

}
