# Paper browser core, modelled in Dafny

The paper browser is a client-only React application for browsing computer
vision papers. The home page shows a static catalog of five papers. It
offers a free-text search, and conference, year and topic checkboxes whose
keys have the form `<category>-<option>`. A paper's detail page is reached
from its card. A favourites page lists the papers whose ids the browser
keeps under the `savedPapers` key of `localStorage`. The application also
contains an arXiv client that turns the entries of an Atom feed into the
same `Paper` records.

This project models that core:

- **Home page** (`Index` module, class `IndexPage`). Its state is the search
  text, the active filter keys, the list on display and the saved ids. Its
  three handlers are methods proved against the query engine.
- **Query engine** (`Query`). It holds the search predicate, the decoding of
  filter keys with `split('-')[1]`, and the conference, year and topic rules.
  Options of one category are ORed, and categories are ANDed.
- **Saved ids** (`SavedPapers`). `localStorage` is the `Storage` class, and
  the toggle rule is shared by all three pages.
- **Favourites page** (`Favorites`, class `FavoritesPage`). It holds the list
  derived from the stored ids, and the toggle that edits the stored set and
  the shown list together.
- **Detail page** (`Detail`, class `DetailPage`). It holds the lookup by
  route id, the save toggle, and which branch is rendered.
- **Paper card** (`PaperCard`) and **filter panel** (`FilterBar`, class
  `FilterBarState`). These hold the derived strings, the checkbox keys and
  the accordion.
- **arXiv client** (`Arxiv`). It covers the request parameters, the error
  path, and the normaliser from feed entries to papers.
- **Fixtures and scenarios** (`Fixtures`, `Scenarios`). The catalog and the
  filter categories of `src/data/papers.ts` are used to prove what
  particular searches and checkboxes show. `HomePageSession` drives an
  `IndexPage` through its own handlers.
- **Library support.**
  - `Strings` models `toLowerCase`, `trim`, `includes`, `startsWith`,
    `split`, `join`, `replace` and decimal rendering.
  - `Seqs` models `filter` and `find`.
  - `Types` holds the records.

Behaviour kept as the code has it:

- **Papers without a conference.** A paper with no conference (or an empty
  one) passes every conference filter. So checking "CVPR" shows paper 3, a
  journal paper, besides paper 1. The option's label suggests only CVPR
  papers are shown, but the conference rule (src/pages/Index.tsx:67-73)
  lets through every paper whose conference is missing or empty, and the
  model keeps that.
- **Hyphenated options.** A key is decoded by its second hyphen-separated
  segment, so a hyphenated option id is cut at its first hyphen. The key
  `topic-object-detection` searches the tags for "object", and
  `topic-self-supervised` searches for "self". The hyphen-to-space
  replacement that follows never changes anything.
- **Search ignores the filters.** A new search runs over the whole catalog
  and leaves the active filters as they are.
- **The query is not trimmed.** It is tested for blankness after `trim()`,
  but matched untrimmed.
- **The default arXiv search term.** "cat:cs.CV" is sent when the query is
  empty, and also when the query is literally "cat:cs.CV". It is not sent
  only for the empty query.

## Model

| member | source | states |
|---|---|---|
| Index.IndexPage.constructor | src/pages/Index.tsx:14-25 | The page starts with an empty query, no active key and the whole catalog on display. The saved ids are the stored set when one is present, and empty otherwise. |
| Index.IndexPage.HandleSearch | src/pages/Index.tsx:28-44 | The query is recorded. The list becomes the search results over the whole catalog: all of it for a blank query, else the matching papers. The active filters and saved ids are unchanged, and the list stays a subsequence of the catalog. |
| Index.IndexPage.HandleFilterChange | src/pages/Index.tsx:47-115 | The key set becomes old ∪ {id} when checked and old \ {id} when unchecked. The list is the search results when no key is left. Otherwise it is the catalog filtered by all keys, then by the query when that is not blank. The query and saved ids are unchanged. |
| Index.IndexPage.HandleSavePaper | src/pages/Index.tsx:118-137 | Only the paper's id flips in the saved set. The store now holds exactly the new set. The paper's card (its `isSaved` flag, Index.tsx:203) is marked saved afterwards exactly when it was not before, and every other paper's mark is unchanged. The query, the keys and the list are unchanged. |
| Index.ShownAfterChange | src/pages/Index.tsx:64-114 | For a non-empty key set, the list the handler builds equals the specified result and is a subsequence of the catalog. |
| Query.BlankQueryShowsCatalog | src/pages/Index.tsx:30-33 | A query made only of white space shows the whole catalog in order. Any other query shows the search filter's result. |
| Query.SearchResultsSpec | src/pages/Index.tsx:35-43 | A paper is in the results exactly when it is in the catalog and the query is blank or matches it. Each kept paper appears as often as in the catalog. |
| Query.SearchResultsOrder | src/pages/Index.tsx:36-41 | The search results are a subsequence of the catalog. |
| Query.SearchOne | src/pages/Index.tsx:36-41 | Searching a one-paper list with a non-blank query keeps the paper exactly when it matches. |
| Query.UntrimmedQueryScenario | src/pages/Index.tsx:30-37 | " vit" is not blank and trims to "vit". Yet it misses a paper titled "ViT", which "vit" finds, because matching uses the untrimmed query. |
| Query.UntrimmedQueryMisses | src/pages/Index.tsx:30-37 | Take any unpadded lower-case text v and a paper whose only text is a title lower-casing to v. Then " " + v is not blank and trims to v, yet it misses the paper, while v finds it. |
| Query.NoFiltersPassAll | src/pages/Index.tsx:65-100 | With no active key, every paper passes every category rule. |
| Query.FilterChangeSpec | src/pages/Index.tsx:59-114 | A paper is shown after a filter change exactly when it is in the catalog, passes every category rule, and the query is blank or matches it. |
| Query.FilterThenSearchCommute | src/pages/Index.tsx:59-114 | Filtering then searching gives the same list as searching then filtering. With no key left, the list is the search alone. |
| Query.FilterChangeOrder | src/pages/Index.tsx:59-114 | The list shown is a subsequence of the catalog, of the filter-only list and of the search-only list. |
| Query.CategoryKeyHasHyphen | src/pages/Index.tsx:67-71 | A key that starts with a category prefix has a second hyphen segment. |
| Query.SegmentOfKey | src/pages/Index.tsx:71 | For a key category + "-" + option, the key belongs to the category. Its decoded option is the text of the option before its first hyphen. That equals the option exactly when the option has no hyphen. |
| Query.TopicReplaceIsIdentity | src/pages/Index.tsx:92 | The decoded segment has no hyphen, so the hyphen-to-space replacement returns it unchanged. |
| Query.CategoriesDisjoint | src/pages/Index.tsx:67-89 | No key has the prefixes of two different categories. |
| Query.OtherCategoryUnchanged | src/pages/Index.tsx:65-100 | Adding a key of another category leaves a category's verdict unchanged. |
| Query.MoreOptionsWiden | src/pages/Index.tsx:65-100 | OR within a category: once a category has an active key, adding another key of it never removes a paper. |
| Query.NewCategoryNarrows | src/pages/Index.tsx:65-100 | AND across categories: the first key of a category that had no active key never adds a paper. |
| Query.ConferenceOneKey | src/pages/Index.tsx:67-75 | With one conference key, a paper passes exactly when it has no (or an empty) conference, or its conference equals the key's option, ignoring case. |
| Query.SingleConferenceKey | src/pages/Index.tsx:67-75 | With only "conference-<option>" active, a paper passes exactly when it has no conference or its conference equals the option, ignoring case. |
| Query.OnlyOneCategory | src/pages/Index.tsx:67-97 | A single key leaves the other two categories without an active key. |
| Query.SingleYearKey | src/pages/Index.tsx:78-85 | With only "year-<option>" active, a paper passes exactly when its publication year is the option. |
| Query.SingleTopicKey | src/pages/Index.tsx:88-97 | With only "topic-<option>" active, a paper passes exactly when some tag, lower-cased, contains the lower-cased text of the option before its first hyphen. |
| Query.TopicOneKey | src/pages/Index.tsx:88-97 | With one topic key, a paper passes exactly when some lower-cased tag contains the key's topic text. |
| Strings.Lower | src/pages/Index.tsx:35 | Lower-casing keeps the length and leaves no upper-case letter. |
| Strings.LowerIdempotent | src/pages/Index.tsx:35 | Lower-casing twice is lower-casing once. |
| Strings.Trim | src/pages/Index.tsx:30 | The trim is a slice of the input with only white space before and after it. It neither starts nor ends with white space. |
| Strings.TrimEmptyIff | src/pages/Index.tsx:30 | The trim is empty exactly when the text is all white space. |
| Strings.TrimUnpadded | src/pages/Index.tsx:30 | Text that neither starts nor ends with white space is its own trim. |
| Strings.Split | src/pages/Index.tsx:71 | A split gives at least one piece, and at least two when the separator occurs. No piece holds the separator. |
| Strings.SplitCount | src/pages/Index.tsx:71 | There is one more piece than there are separators. |
| Strings.SplitFirst | src/pages/Index.tsx:71 | The first piece is the longest prefix without the separator. |
| Strings.JoinSplit | src/pages/Index.tsx:71 | Joining the pieces with the separator gives back the text. |
| Strings.SplitJoin | src/pages/Index.tsx:71 | Splitting a join of separator-free pieces gives back the pieces. |
| Strings.SplitLast | src/services/arxivService.ts:69 | The last piece is the text after the last separator, or the whole text when there is none. |
| Strings.MissingCharNotContained | src/pages/Index.tsx:93 | A needle holding a character the haystack lacks is not included in it. |
| Strings.ReplaceAllAbsent | src/pages/Index.tsx:92 | Replacing a pattern that does not occur leaves the text unchanged. |
| Strings.NatToString | src/services/arxivService.ts:48 | The decimal rendering is a non-empty string of digits. |
| Strings.ParseNatToString | src/services/arxivService.ts:48 | Reading back the decimal rendering gives the number. |
| Strings.NatToStringInjective | src/services/arxivService.ts:48 | Distinct numbers render differently. |
| Seqs.Filter | src/pages/Index.tsx:36-41 | A filter result is no longer than its input, and every kept element passes and comes from the input. |
| Seqs.Find | src/pages/Detail.tsx:28 | Find is empty exactly when no element passes. Otherwise it returns an element of the sequence that passes. |
| Seqs.FilterMembership | src/pages/Index.tsx:65 | An element is kept exactly when it is in the input and passes. |
| Seqs.FilterMultiplicity | src/pages/Index.tsx:65 | A filter keeps every occurrence of a passing element and none of a failing one. |
| Seqs.FilterIsSubsequence | src/pages/Index.tsx:65 | A filter keeps the input's order. |
| Seqs.FilterCommute | src/pages/Index.tsx:105 | Two filters commute. |
| SavedPapers.Storage.constructor | src/pages/Index.tsx:21 | The store holds the given value: absent, or a set of ids. |
| SavedPapers.Storage.LoadedIds | src/pages/Favorites.tsx:26-27 | The loaded ids are the stored set, or empty when the key is absent. |
| SavedPapers.Toggle | src/pages/Index.tsx:119-133 | The id is in the result exactly when it was not in the input, and no other id changes. |
| SavedPapers.ToggleTwice | src/pages/Index.tsx:119-133 | Toggling the same id twice restores the set. |
| SavedPapers.ToggleCommutes | src/pages/Index.tsx:119-133 | Toggles of two ids commute. |
| Favorites.FavoritesPage.constructor | src/pages/Favorites.tsx:11-21 | The list is the catalog papers whose ids are stored, in catalog order. It is empty when nothing is stored, and agrees with the stored set. |
| Favorites.FavoritesPage.HandleToggleSavedPaper | src/pages/Favorites.tsx:24-53 | The store holds the toggled set, with an absent store read as empty. On removal the list loses exactly the entries with that id. On addition the paper is appended unless an entry with its id is listed. List and store stay consistent, and unique ids stay unique. |
| Favorites.ListsSpec | src/pages/Favorites.tsx:47 | `find` by id succeeds exactly when some entry has the id. |
| Favorites.SavedListSpec | src/pages/Favorites.tsx:18 | A paper is listed on load exactly when it is in the catalog and its id is stored. The list keeps catalog order and is empty for no ids. |
| Favorites.SavedListConsistent | src/pages/Favorites.tsx:14-21 | The list shown on load agrees with the stored set both ways. |
| Favorites.SavedListUnique | src/pages/Favorites.tsx:18 | With unique catalog ids, the list shown on load has unique ids. |
| Favorites.WithoutIdSpec | src/pages/Favorites.tsx:38 | Removal keeps exactly the entries with other ids, in order, and none with that id. |
| Favorites.RemovalKeepsConsistent | src/pages/Favorites.tsx:30-38 | Removing a saved id from both the set and the list keeps them consistent. |
| Favorites.AdditionKeepsConsistent | src/pages/Favorites.tsx:39-50 | Adding an unsaved id, and appending its paper unless it is listed, keeps the set and the list consistent. |
| Favorites.WithoutIdUnique | src/pages/Favorites.tsx:38 | Removal keeps ids unique. |
| Favorites.AppendUnique | src/pages/Favorites.tsx:46-49 | The guarded append keeps ids unique. |
| Detail.FindById | src/pages/Detail.tsx:27-28 | The lookup finds nothing exactly when no catalog paper has the id. Otherwise it returns the first catalog paper with that id. |
| Detail.FindOwnId | src/pages/Detail.tsx:28 | With unique catalog ids, looking up a catalog paper's id finds that paper. |
| Detail.DetailPage.constructor | src/pages/Detail.tsx:14-16 | The page starts loading, with no paper and no saved ids. |
| Detail.DetailPage.Load | src/pages/Detail.tsx:19-44 | The stored ids are loaded when present, or kept otherwise. The paper is the first catalog paper with the route id, with a missing id read as "". Loading ends whether or not the paper is found. |
| Detail.DetailPage.HandleSavePaper | src/pages/Detail.tsx:47-66 | Only the paper's id flips in the saved set, and the store holds the new set. The paper and the loading flag are unchanged. |
| Detail.DetailPage.Render | src/pages/Detail.tsx:73-94 | The spinner shows exactly while loading. Not-found shows exactly when loaded with no paper. Otherwise the paper shows, marked saved exactly when its id is saved. |
| FilterBar.CheckboxChange | src/components/FilterBar.tsx:40-42 | The checkbox reports the key category id + "-" + option id, together with its checked state. |
| FilterBar.FilterKeyDecodes | src/components/FilterBar.tsx:42 | A key the panel builds for a home-page category is recognised as that category's key. Its second segment recovers the option id exactly when the id has no hyphen, and is otherwise the id's text before its first hyphen. |
| FilterBar.FilterBarState.constructor | src/components/FilterBar.tsx:11 | The panel starts with every category collapsed. |
| FilterBar.FilterBarState.ToggleCategory | src/components/FilterBar.tsx:13-15 | Clicking the open category collapses it. Clicking any other opens that one alone. |
| FilterBar.FilterBarState.Shown | src/components/FilterBar.tsx:34 | Only the expanded category's options are shown. |
| FilterBar.AtMostOneShown | src/components/FilterBar.tsx:22-34 | With distinct category ids, at most one category is shown: the one whose id is expanded. |
| PaperCard.DetailPathRoundTrip | src/components/PaperCard.tsx:28 | The link starts with "/paper/" and gives back the id after it, so distinct papers link to distinct pages. |
| PaperCard.Names | src/components/PaperCard.tsx:39 | The names are the authors' names, in order. |
| PaperCard.BylineNamesAuthors | src/components/PaperCard.tsx:37-39 | With more than two authors the byline is the first name + " et al.". With two it is both names joined by ", ", with one it is that name, and with none it is "". It always opens with the first author's name. |
| PaperCard.TagPreviewSpec | src/components/PaperCard.tsx:60 | The preview is the first min(3, number of tags) tags, in order. |
| PaperCard.VenueLabel | src/components/PaperCard.tsx:75 | The venue label is never empty. |
| PaperCard.VenueFallback | src/components/PaperCard.tsx:75 | The label is the conference if non-empty, else the journal if non-empty, else "Publication". |
| PaperCard.ArxivVenue | src/components/PaperCard.tsx:75 | A paper from the arXiv feed, with no conference and journal "arXiv", is labelled "arXiv". |
| PaperCard.SaveLabel | src/components/PaperCard.tsx:47 | The label is "Unsave paper" exactly when the paper is saved, and "Save paper" exactly when it is not. |
| Arxiv.SearchRequest | src/services/arxivService.ts:14-23 | The search term is never empty and is the query whenever that is not empty. Start and page size are passed through, and the sort is by submission date, descending. |
| Arxiv.SearchTermDefault | src/services/arxivService.ts:16-22 | The default term is sent exactly when the query is empty or is the default term itself. The defaults are 25 results from index 0. |
| Arxiv.FetchArxivPapers | src/services/arxivService.ts:19-94 | The call succeeds exactly when the response is ok. A non-ok response fails with "Error fetching arXiv data: " + status text, and a rejected fetch is rethrown. On success, paper i is the normalised entry i, one per entry. |
| Arxiv.FailedResponseYieldsNoPapers | src/services/arxivService.ts:27-29 | A non-ok or rejected response yields an error and no papers. |
| Arxiv.NormalizeEntries | src/services/arxivService.ts:42 | There is one paper per entry, and paper i is normalised from entry i at index i. |
| Arxiv.NormalizeEntry | src/services/arxivService.ts:42-88 | The id is "arxiv-" + arxivId, and the title and abstract are non-empty. There is one author per author element. The journal is "arXiv", citations are 0, there is no conference, and the url is the id text. |
| Arxiv.LastSegment | src/services/arxivService.ts:69 | The segment has no slash. It is a suffix of the id text that is either all of it or preceded by a slash. |
| Arxiv.FallbackIdHasNoSlash | src/services/arxivService.ts:69 | The fallback "arxiv-<index>" has no slash. |
| Arxiv.ArxivIdShape | src/services/arxivService.ts:67-69 | The arXiv id has no slash. It is the whole id text when that has no slash, and a suffix of it when the last segment is not empty. |
| Arxiv.PaperIdShape | src/services/arxivService.ts:73-74 | Every paper id starts with "arxiv-", is longer than that prefix, and the arXiv id is the text after the prefix. |
| Arxiv.PaperIdsDistinct | src/services/arxivService.ts:69-73 | Papers from entries with different last segments, or both without one and at different positions, have different ids. |
| Arxiv.AuthorsOf | src/services/arxivService.ts:44-51 | There is one author per name. |
| Arxiv.AuthorsSpec | src/services/arxivService.ts:44-51 | Author j has id "author-<index>-<j>" and keeps the j-th name. A missing or empty name becomes "Unknown Author", so no name is empty. |
| Arxiv.AuthorIdPieces | src/services/arxivService.ts:48 | An author id splits at its hyphens into "author", the entry index and the author index. |
| Arxiv.AuthorIdsDistinct | src/services/arxivService.ts:48 | Author ids differ whenever the entry index or the author index differs. |
| Arxiv.PdfUrl | src/services/arxivService.ts:54-58 | The PDF URL is the href of the first PDF link, or "" when that href is missing. With no PDF link it is "". |
| Arxiv.PdfUrlEmpty | src/services/arxivService.ts:54-58 | A non-empty PDF URL is the href of some PDF link. |
| Arxiv.TermTexts | src/services/arxivService.ts:62 | Each category gives its term, or "" when it has none. |
| Arxiv.TagsSpec | src/services/arxivService.ts:61-62 | A tag is exactly a present, non-empty category term, and tags keep the terms' order. |
| Arxiv.PrimaryCategorySpec | src/services/arxivService.ts:65 | A non-empty primary term wins. Without one, the first non-empty category term is taken. The primary category is empty exactly when there is no non-empty primary term and no non-empty category term. |
| Arxiv.TextDefaults | src/services/arxivService.ts:75-76 | Titles and abstracts are non-empty and never start or end with white space. The fallback is used when the element is missing or its cleaned text is empty. |
| Fixtures.CatalogIdsUnique | src/data/papers.ts:4-81 | The catalog's ids are distinct. |
| Fixtures.CatalogYears | src/data/papers.ts:4-81 | Every catalog paper's year is 2023. |
| Fixtures.CvprVerdicts | src/data/papers.ts:4-81 | Under "conference-cvpr", papers 1 and 3 pass and papers 2, 4 and 5 do not. |
| Fixtures.ConferenceCvprScenario | src/data/papers.ts:4-81 | Checking "conference-cvpr" shows papers 1 and 3. Paper 3 has no conference and is never excluded. |
| Fixtures.Year2023Scenario | src/data/papers.ts:4-81 | Checking "year-2023" shows the whole catalog. |
| Fixtures.Year2022Scenario | src/data/papers.ts:4-81 | Checking "year-2022" shows nothing. |
| Fixtures.Topic3dScenario | src/data/papers.ts:66-79 | Checking "topic-3d" shows paper 5 alone, through its tag "3D reconstruction". |
| Fixtures.ObjectDetectionScenario | src/data/papers.ts:21-34 | Checking "topic-object-detection" shows paper 2 alone. The key looks for "object", which only its tag "object detection" contains. |
| Fixtures.CvprAnd3dScenario | src/data/papers.ts:4-81 | Checking both "conference-cvpr" and "topic-3d" shows nothing. |
| Fixtures.TransformerSearchScenario | src/data/papers.ts:5-19 | Searching "transformer" finds paper 1, tagged "vision transformer", and lists it first. |
| Fixtures.PanelShowsOneCategory | src/data/papers.ts:83-114 | The three categories have distinct ids, so at most one is open. Expanding "year" shows exactly the year category. |
| Fixtures.HyphenatedTopicKeys | src/data/papers.ts:104-112 | The panel's keys read back "object" for "object-detection" and "self" for "self-supervised", but "transformers" whole. |
| Scenarios.HomePageSession | src/pages/Index.tsx:14-137 | Over any catalog, with nothing stored: checking a key shows that key's results. A blank search then shows the whole catalog while the key stays active. Unchecking shows the whole catalog, and saving a paper marks it and stores exactly its id. |
| Scenarios.CvprSession | src/pages/Index.tsx:47-137 | On the static catalog, checking CVPR shows papers 1 and 3. Searching "" or unchecking shows the whole catalog, and saving paper 1 stores {"1"}. |

## Left out

- Network access, URL encoding and XML parsing (`fetch`, `encodeURIComponent`, `DOMParser`) are foreign I/O. The transport is a function parameter returning either a rejected fetch or a response with an `ok` flag, a status text and the parsed entries. Feed entries are abstract records of the texts and attributes the normaliser reads. The URL string itself is not built.
- The clock (`new Date().toISOString()`) is the `now` parameter of the normaliser.
- Year extraction (`new Date(publishDate).getFullYear()`) depends on time zones. It is modelled as the four leading characters when they are all digits (an ISO date's year), and "NaN" otherwise; a date the source would shift across a year boundary by time zone is not modelled.
- `toLowerCase` is modelled on ASCII letters only. Other scripts' case mappings are out of scope.
- React machinery (hooks, effect scheduling, re-renders, toasts, `setTimeout` navigation and routing) is not modelled. State setters are field assignments that take effect at once, and the effects are the `Load` method and the constructors.
- Corrupt JSON under `savedPapers` makes the source throw, and it is not modelled. The store holds either no value or a set of ids, and the JSON round trip of a set is taken as the identity.
- There is no pagination beyond the `start` and `maxResults` parameters, and overlapping fetches (concurrency) are not modelled.
- The presentational components (Header, SearchBar, FavoritePapers, PaperDetail) and the card's date formatting are markup only and are not modelled.
- The catalog's titles, authors, abstracts, journals, links and images are parameters (`CatalogDetails`) of the fixture lemmas, so every scenario holds whatever they are. Their published values are not restated: no property reads them.
- The `console.error` logging in the catch block of src/services/arxivService.ts and in the not-found branch of src/pages/Detail.tsx is output only and is not modelled.
- Fixtures.TransformerSearchScenario: proves that paper 1 is found and listed first. It does not prove that no other paper matches "transformer".
