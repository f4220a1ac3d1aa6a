/** The state of the home page (src/pages/Index.tsx): the search text, the
    active filter keys, the list on display and the saved paper ids, with
    the three handlers that update them. */
module Index {
  import opened Types
  import opened Seqs
  import opened Query
  import opened SavedPapers

  class IndexPage {
    /** The static catalog `papers` the page searches. */
    const catalog: seq<Paper>
    const storage: Storage
    var searchQuery: string
    var filteredPapers: seq<Paper>
    var activeFilters: set<string>
    var savedPaperIds: set<string>

    /** The saved ids mirror the stored ones, and the list on display is
        always drawn from the catalog in catalog order. */
    ghost predicate Valid()
      reads this, storage
    {
      && savedPaperIds == storage.LoadedIds()
      && IsSubsequence(filteredPapers, catalog)
    }

    /** First render and the mount effect (Index.tsx:14-25): the whole
        catalog on display, no filter, and the stored ids loaded when present. */
    constructor (catalog: seq<Paper>, storage: Storage)
      ensures this.catalog == catalog && this.storage == storage
      ensures searchQuery == "" && filteredPapers == catalog && activeFilters == {}
      ensures savedPaperIds == storage.LoadedIds()
      ensures Valid()
    {
      this.catalog := catalog;
      this.storage := storage;
      searchQuery := "";
      filteredPapers := catalog;
      activeFilters := {};
      savedPaperIds := {};
      new;
      if storage.savedPapers.Some? {
        savedPaperIds := storage.savedPapers.value;
      }
      SubsequenceReflexive(catalog);
    }

    /** `handleSearch` (Index.tsx:28-44): the list becomes the search
        results over the whole catalog; the active filters are ignored
        and kept as they are. */
    method HandleSearch(query: string)
      requires Valid()
      modifies this
      ensures Valid()
      ensures searchQuery == query
      ensures filteredPapers == SearchResults(catalog, query)
      ensures activeFilters == old(activeFilters) && savedPaperIds == old(savedPaperIds)
    {
      searchQuery := query;
      if IsBlank(query) {
        filteredPapers := catalog;
      } else {
        filteredPapers := SearchFilter(catalog, query);
      }
      SearchResultsOrder(catalog, query);
    }

    /** `handleFilterChange` (Index.tsx:47-115): one key is added or
        removed, and the list is recomputed from the catalog under all
        active keys and the current search. */
    method HandleFilterChange(filterId: string, isActive: bool)
      requires Valid()
      modifies this
      ensures Valid()
      ensures activeFilters == if isActive then old(activeFilters) + {filterId}
                               else old(activeFilters) - {filterId}
      ensures filteredPapers == FilterChangeResults(catalog, activeFilters, searchQuery)
      ensures searchQuery == old(searchQuery) && savedPaperIds == old(savedPaperIds)
    {
      var newFilters := if isActive then activeFilters + {filterId} else activeFilters - {filterId};
      activeFilters := newFilters;
      if |newFilters| == 0 {
        HandleSearch(searchQuery);
        return;
      }
      var results := CategoryFilter(catalog, newFilters);
      var shown := results;
      if !IsBlank(searchQuery) {
        shown := SearchFilter(results, searchQuery);
      }
      ShownAfterChange(catalog, newFilters, searchQuery, shown);
      filteredPapers := shown;
    }

    /** `handleSavePaper` (Index.tsx:118-137): the paper's id is toggled in
        the saved set and the whole new set overwrites the stored one. */
    method HandleSavePaper(paper: Paper)
      requires Valid()
      modifies this, storage
      ensures Valid()
      ensures savedPaperIds == Toggle(old(savedPaperIds), paper.id)
      ensures storage.savedPapers == Some(savedPaperIds)
      ensures IsSaved(paper) <==> !old(IsSaved(paper))
      ensures forall q: Paper :: q.id != paper.id ==> (IsSaved(q) <==> old(IsSaved(q)))
      ensures searchQuery == old(searchQuery) && filteredPapers == old(filteredPapers)
      ensures activeFilters == old(activeFilters)
    {
      var newSavedPaperIds := savedPaperIds;
      if paper.id in newSavedPaperIds {
        newSavedPaperIds := newSavedPaperIds - {paper.id};
      } else {
        newSavedPaperIds := newSavedPaperIds + {paper.id};
      }
      savedPaperIds := newSavedPaperIds;
      storage.savedPapers := Some(newSavedPaperIds);
    }

    /** The `isSaved` flag each card on the page receives (Index.tsx:203). */
    function IsSaved(paper: Paper): (saved: bool)
      reads this
      ensures saved <==> paper.id in savedPaperIds
    {
      paper.id in savedPaperIds
    }
  }

  /** The list `handleFilterChange` computes for a non-empty key set is
      the one `FilterChangeResults` describes, and keeps catalog order. */
  lemma ShownAfterChange(catalog: seq<Paper>, filters: set<string>, query: string, shown: seq<Paper>)
    requires filters != {}
    requires shown == if IsBlank(query) then CategoryFilter(catalog, filters)
                      else SearchFilter(CategoryFilter(catalog, filters), query)
    ensures shown == FilterChangeResults(catalog, filters, query)
    ensures IsSubsequence(shown, catalog)
  {
    FilterChangeOrder(catalog, filters, query);
  }
}
