/** The paper detail page (src/pages/Detail.tsx): the paper named by the
    route is looked up in the catalog once the page has mounted, and the
    page toggles that paper's saved state. */
module Detail {
  import opened Types
  import opened Seqs
  import opened SavedPapers

  /** `papers.find(p => p.id === paperId)`: the first catalog paper with
      the id, or None when no paper has it. */
  function FindById(catalog: seq<Paper>, paperId: string): (r: Option<Paper>)
    ensures r.None? <==> forall i :: 0 <= i < |catalog| ==> catalog[i].id != paperId
    ensures r.Some? ==> exists i :: 0 <= i < |catalog| && catalog[i] == r.value
                                    && r.value.id == paperId
                                    && forall j :: 0 <= j < i ==> catalog[j].id != paperId
  {
    Find(catalog, (p: Paper) => p.id == paperId)
  }

  /** What the page renders (Detail.tsx:73-94). */
  datatype View = Loading | Found(paper: Paper, isSaved: bool) | NotFound

  class DetailPage {
    /** The static catalog `papers`. */
    const catalog: seq<Paper>
    const storage: Storage
    /** The `:id` route parameter, absent when the route has none. */
    const routeId: Option<string>
    var paper: Option<Paper>
    var savedPaperIds: set<string>
    var isLoading: bool

    /** Before the mount effect nothing is found yet; after it, the ids and
        the paper are those the effect loaded. */
    ghost predicate Valid()
      reads this
    {
      && (isLoading ==> paper.None?)
      && (!isLoading ==> paper == FindById(catalog, routeId.GetOr("")))
    }

    /** The first render (Detail.tsx:14-16). */
    constructor (catalog: seq<Paper>, storage: Storage, routeId: Option<string>)
      ensures this.catalog == catalog && this.storage == storage && this.routeId == routeId
      ensures paper.None? && savedPaperIds == {} && isLoading
      ensures Valid()
    {
      this.catalog := catalog;
      this.storage := storage;
      this.routeId := routeId;
      paper := None;
      savedPaperIds := {};
      isLoading := true;
    }

    /** The mount effect (Detail.tsx:19-44): stored ids are loaded when
        present, the paper is the first with the route id (a missing id
        read as ""), and loading ends whether or not it was found. */
    method Load()
      requires Valid()
      modifies this
      ensures Valid()
      ensures savedPaperIds == if storage.savedPapers.Some? then storage.savedPapers.value
                               else old(savedPaperIds)
      ensures paper == FindById(catalog, routeId.GetOr(""))
      ensures !isLoading
    {
      if storage.savedPapers.Some? {
        savedPaperIds := storage.savedPapers.value;
      }
      var paperId := routeId.GetOr("");
      var foundPaper := FindById(catalog, paperId);
      if foundPaper.Some? {
        paper := foundPaper;
      }
      isLoading := false;
    }

    /** `handleSavePaper` (Detail.tsx:47-66): the paper's id is toggled in
        the page's set and the whole set overwrites the stored one. */
    method HandleSavePaper(p: Paper)
      requires Valid()
      modifies this, storage
      ensures Valid()
      ensures savedPaperIds == Toggle(old(savedPaperIds), p.id)
      ensures storage.savedPapers == Some(savedPaperIds)
      ensures paper == old(paper) && isLoading == old(isLoading)
    {
      var newSavedPaperIds := savedPaperIds;
      if p.id in newSavedPaperIds {
        newSavedPaperIds := newSavedPaperIds - {p.id};
      } else {
        newSavedPaperIds := newSavedPaperIds + {p.id};
      }
      savedPaperIds := newSavedPaperIds;
      storage.savedPapers := Some(newSavedPaperIds);
    }

    /** The rendered branch: a spinner while loading, the paper with its
        saved flag once found, the not-found message otherwise. */
    function Render(): (v: View)
      reads this
      ensures v.Loading? <==> isLoading
      ensures v.NotFound? <==> !isLoading && paper.None?
      ensures v.Found? ==> Some(v.paper) == paper && (v.isSaved <==> v.paper.id in savedPaperIds)
    {
      if isLoading then Loading
      else if paper.Some? then Found(paper.value, paper.value.id in savedPaperIds)
      else NotFound
    }
  }

  /** In a catalog with unique ids, looking up a catalog paper's id finds
      that paper. */
  lemma FindOwnId(catalog: seq<Paper>, k: nat)
    requires UniqueIds(catalog) && k < |catalog|
    ensures FindById(catalog, catalog[k].id) == Some(catalog[k])
  {
    var r := FindById(catalog, catalog[k].id);
    var i :| 0 <= i < |catalog| && catalog[i] == r.value && r.value.id == catalog[k].id
             && forall j :: 0 <= j < i ==> catalog[j].id != catalog[k].id;
    assert i == k;
  }
}
