/** A session on the home page, driven through the page's own handlers. */
module Scenarios {
  import opened Types
  import opened Query
  import opened SavedPapers
  import opened Index
  import opened Fixtures

  /** Over any catalog and with nothing stored: checking `key` shows that
      key's results; a blank search then shows the whole catalog although
      the key stays checked, since search ignores the filters; unchecking
      the key shows the whole catalog again; and saving `p` marks it saved
      and stores exactly its id. */
  method HomePageSession(catalog: seq<Paper>, key: string, p: Paper)
    returns (checked: seq<Paper>, searched: seq<Paper>, active: set<string>,
             unchecked: seq<Paper>, saved: bool, stored: Option<set<string>>)
    ensures checked == FilterChangeResults(catalog, {key}, "")
    ensures searched == catalog && active == {key}
    ensures unchecked == catalog
    ensures saved && stored == Some({p.id})
  {
    var storage := new Storage(None);
    var page := new IndexPage(catalog, storage);
    page.HandleFilterChange(key, true);
    assert page.activeFilters == {key};
    checked := page.filteredPapers;
    assert checked == FilterChangeResults(catalog, {key}, "");
    page.HandleSearch("");
    assert IsBlank("");
    searched := page.filteredPapers;
    active := page.activeFilters;
    page.HandleFilterChange(key, false);
    assert page.activeFilters == {};
    unchecked := page.filteredPapers;
    assert unchecked == catalog;
    assert page.savedPaperIds == {};
    page.HandleSavePaper(p);
    assert page.savedPaperIds == {p.id};
    saved := page.IsSaved(p);
    stored := storage.savedPapers;
  }

  /** The same session over the static catalog with the CVPR checkbox:
      checking it shows papers 1 and 3, and saving paper 1 stores {"1"}. */
  method CvprSession(c: CatalogDetails)
    returns (checked: seq<Paper>, searched: seq<Paper>, unchecked: seq<Paper>, stored: Option<set<string>>)
    ensures checked == [Paper1(c), Paper3(c)]
    ensures searched == Catalog(c) && unchecked == Catalog(c)
    ensures stored == Some({"1"})
  {
    var active, saved;
    checked, searched, active, unchecked, saved, stored :=
      HomePageSession(Catalog(c), "conference-cvpr", Paper1(c));
    ConferenceCvprScenario(c);
  }
}
