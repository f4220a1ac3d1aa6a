/** The saved-papers page (src/pages/Favorites.tsx): the list of saved
    catalog papers it shows and its toggle, which edits the stored id set
    and the shown list together. */
module Favorites {
  import opened Types
  import opened Seqs
  import opened SavedPapers

  /** The catalog papers whose ids are in `ids`, in catalog order
      (Favorites.tsx:18). */
  function SavedList(catalog: seq<Paper>, ids: set<string>): seq<Paper>
  {
    Filter(catalog, (p: Paper) => p.id in ids)
  }

  /** `list.filter(p => p.id !== id)`. */
  function WithoutId(list: seq<Paper>, id: string): seq<Paper>
  {
    Filter(list, (p: Paper) => p.id != id)
  }

  /** `list.find(p => p.id === id)` finds an entry. */
  predicate Lists(list: seq<Paper>, id: string)
  {
    Find(list, (p: Paper) => p.id == id).Some?
  }

  /** The shown list and the stored set agree: every shown paper is saved,
      and every saved catalog paper is shown. */
  predicate Consistent(catalog: seq<Paper>, list: seq<Paper>, ids: set<string>)
  {
    && (forall i :: 0 <= i < |list| ==> list[i].id in ids)
    && (forall j :: 0 <= j < |catalog| && catalog[j].id in ids ==> Lists(list, catalog[j].id))
  }

  class FavoritesPage {
    /** The static catalog `papers`. */
    const catalog: seq<Paper>
    const storage: Storage
    var savedPapers: seq<Paper>

    ghost predicate Valid()
      reads this, storage
    {
      Consistent(catalog, savedPapers, storage.LoadedIds())
    }

    /** First render and the mount effect (Favorites.tsx:11-21): with a
        stored set the list is its catalog papers; with none it stays empty. */
    constructor (catalog: seq<Paper>, storage: Storage)
      ensures this.catalog == catalog && this.storage == storage
      ensures savedPapers == SavedList(catalog, storage.LoadedIds())
      ensures Valid()
    {
      this.catalog := catalog;
      this.storage := storage;
      savedPapers := [];
      new;
      if storage.savedPapers.Some? {
        var ids := storage.savedPapers.value;
        savedPapers := SavedList(catalog, ids);
      } else {
        assert SavedList(catalog, {}) == [] by { SavedListSpec(catalog, {}); }
      }
      SavedListConsistent(catalog, storage.LoadedIds());
    }

    /** `handleToggleSavedPaper` (Favorites.tsx:24-53): the paper's id is
        toggled in the stored set (an absent set read as empty); on removal
        every entry with that id leaves the list, on addition the paper is
        appended unless an entry with its id is already shown. */
    method HandleToggleSavedPaper(paper: Paper)
      requires Valid()
      modifies this, storage
      ensures Valid()
      ensures storage.savedPapers == Some(Toggle(old(storage.LoadedIds()), paper.id))
      ensures paper.id in old(storage.LoadedIds()) ==> savedPapers == WithoutId(old(savedPapers), paper.id)
      ensures paper.id !in old(storage.LoadedIds()) ==>
                savedPapers == if Lists(old(savedPapers), paper.id) then old(savedPapers)
                               else old(savedPapers) + [paper]
      ensures UniqueIds(old(savedPapers)) ==> UniqueIds(savedPapers)
    {
      var idSet := storage.LoadedIds();
      if paper.id in idSet {
        idSet := idSet - {paper.id};
        savedPapers := WithoutId(savedPapers, paper.id);
        RemovalKeepsConsistent(catalog, old(savedPapers), old(storage.LoadedIds()), paper.id);
        WithoutIdUnique(old(savedPapers), paper.id);
      } else {
        idSet := idSet + {paper.id};
        if !Lists(savedPapers, paper.id) {
          savedPapers := savedPapers + [paper];
        }
        AdditionKeepsConsistent(catalog, old(savedPapers), old(storage.LoadedIds()), paper);
        AppendUnique(old(savedPapers), paper);
      }
      storage.savedPapers := Some(idSet);
    }
  }

  // ---------------------------------------------------------------------
  // Properties of the saved list
  // ---------------------------------------------------------------------

  /** `Lists` holds exactly when some entry has the id. */
  lemma ListsSpec(list: seq<Paper>, id: string)
    ensures Lists(list, id) <==> exists i :: 0 <= i < |list| && list[i].id == id
  {
  }

  /** A paper is shown on load exactly when it is in the catalog and its id
      is saved; the list keeps catalog order, and nothing is shown when no
      id is saved. */
  lemma SavedListSpec(catalog: seq<Paper>, ids: set<string>)
    ensures forall p :: p in SavedList(catalog, ids) <==> p in catalog && p.id in ids
    ensures IsSubsequence(SavedList(catalog, ids), catalog)
    ensures ids == {} ==> SavedList(catalog, ids) == []
  {
    forall p ensures p in SavedList(catalog, ids) <==> p in catalog && p.id in ids {
      FilterMembership(catalog, (p: Paper) => p.id in ids, p);
    }
    FilterIsSubsequence(catalog, (p: Paper) => p.id in ids);
  }

  /** The list shown on load agrees with the stored set. */
  lemma SavedListConsistent(catalog: seq<Paper>, ids: set<string>)
    ensures Consistent(catalog, SavedList(catalog, ids), ids)
  {
    var list := SavedList(catalog, ids);
    SavedListSpec(catalog, ids);
    forall j | 0 <= j < |catalog| && catalog[j].id in ids
      ensures Lists(list, catalog[j].id)
    {
      assert catalog[j] in list;
      var i :| 0 <= i < |list| && list[i] == catalog[j];
      ListsSpec(list, catalog[j].id);
    }
  }

  /** Removing an id keeps exactly the entries with other ids, in order. */
  lemma WithoutIdSpec(list: seq<Paper>, id: string)
    ensures forall p :: p in WithoutId(list, id) <==> p in list && p.id != id
    ensures !Lists(WithoutId(list, id), id)
    ensures IsSubsequence(WithoutId(list, id), list)
  {
    forall p ensures p in WithoutId(list, id) <==> p in list && p.id != id {
      FilterMembership(list, (p: Paper) => p.id != id, p);
    }
    ListsSpec(WithoutId(list, id), id);
    FilterIsSubsequence(list, (p: Paper) => p.id != id);
  }

  /** Removing a saved id from both the set and the list keeps them in agreement. */
  lemma RemovalKeepsConsistent(catalog: seq<Paper>, list: seq<Paper>, ids: set<string>, id: string)
    requires Consistent(catalog, list, ids) && id in ids
    ensures Consistent(catalog, WithoutId(list, id), Toggle(ids, id))
  {
    RemovalKeepsSaved(list, ids, id);
    RemovalKeepsShown(catalog, list, ids, id);
  }

  lemma RemovalKeepsSaved(list: seq<Paper>, ids: set<string>, id: string)
    requires forall i :: 0 <= i < |list| ==> list[i].id in ids
    ensures forall i :: 0 <= i < |WithoutId(list, id)| ==> WithoutId(list, id)[i].id in ids - {id}
  {
    var rest := WithoutId(list, id);
    WithoutIdSpec(list, id);
    forall i | 0 <= i < |rest| ensures rest[i].id in ids - {id} {
      assert rest[i] in list;
      var k :| 0 <= k < |list| && list[k] == rest[i];
    }
  }

  lemma RemovalKeepsShown(catalog: seq<Paper>, list: seq<Paper>, ids: set<string>, id: string)
    requires forall j :: 0 <= j < |catalog| && catalog[j].id in ids ==> Lists(list, catalog[j].id)
    ensures forall j :: 0 <= j < |catalog| && catalog[j].id in ids - {id} ==> Lists(WithoutId(list, id), catalog[j].id)
  {
    var rest := WithoutId(list, id);
    WithoutIdSpec(list, id);
    forall j | 0 <= j < |catalog| && catalog[j].id in ids - {id}
      ensures Lists(rest, catalog[j].id)
    {
      ListsSpec(list, catalog[j].id);
      var k :| 0 <= k < |list| && list[k].id == catalog[j].id;
      assert list[k] in rest;
      var m :| 0 <= m < |rest| && rest[m] == list[k];
      ListsSpec(rest, catalog[j].id);
    }
  }

  /** Adding an unsaved id to the set, and its paper to the list unless
      already listed, keeps them in agreement. */
  lemma AdditionKeepsConsistent(catalog: seq<Paper>, list: seq<Paper>, ids: set<string>, paper: Paper)
    requires Consistent(catalog, list, ids) && paper.id !in ids
    ensures var next := if Lists(list, paper.id) then list else list + [paper];
            Consistent(catalog, next, Toggle(ids, paper.id))
  {
    ListsSpec(list, paper.id);
    var next := if Lists(list, paper.id) then list else list + [paper];
    forall j | 0 <= j < |catalog| && catalog[j].id in Toggle(ids, paper.id)
      ensures Lists(next, catalog[j].id)
    {
      ListsSpec(next, catalog[j].id);
      if catalog[j].id == paper.id {
        if !Lists(list, paper.id) {
          assert next[|list|] == paper;
        }
      } else {
        ListsSpec(list, catalog[j].id);
        var k :| 0 <= k < |list| && list[k].id == catalog[j].id;
        assert next[k] == list[k];
      }
    }
  }

  /** A filter of a list without repeated ids has no repeated ids. */
  lemma {:induction false} FilterUnique(s: seq<Paper>, f: Paper -> bool)
    requires UniqueIds(s)
    ensures UniqueIds(Filter(s, f))
  {
    if s != [] {
      FilterUnique(s[1..], f);
      FilterHead(s, f);
      var rest := Filter(s[1..], f);
      if f(s[0]) {
        var r := Filter(s, f);
        forall i, j | 0 <= i < j < |r| ensures r[i].id != r[j].id {
          if i == 0 {
            assert r[j] == rest[j - 1] && rest[j - 1] in s[1..];
            var k :| 0 <= k < |s[1..]| && s[1..][k] == rest[j - 1];
            assert s[k + 1] == r[j];
          } else {
            assert r[i] == rest[i - 1] && r[j] == rest[j - 1];
          }
        }
      }
    }
  }

  lemma WithoutIdUnique(list: seq<Paper>, id: string)
    ensures UniqueIds(list) ==> UniqueIds(WithoutId(list, id))
  {
    if UniqueIds(list) { FilterUnique(list, (p: Paper) => p.id != id); }
  }

  /** Appending a paper only when no entry has its id keeps ids unique
      (Favorites.tsx:47-49). */
  lemma AppendUnique(list: seq<Paper>, paper: Paper)
    ensures UniqueIds(list) ==>
            UniqueIds(if Lists(list, paper.id) then list else list + [paper])
  {
    ListsSpec(list, paper.id);
  }

  /** With a catalog whose ids are unique, the list shown on load has no
      repeated ids. */
  lemma SavedListUnique(catalog: seq<Paper>, ids: set<string>)
    requires UniqueIds(catalog)
    ensures UniqueIds(SavedList(catalog, ids))
  {
    FilterUnique(catalog, (p: Paper) => p.id in ids);
  }
}
