/** The browser's `localStorage` entry 'savedPapers' and the toggle rule
    that all three pages apply to the set of saved paper ids. */
module SavedPapers {
  import opened Types

  /** The 'savedPapers' key of localStorage: absent (`None`) or holding the
      JSON array written from a set of ids, which parses back to that set. */
  class Storage {
    var savedPapers: Option<set<string>>

    constructor (initial: Option<set<string>>)
      ensures savedPapers == initial
    {
      savedPapers := initial;
    }

    /** `getItem` followed by `new Set(JSON.parse(...))`, with an absent key read as no ids. */
    function LoadedIds(): (ids: set<string>)
      reads this
      ensures savedPapers.None? ==> ids == {}
      ensures savedPapers.Some? ==> ids == savedPapers.value
    {
      savedPapers.GetOr({})
    }
  }

  /** Saving or unsaving one paper: `id` is removed when present and added
      when absent; no other id changes. */
  function Toggle(ids: set<string>, id: string): (r: set<string>)
    ensures id in r <==> id !in ids
    ensures forall x :: x != id ==> (x in r <==> x in ids)
  {
    if id in ids then ids - {id} else ids + {id}
  }

  /** Toggling the same paper twice restores the saved set. */
  lemma ToggleTwice(ids: set<string>, id: string)
    ensures Toggle(Toggle(ids, id), id) == ids
  {
  }

  /** Toggling two different papers gives the same set in either order. */
  lemma ToggleCommutes(ids: set<string>, a: string, b: string)
    ensures Toggle(Toggle(ids, a), b) == Toggle(Toggle(ids, b), a)
  {
  }
}
