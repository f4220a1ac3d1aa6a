/** The records the paper browser passes between its pages and components
    (src/types/index.ts), with TypeScript's optional fields as `Option`. */
module Types {

  datatype Option<T> = None | Some(value: T) {
    /** `x ?? d`: the value, or `d` when absent. */
    function GetOr(default: T): T
    {
      if Some? then value else default
    }
  }

  /** The outcome of an operation that may throw: its value or the error message. */
  datatype Result<T> = Success(value: T) | Failure(message: string)

  /** JavaScript truthiness of an optional string: present and non-empty. */
  predicate Truthy(s: Option<string>)
  {
    s.Some? && s.value != ""
  }

  datatype Author = Author(id: string, name: string, institution: Option<string>)

  /** A paper of the catalog; `abstractText` is the source's `abstract`. */
  datatype Paper = Paper(
    id: string,
    title: string,
    authors: seq<Author>,
    abstractText: string,
    publishDate: string,
    conference: Option<string>,
    journal: Option<string>,
    citations: nat,
    tags: seq<string>,
    url: string,
    imageUrl: Option<string>,
    arxivId: Option<string>,
    pdfUrl: Option<string>,
    primaryCategory: Option<string>)

  /** A checkbox of a filter category; `caption` is the source's `label`. */
  datatype FilterOption = FilterOption(id: string, caption: string)

  datatype FilterCategory = FilterCategory(id: string, name: string, options: seq<FilterOption>)

  /** No two papers of the list share an id. */
  predicate UniqueIds(papers: seq<Paper>)
  {
    forall i, j :: 0 <= i < j < |papers| ==> papers[i].id != papers[j].id
  }
}
