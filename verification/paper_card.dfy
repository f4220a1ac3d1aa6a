/** The text a paper card shows (src/components/PaperCard.tsx): the link to
    the paper's page, the author byline, the tag preview, the venue label
    and the save button's accessible label. */
module PaperCard {
  import opened Types
  import opened Strings

  /** The route of a paper's detail page (PaperCard.tsx:28). */
  function DetailPath(paperId: string): string
  {
    "/paper/" + paperId
  }

  /** The authors' names, in order. */
  function Names(authors: seq<Author>): (r: seq<string>)
    ensures |r| == |authors| && forall i :: 0 <= i < |r| ==> r[i] == authors[i].name
  {
    seq(|authors|, i requires 0 <= i < |authors| => authors[i].name)
  }

  /** The byline (PaperCard.tsx:37-39): the first author followed by
      " et al." when there are more than two, else every name joined by ", ". */
  function Byline(authors: seq<Author>): string
  {
    if |authors| > 2 then authors[0].name + " et al."
    else Join(Names(authors), ", ")
  }

  /** The first three tags (PaperCard.tsx:60). */
  function TagPreview(tags: seq<string>): seq<string>
  {
    tags[..if |tags| < 3 then |tags| else 3]
  }

  /** `paper.conference || paper.journal || 'Publication'` (PaperCard.tsx:75). */
  function VenueLabel(p: Paper): (r: string)
    ensures r != ""
  {
    if Truthy(p.conference) then p.conference.value
    else if Truthy(p.journal) then p.journal.value
    else "Publication"
  }

  /** The save button's aria-label (PaperCard.tsx:47). */
  function SaveLabel(isSaved: bool): (r: string)
    ensures r == "Unsave paper" <==> isSaved
    ensures r == "Save paper" <==> !isSaved
  {
    if isSaved then "Unsave paper" else "Save paper"
  }

  /** The detail path starts with "/paper/" and gives back the id after
      it, so distinct papers link to distinct pages. */
  lemma DetailPathRoundTrip(a: string, b: string)
    ensures StartsWith(DetailPath(a), "/paper/")
    ensures DetailPath(a)[7..] == a
    ensures DetailPath(a) == DetailPath(b) ==> a == b
  {
    assert DetailPath(a)[7..] == a;
    assert DetailPath(b)[7..] == b;
  }

  lemma OccursInPair(x: string, sep: string, y: string)
    ensures OccursAt(x + sep + y, x, 0)
    ensures OccursAt(x + sep + y, y, |x| + |sep|)
  {
    var s := x + sep + y;
    assert s[0..|x|] == x;
    assert s[|x| + |sep|..|x| + |sep| + |y|] == y;
  }

  /** The byline opens with the first author's name, with at most two
      authors it names every author in order, and with none it is empty. */
  lemma BylineNamesAuthors(authors: seq<Author>)
    ensures |authors| > 0 ==> StartsWith(Byline(authors), authors[0].name)
    ensures |authors| == 1 ==> Byline(authors) == authors[0].name
    ensures |authors| <= 2 ==> forall i :: 0 <= i < |authors| ==> Contains(Byline(authors), authors[i].name)
    ensures |authors| == 2 ==> Byline(authors) == authors[0].name + ", " + authors[1].name
    ensures |authors| > 2 ==> Byline(authors) == authors[0].name + " et al."
    ensures |authors| == 0 ==> Byline(authors) == ""
  {
    var b := Byline(authors);
    if |authors| == 1 {
      assert b == authors[0].name;
      assert OccursAt(b, authors[0].name, 0);
    } else if |authors| == 2 {
      var names := Names(authors);
      assert names[1..] == [authors[1].name];
      assert Join(names[1..], ", ") == authors[1].name;
      assert Join(names, ", ") == names[0] + ", " + Join(names[1..], ", ");
      OccursInPair(authors[0].name, ", ", authors[1].name);
    } else if |authors| > 2 {
      assert b[..|authors[0].name|] == authors[0].name;
    }
  }

  /** The preview is the leading tags, at most three of them, and all of
      them when there are three or fewer. */
  lemma TagPreviewSpec(tags: seq<string>)
    ensures |TagPreview(tags)| <= 3
    ensures |TagPreview(tags)| == if |tags| < 3 then |tags| else 3
    ensures forall i :: 0 <= i < |TagPreview(tags)| ==> TagPreview(tags)[i] == tags[i]
    ensures |tags| <= 3 ==> TagPreview(tags) == tags
  {
  }

  /** The label falls back from the conference to the journal to
      "Publication", skipping absent and empty values. */
  lemma VenueFallback(p: Paper)
    ensures Truthy(p.conference) ==> VenueLabel(p) == p.conference.value
    ensures !Truthy(p.conference) && Truthy(p.journal) ==> VenueLabel(p) == p.journal.value
    ensures !Truthy(p.conference) && !Truthy(p.journal) ==> VenueLabel(p) == "Publication"
  {
  }

  /** A paper from the arXiv feed, which has no conference and the
      journal "arXiv", is labelled "arXiv". */
  lemma ArxivVenue(p: Paper)
    requires p.conference.None? && p.journal == Some("arXiv")
    ensures VenueLabel(p) == "arXiv"
  {
  }
}
