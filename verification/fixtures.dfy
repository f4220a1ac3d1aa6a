/** The static catalog and filter categories of src/data/papers.ts, and
    what the home page's filters and search show over them. */
module Fixtures {
  import opened Types
  import opened Strings
  import opened Seqs
  import opened Query
  import FilterBar

  /** The title, authors, abstract, journal, link and image of one catalog
      paper. No property below reads them, so they are parameters of the
      catalog and every property holds whatever they are. */
  datatype Details = Details(title: string, authors: seq<Author>, abstractText: string,
                             journal: Option<string>, url: string, imageUrl: string)

  datatype CatalogDetails = CatalogDetails(t1: Details, t2: Details, t3: Details, t4: Details, t5: Details)

  function Paper1(c: CatalogDetails): Paper
  {
    Paper(
      id := "1",
      title := c.t1.title,
      authors := c.t1.authors,
      abstractText := c.t1.abstractText,
      publishDate := "2023-10-15",
      conference := Some("CVPR"),
      journal := c.t1.journal,
      citations := 145,
      tags := ["vision transformer", "small datasets", "transfer learning"],
      url := c.t1.url,
      imageUrl := Some(c.t1.imageUrl),
      arxivId := None,
      pdfUrl := None,
      primaryCategory := None)
  }

  function Paper2(c: CatalogDetails): Paper
  {
    Paper(
      id := "2",
      title := c.t2.title,
      authors := c.t2.authors,
      abstractText := c.t2.abstractText,
      publishDate := "2023-09-18",
      conference := Some("ICCV"),
      journal := c.t2.journal,
      citations := 89,
      tags := ["object detection", "real-time", "sparse attention"],
      url := c.t2.url,
      imageUrl := Some(c.t2.imageUrl),
      arxivId := None,
      pdfUrl := None,
      primaryCategory := None)
  }

  function Paper3(c: CatalogDetails): Paper
  {
    Paper(
      id := "3",
      title := c.t3.title,
      authors := c.t3.authors,
      abstractText := c.t3.abstractText,
      publishDate := "2023-08-05",
      conference := None,
      journal := c.t3.journal,
      citations := 112,
      tags := ["medical imaging", "segmentation", "self-supervised learning"],
      url := c.t3.url,
      imageUrl := Some(c.t3.imageUrl),
      arxivId := None,
      pdfUrl := None,
      primaryCategory := None)
  }

  function Paper4(c: CatalogDetails): Paper
  {
    Paper(
      id := "4",
      title := c.t4.title,
      authors := c.t4.authors,
      abstractText := c.t4.abstractText,
      publishDate := "2023-07-20",
      conference := Some("NeurIPS"),
      journal := c.t4.journal,
      citations := 320,
      tags := ["contrastive learning", "self-supervised", "representation learning"],
      url := c.t4.url,
      imageUrl := Some(c.t4.imageUrl),
      arxivId := None,
      pdfUrl := None,
      primaryCategory := None)
  }

  function Paper5(c: CatalogDetails): Paper
  {
    Paper(
      id := "5",
      title := c.t5.title,
      authors := c.t5.authors,
      abstractText := c.t5.abstractText,
      publishDate := "2023-11-02",
      conference := Some("ECCV"),
      journal := c.t5.journal,
      citations := 76,
      tags := ["3D reconstruction", "neural implicit fields", "scene understanding"],
      url := c.t5.url,
      imageUrl := Some(c.t5.imageUrl),
      arxivId := None,
      pdfUrl := None,
      primaryCategory := None)
  }

  /** `papers`, with the titles, authors, abstracts, journals, links and
      images taken from `c`. */
  function Catalog(c: CatalogDetails): seq<Paper>
  {
    [Paper1(c), Paper2(c), Paper3(c), Paper4(c), Paper5(c)]
  }

  /** `filterCategories` (papers.ts:83-114). */
  const FilterCategories: seq<FilterCategory> := [
    FilterCategory("conference", "Conference",
      [FilterOption("cvpr", "CVPR"), FilterOption("iccv", "ICCV"),
       FilterOption("eccv", "ECCV"), FilterOption("neurips", "NeurIPS")]),
    FilterCategory("year", "Year",
      [FilterOption("2023", "2023"), FilterOption("2022", "2022"), FilterOption("2021", "2021")]),
    FilterCategory("topic", "Topic",
      [FilterOption("transformers", "Transformers"), FilterOption("object-detection", "Object Detection"),
       FilterOption("segmentation", "Segmentation"), FilterOption("self-supervised", "Self-Supervised Learning"),
       FilterOption("3d", "3D Vision")])]

  /** A paper as the category filter leaves it: kept alone, or dropped. */
  function Kept(p: Paper, filters: set<string>): seq<Paper>
  {
    if PassesFilters(p, filters) then [p] else []
  }

  /** Filtering a non-empty list keeps or drops its head, then filters the rest. */
  lemma FilterCons(ps: seq<Paper>, filters: set<string>)
    requires ps != []
    ensures CategoryFilter(ps, filters) == Kept(ps[0], filters) + CategoryFilter(ps[1..], filters)
  {
    FilterHead(ps, (p: Paper) => PassesFilters(p, filters));
  }

  /** Filtering five papers keeps or drops each of them, in order. */
  lemma FilterFive(ps: seq<Paper>, filters: set<string>)
    requires |ps| == 5
    ensures CategoryFilter(ps, filters)
            == Kept(ps[0], filters) + (Kept(ps[1], filters) + (Kept(ps[2], filters) + (Kept(ps[3], filters) + Kept(ps[4], filters))))
  {
    var s1, s2, s3, s4 := ps[1..], ps[2..], ps[3..], ps[4..];
    assert s1[1..] == s2 && s2[1..] == s3 && s3[1..] == s4 && s4[1..] == [];
    assert s1[0] == ps[1] && s2[0] == ps[2] && s3[0] == ps[3] && s4[0] == ps[4];
    FilterCons(s4, filters);
    assert CategoryFilter(s4, filters) == Kept(ps[4], filters);
    FilterCons(s3, filters);
    FilterCons(s2, filters);
    FilterCons(s1, filters);
    FilterCons(ps, filters);
  }

  /** The catalog is the five papers in order. */
  lemma CatalogPapers(c: CatalogDetails)
    ensures |Catalog(c)| == 5
    ensures Catalog(c)[0] == Paper1(c) && Catalog(c)[1] == Paper2(c) && Catalog(c)[2] == Paper3(c)
    ensures Catalog(c)[3] == Paper4(c) && Catalog(c)[4] == Paper5(c)
  {
  }

  /** The catalog filtered by the active keys, one paper at a time. */
  lemma CatalogSteps(c: CatalogDetails, filters: set<string>)
    ensures CategoryFilter(Catalog(c), filters)
            == Kept(Paper1(c), filters) + (Kept(Paper2(c), filters) + (Kept(Paper3(c), filters)
               + (Kept(Paper4(c), filters) + Kept(Paper5(c), filters))))
  {
    CatalogPapers(c);
    FilterFive(Catalog(c), filters);
  }

  /** Catalog ids are distinct. */
  lemma CatalogIdsUnique(c: CatalogDetails)
    ensures UniqueIds(Catalog(c))
  {
  }

  /** Lower-casing the catalog's conference names. */
  lemma LowerConferenceNames()
    ensures Lower("CVPR") == Lower("cvpr") == "cvpr"
    ensures Lower("ICCV")[0] == 'i' && Lower("NeurIPS")[0] == 'n' && Lower("ECCV")[0] == 'e'
  {
    var s := Lower("CVPR");
    assert s[0] == 'c' && s[1] == 'v' && s[2] == 'p' && s[3] == 'r';
  }

  /** Which catalog papers pass the single key "conference-cvpr". */
  lemma CvprVerdicts(c: CatalogDetails)
    ensures PassesFilters(Paper1(c), {"conference-cvpr"}) && !PassesFilters(Paper2(c), {"conference-cvpr"})
    ensures PassesFilters(Paper3(c), {"conference-cvpr"}) && !PassesFilters(Paper4(c), {"conference-cvpr"})
    ensures !PassesFilters(Paper5(c), {"conference-cvpr"})
  {
    assert ConferenceCategory + "-" + "cvpr" == "conference-cvpr";
    LowerConferenceNames();
    SingleConferenceKey(Paper1(c), "cvpr");
    SingleConferenceKey(Paper2(c), "cvpr");
    SingleConferenceKey(Paper3(c), "cvpr");
    SingleConferenceKey(Paper4(c), "cvpr");
    SingleConferenceKey(Paper5(c), "cvpr");
  }

  /** Checking "conference-cvpr" shows papers 1 and 3: paper 1 is at CVPR,
      and paper 3, a journal paper with no conference, is never excluded
      by a conference filter. */
  lemma ConferenceCvprScenario(c: CatalogDetails)
    ensures FilterChangeResults(Catalog(c), {"conference-cvpr"}, "") == [Paper1(c), Paper3(c)]
  {
    var filters := {"conference-cvpr"};
    assert CategoryFilter(Catalog(c), filters) == [Paper1(c), Paper3(c)] by {
      CvprVerdicts(c);
      CatalogSteps(c, filters);
      assert [Paper1(c)] + ([] + ([Paper3(c)] + ([] + []))) == [Paper1(c), Paper3(c)];
    }
    BlankShowsFiltered(Catalog(c), filters);
  }

  /** With an empty query the list is the catalog filtered by the keys. */
  lemma BlankShowsFiltered(papers: seq<Paper>, filters: set<string>)
    requires filters != {}
    ensures FilterChangeResults(papers, filters, "") == CategoryFilter(papers, filters)
  {
    assert IsBlank("");
  }

  /** Every catalog paper was published in 2023. */
  lemma CatalogYears(c: CatalogDetails)
    ensures YearOf(Paper1(c).publishDate) == "2023" && YearOf(Paper2(c).publishDate) == "2023"
    ensures YearOf(Paper3(c).publishDate) == "2023" && YearOf(Paper4(c).publishDate) == "2023"
    ensures YearOf(Paper5(c).publishDate) == "2023"
    ensures YearCategory + "-" + "2023" == "year-2023" && YearCategory + "-" + "2022" == "year-2022"
  {
    DateYears();
    YearKeys();
  }

  lemma DateYears()
    ensures YearOf("2023-10-15") == "2023" && YearOf("2023-09-18") == "2023" && YearOf("2023-08-05") == "2023"
    ensures YearOf("2023-07-20") == "2023" && YearOf("2023-11-02") == "2023"
  {
  }

  lemma YearKeys()
    ensures YearCategory + "-" + "2023" == "year-2023" && YearCategory + "-" + "2022" == "year-2022"
  {
  }

  /** Every catalog paper passes the single key "year-2023". */
  lemma Year2023Verdicts(c: CatalogDetails)
    ensures PassesFilters(Paper1(c), {"year-2023"}) && PassesFilters(Paper2(c), {"year-2023"})
    ensures PassesFilters(Paper3(c), {"year-2023"}) && PassesFilters(Paper4(c), {"year-2023"})
    ensures PassesFilters(Paper5(c), {"year-2023"})
  {
    CatalogYears(c);
    SingleYearKey(Paper1(c), "2023"); SingleYearKey(Paper2(c), "2023"); SingleYearKey(Paper3(c), "2023");
    SingleYearKey(Paper4(c), "2023"); SingleYearKey(Paper5(c), "2023");
  }

  /** Every catalog paper is from 2023, so checking "year-2023" shows the
      whole catalog. */
  lemma Year2023Scenario(c: CatalogDetails)
    ensures FilterChangeResults(Catalog(c), {"year-2023"}, "") == Catalog(c)
  {
    var f := {"year-2023"};
    Year2023Verdicts(c);
    AllPassKeepCatalog(c, f);
    BlankShowsFiltered(Catalog(c), f);
  }

  /** Keys every catalog paper passes leave the catalog whole. */
  lemma AllPassKeepCatalog(c: CatalogDetails, f: set<string>)
    requires PassesFilters(Paper1(c), f) && PassesFilters(Paper2(c), f) && PassesFilters(Paper3(c), f)
    requires PassesFilters(Paper4(c), f) && PassesFilters(Paper5(c), f)
    ensures CategoryFilter(Catalog(c), f) == Catalog(c)
  {
    FiveAllPass(Paper1(c), Paper2(c), Paper3(c), Paper4(c), Paper5(c), f);
  }

  lemma FiveAllPass(p1: Paper, p2: Paper, p3: Paper, p4: Paper, p5: Paper, f: set<string>)
    requires PassesFilters(p1, f) && PassesFilters(p2, f) && PassesFilters(p3, f)
    requires PassesFilters(p4, f) && PassesFilters(p5, f)
    ensures CategoryFilter([p1, p2, p3, p4, p5], f) == [p1, p2, p3, p4, p5]
  {
    var ps := [p1, p2, p3, p4, p5];
    FilterFive(ps, f);
    assert [p1] + ([p2] + ([p3] + ([p4] + [p5]))) == ps;
  }

  /** Checking "year-2022" shows nothing. */
  lemma Year2022Scenario(c: CatalogDetails)
    ensures FilterChangeResults(Catalog(c), {"year-2022"}, "") == []
  {
    var g := {"year-2022"};
    assert !PassesFilters(Paper1(c), g) && !PassesFilters(Paper2(c), g) && !PassesFilters(Paper3(c), g)
           && !PassesFilters(Paper4(c), g) && !PassesFilters(Paper5(c), g) by {
      CatalogYears(c);
      SingleYearKey(Paper1(c), "2022"); SingleYearKey(Paper2(c), "2022"); SingleYearKey(Paper3(c), "2022");
      SingleYearKey(Paper4(c), "2022"); SingleYearKey(Paper5(c), "2022");
    }
    CatalogSteps(c, g);
    BlankShowsFiltered(Catalog(c), g);
  }

  /** The topic "topic-3d" looks for: "3d" itself. */
  lemma TopicOf3d()
    ensures Lower(Split("3d", '-')[0]) == "3d"
    ensures TopicCategory + "-" + "3d" == "topic-3d"
  {
    SplitFree("3d", '-');
    LowerOfLower("3d");
  }

  /** The topic "topic-object-detection" looks for: "object", the text
      after the hyphen being dropped. */
  lemma TopicOfObjectDetection()
    ensures Lower(Split("object-detection", '-')[0]) == "object"
  {
    assert "object-detection" == "object" + (['-'] + "detection");
    SplitAfterFree("object", "detection", '-');
    LowerObject();
  }

  lemma LowerObject()
    ensures Lower("object") == "object"
  {
    var s := Lower("object");
    assert s[0] == 'o' && s[1] == 'b' && s[2] == 'j' && s[3] == 'e' && s[4] == 'c' && s[5] == 't';
  }

  lemma ObjectDetectionKey()
    ensures TopicCategory + "-" + "object-detection" == "topic-object-detection"
  {
    var key := TopicCategory + "-" + "object-detection";
    assert key[..6] == "topic-";
    assert key[6..] == "object-detection";
    assert "topic-object-detection"[..6] == "topic-";
    assert "topic-object-detection"[6..] == "object-detection";
    assert key == key[..6] + key[6..];
  }

  /** Which catalog papers pass the single key "topic-3d". */
  lemma Topic3dVerdicts(c: CatalogDetails)
    ensures PassesFilters(Paper5(c), {"topic-3d"})
    ensures !PassesFilters(Paper1(c), {"topic-3d"}) && !PassesFilters(Paper2(c), {"topic-3d"})
    ensures !PassesFilters(Paper3(c), {"topic-3d"}) && !PassesFilters(Paper4(c), {"topic-3d"})
  {
    TopicOf3d();
    Paper5Mentions3d(c);
    Paper1Lacks3d(c); Paper2Lacks3d(c); Paper3Lacks3d(c); Paper4Lacks3d(c);
    SingleTopicKey(Paper1(c), "3d"); SingleTopicKey(Paper2(c), "3d"); SingleTopicKey(Paper3(c), "3d");
    SingleTopicKey(Paper4(c), "3d"); SingleTopicKey(Paper5(c), "3d");
  }

  /** Checking "topic-3d" shows paper 5 alone, the one tagged "3D reconstruction". */
  lemma Topic3dScenario(c: CatalogDetails)
    ensures FilterChangeResults(Catalog(c), {"topic-3d"}, "") == [Paper5(c)]
  {
    Topic3dVerdicts(c);
    var f := {"topic-3d"};
    CatalogSteps(c, f);
    assert [] + ([] + ([] + ([] + [Paper5(c)]))) == [Paper5(c)];
    BlankShowsFiltered(Catalog(c), f);
  }

  /** Which catalog papers pass the single key "topic-object-detection". */
  lemma ObjectDetectionVerdicts(c: CatalogDetails)
    ensures PassesFilters(Paper2(c), {"topic-object-detection"})
    ensures !PassesFilters(Paper1(c), {"topic-object-detection"}) && !PassesFilters(Paper3(c), {"topic-object-detection"})
    ensures !PassesFilters(Paper4(c), {"topic-object-detection"}) && !PassesFilters(Paper5(c), {"topic-object-detection"})
  {
    TopicOfObjectDetection();
    ObjectDetectionKey();
    Paper2MentionsObject(c);
    Paper1LacksObject(c); Paper3LacksObject(c); Paper4LacksObject(c); Paper5LacksObject(c);
    SingleTopicKey(Paper1(c), "object-detection"); SingleTopicKey(Paper2(c), "object-detection");
    SingleTopicKey(Paper3(c), "object-detection"); SingleTopicKey(Paper4(c), "object-detection");
    SingleTopicKey(Paper5(c), "object-detection");
  }

  /** Checking "topic-object-detection" shows paper 2 alone: the key looks
      for "object", which only paper 2's tag "object detection" contains. */
  lemma ObjectDetectionScenario(c: CatalogDetails)
    ensures FilterChangeResults(Catalog(c), {"topic-object-detection"}, "") == [Paper2(c)]
  {
    ObjectDetectionVerdicts(c);
    var f := {"topic-object-detection"};
    CatalogSteps(c, f);
    assert [] + ([Paper2(c)] + ([] + ([] + []))) == [Paper2(c)];
    BlankShowsFiltered(Catalog(c), f);
  }

  /** Keys of two categories must both hold: "conference-cvpr" with
      "topic-3d" shows nothing, since the CVPR papers 1 and 3 are not about
      3D and the 3D paper 5 is at ECCV. */
  lemma CvprAnd3dScenario(c: CatalogDetails)
    ensures FilterChangeResults(Catalog(c), {"conference-cvpr", "topic-3d"}, "") == []
  {
    var both := {"conference-cvpr", "topic-3d"};
    assert !PassesFilters(Paper1(c), both) && !PassesFilters(Paper2(c), both) && !PassesFilters(Paper3(c), both)
           && !PassesFilters(Paper4(c), both) && !PassesFilters(Paper5(c), both) by {
      CvprVerdicts(c);
      Topic3dVerdicts(c);
      NarrowsBoth(Paper1(c)); NarrowsBoth(Paper2(c)); NarrowsBoth(Paper3(c)); NarrowsBoth(Paper4(c)); NarrowsBoth(Paper5(c));
    }
    CatalogSteps(c, both);
    BlankShowsFiltered(Catalog(c), both);
  }

  /** Passing both keys means passing each of them alone. */
  lemma NarrowsBoth(p: Paper)
    ensures PassesFilters(p, {"conference-cvpr", "topic-3d"}) ==>
              PassesFilters(p, {"conference-cvpr"}) && PassesFilters(p, {"topic-3d"})
  {
    assert {"conference-cvpr"} + {"topic-3d"} == {"conference-cvpr", "topic-3d"};
    assert {"topic-3d"} + {"conference-cvpr"} == {"conference-cvpr", "topic-3d"};
    assert HasCategory("topic-3d", TopicCategory) by { assert "topic-3d"[..|TopicCategory + "-"|] == TopicCategory + "-"; }
    assert HasCategory("conference-cvpr", ConferenceCategory) by {
      assert "conference-cvpr"[..|ConferenceCategory + "-"|] == ConferenceCategory + "-";
    }
    assert !CategoryActive({"conference-cvpr"}, TopicCategory) by {
      if HasCategory("conference-cvpr", TopicCategory) {
        CategoriesDisjoint("conference-cvpr", ConferenceCategory, TopicCategory);
      }
    }
    assert !CategoryActive({"topic-3d"}, ConferenceCategory) by {
      if HasCategory("topic-3d", ConferenceCategory) {
        CategoriesDisjoint("topic-3d", TopicCategory, ConferenceCategory);
      }
    }
    NewCategoryNarrows(p, {"conference-cvpr"}, "topic-3d", TopicCategory);
    NewCategoryNarrows(p, {"topic-3d"}, "conference-cvpr", ConferenceCategory);
  }

  /** Searching "transformer" finds paper 1, tagged "vision
      transformer", and lists it first. */
  lemma TransformerSearchScenario(c: CatalogDetails)
    ensures !IsBlank("transformer")
    ensures Paper1(c) in SearchResults(Catalog(c), "transformer")
    ensures SearchResults(Catalog(c), "transformer")[0] == Paper1(c)
  {
    TransformerNotBlank();
    assert MatchesQuery(Paper1(c), Lower("transformer")) by {
      TagHoldsTransformer(c);
    }
    SearchResultsSpec(Catalog(c), "transformer", Paper1(c));
    assert Catalog(c)[0] == Paper1(c);
    FilterHead(Catalog(c), (q: Paper) => MatchesQuery(q, Lower("transformer")));
  }

  lemma TransformerNotBlank()
    ensures !IsBlank("transformer")
  {
    NotBlankAt("transformer", 0);
  }

  /** A query holding a character other than white space is not blank. */
  lemma NotBlankAt(q: string, k: nat)
    requires k < |q| && !IsSpace(q[k])
    ensures !IsBlank(q)
  {
    TrimEmptyIff(q);
  }

  /** Paper 1's first tag, "vision transformer", holds "transformer". */
  lemma TagHoldsTransformer(c: CatalogDetails)
    ensures Lower("transformer") == "transformer"
    ensures Contains(Lower(Paper1(c).tags[0]), "transformer")
  {
    LowerTransformer();
    TagTextHoldsTransformer();
  }

  lemma TagTextHoldsTransformer()
    ensures Contains(Lower("vision transformer"), "transformer")
  {
    var l := Lower("vision transformer");
    assert l[7] == 't' && l[8] == 'r' && l[9] == 'a' && l[10] == 'n' && l[11] == 's' && l[12] == 'f';
    assert l[13] == 'o' && l[14] == 'r' && l[15] == 'm' && l[16] == 'e' && l[17] == 'r';
    assert l[7..18] == "transformer";
    assert OccursAt(l, "transformer", 7);
  }

  lemma LowerTransformer()
    ensures Lower("transformer") == "transformer"
  {
    var u := Lower("transformer");
    assert u[0] == 't' && u[1] == 'r' && u[2] == 'a' && u[3] == 'n' && u[4] == 's' && u[5] == 'f';
    assert u[6] == 'o' && u[7] == 'r' && u[8] == 'm' && u[9] == 'e' && u[10] == 'r';
  }

  // ---------------------------------------------------------------------
  // The filter panel over the catalog's categories
  // ---------------------------------------------------------------------

  /** The three categories have distinct ids, so the panel shows the
      options of at most one of them, whichever is expanded. */
  lemma PanelShowsOneCategory(expanded: Option<string>)
    ensures FilterBar.UniqueCategoryIds(FilterCategories)
    ensures |FilterBar.ShownCategories(FilterCategories, expanded)| <= 1
    ensures expanded == Some("year") ==> FilterBar.ShownCategories(FilterCategories, expanded) == [FilterCategories[1]]
  {
    FilterBar.AtMostOneShown(FilterCategories, expanded);
    if expanded == Some("year") {
      var shown := FilterBar.ShownCategories(FilterCategories, expanded);
      assert FilterCategories[1] in shown;
      assert |shown| == 1;
    }
  }

  /** The panel's keys for hyphenated topic options lose the text after
      the hyphen: "object-detection" is read back as "object" and
      "self-supervised" as "self", while "transformers" comes back whole. */
  lemma HyphenatedTopicKeys()
    ensures OptionSegment(FilterBar.FilterKey("topic", "object-detection")) == "object"
    ensures OptionSegment(FilterBar.FilterKey("topic", "self-supervised")) == "self"
    ensures OptionSegment(FilterBar.FilterKey("topic", "transformers")) == "transformers"
  {
    TopicOptionPieces();
    TopicKeyBeforeHyphen("object", "detection");
    TopicKeyBeforeHyphen("self", "supervised");
    TopicKeyWhole("transformers");
  }

  lemma TopicOptionPieces()
    ensures "object-detection" == "object" + "-" + "detection" && '-' !in "object"
    ensures "self-supervised" == "self" + "-" + "supervised" && '-' !in "self"
    ensures '-' !in "transformers"
  {
  }

  lemma TopicKeyWhole(a: string)
    requires '-' !in a
    ensures OptionSegment(FilterBar.FilterKey("topic", a)) == a
  {
    assert IsFilterCategory("topic");
    FilterBar.FilterKeyDecodes("topic", a);
  }

  lemma TopicKeyBeforeHyphen(a: string, b: string)
    requires '-' !in a
    ensures OptionSegment(FilterBar.FilterKey("topic", a + "-" + b)) == a
  {
    assert IsFilterCategory("topic");
    FilterBar.FilterKeyDecodes("topic", a + "-" + b);
    assert a + "-" + b == a + (['-'] + b);
    SplitAfterFree(a, b, '-');
  }

  // ---------------------------------------------------------------------
  // Tag and string facts about the catalog
  // ---------------------------------------------------------------------

  /** A character absent from a string, in both cases, is absent from its
      lower-cased form. */
  lemma AbsentFromLower(t: string, c: char)
    requires c !in t
    requires 'a' <= c <= 'z' ==> (c as int - 32) as char !in t
    ensures c !in Lower(t)
  {
    LowerHas(t, c);
  }

  /** A paper none of whose tags holds a character of the topic, in either
      case, is not mentioned by the topic. */
  lemma TagsLackChar(p: Paper, topic: string, c: char)
    requires c in topic
    requires forall i :: 0 <= i < |p.tags| ==> CaseAbsent(p.tags[i], c)
    ensures !TagMentions(p, topic)
  {
    forall i | 0 <= i < |p.tags| ensures !Contains(Lower(p.tags[i]), topic) {
      AbsentFromLower(p.tags[i], c);
      MissingCharNotContained(Lower(p.tags[i]), topic, c);
    }
  }

  /** A string without upper-case letters is its own lower-cased form. */
  lemma LowerOfLower(s: string)
    requires forall k :: 0 <= k < |s| ==> !IsUpper(s[k])
    ensures Lower(s) == s
  {
  }

  /** Paper 5 has a tag mentioning "3d". */
  lemma Paper5Mentions3d(c: CatalogDetails)
    ensures TagMentions(Paper5(c), "3d")
  {
    var t := "3D reconstruction";
    assert Contains(Lower(t), "3d") by {
      LowerSlice(t, 0, 2);
      assert t[0..2] == "3D";
      assert Lower("3D")[0] == '3' && Lower("3D")[1] == 'd';
      assert OccursAt(Lower(t), "3d", 0);
    }
    assert Paper5(c).tags[0] == t;
  }

  /** Paper 2 is tagged "object detection". */
  lemma Paper2MentionsObject(c: CatalogDetails)
    ensures TagMentions(Paper2(c), "object")
  {
    var t := "object detection";
    assert Contains(Lower(t), "object") by {
      LowerSlice(t, 0, 6);
      assert t[0..6] == "object";
      LowerObject();
      assert OccursAt(Lower(t), "object", 0);
    }
    assert Paper2(c).tags[0] == t;
  }

  /** A character is absent from a tag in both of its cases. */
  predicate CaseAbsent(t: string, c: char)
  {
    c !in t && ('a' <= c <= 'z' ==> (c as int - 32) as char !in t)
  }

  lemma ThreeTagsLack(p: Paper, c: char, t0: string, t1: string, t2: string)
    requires p.tags == [t0, t1, t2]
    requires CaseAbsent(t0, c) && CaseAbsent(t1, c) && CaseAbsent(t2, c)
    ensures forall i :: 0 <= i < |p.tags| ==> CaseAbsent(p.tags[i], c)
  {
  }

  // The tags of the papers other than 5 hold no '3', and those of the
  // papers other than 2 no 'j' in either case, so they mention neither
  // "3d" nor "object" respectively.

  lemma Paper1Lacks3d(c: CatalogDetails)
    ensures !TagMentions(Paper1(c), "3d")
  {
    assert '3' in "3d";
    Paper1TagsLackThree();
    ThreeTagsLack(Paper1(c), '3', "vision transformer", "small datasets", "transfer learning");
    TagsLackChar(Paper1(c), "3d", '3');
  }

  lemma Paper1TagsLackThree()
    ensures CaseAbsent("vision transformer", '3') && CaseAbsent("small datasets", '3')
    ensures CaseAbsent("transfer learning", '3')
  {
  }

  lemma Paper2Lacks3d(c: CatalogDetails)
    ensures !TagMentions(Paper2(c), "3d")
  {
    assert '3' in "3d";
    Paper2TagsLackThree();
    ThreeTagsLack(Paper2(c), '3', "object detection", "real-time", "sparse attention");
    TagsLackChar(Paper2(c), "3d", '3');
  }

  lemma Paper2TagsLackThree()
    ensures CaseAbsent("object detection", '3') && CaseAbsent("real-time", '3')
    ensures CaseAbsent("sparse attention", '3')
  {
  }

  lemma Paper3Lacks3d(c: CatalogDetails)
    ensures !TagMentions(Paper3(c), "3d")
  {
    assert '3' in "3d";
    Paper3TagsLackThree();
    ThreeTagsLack(Paper3(c), '3', "medical imaging", "segmentation", "self-supervised learning");
    TagsLackChar(Paper3(c), "3d", '3');
  }

  lemma Paper3TagsLackThree()
    ensures CaseAbsent("medical imaging", '3') && CaseAbsent("segmentation", '3')
    ensures CaseAbsent("self-supervised learning", '3')
  {
  }

  lemma Paper4Lacks3d(c: CatalogDetails)
    ensures !TagMentions(Paper4(c), "3d")
  {
    assert '3' in "3d";
    Paper4TagsLackThree();
    ThreeTagsLack(Paper4(c), '3', "contrastive learning", "self-supervised", "representation learning");
    TagsLackChar(Paper4(c), "3d", '3');
  }

  lemma Paper4TagsLackThree()
    ensures CaseAbsent("contrastive learning", '3') && CaseAbsent("self-supervised", '3')
    ensures CaseAbsent("representation learning", '3')
  {
  }

  lemma Paper1LacksObject(c: CatalogDetails)
    ensures !TagMentions(Paper1(c), "object")
  {
    assert 'j' in "object";
    Paper1Tag0LacksJ(); Paper1Tag1LacksJ(); Paper1Tag2LacksJ();
    ThreeTagsLack(Paper1(c), 'j', "vision transformer", "small datasets", "transfer learning");
    TagsLackChar(Paper1(c), "object", 'j');
  }

  lemma Paper1Tag0LacksJ()
    ensures CaseAbsent("vision transformer", 'j')
  {
    assert 'j' as int - 32 == 'J' as int;
  }

  lemma Paper1Tag1LacksJ()
    ensures CaseAbsent("small datasets", 'j')
  {
    assert 'j' as int - 32 == 'J' as int;
  }

  lemma Paper1Tag2LacksJ()
    ensures CaseAbsent("transfer learning", 'j')
  {
    assert 'j' as int - 32 == 'J' as int;
  }

  lemma Paper3LacksObject(c: CatalogDetails)
    ensures !TagMentions(Paper3(c), "object")
  {
    assert 'j' in "object";
    Paper3Tag0LacksJ(); Paper3Tag1LacksJ(); Paper3Tag2LacksJ();
    ThreeTagsLack(Paper3(c), 'j', "medical imaging", "segmentation", "self-supervised learning");
    TagsLackChar(Paper3(c), "object", 'j');
  }

  lemma Paper3Tag0LacksJ()
    ensures CaseAbsent("medical imaging", 'j')
  {
    assert 'j' as int - 32 == 'J' as int;
  }

  lemma Paper3Tag1LacksJ()
    ensures CaseAbsent("segmentation", 'j')
  {
    assert 'j' as int - 32 == 'J' as int;
  }

  lemma Paper3Tag2LacksJ()
    ensures CaseAbsent("self-supervised learning", 'j')
  {
    assert 'j' as int - 32 == 'J' as int;
  }

  lemma Paper4LacksObject(c: CatalogDetails)
    ensures !TagMentions(Paper4(c), "object")
  {
    assert 'j' in "object";
    Paper4Tag0LacksJ(); Paper4Tag1LacksJ(); Paper4Tag2LacksJ();
    ThreeTagsLack(Paper4(c), 'j', "contrastive learning", "self-supervised", "representation learning");
    TagsLackChar(Paper4(c), "object", 'j');
  }

  lemma Paper4Tag0LacksJ()
    ensures CaseAbsent("contrastive learning", 'j')
  {
    assert 'j' as int - 32 == 'J' as int;
  }

  lemma Paper4Tag1LacksJ()
    ensures CaseAbsent("self-supervised", 'j')
  {
    assert 'j' as int - 32 == 'J' as int;
  }

  lemma Paper4Tag2LacksJ()
    ensures CaseAbsent("representation learning", 'j')
  {
    assert 'j' as int - 32 == 'J' as int;
  }

  lemma Paper5LacksObject(c: CatalogDetails)
    ensures !TagMentions(Paper5(c), "object")
  {
    assert 'j' in "object";
    Paper5Tag0LacksJ(); Paper5Tag1LacksJ(); Paper5Tag2LacksJ();
    ThreeTagsLack(Paper5(c), 'j', "3D reconstruction", "neural implicit fields", "scene understanding");
    TagsLackChar(Paper5(c), "object", 'j');
  }

  lemma Paper5Tag0LacksJ()
    ensures CaseAbsent("3D reconstruction", 'j')
  {
    assert 'j' as int - 32 == 'J' as int;
  }

  lemma Paper5Tag1LacksJ()
    ensures CaseAbsent("neural implicit fields", 'j')
  {
    assert 'j' as int - 32 == 'J' as int;
  }

  lemma Paper5Tag2LacksJ()
    ensures CaseAbsent("scene understanding", 'j')
  {
    assert 'j' as int - 32 == 'J' as int;
  }
}
