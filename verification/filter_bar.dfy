/** The filter panel (src/components/FilterBar.tsx): an accordion that
    shows the options of at most one category, and checkboxes that report
    compound filter keys to the home page. */
module FilterBar {
  import opened Types
  import opened Strings
  import opened Seqs
  import Query

  /** The key a checkbox reports: `${category.id}-${option.id}`
      (FilterBar.tsx:40-42). */
  function FilterKey(categoryId: string, optionId: string): string
  {
    categoryId + "-" + optionId
  }

  /** A call `onFilterChange(filterId, value)`. */
  datatype FilterChange = FilterChange(filterId: string, isActive: bool)

  /** The call made when the checkbox of `option` in `category` changes to
      `checked` (FilterBar.tsx:42). */
  function CheckboxChange(category: FilterCategory, option: FilterOption, checked: bool): (c: FilterChange)
    ensures c.isActive == checked
    ensures c.filterId == FilterKey(category.id, option.id)
    ensures StartsWith(c.filterId, category.id + "-")
  {
    var key := FilterKey(category.id, option.id);
    assert key[..|category.id + "-"|] == category.id + "-";
    FilterChange(key, checked)
  }

  /** No two categories share an id. */
  predicate UniqueCategoryIds(categories: seq<FilterCategory>)
  {
    forall i, j :: 0 <= i < j < |categories| ==> categories[i].id != categories[j].id
  }

  /** The categories whose options are rendered (FilterBar.tsx:34). */
  function ShownCategories(categories: seq<FilterCategory>, expanded: Option<string>): seq<FilterCategory>
  {
    Filter(categories, (c: FilterCategory) => expanded == Some(c.id))
  }

  class FilterBarState {
    const categories: seq<FilterCategory>
    /** The id of the open category, None when all are collapsed
        (FilterBar.tsx:11). */
    var expandedCategory: Option<string>

    constructor (categories: seq<FilterCategory>)
      ensures this.categories == categories && expandedCategory.None?
    {
      this.categories := categories;
      expandedCategory := None;
    }

    /** `toggleCategory` (FilterBar.tsx:13-15): clicking the open category
        closes it; clicking any other opens it and closes the rest. */
    method ToggleCategory(categoryId: string)
      modifies this
      ensures old(expandedCategory) == Some(categoryId) ==> expandedCategory.None?
      ensures old(expandedCategory) != Some(categoryId) ==> expandedCategory == Some(categoryId)
    {
      if expandedCategory == Some(categoryId) {
        expandedCategory := None;
      } else {
        expandedCategory := Some(categoryId);
      }
    }

    function Shown(): (r: seq<FilterCategory>)
      reads this
      ensures forall i :: 0 <= i < |r| ==> expandedCategory == Some(r[i].id)
    {
      ShownCategories(categories, expandedCategory)
    }
  }

  /** With distinct category ids at most one category is open, and it is
      the one whose id is expanded. */
  lemma {:induction false} AtMostOneShown(categories: seq<FilterCategory>, expanded: Option<string>)
    requires UniqueCategoryIds(categories)
    ensures |ShownCategories(categories, expanded)| <= 1
    ensures forall c :: c in ShownCategories(categories, expanded) <==> c in categories && expanded == Some(c.id)
  {
    var f := (c: FilterCategory) => expanded == Some(c.id);
    forall c ensures c in ShownCategories(categories, expanded) <==> c in categories && expanded == Some(c.id) {
      FilterMembership(categories, f, c);
    }
    if categories != [] {
      var rest := categories[1..];
      assert UniqueCategoryIds(rest);
      AtMostOneShown(rest, expanded);
      FilterHead(categories, f);
      if f(categories[0]) {
        forall k | 0 <= k < |rest| ensures !f(rest[k]) {
          assert rest[k] == categories[k + 1];
        }
        FilterNonePass(rest, f);
      }
    }
  }

  /** A key built by the panel for one of the home page's categories is
      recognised as that category's key; its second segment recovers the
      option id exactly when that id has no hyphen, and is otherwise the
      option id's text before its first hyphen. */
  lemma FilterKeyDecodes(category: string, optionId: string)
    requires Query.IsFilterCategory(category)
    ensures Query.HasCategory(FilterKey(category, optionId), category)
    ensures '-' in FilterKey(category, optionId)
    ensures Query.OptionSegment(FilterKey(category, optionId)) == Split(optionId, '-')[0]
    ensures Query.OptionSegment(FilterKey(category, optionId)) == optionId <==> '-' !in optionId
  {
    NoHyphenInCategory(category);
    Query.SegmentOfKey(category, optionId);
  }

  lemma NoHyphenInCategory(category: string)
    requires Query.IsFilterCategory(category)
    ensures '-' !in category
  {
  }
}
