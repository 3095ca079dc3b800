/**
 * The public article page (`Article.jsx` at the repository root): a title
 * search combined with an optional category or author selection taken from
 * the statistics side panel, then a date sort.
 */
module ArticlePage {
  import opened Common
  import opened Views
  import ArticleList

  /**
   * The side-panel selection. None stands for `null`; a selection narrows the
   * list only when it is truthy, so `Some("")` narrows nothing either.
   */
  datatype Selection = Selection(category: Option<string>, author: Option<string>)

  /** The initial state: nothing selected. */
  const NoSelection := Selection(None, None)

  predicate Active(name: Option<string>)
  {
    name.Some? && name.value != ""
  }

  /** The filter predicate of `sortAndFilterBlogs`. */
  predicate Keep(filter: string, sel: Selection, b: Blog)
  {
    TitleMatches(b, filter)
    && (!Active(sel.category) || b.category == sel.category)
    && (!Active(sel.author) || Some(b.author) == sel.author)
  }

  /**
   * `sortAndFilterBlogs`: the kept blogs, each as often as in the input, in
   * date order for "newest"/"oldest" and in input order for any other option.
   */
  function SortAndFilter(blogs: seq<Blog>, filter: string, sortOption: string, sel: Selection): (r: seq<Blog>)
    ensures blogs == [] ==> r == []
    ensures forall b | b in r :: b in blogs && Keep(filter, sel, b)
    ensures forall b | b in multiset(blogs) ::
      multiset(r)[b] == (if Keep(filter, sel, b) then multiset(blogs)[b] else 0)
    ensures sortOption == "newest" ==> NewestFirst(r)
    ensures sortOption == "oldest" ==> OldestFirst(r)
    ensures sortOption != "newest" && sortOption != "oldest" ==>
      r == Filter(blogs, (b: Blog) => Keep(filter, sel, b))
  {
    if blogs == [] then []
    else
      FilterCount(blogs, (b: Blog) => Keep(filter, sel, b));
      SortByDate(sortOption, Filter(blogs, (b: Blog) => Keep(filter, sel, b)))
  }

  /**
   * `handleCategoryClick`: clicking the selected category clears it, any other
   * click selects the clicked one; the author selection is cleared either way.
   */
  function CategoryClick(sel: Selection, clicked: Option<string>): (r: Selection)
    ensures r.author == None
    ensures sel.category == clicked ==> r.category == None
    ensures sel.category != clicked ==> r.category == clicked
  {
    Selection(if sel.category == clicked then None else clicked, None)
  }

  /** `handleAuthorClick`: the mirror image, clearing the category. */
  function AuthorClick(sel: Selection, clicked: Option<string>): (r: Selection)
    ensures r.category == None
    ensures sel.author == clicked ==> r.author == None
    ensures sel.author != clicked ==> r.author == clicked
  {
    Selection(None, if sel.author == clicked then None else clicked)
  }

  /** Whatever clicks happen, at most one of category and author is selected. */
  lemma ClickSelectsAtMostOne(sel: Selection, clicked: Option<string>, byCategory: bool)
    ensures var r := if byCategory then CategoryClick(sel, clicked) else AuthorClick(sel, clicked);
      r.category == None || r.author == None
  {
  }

  /** Clicking a category twice in a row, starting from anything else, ends with no selection at all. */
  lemma CategoryClickTwiceClears(sel: Selection, clicked: Option<string>)
    requires sel.category != clicked
    ensures CategoryClick(CategoryClick(sel, clicked), clicked) == NoSelection
  {
  }

  /**
   * After a click that selects a category, the page lists exactly the blogs
   * of that category whose title matches, and no author narrows it.
   */
  lemma CategoryClickShowsCategory(blogs: seq<Blog>, filter: string, sortOption: string, sel: Selection, name: string)
    requires name != "" && sel.category != Some(name)
    ensures var r := SortAndFilter(blogs, filter, sortOption, CategoryClick(sel, Some(name)));
      (forall b | b in r :: b.category == Some(name)) &&
      (forall b | b in blogs && b.category == Some(name) && TitleMatches(b, filter) :: b in r)
  {
    var r := SortAndFilter(blogs, filter, sortOption, CategoryClick(sel, Some(name)));
    forall b | b in blogs && b.category == Some(name) && TitleMatches(b, filter)
      ensures b in r
    {
      assert b in multiset(blogs);
      assert Keep(filter, CategoryClick(sel, Some(name)), b);
    }
  }

  /** With nothing selected the page shows what the article list shows. */
  lemma {:induction false} NoSelectionIsArticleList(blogs: seq<Blog>, filter: string, sortOption: string)
    ensures SortAndFilter(blogs, filter, sortOption, NoSelection) == ArticleList.SortAndFilter(blogs, filter, sortOption)
  {
    FilterSamePredicate(blogs, (b: Blog) => Keep(filter, NoSelection, b), (b: Blog) => TitleMatches(b, filter));
  }
}
