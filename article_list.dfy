/**
 * The article list component (`src/components/Article.jsx`): a title search
 * followed by a date sort of a copy of the fetched list.
 */
module ArticleList {
  import opened Common
  import opened Views

  /**
   * `sortAndFilterBlogs`: the blogs whose lower-cased title includes the
   * search term, each as often as in the input, in date order for
   * "newest"/"oldest" and in input order for any other option.
   */
  function SortAndFilter(blogs: seq<Blog>, filter: string, sortOption: string): (r: seq<Blog>)
    ensures blogs == [] ==> r == []
    ensures forall b | b in r :: b in blogs && TitleMatches(b, filter)
    ensures forall b | b in multiset(blogs) ::
      multiset(r)[b] == (if TitleMatches(b, filter) then multiset(blogs)[b] else 0)
    ensures sortOption == "newest" ==> NewestFirst(r)
    ensures sortOption == "oldest" ==> OldestFirst(r)
    ensures sortOption != "newest" && sortOption != "oldest" ==>
      r == Filter(blogs, (b: Blog) => TitleMatches(b, filter))
  {
    if blogs == [] then []
    else
      FilterCount(blogs, (b: Blog) => TitleMatches(b, filter));
      SortByDate(sortOption, Filter(blogs, (b: Blog) => TitleMatches(b, filter)))
  }

  /** An empty search keeps every blog: the result is a permutation of the input. */
  lemma EmptyFilterKeepsAll(blogs: seq<Blog>, sortOption: string)
    ensures multiset(SortAndFilter(blogs, "", sortOption)) == multiset(blogs)
  {
    forall b | b in blogs ensures TitleMatches(b, "") {
      ContainsEmpty(Lower(b.title));
    }
    FilterKeepsAll(blogs, (b: Blog) => TitleMatches(b, ""));
  }
}
