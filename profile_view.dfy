/**
 * The profile page (`src/components/Profile.jsx`): the current user's own
 * posts, searchable by title or sub-heading and listed newest-added first.
 */
module ProfileView {
  import opened Common
  import opened Views

  /** The search predicate: the title matches, or a present sub-heading does. */
  predicate Keep(filter: string, b: Blog)
  {
    TitleMatches(b, filter) || (b.subHeading != "" && Contains(Lower(b.subHeading), filter))
  }

  /** `filteredBlogs`: the blogs the search keeps, in fetched order. */
  function FilteredBlogs(blogs: seq<Blog>, filter: string): (r: seq<Blog>)
    ensures forall b | b in r :: b in blogs && Keep(filter, b)
    ensures forall b | b in blogs && Keep(filter, b) :: b in r
  {
    Filter(blogs, (b: Blog) => Keep(filter, b))
  }

  /** An empty search keeps every blog. */
  lemma EmptyFilterKeepsAll(blogs: seq<Blog>)
    ensures FilteredBlogs(blogs, "") == blogs
  {
    forall b | b in blogs ensures Keep("", b) {
      ContainsEmpty(Lower(b.title));
    }
    FilterKeepsAll(blogs, (b: Blog) => Keep("", b));
  }

  /** `filteredBlogs.slice(0).reverse()`: the display order is the exact reverse. */
  function Displayed(blogs: seq<Blog>, filter: string): (r: seq<Blog>)
    ensures Reverse(r) == FilteredBlogs(blogs, filter)
    ensures multiset(r) == multiset(FilteredBlogs(blogs, filter))
  {
    var f := FilteredBlogs(blogs, filter);
    ReverseReverse(f);
    ReversePermutes(f);
    Reverse(f)
  }

  /**
   * The effect of the load: with no current user nothing is requested and the
   * list stays as it is; otherwise it becomes the author's posts, or [] when
   * the request throws.
   */
  function Load(current: seq<Blog>, userEmail: Option<string>, fetched: Option<seq<Blog>>): (r: seq<Blog>)
    ensures userEmail.None? ==> r == current
    ensures userEmail.Some? && fetched.None? ==> r == []
    ensures userEmail.Some? && fetched.Some? ==> r == fetched.value
  {
    if userEmail.None? then current else if fetched.None? then [] else fetched.value
  }
}
