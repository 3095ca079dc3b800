/**
 * What the React views share: the rows they receive from the backend, the
 * `Array.prototype.filter` / `reverse` / `sort` operations they apply to
 * them, and the date comparator every blog list sorts with.
 */
module Views {
  import opened Common

  /**
   * A post as `GET /posts` delivers it. `date` is an ordered key standing for
   * `new Date(blog.date)` of the stored `YYYY-MM-DD` string; `subHeading` is
   * "" when absent; `category` is None for NULL.
   */
  datatype Blog = Blog(id: string, title: string, subHeading: string, author: string, date: int, category: Option<string>)

  /** A user as `GET /users` delivers it; the flags are the 0/1 integer columns. */
  datatype UserRow = UserRow(uid: string, email: string, role: string, isDisabled: int, canManageAllBlogs: int)

  // ---------------------------------------------------------------- filter

  /** `s.filter(keep)`: the elements that pass, in their order. */
  function Filter<T>(s: seq<T>, keep: T -> bool): (r: seq<T>)
    ensures |r| <= |s|
    ensures forall x | x in r :: x in s && keep(x)
    ensures forall x | x in s && keep(x) :: x in r
  {
    if s == [] then []
    else
      assert s == [s[0]] + s[1..];
      var rest := Filter(s[1..], keep);
      if keep(s[0]) then [s[0]] + rest else rest
  }

  /** Each kept element occurs in the result as often as in the input; the others not at all. */
  lemma {:induction false} FilterCount<T>(s: seq<T>, keep: T -> bool)
    ensures forall x | x in multiset(s) ::
      multiset(Filter(s, keep))[x] == (if keep(x) then multiset(s)[x] else 0)
    ensures multiset(Filter(s, keep)) <= multiset(s)
  {
    if s != [] {
      FilterCount(s[1..], keep);
      assert s == [s[0]] + s[1..];
    }
  }

  /** Filtering is taken element by element: filtering a concatenation filters each part. */
  lemma {:induction false} FilterAppend<T>(a: seq<T>, b: seq<T>, keep: T -> bool)
    ensures Filter(a + b, keep) == Filter(a, keep) + Filter(b, keep)
  {
    if a == [] {
      assert a + b == b;
    } else {
      assert (a + b)[1..] == a[1..] + b;
      FilterAppend(a[1..], b, keep);
    }
  }

  /** When every element passes, the filter returns its input. */
  lemma {:induction false} FilterKeepsAll<T>(s: seq<T>, keep: T -> bool)
    requires forall x | x in s :: keep(x)
    ensures Filter(s, keep) == s
  {
    if s != [] {
      FilterKeepsAll(s[1..], keep);
    }
  }

  /** Two filters in a row are one filter on the conjunction. */
  lemma {:induction false} FilterFilter<T>(s: seq<T>, p: T -> bool, q: T -> bool)
    ensures Filter(Filter(s, p), q) == Filter(s, x => p(x) && q(x))
  {
    if s != [] {
      FilterFilter(s[1..], p, q);
    }
  }

  /** Filters whose predicates agree on every element give the same list. */
  lemma {:induction false} FilterSamePredicate<T>(s: seq<T>, p: T -> bool, q: T -> bool)
    requires forall x | x in s :: p(x) == q(x)
    ensures Filter(s, p) == Filter(s, q)
  {
    if s != [] {
      FilterSamePredicate(s[1..], p, q);
    }
  }

  /** `s.find(p)`: the first element that satisfies `p`, if any. */
  function Find<T(==)>(s: seq<T>, p: T -> bool): (r: Option<T>)
    ensures r.None? ==> forall i | 0 <= i < |s| :: !p(s[i])
    ensures r.Some? ==> exists i | 0 <= i < |s| :: s[i] == r.value && p(s[i]) && forall j | 0 <= j < i :: !p(s[j])
  {
    if s == [] then None
    else if p(s[0]) then Some(s[0])
    else
      var r := Find(s[1..], p);
      if r.Some? then
        var i :| 0 <= i < |s[1..]| && s[1..][i] == r.value && p(s[1..][i]) && forall j | 0 <= j < i :: !p(s[1..][j]);
        assert s[i + 1] == r.value;
        r
      else
        r
  }

  /** No element occurs twice. */
  predicate Distinct<T(==)>(s: seq<T>)
  {
    forall i, j | 0 <= i < j < |s| :: s[i] != s[j]
  }

  /** A filter that rejects every element returns []. */
  lemma FilterNone<T>(s: seq<T>, keep: T -> bool)
    requires forall x | x in s :: !keep(x)
    ensures Filter(s, keep) == []
  {
  }

  /** Filtering a list without repetitions gives one without repetitions. */
  lemma {:induction false} FilterDistinct<T>(s: seq<T>, keep: T -> bool)
    requires Distinct(s)
    ensures Distinct(Filter(s, keep))
  {
    if s != [] {
      FilterDistinct(s[1..], keep);
      assert s[0] !in s[1..];
    }
  }

  // ---------------------------------------------------------------- reverse

  /** `s.slice(0).reverse()`: a reversed copy. */
  function Reverse<T>(s: seq<T>): (r: seq<T>)
    ensures |r| == |s|
    ensures forall i | 0 <= i < |s| :: r[i] == s[|s| - 1 - i]
    ensures forall x | x in r :: x in s
    ensures forall x | x in s :: x in r
  {
    if s == [] then [] else Reverse(s[1..]) + [s[0]]
  }

  /** Reversing twice gives the original order back. */
  lemma ReverseReverse<T>(s: seq<T>)
    ensures Reverse(Reverse(s)) == s
  {
    var r := Reverse(Reverse(s));
    assert |r| == |s|;
    forall i | 0 <= i < |s| ensures r[i] == s[i] {
    }
  }

  /** Reversal keeps the elements and their multiplicities. */
  lemma {:induction false} ReversePermutes<T>(s: seq<T>)
    ensures multiset(Reverse(s)) == multiset(s)
  {
    if s != [] {
      ReversePermutes(s[1..]);
      assert s == [s[0]] + s[1..];
    }
  }

  // ---------------------------------------------------------------- blogs

  /** `blog.title.toLowerCase().includes(filter)`. */
  predicate TitleMatches(b: Blog, filter: string)
  {
    Contains(Lower(b.title), filter)
  }

  /** The predicate `b => b.id !== id`. */
  function OtherBlog(id: string): Blog -> bool
  {
    (b: Blog) => b.id != id
  }

  /** `blogs.filter(b => b.id !== id)`: the list update after a delete. */
  function RemoveBlog(blogs: seq<Blog>, id: string): (r: seq<Blog>)
    ensures forall b | b in r :: b in blogs && b.id != id
    ensures forall b | b in blogs && b.id != id :: b in r
  {
    Filter(blogs, OtherBlog(id))
  }

  /** Deleting an id no blog has leaves the list as it was. */
  lemma RemoveBlogKeepsOthers(blogs: seq<Blog>, id: string)
    requires forall b | b in blogs :: b.id != id
    ensures RemoveBlog(blogs, id) == blogs
  {
    FilterKeepsAll(blogs, OtherBlog(id));
  }

  /**
   * The delete works blog by blog, so the kept blogs keep their order: a
   * concatenation loses its blogs with the id from each part, and a single
   * blog goes exactly when it has the id.
   */
  lemma RemoveBlogAppend(a: seq<Blog>, b: seq<Blog>, id: string)
    ensures RemoveBlog(a + b, id) == RemoveBlog(a, id) + RemoveBlog(b, id)
  {
    FilterAppend(a, b, OtherBlog(id));
  }

  lemma RemoveBlogSingle(x: Blog, id: string)
    ensures RemoveBlog([x], id) == (if x.id == id then [] else [x])
  {
  }

  /** Every other blog stays as often as it was listed; the ones with the id go entirely. */
  lemma RemoveBlogCount(blogs: seq<Blog>, id: string)
    ensures forall b | b in multiset(blogs) ::
      multiset(RemoveBlog(blogs, id))[b] == (if b.id != id then multiset(blogs)[b] else 0)
    ensures multiset(RemoveBlog(blogs, id)) <= multiset(blogs)
  {
    FilterCount(blogs, OtherBlog(id));
  }

  /**
   * `handleDelete` of the admin console and of the profile page: after a
   * confirmed, successful delete each other blog stays as often as it was
   * listed and the blogs with the id go; otherwise the list is unchanged.
   */
  function AfterDelete(blogs: seq<Blog>, id: string, confirmed: bool, ok: bool): (r: seq<Blog>)
    ensures !(confirmed && ok) ==> r == blogs
    ensures confirmed && ok ==> forall b | b in r :: b in blogs && b.id != id
    ensures confirmed && ok ==> forall b | b in blogs && b.id != id :: b in r
    ensures confirmed && ok ==> forall b | b in multiset(blogs) ::
      multiset(r)[b] == (if b.id != id then multiset(blogs)[b] else 0)
  {
    if confirmed && ok then RemoveBlogCount(blogs, id); RemoveBlog(blogs, id) else blogs
  }

  /** The delete keeps the order of the list: it acts on each part of a concatenation. */
  lemma AfterDeleteKeepsOrder(a: seq<Blog>, b: seq<Blog>, id: string, confirmed: bool, ok: bool)
    ensures AfterDelete(a + b, id, confirmed, ok) == AfterDelete(a, id, confirmed, ok) + AfterDelete(b, id, confirmed, ok)
  {
    if confirmed && ok {
      RemoveBlogAppend(a, b, id);
    }
  }

  // ---------------------------------------------------------------- sort

  /**
   * The comparator of every blog list:
   * `newest` is `dateB - dateA`, `oldest` is `dateA - dateB`, anything else 0.
   */
  function Compare(sortOption: string, a: Blog, b: Blog): int
  {
    if sortOption == "newest" then b.date - a.date
    else if sortOption == "oldest" then a.date - b.date
    else 0
  }

  /** Places `x`, which came before every element of `r`, ahead of the first element it does not sort after. */
  function Insert(sortOption: string, x: Blog, r: seq<Blog>): (q: seq<Blog>)
    ensures multiset(q) == multiset(r) + multiset{x}
    ensures |q| == |r| + 1
  {
    if r == [] then [x]
    else if Compare(sortOption, x, r[0]) <= 0 then [x] + r
    else
      assert r == [r[0]] + r[1..];
      [r[0]] + Insert(sortOption, x, r[1..])
  }

  /**
   * `[...blogs].sort(compare)`. ECMAScript requires `sort` to be stable, and
   * this insertion sort is: an element is never moved past one that compares
   * equal to it.
   */
  function Sort(sortOption: string, s: seq<Blog>): (r: seq<Blog>)
    ensures multiset(r) == multiset(s)
    ensures |r| == |s|
  {
    if s == [] then []
    else
      assert s == [s[0]] + s[1..];
      Insert(sortOption, s[0], Sort(sortOption, s[1..]))
  }

  /** No pair is out of order under the comparator. */
  ghost predicate SortedBy(sortOption: string, r: seq<Blog>)
  {
    forall i, j | 0 <= i < j < |r| :: Compare(sortOption, r[i], r[j]) <= 0
  }

  ghost predicate NewestFirst(r: seq<Blog>)
  {
    forall i, j | 0 <= i < j < |r| :: r[i].date >= r[j].date
  }

  ghost predicate OldestFirst(r: seq<Blog>)
  {
    forall i, j | 0 <= i < j < |r| :: r[i].date <= r[j].date
  }

  lemma {:induction false} InsertSorted(sortOption: string, x: Blog, r: seq<Blog>)
    requires sortOption == "newest" || sortOption == "oldest"
    requires SortedBy(sortOption, r)
    ensures SortedBy(sortOption, Insert(sortOption, x, r))
  {
    if r != [] && Compare(sortOption, x, r[0]) > 0 {
      InsertSorted(sortOption, x, r[1..]);
      var tail := Insert(sortOption, x, r[1..]);
      assert Insert(sortOption, x, r) == [r[0]] + tail;
      InsertElements(sortOption, x, r[1..]);
      forall y | y in tail ensures Compare(sortOption, r[0], y) <= 0 {
        if y != x {
          var k :| 0 <= k < |r[1..]| && r[1..][k] == y;
          assert r[k + 1] == y;
        }
      }
    }
  }

  /** Each element of an insertion is the inserted one or came from the list. */
  lemma InsertElements(sortOption: string, x: Blog, r: seq<Blog>)
    ensures forall y | y in Insert(sortOption, x, r) :: y == x || y in r
  {
    var q := Insert(sortOption, x, r);
    forall y | y in q ensures y == x || y in r {
      assert y in multiset(q);
    }
  }

  lemma {:induction false} SortSorted(sortOption: string, s: seq<Blog>)
    requires sortOption == "newest" || sortOption == "oldest"
    ensures SortedBy(sortOption, Sort(sortOption, s))
  {
    if s != [] {
      SortSorted(sortOption, s[1..]);
      InsertSorted(sortOption, s[0], Sort(sortOption, s[1..]));
    }
  }

  /** "newest" yields non-increasing dates. */
  lemma SortNewest(s: seq<Blog>)
    ensures NewestFirst(Sort("newest", s))
  {
    SortSorted("newest", s);
  }

  /** "oldest" yields non-decreasing dates. */
  lemma SortOldest(s: seq<Blog>)
    ensures OldestFirst(Sort("oldest", s))
  {
    SortSorted("oldest", s);
  }

  /** Any other option makes every comparison 0, and the stable sort keeps the order. */
  lemma {:induction false} SortOtherKeepsOrder(sortOption: string, s: seq<Blog>)
    requires sortOption != "newest" && sortOption != "oldest"
    ensures Sort(sortOption, s) == s
  {
    if s != [] {
      SortOtherKeepsOrder(sortOption, s[1..]);
      assert s == [s[0]] + s[1..];
    }
  }

  /**
   * The date-sorted list shared by the views: the comparator applied to a
   * copy, so the caller's list is untouched (values here are immutable).
   */
  function SortByDate(sortOption: string, blogs: seq<Blog>): (r: seq<Blog>)
    ensures multiset(r) == multiset(blogs)
    ensures forall b | b in r :: b in blogs
    ensures sortOption == "newest" ==> NewestFirst(r)
    ensures sortOption == "oldest" ==> OldestFirst(r)
    ensures sortOption != "newest" && sortOption != "oldest" ==> r == blogs
  {
    var r := Sort(sortOption, blogs);
    assert forall b | b in r :: b in multiset(r);
    if sortOption == "newest" then
      SortNewest(blogs);
      r
    else if sortOption == "oldest" then
      SortOldest(blogs);
      r
    else
      SortOtherKeepsOrder(sortOption, blogs);
      r
  }
}
