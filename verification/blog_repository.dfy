/** `BlogRepository`: the repository of blogs keyed by serial number, with the
    filters and orders the views and tests ask for. */
module BlogRepositories {
  import opened Wrappers
  import opened BlogCategories
  import opened Blogs
  import Sorting
  import R = Repositories

  type BlogRepository = R.Repository<BlogId, Blog>

  function BlogKey(b: Blog): BlogId {
    b.id
  }

  function NewRepository(): (r: BlogRepository)
    ensures R.Valid(r) && r.key == BlogKey && r.rows == []
  {
    R.Empty(BlogKey)
  }

  /** `get_blog(blog_id)`: the blog with that serial number, or nothing. */
  function GetBlog(r: BlogRepository, id: BlogId): (o: Option<Blog>)
    requires r.key == BlogKey
    ensures o.Some? ==> o.value in r.rows && o.value.id == id
    ensures o.None? <==> forall b :: b in r.rows ==> b.id != id
  {
    R.Get(r, id)
  }

  /** `save(blog)`. */
  function SaveBlog(r: BlogRepository, b: Blog): (r': BlogRepository)
    requires r.key == BlogKey
    ensures r'.key == BlogKey
    ensures GetBlog(r', b.id) == Some(b)
    ensures forall id :: id != b.id ==> GetBlog(r', id) == GetBlog(r, id)
    ensures |r'.rows| == |r.rows| + (if GetBlog(r, b.id).None? then 1 else 0)
  {
    R.GetAfterSave(r, b);
    forall id | id != b.id ensures R.Get(R.Save(r, b), id) == R.Get(r, id) {
      R.SaveKeepsOthers(r, b, id);
    }
    R.Save(r, b)
  }

  /** `get_all_blogs(filter_=..., order_by=...)`. */
  function GetAllBlogs(r: BlogRepository, filter: Option<Blog -> bool>,
                       order: Option<(Blog, Blog) -> bool>): (s: seq<Blog>)
    ensures forall b :: b in s <==> b in r.rows && (filter.None? || filter.value(b))
    ensures filter.None? ==> |s| == |r.rows|
    ensures filter.None? ==> multiset(s) == multiset(r.rows)
    ensures filter.Some? ==> multiset(s) == multiset(Sorting.Filter(r.rows, filter.value))
    ensures order.Some? && Sorting.IsTotalPreorder(order.value) ==> Sorting.Sorted(s, order.value)
    ensures order.None? ==> s == (if filter.Some? then Sorting.Filter(r.rows, filter.value) else r.rows)
  {
    var s := R.GetAll(r, filter, order);
    R.GetAllSortedWhenOrdered(r, filter, order);
    forall b ensures b in s <==> b in r.rows && (filter.None? || filter.value(b)) {
      R.GetAllMembers(r, filter, order, b);
    }
    assert filter.None? ==> |s| == |multiset(s)| == |multiset(r.rows)| == |r.rows|;
    s
  }

  /** The filter `{"sno__gte": k}`. */
  function SnoAtLeast(k: BlogId): Blog -> bool {
    (b: Blog) => b.id >= k
  }

  /** The filter `{"category": value}`. */
  function CategoryIs(value: string): Blog -> bool {
    (b: Blog) => Value(b.category) == value
  }

  /** The order `"-sno"`. */
  function BySnoDescending(): (Blog, Blog) -> bool {
    (a: Blog, b: Blog) => a.id >= b.id
  }

  /** The order `"-time"`. */
  function ByTimeDescending(): (Blog, Blog) -> bool {
    (a: Blog, b: Blog) => a.createdAt >= b.createdAt
  }

  lemma OrdersAreSortKeys()
    ensures Sorting.IsTotalPreorder(BySnoDescending())
    ensures Sorting.IsTotalPreorder(ByTimeDescending())
  {
  }

  /** Blogs numbered `base`, `base + 1`, ... in order. */
  predicate Consecutive(blogs: seq<Blog>, base: int) {
    forall i :: 0 <= i < |blogs| ==> blogs[i].id == base + i
  }

  /** On consecutively numbered blogs, "serial number at least `k`" keeps a suffix. */
  lemma {:induction false} SnoAtLeastIsSuffix(blogs: seq<Blog>, base: int, k: int)
    requires Consecutive(blogs, base) && base <= k <= base + |blogs|
    ensures Sorting.Filter(blogs, SnoAtLeast(k)) == blogs[k - base..]
    decreases |blogs|
  {
    if |blogs| > 0 {
      if k == base {
        Sorting.FilterAll(blogs, SnoAtLeast(k));
      } else {
        SnoAtLeastIsSuffix(blogs[1..], base + 1, k);
      }
    }
  }

  /** Saving blogs numbered 0 to n - 1 into a fresh repository: nothing can be
      read before, and afterwards all blogs come back in order, `"-sno"` puts
      the last one first, and `{"sno__gte": k}` returns the n - k blogs from k on. */
  lemma SaveNumberedBlogs(blogs: seq<Blog>, k: int)
    requires Consecutive(blogs, 0) && 0 <= k <= |blogs|
    ensures forall id :: GetBlog(NewRepository(), id).None?
    ensures var r := R.SaveAll(NewRepository(), blogs);
      R.GetAll(r, None, None) == blogs
      && R.GetAll(r, Some(SnoAtLeast(k)), None) == blogs[k..]
      && |GetAllBlogs(r, Some(SnoAtLeast(k)), None)| == |blogs| - k
  {
    SaveConsecutive(blogs);
    SnoAtLeastIsSuffix(blogs, 0, k);
  }

  /** Blogs numbered from 0 have distinct serial numbers, so saving them into
      a fresh repository stores them in order. */
  lemma SaveConsecutive(blogs: seq<Blog>)
    requires Consecutive(blogs, 0)
    ensures R.SaveAll(NewRepository(), blogs).rows == blogs
  {
    R.SaveAllFresh(NewRepository(), blogs);
  }

  /** The head of the `"-sno"` listing has the greatest serial number. */
  lemma SnoDescendingHead(r: BlogRepository, x: Blog)
    requires x in r.rows
    ensures var s := R.GetAll(r, None, Some(BySnoDescending()));
      |s| == |r.rows| && s[0] in r.rows && s[0].id >= x.id
  {
    OrdersAreSortKeys();
    R.GetAllHead(r, BySnoDescending(), x);
  }

  /** After saving blogs numbered 0 to n - 1, ordering by `"-sno"` puts blog
      n - 1 first. */
  lemma NewestSnoFirst(blogs: seq<Blog>)
    requires Consecutive(blogs, 0) && |blogs| > 0
    ensures var s := GetAllBlogs(R.SaveAll(NewRepository(), blogs), None, Some(BySnoDescending()));
      |s| == |blogs| && s[0].id == |blogs| - 1
  {
    var r := R.SaveAll(NewRepository(), blogs);
    SaveConsecutive(blogs);
    SnoDescendingHead(r, blogs[|blogs| - 1]);
    var s := R.GetAll(r, None, Some(BySnoDescending()));
    var i :| 0 <= i < |blogs| && blogs[i] == s[0];
  }
}
