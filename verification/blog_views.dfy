/** The list-building rules of the blog pages: the search results, the list of
    categories and the posts of one category. Requests, pagination and
    rendering are not part of the model; each view yields what it hands to
    its template. */
module BlogViews {
  import Text
  import Sorting
  import opened Wrappers
  import opened BlogCategories
  import opened Blogs
  import opened BlogRepositories
  import Repositories

  // ---------------------------------------------------------------------------
  // Search
  // ---------------------------------------------------------------------------

  const NoQueryMessage := "No query provided."
  const NoResultsMessage := "Sorry, no results found for your search query."

  /** The sort key `created_at`, ascending. */
  function ByTimeAscending(): (Blog, Blog) -> bool {
    (a: Blog, b: Blog) => a.createdAt <= b.createdAt
  }

  /** `blog.contains_word(word)`, with its default case-insensitive search. */
  function Matches(word: string): Blog -> bool {
    (b: Blog) => ContainsWord(b, word, false)
  }

  /** The block one query word contributes: the matching blogs, oldest first,
      blogs of equal time in listing order. */
  function Block(blogs: seq<Blog>, word: string): seq<Blog> {
    Sorting.Sort(Sorting.Filter(blogs, Matches(word)), ByTimeAscending())
  }

  /** A blog is in a word's block exactly when it is listed and holds the word,
      and the block has one entry per match. */
  lemma BlockMembers(blogs: seq<Blog>, word: string)
    ensures forall x :: x in Block(blogs, word) <==> x in blogs && ContainsWord(x, word, false)
    ensures |Block(blogs, word)| == Sorting.Count(blogs, Matches(word))
  {
    var matching := Sorting.Filter(blogs, Matches(word));
    var r := Block(blogs, word);
    forall x ensures x in r <==> x in matching {
      assert x in r <==> x in multiset(r);
      assert x in matching <==> x in multiset(matching);
    }
    Sorting.FilterLength(blogs, Matches(word));
  }

  /** A block is sorted by time, and blogs of equal time keep their listing
      order. */
  lemma BlockSortedStable(blogs: seq<Blog>, word: string, x: Blog)
    ensures Sorting.Sorted(Block(blogs, word), ByTimeAscending())
    ensures Sorting.RankClass(Block(blogs, word), ByTimeAscending(), x)
         == Sorting.RankClass(Sorting.Filter(blogs, Matches(word)), ByTimeAscending(), x)
  {
    var matching := Sorting.Filter(blogs, Matches(word));
    Sorting.SortSorted(matching, ByTimeAscending());
    Sorting.SortStable(matching, ByTimeAscending(), x);
  }

  /** The reference reading of the search: the blocks of the words, in query
      order, one after the other. */
  function Results(blogs: seq<Blog>, words: seq<string>): seq<Blog>
    decreases |words|
  {
    if |words| == 0 then []
    else Results(blogs, words[..|words| - 1]) + Block(blogs, words[|words| - 1])
  }

  /** The number of matches, summed over the words. */
  function TotalCount(blogs: seq<Blog>, words: seq<string>): nat
    decreases |words|
  {
    if |words| == 0 then 0
    else TotalCount(blogs, words[..|words| - 1]) + Sorting.Count(blogs, Matches(words[|words| - 1]))
  }

  /** `search`: no query gives no results and the no-query message; otherwise
      each word of the query adds its block, and the message says whether
      anything was found. */
  method Search(r: BlogRepository, query: Option<string>) returns (results: seq<Blog>, message: string)
    ensures query.None? ==> results == [] && message == NoQueryMessage
    ensures query.Some? ==> results == Results(GetAllBlogs(r, None, None), Text.Words(query.value))
    ensures query.Some? ==> (message == "" <==> |results| > 0)
    ensures query.Some? && |results| == 0 ==> message == NoResultsMessage
  {
    if query.None? {
      return [], NoQueryMessage;
    }
    results := CollectBlocks(GetAllBlogs(r, None, None), Text.Words(query.value));
    message := if |results| > 0 then "" else NoResultsMessage;
  }

  /** The loop of `search`: for each word, the matching blogs, sorted by time,
      are appended when there are any. */
  method CollectBlocks(blogs: seq<Blog>, words: seq<string>) returns (results: seq<Blog>)
    ensures results == Results(blogs, words)
  {
    results := [];
    var i := 0;
    while i < |words|
      invariant 0 <= i <= |words|
      invariant results == Results(blogs, words[..i])
    {
      ResultsStep(blogs, words, i);
      results := ExtendWithMatches(results, blogs, words[i]);
      i := i + 1;
    }
    assert words[..|words|] == words;
  }

  /** One turn of the loop: the blogs holding `word`, when there are any, are
      sorted by time and appended. */
  method ExtendWithMatches(results: seq<Blog>, blogs: seq<Blog>, word: string) returns (r: seq<Blog>)
    ensures r == results + Block(blogs, word)
  {
    var matching := Sorting.Filter(blogs, Matches(word));
    BlockOfMatching(blogs, word, matching);
    r := results;
    if |matching| > 0 {
      matching := Sorting.Sort(matching, ByTimeAscending());
      r := r + matching;
    }
  }

  lemma ResultsStep(blogs: seq<Blog>, words: seq<string>, i: nat)
    requires i < |words|
    ensures Results(blogs, words[..i + 1]) == Results(blogs, words[..i]) + Block(blogs, words[i])
  {
    assert words[..i + 1][..i] == words[..i];
  }

  /** The block of a word is its sorted matches, and nothing when none match. */
  lemma BlockOfMatching(blogs: seq<Blog>, word: string, matching: seq<Blog>)
    requires matching == Sorting.Filter(blogs, Matches(word))
    ensures Block(blogs, word) == Sorting.Sort(matching, ByTimeAscending())
    ensures |matching| == 0 ==> Block(blogs, word) == []
  {
  }

  /** Nothing is deduplicated: the results count every match of every word. */
  lemma {:induction false} ResultsLength(blogs: seq<Blog>, words: seq<string>)
    ensures |Results(blogs, words)| == TotalCount(blogs, words)
    decreases |words|
  {
    if |words| > 0 {
      ResultsLength(blogs, words[..|words| - 1]);
      BlockMembers(blogs, words[|words| - 1]);
    }
  }

  /** Some word of `words` is found in `x`. */
  predicate FoundIn(x: Blog, words: seq<string>) {
    exists k :: 0 <= k < |words| && ContainsWord(x, words[k], false)
  }

  lemma FoundInSnoc(x: Blog, words: seq<string>)
    requires |words| > 0
    ensures FoundIn(x, words) <==> FoundIn(x, words[..|words| - 1]) || ContainsWord(x, words[|words| - 1], false)
  {
    var init := words[..|words| - 1];
    if FoundIn(x, words) {
      var k :| 0 <= k < |words| && ContainsWord(x, words[k], false);
      if k < |init| {
        assert init[k] == words[k];
      }
    }
    if FoundIn(x, init) {
      var k :| 0 <= k < |init| && ContainsWord(x, init[k], false);
      assert words[k] == init[k];
    }
  }

  /** A blog is among the results exactly when it is listed and some word of
      the query is found in it. */
  lemma {:induction false} ResultsMembers(blogs: seq<Blog>, words: seq<string>, x: Blog)
    ensures x in Results(blogs, words) <==> x in blogs && FoundIn(x, words)
    decreases |words|
  {
    if |words| > 0 {
      ResultsMembers(blogs, words[..|words| - 1], x);
      BlockMembers(blogs, words[|words| - 1]);
      FoundInSnoc(x, words);
    }
  }

  /** The results of a query are the results of its first words followed by
      the block of the last one. */
  lemma ResultsOfMoreWords(blogs: seq<Blog>, words: seq<string>, word: string)
    ensures Results(blogs, words + [word]) == Results(blogs, words) + Block(blogs, word)
  {
    assert (words + [word])[..|words|] == words;
  }

  // ---------------------------------------------------------------------------
  // Categories
  // ---------------------------------------------------------------------------

  /** The value of every listed blog's category. */
  function CategoryValues(blogs: seq<Blog>): (r: seq<string>)
    ensures |r| == |blogs|
    ensures forall v :: v in r <==> exists b :: b in blogs && Value(b.category) == v
  {
    var r := seq(|blogs|, i requires 0 <= i < |blogs| => Value(blogs[i].category));
    forall b | b in blogs ensures Value(b.category) in r {
      var i :| 0 <= i < |blogs| && blogs[i] == b;
      assert r[i] == Value(b.category);
    }
    forall v | v in r ensures exists b :: b in blogs && Value(b.category) == v {
      var i :| 0 <= i < |r| && r[i] == v;
      assert blogs[i] in blogs;
    }
    r
  }

  /** `categories`: the set of category values of the stored blogs, sorted. */
  function Categories(r: BlogRepository): (cs: seq<string>)
    ensures forall v :: v in cs <==> exists b :: b in r.rows && Value(b.category) == v
    ensures Sorting.NoDuplicates(cs)
    ensures Sorting.Sorted(cs, Sorting.StrLe)
  {
    var d := Sorting.Distinct(CategoryValues(GetAllBlogs(r, None, None)));
    SortDistinct(d);
    Sorting.Sort(d, Sorting.StrLe)
  }

  /** Sorting a list in which every value occurs at most once keeps its
      values and adds no duplicate. */
  lemma SortDistinct(d: seq<string>)
    requires forall x :: multiset(d)[x] <= 1
    ensures var cs := Sorting.Sort(d, Sorting.StrLe);
      (forall v :: v in cs <==> v in d)
      && Sorting.NoDuplicates(cs)
      && Sorting.Sorted(cs, Sorting.StrLe)
  {
    var cs := Sorting.Sort(d, Sorting.StrLe);
    forall v ensures v in cs <==> v in d {
      assert v in cs <==> v in multiset(cs);
      assert v in d <==> v in multiset(d);
    }
    forall i, j | 0 <= i < j < |cs| ensures cs[i] != cs[j] {
      if cs[i] == cs[j] {
        Sorting.CountedTwice(cs, i, j);
        assert false;
      }
    }
    Sorting.StrLeIsTotalPreorder();
    Sorting.SortSorted(d, Sorting.StrLe);
  }

  /** A sorted list without duplicates is determined by its elements, so the
      categories do not depend on the order in which the set is visited. */
  lemma {:induction false} SortedDistinctUnique(a: seq<string>, b: seq<string>)
    requires Sorting.Sorted(a, Sorting.StrLe) && Sorting.NoDuplicates(a)
    requires Sorting.Sorted(b, Sorting.StrLe) && Sorting.NoDuplicates(b)
    requires forall x :: x in a <==> x in b
    ensures a == b
    decreases |a|
  {
    if |a| == 0 {
      if |b| > 0 {
        HeadIsMember(b);
      }
    } else {
      assert a[0] in a && b[0] in b;
      var k :| 0 <= k < |a| && a[k] == b[0];
      var m :| 0 <= m < |b| && b[m] == a[0];
      if k > 0 && m > 0 {
        assert Sorting.StrLe(a[0], a[k]) && Sorting.StrLe(b[0], b[m]);
        Sorting.StrLeAntisymmetric(a[0], b[0]);
      }
      forall x ensures x in a[1..] <==> x in b[1..] {
        TailMembers(a, x);
        TailMembers(b, x);
      }
      SortedDistinctUnique(a[1..], b[1..]);
      assert a == [a[0]] + a[1..] && b == [b[0]] + b[1..];
    }
  }

  lemma HeadIsMember(s: seq<string>)
    requires |s| > 0
    ensures s[0] in s
  {
  }

  lemma TailMembers(s: seq<string>, x: string)
    requires |s| > 0 && Sorting.NoDuplicates(s)
    ensures x in s[1..] <==> x in s && x != s[0]
  {
    if x in s && x != s[0] {
      var i :| 0 <= i < |s| && s[i] == x;
      assert s[1..][i - 1] == x;
    }
  }

  /** The categories are the one sorted, duplicate-free list of the stored
      category values. */
  lemma CategoriesAreCanonical(r: BlogRepository, cs: seq<string>)
    requires forall v :: v in cs <==> exists b :: b in r.rows && Value(b.category) == v
    requires Sorting.NoDuplicates(cs) && Sorting.Sorted(cs, Sorting.StrLe)
    ensures Categories(r) == cs
  {
    SortedDistinctUnique(Categories(r), cs);
  }

  // ---------------------------------------------------------------------------
  // One category
  // ---------------------------------------------------------------------------

  /** What the category page shows: the posts, or a message when there are
      none. */
  datatype CategoryPage = CategoryPage(posts: seq<Blog>, message: Option<string>)

  /** The category name as `repr` prints a string without quotes or escapes
      in it. */
  function Quoted(s: string): string {
    "'" + s + "'"
  }

  /** `category(request, category)`: the blogs of that category, newest first. */
  function CategoryPosts(r: BlogRepository, category: string): (p: CategoryPage)
    ensures forall b :: b in p.posts <==> b in r.rows && Value(b.category) == category
    ensures multiset(p.posts) == multiset(Sorting.Filter(r.rows, CategoryIs(category)))
    ensures Sorting.Sorted(p.posts, ByTimeDescending())
    ensures p.message.Some? <==> forall b :: b in r.rows ==> Value(b.category) != category
    ensures p.message.Some? ==> p.message.value == "No posts found in category: " + Quoted(category)
  {
    var posts := GetAllBlogs(r, Some(CategoryIs(category)), Some(ByTimeDescending()));
    OrdersAreSortKeys();
    Repositories.GetAllSorted(r, Some(CategoryIs(category)), ByTimeDescending());
    if |posts| == 0 then
      CategoryPage(posts, Some("No posts found in category: " + Quoted(category)))
    else
      assert posts[0] in posts;
      CategoryPage(posts, None)
  }

  /** Every stored blog is listed on exactly one of the two category pages. */
  lemma CategoryPagesPartitionRows(r: BlogRepository)
    ensures |CategoryPosts(r, Value(Uncategorized)).posts|
          + |CategoryPosts(r, Value(ApplicationArchitect)).posts| == |r.rows|
  {
    var u, a := Value(Uncategorized), Value(ApplicationArchitect);
    MemberValues();
    assert forall b: Blog :: CategoryIs(a)(b) == !CategoryIs(u)(b);
    Sorting.FilterComplement(r.rows, CategoryIs(u), CategoryIs(a));
    var pu, pa := CategoryPosts(r, u).posts, CategoryPosts(r, a).posts;
    assert |pu| == |multiset(pu)| == |Sorting.Filter(r.rows, CategoryIs(u))|;
    assert |pa| == |multiset(pa)| == |Sorting.Filter(r.rows, CategoryIs(a))|;
  }

  /** A name that is no category's value shows the message and no posts. */
  lemma CategoryPostsOfUnknown(r: BlogRepository, category: string)
    requires forall c: BlogCategory :: Value(c) != category
    ensures CategoryPosts(r, category).posts == []
    ensures CategoryPosts(r, category).message == Some("No posts found in category: " + Quoted(category))
  {
  }
}
