/** The `Blog` aggregate: identity by serial number, a slug fixed at creation,
    content, asset, category and publication time, with `edit` as the only
    mutation. */
module Blogs {
  import Text
  import opened Wrappers
  import opened BlogContents
  import opened BlogCategories

  /** The serial number identifying a blog. */
  type BlogId = int

  /** An opaque, totally ordered point in time. */
  type Timestamp = int

  datatype BlogAsset = BlogAsset(thumbnailUrl: Option<string>)

  datatype Blog = Blog(
    id: BlogId,
    slug: string,
    content: BlogContent,
    asset: BlogAsset,
    category: BlogCategory,
    createdAt: Timestamp)

  // ---------------------------------------------------------------------------
  // Slug derivation
  // ---------------------------------------------------------------------------

  /** The ASCII transliteration step: characters outside ASCII are dropped. */
  function AsciiFold(s: string): (r: string)
    ensures Text.IsAscii(r) && |r| <= |s|
    ensures Text.IsAscii(s) ==> r == s
  {
    if |s| == 0 then ""
    else (if Text.IsAsciiChar(s[0]) then [s[0]] else []) + AsciiFold(s[1..])
  }

  lemma {:induction false} AsciiFoldConcat(a: string, b: string)
    ensures AsciiFold(a + b) == AsciiFold(a) + AsciiFold(b)
    decreases |a|
  {
    if |a| > 0 {
      assert (a + b)[1..] == a[1..] + b;
      AsciiFoldConcat(a[1..], b);
    } else {
      assert a + b == b;
    }
  }

  /** The words of a title that end up in its slug, in order. */
  function SlugWords(title: string): seq<string> {
    Text.NonEmpty(Text.Split(Text.Lower(AsciiFold(title)), ' '))
  }

  predicate IsLowerAscii(c: char) {
    !Text.IsUpper(c) && Text.IsAsciiChar(c)
  }

  predicate IsSlugChar(c: char) {
    c != ' ' && !Text.IsUpper(c) && Text.IsAsciiChar(c)
  }

  /** `Blog.make_slug`: the words of the folded, lowered title joined by `-`. */
  function MakeSlug(title: string): (slug: string)
    ensures Text.AllWhere(slug, IsSlugChar)
  {
    var lowered := Text.Lower(AsciiFold(title));
    assert Text.AllWhere(lowered, IsLowerAscii);
    var pieces := Text.Split(lowered, ' ');
    Text.SplitKeeps(lowered, Text.Exactly(' '), IsLowerAscii);
    Text.SplitPiecesHaveNoSeparator(lowered, Text.Exactly(' '));
    assert forall k :: 0 <= k < |pieces| ==> Text.AllWhere(pieces[k], IsSlugChar);
    var words := Text.NonEmpty(pieces);
    Text.JoinKeeps("-", words, IsSlugChar);
    Text.Join("-", words)
  }

  lemma MakeSlugJoinsWords(title: string)
    ensures MakeSlug(title) == Text.Join("-", SlugWords(title))
  {
  }

  /** On an ASCII title the slug is `"-".join(w for w in title.lower().split(" ") if w)`. */
  lemma MakeSlugOfAscii(title: string)
    requires Text.IsAscii(title)
    ensures MakeSlug(title) == Text.Join("-", Text.NonEmpty(Text.Split(Text.Lower(title), ' ')))
  {
  }

  /** A space splits the slug words of the two sides independently. */
  lemma SlugWordsAtSpace(a: string, b: string)
    ensures SlugWords(a + " " + b) == SlugWords(a) + SlugWords(b)
  {
    var fa, fb := AsciiFold(a), AsciiFold(b);
    AsciiFoldConcat(a + " ", b);
    AsciiFoldConcat(a, " ");
    assert AsciiFold(" ") == " ";
    Text.LowerConcat(fa + " ", fb);
    Text.LowerConcat(fa, " ");
    assert Text.Lower(" ") == " ";
    var la, lb := Text.Lower(fa), Text.Lower(fb);
    assert Text.Lower(AsciiFold(a + " " + b)) == la + [' '] + lb;
    Text.SplitConcat(la, ' ', lb, Text.Exactly(' '));
    Text.NonEmptyConcat(Text.Split(la, ' '), Text.Split(lb, ' '));
  }

  lemma SlugWordsOfEmpty()
    ensures SlugWords("") == []
  {
    assert Text.Lower(AsciiFold("")) == "";
  }

  /** Leading spaces do not change the slug. */
  lemma SlugIgnoresLeadingSpace(title: string)
    ensures MakeSlug(" " + title) == MakeSlug(title)
  {
    calc {
      SlugWords(" " + title);
      { assert "" + " " + title == " " + title; }
      SlugWords("" + " " + title);
      { SlugWordsAtSpace("", title); }
      SlugWords("") + SlugWords(title);
      { SlugWordsOfEmpty(); }
      SlugWords(title);
    }
    MakeSlugJoinsWords(" " + title);
    MakeSlugJoinsWords(title);
  }

  /** Trailing spaces do not change the slug. */
  lemma SlugIgnoresTrailingSpace(title: string)
    ensures MakeSlug(title + " ") == MakeSlug(title)
  {
    calc {
      SlugWords(title + " ");
      { assert title + " " + "" == title + " "; }
      SlugWords(title + " " + "");
      { SlugWordsAtSpace(title, ""); }
      SlugWords(title) + SlugWords("");
      { SlugWordsOfEmpty(); }
      SlugWords(title);
    }
    MakeSlugJoinsWords(title + " ");
    MakeSlugJoinsWords(title);
  }

  /** A run of two spaces gives the same slug as a single space. */
  lemma SlugIgnoresRepeatedSpace(a: string, b: string)
    ensures MakeSlug(a + "  " + b) == MakeSlug(a + " " + b)
  {
    calc {
      SlugWords(a + "  " + b);
      { assert a + "  " + b == a + " " + (" " + b); }
      SlugWords(a + " " + (" " + b));
      { SlugWordsAtSpace(a, " " + b); }
      SlugWords(a) + SlugWords(" " + b);
      { SlugWordsAtSpace("", b); SlugWordsOfEmpty(); assert "" + " " + b == " " + b; }
      SlugWords(a) + SlugWords(b);
      { SlugWordsAtSpace(a, b); }
      SlugWords(a + " " + b);
    }
    MakeSlugJoinsWords(a + "  " + b);
    MakeSlugJoinsWords(a + " " + b);
  }

  /** A title made only of spaces has the empty slug. */
  lemma {:induction false} SlugOfSpacesIsEmpty(title: string)
    requires forall i :: 0 <= i < |title| ==> title[i] == ' '
    ensures MakeSlug(title) == ""
    decreases |title|
  {
    if |title| == 0 {
      SlugWordsOfEmpty();
    } else {
      SlugOfSpacesIsEmpty(title[1..]);
      SlugIgnoresLeadingSpace(title[1..]);
      assert title == " " + title[1..];
      SlugWordsOfEmpty();
    }
  }

  /** A slug is its own slug: deriving again changes nothing. */
  lemma MakeSlugIsFixedPoint(title: string)
    ensures MakeSlug(MakeSlug(title)) == MakeSlug(title)
  {
    var slug := MakeSlug(title);
    assert Text.IsAscii(slug);
    assert Text.Lower(slug) == slug;
    Text.SplitWithoutSeparator(slug, Text.Exactly(' '));
    assert Text.Split(slug, ' ') == [slug];
    if slug == "" {
      assert Text.NonEmpty([slug]) == [];
    } else {
      assert Text.NonEmpty([slug]) == [slug];
    }
  }

  /** A one-letter lower-case title is its own single slug word. */
  lemma SlugWordsOfLetter(c: char)
    requires 'a' <= c <= 'z'
    ensures SlugWords([c]) == [[c]]
  {
    assert AsciiFold([c]) == [c];
    assert Text.Lower([c]) == [c];
    Text.SplitWithoutSeparator([c], Text.Exactly(' '));
    assert Text.NonEmpty([[c]]) == [[c]];
  }

  /** Two words separated by one space give the words joined by `-`. */
  lemma SlugOfTwoLetters(a: char, b: char)
    requires 'a' <= a <= 'z' && 'a' <= b <= 'z'
    ensures MakeSlug([a] + " " + [b]) == [a, '-', b]
  {
    SlugWordsAtSpace([a], [b]);
    SlugWordsOfLetter(a);
    SlugWordsOfLetter(b);
    MakeSlugJoinsWords([a] + " " + [b]);
    assert Text.Join("-", [[a], [b]]) == [a] + "-" + Text.Join("-", [[b]]);
  }

  /** The example of the slug rule: spaces around and between words vanish. */
  lemma SlugExample(a: char, b: char)
    requires 'a' <= a <= 'z' && 'a' <= b <= 'z'
    ensures MakeSlug("  " + [a] + "  " + [b] + " ") == MakeSlug([a] + " " + [b]) == [a, '-', b]
  {
    var t0 := [a] + "  " + [b];
    var t1 := t0 + " ";
    var t2 := " " + t1;
    var t3 := " " + t2;
    assert t3 == "  " + [a] + "  " + [b] + " ";
    calc {
      MakeSlug(t3);
      { SlugIgnoresLeadingSpace(t2); }
      MakeSlug(t2);
      { SlugIgnoresLeadingSpace(t1); }
      MakeSlug(t1);
      { SlugIgnoresTrailingSpace(t0); }
      MakeSlug(t0);
      { SlugIgnoresRepeatedSpace([a], [b]); }
      MakeSlug([a] + " " + [b]);
      { SlugOfTwoLetters(a, b); }
      [a, '-', b];
    }
    SlugOfTwoLetters(a, b);
  }

  // ---------------------------------------------------------------------------
  // The aggregate
  // ---------------------------------------------------------------------------

  /** `Blog(sno, content, asset, category, created_at, slug=None)`. */
  function NewBlog(id: BlogId, content: BlogContent, asset: BlogAsset, category: BlogCategory,
                   createdAt: Timestamp, slug: Option<string>): (b: Blog)
    ensures b.id == id && b.content == content && b.asset == asset
    ensures b.category == category && b.createdAt == createdAt
    ensures slug.Some? ==> b.slug == slug.value
    ensures slug.None? ==> b.slug == MakeSlug(content.title)
  {
    var s := if slug.Some? then slug.value else MakeSlug(content.title);
    Blog(id, s, content, asset, category, createdAt)
  }

  /** `a == b`: blogs are equal when their serial numbers are. */
  predicate SameBlog(a: Blog, b: Blog) {
    a.id == b.id
  }

  /** `Blog.__hash__`: the serial number. The built-in `hash()` would turn a
      result of -1 into -2; that step is not modelled. */
  function Hash(b: Blog): int {
    b.id
  }

  /** Blog equality is an equivalence that hashing respects, and it looks at
      nothing but the serial number. */
  lemma EqualityByIdentity(a: Blog, b: Blog, c: Blog)
    ensures SameBlog(a, a)
    ensures SameBlog(a, b) ==> SameBlog(b, a)
    ensures SameBlog(a, b) && SameBlog(b, c) ==> SameBlog(a, c)
    ensures SameBlog(a, b) <==> Hash(a) == Hash(b)
    ensures SameBlog(a, b) <==> a.id == b.id
  {
  }

  /** `blog.contains_word(word, case_sensitive=...)`: the content search. */
  function ContainsWord(b: Blog, word: string, caseSensitive: bool): (r: bool)
    ensures caseSensitive ==>
      (r <==> exists k :: 0 <= k < 3 && Text.IsSubstring(word, Fields(b.content)[k]))
    ensures !caseSensitive ==>
      (r <==> exists k :: 0 <= k < 3 && Text.IsSubstring(Text.Lower(word), Text.Lower(Fields(b.content)[k])))
  {
    var r := BlogContents.Contains(b.content, word, caseSensitive);
    assert Fields(b.content)[0] == b.content.title;
    assert Fields(b.content)[1] == b.content.meta;
    assert Fields(b.content)[2] == b.content.content;
    r
  }

  /** `blog.edit(content=..., asset=..., category=...)`: each supplied part
      replaces the current one; identity, slug and time stay. */
  function Edit(b: Blog, content: Option<BlogContent>, asset: Option<BlogAsset>,
                category: Option<BlogCategory>): (r: Blog)
    ensures r.id == b.id && r.slug == b.slug && r.createdAt == b.createdAt
    ensures content.Some? ==> r.content == content.value
    ensures content.None? ==> r.content == b.content
    ensures asset.Some? ==> r.asset == asset.value
    ensures asset.None? ==> r.asset == b.asset
    ensures category.Some? ==> r.category == category.value
    ensures category.None? ==> r.category == b.category
  {
    b.(content := content.GetOr(b.content),
       asset := asset.GetOr(b.asset),
       category := category.GetOr(b.category))
  }

  /** `edit()` with no argument leaves the blog as it was. */
  lemma EditNothingIsNoOp(b: Blog)
    ensures Edit(b, None, None, None) == b
  {
  }

  /** An edit keeps the blog equal to itself and does not re-derive the slug,
      even when the new title would give another one. */
  lemma EditKeepsIdentityAndSlug(b: Blog, content: BlogContent)
    ensures SameBlog(Edit(b, Some(content), None, None), b)
    ensures Edit(b, Some(content), None, None).slug == b.slug
  {
  }

  /** Two edits in a row are one edit where the later arguments win. */
  lemma EditTwice(b: Blog, c1: Option<BlogContent>, a1: Option<BlogAsset>, k1: Option<BlogCategory>,
                  c2: Option<BlogContent>, a2: Option<BlogAsset>, k2: Option<BlogCategory>)
    ensures Edit(Edit(b, c1, a1, k1), c2, a2, k2)
         == Edit(b, if c2.Some? then c2 else c1, if a2.Some? then a2 else a1, if k2.Some? then k2 else k1)
  {
  }
}
