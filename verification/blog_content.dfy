/** The frozen `BlogContent` value object: title, meta text and body, searched
    for a string either case-sensitively or (by default) case-insensitively. */
module BlogContents {
  import Text

  datatype BlogContent = BlogContent(title: string, meta: string, content: string)

  /** The searched fields, in the order the search visits them. */
  function Fields(c: BlogContent): seq<string> {
    [c.title, c.meta, c.content]
  }

  /** The content with every field lowered. */
  function LowerFields(c: BlogContent): BlogContent {
    BlogContent(Text.Lower(c.title), Text.Lower(c.meta), Text.Lower(c.content))
  }

  /** Scans `fields` in order and stops at the first that holds `item`; the
      reference reading is `any(item in value for value in fields)`. */
  function AnyContains(fields: seq<string>, item: string): (r: bool)
    ensures r <==> exists k :: 0 <= k < |fields| && Text.IsSubstring(item, fields[k])
  {
    if |fields| == 0 then false
    else if Text.Contains(fields[0], item) then true
    else
      var r := AnyContains(fields[1..], item);
      assert forall k :: 1 <= k < |fields| ==> fields[k] == fields[1..][k - 1];
      r
  }

  /** `BlogContent.contains(item, case_sensitive=...)`. */
  function Contains(c: BlogContent, item: string, caseSensitive: bool): (r: bool)
    ensures caseSensitive ==>
      (r <==> Text.IsSubstring(item, c.title) || Text.IsSubstring(item, c.meta)
              || Text.IsSubstring(item, c.content))
    ensures !caseSensitive ==>
      (r <==> Text.IsSubstring(Text.Lower(item), Text.Lower(c.title))
              || Text.IsSubstring(Text.Lower(item), Text.Lower(c.meta))
              || Text.IsSubstring(Text.Lower(item), Text.Lower(c.content)))
  {
    var searched := if caseSensitive then c else LowerFields(c);
    var fields := Fields(searched);
    assert fields[0] == searched.title && fields[1] == searched.meta && fields[2] == searched.content;
    AnyContains(fields, if caseSensitive then item else Text.Lower(item))
  }

  /** `item in content` for a string `item`: the case-insensitive search. */
  function In(c: BlogContent, item: string): (r: bool)
    ensures r <==> Text.IsSubstring(Text.Lower(item), Text.Lower(c.title))
                   || Text.IsSubstring(Text.Lower(item), Text.Lower(c.meta))
                   || Text.IsSubstring(Text.Lower(item), Text.Lower(c.content))
  {
    Contains(c, item, false)
  }

  /** The default search is the case-sensitive search of the lowered item in
      the lowered fields. */
  lemma InsensitiveIsSensitiveOnLowered(c: BlogContent, item: string)
    ensures Contains(c, item, false) == Contains(LowerFields(c), Text.Lower(item), true)
  {
  }

  /** Changing the case of the searched item does not change the default search. */
  lemma InsensitiveIgnoresItemCase(c: BlogContent, a: string, b: string)
    requires Text.Lower(a) == Text.Lower(b)
    ensures Contains(c, a, false) == Contains(c, b, false)
  {
  }

  /** A case-sensitive match is also a case-insensitive one. */
  lemma SensitiveImpliesInsensitive(c: BlogContent, item: string)
    requires Contains(c, item, true)
    ensures Contains(c, item, false)
  {
    if Text.IsSubstring(item, c.title) {
      Text.LowerKeepsSubstring(item, c.title);
    } else if Text.IsSubstring(item, c.meta) {
      Text.LowerKeepsSubstring(item, c.meta);
    } else {
      Text.LowerKeepsSubstring(item, c.content);
    }
  }

  /** The empty string is found in every content, whatever the case mode. */
  lemma EmptyIsAlwaysContained(c: BlogContent, caseSensitive: bool)
    ensures Contains(c, "", caseSensitive)
  {
    Text.EmptyIsSubstring(c.title);
    Text.EmptyIsSubstring(Text.Lower(c.title));
  }
}
