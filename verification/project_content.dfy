/** The frozen `ProjectContent` value object: a description plus two
    comma-separated lists, the technologies and the optional features. */
module ProjectContents {
  import Text
  import opened Wrappers

  datatype ProjectContent = ProjectContent(
    description: string,
    technologies: string,
    features: Option<string>)

  /** A piece of a list as it comes out of the split: neither starting nor
      ending with whitespace. */
  predicate IsTrimmed(s: string) {
    |s| == 0 || (!Text.IsSpace(s[0]) && !Text.IsSpace(s[|s| - 1]))
  }

  /** `_split_by_comma`: the pieces between commas, each stripped. */
  function SplitByComma(s: string): (r: seq<string>)
    ensures |r| == Text.CountSeparators(s, Text.Exactly(',')) + 1
    ensures |r| == |Text.Split(s, ',')|
    ensures forall k :: 0 <= k < |r| ==> Text.IsStripOf(r[k], Text.Split(s, ',')[k])
    ensures forall k :: 0 <= k < |r| ==> IsTrimmed(r[k])
  {
    var pieces := Text.Split(s, ',');
    seq(|pieces|, k requires 0 <= k < |pieces| => Text.Strip(pieces[k]))
  }

  /** Each item of the list is a slice of the matching piece between commas,
      so no item holds a comma. */
  lemma SplitByCommaItems(s: string)
    ensures forall k :: 0 <= k < |SplitByComma(s)| ==>
      Text.IsSubstring(SplitByComma(s)[k], Text.Split(s, ',')[k])
      && Text.NoSeparator(SplitByComma(s)[k], Text.Exactly(','))
  {
    var pieces, r := Text.Split(s, ','), SplitByComma(s);
    Text.SplitPiecesHaveNoSeparator(s, Text.Exactly(','));
    forall k | 0 <= k < |r|
      ensures Text.IsSubstring(r[k], pieces[k]) && Text.NoSeparator(r[k], Text.Exactly(','))
    {
      Text.SliceKeepsNoSeparator(r[k], pieces[k], Text.Exactly(','));
    }
  }

  /** `features_list`: a missing features string reads as the empty one. */
  function FeaturesList(c: ProjectContent): (r: seq<string>)
    ensures c.features.Some? ==> r == SplitByComma(c.features.value)
    ensures c.features.None? ==> r == [""]
  {
    var features := c.features.GetOr("");
    Text.SplitWithoutSeparator("", Text.Exactly(','));
    SplitByComma(features)
  }

  /** `technologies_list`. */
  function TechnologiesList(c: ProjectContent): (r: seq<string>)
    ensures r == SplitByComma(c.technologies)
  {
    SplitByComma(c.technologies)
  }

  /** When no piece between commas has whitespace at its ends, the list joined
      with `,` is the original string. */
  lemma JoinSplitByComma(s: string)
    requires forall k :: 0 <= k < |Text.Split(s, ',')| ==> IsTrimmed(Text.Split(s, ',')[k])
    ensures Text.Join(",", SplitByComma(s)) == s
  {
    assert SplitByComma(s) == Text.Split(s, ',');
    Text.JoinSplit(s, ',');
  }

  /** Conversely, a non-empty list of trimmed, comma-free items written out
      with `,` splits back into the same list. */
  lemma SplitByCommaOfJoin(items: seq<string>)
    requires |items| > 0
    requires forall k :: 0 <= k < |items| ==>
      IsTrimmed(items[k]) && Text.NoSeparator(items[k], Text.Exactly(','))
    ensures SplitByComma(Text.Join(",", items)) == items
  {
    Text.SplitJoin(items, ',');
  }

  /** The pieces between the commas of a list written with `", "`: every item
      after the first keeps the space in front of it. */
  function Spaced(items: seq<string>): (r: seq<string>)
    ensures |r| == |items|
    ensures |items| > 0 ==> r[0] == items[0]
    ensures forall k :: 0 < k < |items| ==> r[k] == " " + items[k]
  {
    seq(|items|, k requires 0 <= k < |items| => if k == 0 then items[0] else " " + items[k])
  }

  lemma {:induction false} JoinSpaced(items: seq<string>)
    requires |items| > 0
    ensures Text.Join(", ", items) == Text.Join(",", Spaced(items))
    decreases |items|
  {
    if |items| > 1 {
      var x, t := items[0], items[1..];
      JoinSpaced(t);
      var q := Spaced(t);
      assert items == [x] + t;
      Text.JoinCons(", ", x, t);
      assert Spaced(items) == [x] + ([" " + q[0]] + q[1..]);
      Text.JoinCons(",", x, [" " + q[0]] + q[1..]);
      Text.JoinPrependFirst(",", " ", q);
    }
  }

  /** A list of trimmed, comma-free items written out with `", "`, the usual
      way of typing a list, splits back into the same items: the space after
      each comma is stripped. */
  lemma SplitByCommaOfSpacedJoin(items: seq<string>)
    requires |items| > 0
    requires forall k :: 0 <= k < |items| ==>
      IsTrimmed(items[k]) && Text.NoSeparator(items[k], Text.Exactly(','))
    ensures SplitByComma(Text.Join(", ", items)) == items
  {
    var p := Spaced(items);
    JoinSpaced(items);
    forall k | 0 <= k < |p|
      ensures Text.NoSeparator(p[k], Text.Exactly(','))
    {
      SpacedPiece(items, k);
    }
    Text.SplitJoin(p, ',');
    SplitByCommaOfPieces(Text.Join(",", p), items);
  }

  /** One piece of a list written with `", "`: it holds no comma, and the item
      is what stripping it leaves. */
  lemma SpacedPiece(items: seq<string>, k: int)
    requires 0 <= k < |items|
    requires IsTrimmed(items[k]) && Text.NoSeparator(items[k], Text.Exactly(','))
    ensures Text.NoSeparator(Spaced(items)[k], Text.Exactly(','))
    ensures Text.Strip(Spaced(items)[k]) == items[k]
  {
    var p := Spaced(items)[k];
    if k == 0 {
      assert Text.StrippedAt(items[k], p, 0);
    } else {
      assert p[1..] == items[k];
      assert Text.StrippedAt(items[k], p, 1);
    }
    Text.StripIsTheStrip(p, items[k]);
  }

  lemma SplitByCommaOfPieces(s: string, items: seq<string>)
    requires |items| > 0
    requires Text.Split(s, ',') == Spaced(items)
    requires forall k :: 0 <= k < |items| ==>
      IsTrimmed(items[k]) && Text.NoSeparator(items[k], Text.Exactly(','))
    ensures SplitByComma(s) == items
  {
    var r := SplitByComma(s);
    forall k | 0 <= k < |r|
      ensures r[k] == items[k]
    {
      SpacedPiece(items, k);
    }
  }

  /** Single letters between commas, as in `"a,b,c,d"`, come out one per item. */
  lemma SplitByCommaExample(a: char, b: char, c: char, d: char)
    requires !Text.IsSpace(a) && !Text.IsSpace(b) && !Text.IsSpace(c) && !Text.IsSpace(d)
    requires a != ',' && b != ',' && c != ',' && d != ','
    ensures SplitByComma([a, ',', b, ',', c, ',', d]) == [[a], [b], [c], [d]]
  {
    var items := [[a], [b], [c], [d]];
    calc {
      Text.Join(",", items);
      { Text.JoinCons(",", [a], [[b], [c], [d]]); assert items == [[a]] + [[b], [c], [d]]; }
      [a] + "," + Text.Join(",", [[b], [c], [d]]);
      { Text.JoinCons(",", [b], [[c], [d]]); assert [[b], [c], [d]] == [[b]] + [[c], [d]]; }
      [a] + "," + ([b] + "," + Text.Join(",", [[c], [d]]));
      { Text.JoinCons(",", [c], [[d]]); assert [[c], [d]] == [[c]] + [[d]]; }
      [a] + "," + ([b] + "," + ([c] + "," + [d]));
      [a, ',', b, ',', c, ',', d];
    }
    SplitByCommaOfJoin(items);
  }
}
