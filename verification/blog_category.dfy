/** The closed `BlogCategory` enumeration. Each member's value is generated from
    its name: lowered, with `_` turned into `-`; `str(category)` is that value. */
module BlogCategories {
  import Text
  import opened Wrappers

  datatype BlogCategory = Uncategorized | ApplicationArchitect

  /** Every member, in declaration order. */
  const Members: seq<BlogCategory> := [Uncategorized, ApplicationArchitect]

  function MemberName(c: BlogCategory): string {
    match c
    case Uncategorized => "UNCATEGORIZED"
    case ApplicationArchitect => "APPLICATION_ARCHITECT"
  }

  /** `_generate_next_value_`: a member name lowered, with `_` replaced by `-`. */
  function GenerateValue(name: string): (v: string)
    ensures |v| == |name|
    ensures Text.HasNoUpper(v)
    ensures forall i :: 0 <= i < |v| ==> v[i] != '_'
    ensures forall i :: 0 <= i < |name| ==>
      v[i] == (if name[i] == '_' then '-' else Text.Lower(name)[i])
  {
    seq(|name|, i requires 0 <= i < |name| =>
      if name[i] == '_' then '-' else Text.LowerChar(name[i]))
  }

  /** The value is `name.lower().replace("_", "-")`, step by step. */
  lemma GenerateValueIsLowerThenReplace(name: string)
    ensures GenerateValue(name) == Text.ReplaceChar(Text.Lower(name), '_', '-')
  {
    var l := Text.Lower(name);
    forall i | 0 <= i < |name|
      ensures GenerateValue(name)[i] == Text.ReplaceChar(l, '_', '-')[i]
    {
      assert l[i] == '_' <==> name[i] == '_';
    }
  }

  /** The member's value, which is also what `str(category)` returns. */
  function Value(c: BlogCategory): string {
    GenerateValue(MemberName(c))
  }

  /** `BlogCategory(value)`: the member whose value is `value`, if any. */
  function FromValue(value: string): (r: Option<BlogCategory>)
    ensures r.Some? ==> Value(r.value) == value
    ensures r.None? ==> forall c: BlogCategory :: Value(c) != value
  {
    if value == Value(Uncategorized) then Some(Uncategorized)
    else if value == Value(ApplicationArchitect) then Some(ApplicationArchitect)
    else None
  }

  /** The two generated values. */
  lemma MemberValues()
    ensures Value(Uncategorized) == "uncategorized"
    ensures Value(ApplicationArchitect) == "application-architect"
  {
  }

  /** Distinct members have distinct values, so the value identifies the member. */
  lemma ValuesAreDistinct(a: BlogCategory, b: BlogCategory)
    requires Value(a) == Value(b)
    ensures a == b
  {
    MemberValues();
  }

  /** Looking a member up by its string form gives the member back. */
  lemma FromValueOfValue(c: BlogCategory)
    ensures FromValue(Value(c)) == Some(c)
  {
    MemberValues();
  }

  /** A successful lookup returns the member whose string form was given. */
  lemma ValueOfFromValue(value: string)
    requires FromValue(value).Some?
    ensures Value(FromValue(value).value) == value
  {
  }

  /** The enumeration is closed: it has exactly the two members. */
  lemma MembersAreAll(c: BlogCategory)
    ensures c in Members && |Members| == 2
    ensures Members[0] != Members[1]
  {
  }
}
