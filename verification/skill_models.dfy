/** The rules inside the portfolio's skill records: the rate kept between 0
    and 100, the tag derived from the name when a skill is saved, and the
    grouping of the skills shown on the about page by type, then by
    category. */
module SkillModels {
  import Text
  import Sorting
  import Grouping
  import opened Wrappers

  /** The primary keys of the skill type and skill category rows. */
  type TypeId = int
  type CategoryId = int

  datatype Skill = Skill(
    name: string,
    rate: int,
    tag: string,
    skillType: TypeId,
    category: CategoryId,
    gradient: string)

  // ---------------------------------------------------------------------------
  // Rate
  // ---------------------------------------------------------------------------

  const MaxRate: int := 100

  /** `clamp_rate`: the nearest value between 0 and 100. */
  function ClampRate(rate: int): (r: int)
    ensures 0 <= r <= MaxRate
    ensures 0 <= rate <= MaxRate ==> r == rate
    ensures rate < 0 ==> r == 0
    ensures rate > MaxRate ==> r == MaxRate
  {
    if rate > MaxRate then MaxRate else if rate < 0 then 0 else rate
  }

  /** Clamping twice is clamping once, and clamping keeps the order of rates. */
  lemma ClampRateProperties(a: int, b: int)
    ensures ClampRate(ClampRate(a)) == ClampRate(a)
    ensures a <= b ==> ClampRate(a) <= ClampRate(b)
  {
  }

  // ---------------------------------------------------------------------------
  // Tag
  // ---------------------------------------------------------------------------

  /** The name's ASCII letters, lowered, in order: the characters whose lower
      case is in `string.ascii_lowercase`. */
  function LetterTag(name: string): (t: string)
    ensures |t| <= |name|
    ensures forall i :: 0 <= i < |t| ==> Text.IsLowerLetter(t[i])
    ensures t == "" <==> forall i :: 0 <= i < |name| ==> !Text.IsAsciiLetter(name[i])
    decreases |name|
  {
    if |name| == 0 then ""
    else
      var rest := LetterTag(name[1..]);
      assert forall i :: 1 <= i < |name| ==> name[i] == name[1..][i - 1];
      if Text.IsAsciiLetter(name[0]) then [Text.LowerChar(name[0])] + rest else rest
  }

  /** The tag is the lowered sequence of the name's letters. */
  lemma {:induction false} LetterTagIsLoweredLetters(name: string)
    ensures LetterTag(name) == Text.Lower(Sorting.Filter(name, Text.IsAsciiLetter))
    decreases |name|
  {
    if |name| > 0 {
      LetterTagIsLoweredLetters(name[1..]);
      var first: string := if Text.IsAsciiLetter(name[0]) then [name[0]] else [];
      Text.LowerConcat(first, Sorting.Filter(name[1..], Text.IsAsciiLetter));
    }
  }

  /** A tag made of letters gives itself back. */
  lemma {:induction false} LetterTagIdempotent(name: string)
    ensures LetterTag(LetterTag(name)) == LetterTag(name)
    decreases |name|
  {
    if |name| > 0 {
      LetterTagIdempotent(name[1..]);
      var t, rest := LetterTag(name), LetterTag(name[1..]);
      if Text.IsAsciiLetter(name[0]) {
        assert t == [Text.LowerChar(name[0])] + rest && t[1..] == rest;
      }
    }
  }

  /** `uuid.uuid4().hex`: 32 lower-case hexadecimal digits. */
  predicate IsUuidHex(h: string) {
    |h| == 32 && forall i :: 0 <= i < |h| ==> ('0' <= h[i] <= '9' || 'a' <= h[i] <= 'f')
  }

  /** `tag.replace(" ", "_")`. */
  function ReplaceSpaces(s: string): (r: string)
    ensures |r| == |s|
    ensures forall i :: 0 <= i < |r| ==> r[i] != ' '
  {
    seq(|s|, i requires 0 <= i < |s| => if s[i] == ' ' then '_' else s[i])
  }

  /** The replacement changes nothing in a string without spaces. */
  lemma ReplaceSpacesWithoutSpace(s: string)
    requires forall i :: 0 <= i < |s| ==> s[i] != ' '
    ensures ReplaceSpaces(s) == s
  {
  }

  /** The tag `save` computes: the letter tag, or the given uuid hex when the
      name has no letter, with spaces replaced. */
  function Tag(name: string, uuidHex: string): (t: string)
    requires IsUuidHex(uuidHex)
    ensures |t| > 0
    ensures forall i :: 0 <= i < |t| ==> t[i] != ' '
    ensures (exists i :: 0 <= i < |name| && Text.IsAsciiLetter(name[i])) ==> t == LetterTag(name)
    ensures (forall i :: 0 <= i < |name| ==> !Text.IsAsciiLetter(name[i])) ==> t == uuidHex
  {
    var letters := LetterTag(name);
    var t := if letters == "" then uuidHex else letters;
    ReplaceSpacesWithoutSpace(t);
    ReplaceSpaces(t)
  }

  /** `SkillModel.save`: derives the tag and clamps the rate before the row is
      written. */
  function Save(s: Skill, uuidHex: string): (r: Skill)
    requires IsUuidHex(uuidHex)
    ensures 0 <= r.rate <= MaxRate && r.rate == ClampRate(s.rate)
    ensures r.tag == Tag(s.name, uuidHex)
    ensures r.name == s.name && r.skillType == s.skillType && r.category == s.category
    ensures r.gradient == s.gradient
  {
    s.(tag := Tag(s.name, uuidHex), rate := ClampRate(s.rate))
  }

  /** Saving again with the same uuid changes nothing; a skill whose name has
      a letter gets the same tag whatever the uuid. */
  lemma SaveIsStable(s: Skill, h1: string, h2: string)
    requires IsUuidHex(h1) && IsUuidHex(h2)
    ensures Save(Save(s, h1), h1) == Save(s, h1)
    ensures LetterTag(s.name) != "" ==> Save(s, h1) == Save(s, h2)
  {
  }

  // ---------------------------------------------------------------------------
  // Grouping
  // ---------------------------------------------------------------------------

  function TypeOf(s: Skill): TypeId { s.skillType }

  function CategoryOf(s: Skill): CategoryId { s.category }

  /** The skills of one type and one category. */
  function IsKind(t: TypeId, c: CategoryId): Skill -> bool {
    (s: Skill) => s.skillType == t && s.category == c
  }

  /** The grouping `group_skills` returns: per type, the categories of that
      type, each with its skills. */
  type SkillGroups = seq<(TypeId, Grouping.Groups<CategoryId, Skill>)>

  /** The reference grouping: group by type, then group each type's skills by
      category. */
  function Nested(skills: seq<Skill>): (g: SkillGroups)
    ensures var outer := Grouping.GroupBy(skills, TypeOf);
      |g| == |outer|
      && forall i :: 0 <= i < |g| ==> g[i] == (outer[i].0, Grouping.GroupBy(outer[i].1, CategoryOf))
  {
    var outer := Grouping.GroupBy(skills, TypeOf);
    seq(|outer|, i requires 0 <= i < |outer| => (outer[i].0, Grouping.GroupBy(outer[i].1, CategoryOf)))
  }

  /** `grouped[skill.type][skill.category].append(skill)` on nested
      `defaultdict`s. */
  function AddSkill(g: SkillGroups, s: Skill): SkillGroups {
    match Grouping.IndexOf(g, s.skillType)
    case Some(j) => g[j := (s.skillType, Grouping.Append(g[j].1, s.category, s))]
    case None => g + [(s.skillType, Grouping.Append([], s.category, s))]
  }

  /** One more skill is added where the reference grouping puts it. */
  lemma NestedSnoc(xs: seq<Skill>, s: Skill)
    ensures Nested(xs + [s]) == AddSkill(Nested(xs), s)
  {
    var outer := Grouping.GroupBy(xs, TypeOf);
    Grouping.IndexOfSameKeys(outer, Nested(xs), s.skillType);
    match Grouping.IndexOf(outer, s.skillType)
    case Some(j) => NestedSnocPresent(xs, s, j);
    case None => NestedSnocNew(xs, s);
  }

  /** A skill of a type already present joins that type's categories. */
  lemma NestedSnocPresent(xs: seq<Skill>, s: Skill, j: nat)
    requires Grouping.IndexOf(Grouping.GroupBy(xs, TypeOf), s.skillType) == Some(j)
    ensures j < |Nested(xs)|
    ensures Nested(xs + [s])
         == Nested(xs)[j := (s.skillType, Grouping.Append(Nested(xs)[j].1, s.category, s))]
  {
    var outer, outer' := Grouping.GroupBy(xs, TypeOf), Grouping.GroupBy(xs + [s], TypeOf);
    var n, n' := Nested(xs), Nested(xs + [s]);
    Grouping.GroupBySnoc(xs, s, TypeOf);
    assert |outer'| == |outer|;
    Grouping.GroupBySnoc(outer[j].1, s, CategoryOf);
    var m := n[j := (s.skillType, Grouping.Append(n[j].1, s.category, s))];
    forall i | 0 <= i < |n'|
      ensures n'[i] == m[i]
    {
      assert outer'[i].0 == outer[i].0;
    }
  }

  /** A skill of a new type opens a new type at the end. */
  lemma NestedSnocNew(xs: seq<Skill>, s: Skill)
    requires Grouping.IndexOf(Grouping.GroupBy(xs, TypeOf), s.skillType).None?
    ensures Nested(xs + [s]) == Nested(xs) + [(s.skillType, Grouping.Append([], s.category, s))]
  {
    Grouping.GroupBySnoc(xs, s, TypeOf);
    Grouping.GroupBySnoc([], s, CategoryOf);
    assert [] + [s] == [s];
  }

  lemma NestedStep(skills: seq<Skill>, i: nat)
    requires i < |skills|
    ensures Nested(skills[..i + 1]) == AddSkill(Nested(skills[..i]), skills[i])
  {
    assert skills[..i + 1] == skills[..i] + [skills[i]];
    NestedSnoc(skills[..i], skills[i]);
  }

  /** `AboutMeModel.group_skills`: one pass over the skills, appending each
      under its type and category. */
  method GroupSkills(skills: seq<Skill>) returns (g: SkillGroups)
    ensures g == Nested(skills)
  {
    g := [];
    var i := 0;
    while i < |skills|
      invariant 0 <= i <= |skills|
      invariant g == Nested(skills[..i])
    {
      NestedStep(skills, i);
      g := AddSkill(g, skills[i]);
      i := i + 1;
    }
    assert skills[..|skills|] == skills;
  }

  /** Each (type, category) list holds exactly the skills of that type and
      category, in their original order; the keys are distinct at both
      levels, so every skill is placed once, under its own type and
      category. */
  lemma NestedShape(skills: seq<Skill>, i: nat, k: nat)
    requires i < |Nested(skills)| && k < |Nested(skills)[i].1|
    ensures var g := Nested(skills);
      g[i].1[k].1 == Sorting.Filter(skills, IsKind(g[i].0, g[i].1[k].0))
      && |g[i].1[k].1| > 0
      && (forall a, b :: 0 <= a < b < |g| ==> g[a].0 != g[b].0)
      && (forall a, b :: 0 <= a < b < |g[i].1| ==> g[i].1[a].0 != g[i].1[b].0)
  {
    var outer := Grouping.GroupBy(skills, TypeOf);
    Grouping.GroupByShape(skills, TypeOf);
    var t := outer[i].0;
    var inner := Grouping.GroupBy(outer[i].1, CategoryOf);
    Grouping.GroupByShape(outer[i].1, CategoryOf);
    KindFilter(skills, t, inner[k].0);
  }

  /** The skills of one category among those of one type are the skills of
      that kind. */
  lemma KindFilter(skills: seq<Skill>, t: TypeId, c: CategoryId)
    ensures Sorting.Filter(Sorting.Filter(skills, Grouping.HasKey(TypeOf, t)), Grouping.HasKey(CategoryOf, c))
         == Sorting.Filter(skills, IsKind(t, c))
  {
    Sorting.FilterFilter(skills, Grouping.HasKey(TypeOf, t), Grouping.HasKey(CategoryOf, c), IsKind(t, c));
  }

  /** Every skill has its type among the groups, and its category among that
      type's groups. */
  lemma NestedCovers(skills: seq<Skill>, s: Skill)
    requires s in skills
    ensures var g := Nested(skills);
      exists i, k :: 0 <= i < |g| && 0 <= k < |g[i].1| && g[i].0 == s.skillType && g[i].1[k].0 == s.category
  {
    var outer := Grouping.GroupBy(skills, TypeOf);
    Grouping.GroupByShape(skills, TypeOf);
    var i :| 0 <= i < |outer| && outer[i].0 == TypeOf(s);
    assert s in outer[i].1;
    Grouping.GroupByShape(outer[i].1, CategoryOf);
    var k :| 0 <= k < |Grouping.GroupBy(outer[i].1, CategoryOf)| && Grouping.GroupBy(outer[i].1, CategoryOf)[k].0 == CategoryOf(s);
    var g := Nested(skills);
    assert g[i].0 == s.skillType && g[i].1[k].0 == s.category;
  }
}
