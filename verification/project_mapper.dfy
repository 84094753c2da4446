/** The conversion between the `Project` aggregate and its database row.

    As written, `entity_to_model` leaves the technologies column unset, so
    the row takes the column's empty default, and puts the split features
    list where the features text belongs. `EntityToModelAsWritten` models that
    code; `EntityToModel` is the conversion that keeps both columns, and the
    round trips are proved for it. */
module ProjectMappers {
  import opened Wrappers
  import opened ProjectContents
  import opened Projects

  /** The value held by the features attribute of a row: empty (`NULL`),
      a text, or the list that `entity_to_model` assigns. */
  datatype FeaturesValue = Absent | Stored(text: string) | Listed(items: seq<string>)

  /** A row of the project table. */
  datatype ProjectModel = ProjectModel(
    title: string,
    description: string,
    features: FeaturesValue,
    thumbnailUrl: Option<string>,
    technologies: string,
    demoUrl: Option<string>,
    githubUrl: Option<string>,
    date: Timestamp)

  /** The value a text column takes when the constructor does not set it. */
  const ColumnDefault: string := ""

  /** A row as it is read from the table: the features attribute is text or `NULL`. */
  predicate IsStoredRow(m: ProjectModel) {
    !m.features.Listed?
  }

  function FeaturesText(f: FeaturesValue): (r: Option<string>)
    requires !f.Listed?
    ensures f.Absent? <==> r.None?
    ensures f.Stored? ==> r == Some(f.text)
  {
    if f.Stored? then Some(f.text) else None
  }

  function FeaturesColumn(features: Option<string>): (r: FeaturesValue)
    ensures !r.Listed?
    ensures FeaturesText(r) == features
  {
    if features.Some? then Stored(features.value) else Absent
  }

  /** `ProjectMapper.model_to_entity`: every column goes into its part of the project. */
  function ModelToEntity(m: ProjectModel): (p: Project)
    requires IsStoredRow(m)
    ensures p.title == m.title && p.createdAt == m.date
    ensures p.asset.thumbnailUrl == m.thumbnailUrl
    ensures p.reference.demoUrl == m.demoUrl && p.reference.githubUrl == m.githubUrl
    ensures p.content.description == m.description && p.content.technologies == m.technologies
    ensures p.content.features.None? <==> m.features.Absent?
    ensures m.features.Stored? ==> p.content.features == Some(m.features.text)
  {
    NewProject(m.title,
               ProjectContent(m.description, m.technologies, FeaturesText(m.features)),
               ProjectAsset(m.thumbnailUrl),
               ProjectReference(m.demoUrl, m.githubUrl),
               m.date)
  }

  /** `ProjectMapper.entity_to_model` as written: technologies is not passed,
      and features receives `features_list`. */
  function EntityToModelAsWritten(p: Project): (m: ProjectModel)
    ensures m.title == p.title && m.description == p.content.description && m.date == p.createdAt
    ensures m.thumbnailUrl == p.asset.thumbnailUrl
    ensures m.demoUrl == p.reference.demoUrl && m.githubUrl == p.reference.githubUrl
    ensures m.technologies == ColumnDefault
    ensures m.features == Listed(FeaturesList(p.content))
  {
    ProjectModel(p.title, p.content.description, Listed(FeaturesList(p.content)),
                 p.asset.thumbnailUrl, ColumnDefault,
                 p.reference.demoUrl, p.reference.githubUrl, p.createdAt)
  }

  /** Row to entity to row, as written, keeps the title, the description, the
      three links and the date, and loses the technologies. */
  lemma AsWrittenKeepsScalars(m: ProjectModel)
    requires IsStoredRow(m)
    ensures var m' := EntityToModelAsWritten(ModelToEntity(m));
      m'.title == m.title && m'.description == m.description && m'.date == m.date
      && m'.thumbnailUrl == m.thumbnailUrl && m'.demoUrl == m.demoUrl && m'.githubUrl == m.githubUrl
    ensures EntityToModelAsWritten(ModelToEntity(m)).technologies == ""
  {
  }

  /** A project with technologies `"1"` comes back from its row without them:
      the row written for it is not a row the project could have been read from. */
  lemma AsWrittenLosesTechnologies(p: Project)
    requires p.content.technologies == "1"
    ensures EntityToModelAsWritten(p).technologies != p.content.technologies
    ensures !IsStoredRow(EntityToModelAsWritten(p))
  {
  }

  /** The conversion that writes every part of the content to its own column. */
  function EntityToModel(p: Project): (m: ProjectModel)
    ensures IsStoredRow(m)
    ensures m.title == p.title && m.description == p.content.description && m.date == p.createdAt
    ensures m.thumbnailUrl == p.asset.thumbnailUrl
    ensures m.demoUrl == p.reference.demoUrl && m.githubUrl == p.reference.githubUrl
    ensures m.technologies == p.content.technologies
    ensures FeaturesText(m.features) == p.content.features
  {
    ProjectModel(p.title, p.content.description, FeaturesColumn(p.content.features),
                 p.asset.thumbnailUrl, p.content.technologies,
                 p.reference.demoUrl, p.reference.githubUrl, p.createdAt)
  }

  /** Entity to row and back gives the same project. */
  lemma ModelToEntityOfEntityToModel(p: Project)
    ensures ModelToEntity(EntityToModel(p)) == p
  {
  }

  /** A stored row to entity and back gives the same row. */
  lemma EntityToModelOfModelToEntity(m: ProjectModel)
    requires IsStoredRow(m)
    ensures EntityToModel(ModelToEntity(m)) == m
  {
  }

  /** Where the two conversions agree: everything but the two list columns. */
  lemma AsWrittenAgreesElsewhere(p: Project)
    ensures EntityToModelAsWritten(p) == EntityToModel(p).(technologies := ColumnDefault,
                                                           features := Listed(FeaturesList(p.content)))
  {
  }
}
