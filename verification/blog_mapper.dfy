/** The conversion between the `Blog` aggregate and its database row. */
module BlogMappers {
  import opened Wrappers
  import opened BlogContents
  import opened BlogCategories
  import opened Blogs

  /** A row of the blog table; the category column holds the category's
      string form. */
  datatype BlogModel = BlogModel(
    sno: BlogId,
    title: string,
    meta: string,
    content: string,
    thumbnailUrl: Option<string>,
    category: string,
    time: Timestamp,
    slug: string)

  /** The failure of the enum lookup on a stored category string. */
  datatype MapError = InvalidCategory(value: string)

  /** `BlogMapper.entity_to_model`. */
  function EntityToModel(b: Blog): (m: BlogModel)
    ensures m.sno == b.id && m.slug == b.slug && m.time == b.createdAt
    ensures m.title == b.content.title && m.meta == b.content.meta && m.content == b.content.content
    ensures m.thumbnailUrl == b.asset.thumbnailUrl
    ensures FromValue(m.category) == Some(b.category)
  {
    FromValueOfValue(b.category);
    BlogModel(b.id, b.content.title, b.content.meta, b.content.content,
              b.asset.thumbnailUrl, Value(b.category), b.createdAt, b.slug)
  }

  /** `BlogMapper.model_to_entity`: fails exactly when the category column
      is not the value of a member; the stored slug is passed explicitly. */
  function ModelToEntity(m: BlogModel): (r: Result<Blog, MapError>)
    ensures r.Err? <==> forall c: BlogCategory :: Value(c) != m.category
    ensures r.Err? ==> r.error == InvalidCategory(m.category)
    ensures r.Ok? ==> r.value.slug == m.slug && Value(r.value.category) == m.category
  {
    match FromValue(m.category)
    case None => Err(InvalidCategory(m.category))
    case Some(category) =>
      Ok(NewBlog(m.sno, BlogContent(m.title, m.meta, m.content), BlogAsset(m.thumbnailUrl),
                 category, m.time, Some(m.slug)))
  }

  /** Entity to row and back gives the same blog, field for field. */
  lemma ModelToEntityOfEntityToModel(b: Blog)
    ensures ModelToEntity(EntityToModel(b)) == Ok(b)
  {
  }

  /** Row to entity and back gives the same row, once the category is valid. */
  lemma EntityToModelOfModelToEntity(m: BlogModel)
    requires exists c: BlogCategory :: Value(c) == m.category
    ensures ModelToEntity(m).Ok? && EntityToModel(ModelToEntity(m).value) == m
  {
  }
}
