/** The `Project` aggregate: a record identified by its title, with no
    mutator, so every part is fixed once it is built. */
module Projects {
  import opened Wrappers
  import opened ProjectContents

  /** The opaque point in time at which a project was created. */
  type Timestamp = int

  datatype ProjectAsset = ProjectAsset(thumbnailUrl: Option<string>)

  datatype ProjectReference = ProjectReference(demoUrl: Option<string>, githubUrl: Option<string>)

  datatype Project = Project(
    title: string,
    content: ProjectContent,
    asset: ProjectAsset,
    reference: ProjectReference,
    createdAt: Timestamp)

  /** `Project(title, content, asset, reference, created_at)`: each accessor
      reads back the part it was built with. */
  function NewProject(title: string, content: ProjectContent, asset: ProjectAsset,
                      reference: ProjectReference, createdAt: Timestamp): (p: Project)
    ensures p.title == title && p.content == content && p.asset == asset
    ensures p.reference == reference && p.createdAt == createdAt
  {
    Project(title, content, asset, reference, createdAt)
  }

  /** A project is determined by its five parts: two projects built from the
      same parts are the same, and building from a project's parts gives it back. */
  lemma ProjectIsItsParts(p: Project, q: Project)
    ensures NewProject(p.title, p.content, p.asset, p.reference, p.createdAt) == p
    ensures (p.title == q.title && p.content == q.content && p.asset == q.asset
             && p.reference == q.reference && p.createdAt == q.createdAt) ==> p == q
  {
  }
}
