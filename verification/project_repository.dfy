/** `ProjectRepository`: the repository of projects keyed by title. */
module ProjectRepositories {
  import opened Wrappers
  import opened Projects
  import Decimal
  import Sorting
  import R = Repositories

  type ProjectRepository = R.Repository<string, Project>

  function ProjectKey(p: Project): string {
    p.title
  }

  function NewRepository(): (r: ProjectRepository)
    ensures R.Valid(r) && r.key == ProjectKey && r.rows == []
  {
    R.Empty(ProjectKey)
  }

  /** `get_project(title)`: the project with that title, or nothing. */
  function GetProject(r: ProjectRepository, title: string): (o: Option<Project>)
    requires r.key == ProjectKey
    ensures o.Some? ==> o.value in r.rows && o.value.title == title
    ensures o.None? <==> forall p :: p in r.rows ==> p.title != title
  {
    R.Get(r, title)
  }

  /** `save(project)`: an upsert keyed by title. */
  function SaveProject(r: ProjectRepository, p: Project): (r': ProjectRepository)
    requires r.key == ProjectKey
    ensures r'.key == ProjectKey
    ensures GetProject(r', p.title) == Some(p)
    ensures forall t :: t != p.title ==> GetProject(r', t) == GetProject(r, t)
    ensures |r'.rows| == |r.rows| + (if GetProject(r, p.title).None? then 1 else 0)
  {
    R.GetAfterSave(r, p);
    forall t | t != p.title ensures R.Get(R.Save(r, p), t) == R.Get(r, t) {
      R.SaveKeepsOthers(r, p, t);
    }
    R.Save(r, p)
  }

  /** `get_all_projects(filter_=..., order_by=...)`. */
  function GetAllProjects(r: ProjectRepository, filter: Option<Project -> bool>,
                          order: Option<(Project, Project) -> bool>): (s: seq<Project>)
    ensures forall p :: p in s <==> p in r.rows && (filter.None? || filter.value(p))
    ensures filter.None? ==> |s| == |r.rows|
    ensures filter.None? ==> multiset(s) == multiset(r.rows)
    ensures filter.Some? ==> multiset(s) == multiset(Sorting.Filter(r.rows, filter.value))
    ensures order.Some? && Sorting.IsTotalPreorder(order.value) ==> Sorting.Sorted(s, order.value)
    ensures order.None? ==> s == (if filter.Some? then Sorting.Filter(r.rows, filter.value) else r.rows)
  {
    var s := R.GetAll(r, filter, order);
    R.GetAllSortedWhenOrdered(r, filter, order);
    forall p ensures p in s <==> p in r.rows && (filter.None? || filter.value(p)) {
      R.GetAllMembers(r, filter, order, p);
    }
    assert filter.None? ==> |s| == |multiset(s)| == |multiset(r.rows)| == |r.rows|;
    s
  }

  /** The order `"-title"`: greatest title first. */
  function ByTitleDescending(): (Project, Project) -> bool {
    (a: Project, b: Project) => Sorting.StrLe(b.title, a.title)
  }

  lemma ByTitleDescendingIsSortKey()
    ensures Sorting.IsTotalPreorder(ByTitleDescending())
  {
    forall a: Project, b: Project
      ensures ByTitleDescending()(a, b) || ByTitleDescending()(b, a)
    {
      Sorting.StrLeTotal(a.title, b.title);
    }
    forall a: Project, b: Project, c: Project
      | ByTitleDescending()(a, b) && ByTitleDescending()(b, c)
      ensures ByTitleDescending()(a, c)
    {
      Sorting.StrLeTrans(c.title, b.title, a.title);
    }
  }

  /** Projects titled `"0"` to `"9"`, in that order. */
  predicate TitledByDigits(projects: seq<Project>) {
    |projects| == 10 && forall i :: 0 <= i < 10 ==> projects[i].title == Decimal.NatToString(i)
  }

  /** The title of each of those projects is one digit. */
  lemma DigitTitles(projects: seq<Project>)
    requires TitledByDigits(projects)
    ensures forall i :: 0 <= i < 10 ==> projects[i].title == [Decimal.DigitChar(i)]
  {
  }

  /** Their titles are distinct, so saving them into a fresh repository
      stores them in order. */
  lemma SaveDigitTitledRows(projects: seq<Project>)
    requires TitledByDigits(projects)
    ensures R.SaveAll(NewRepository(), projects).rows == projects
  {
    DigitTitles(projects);
    assert forall i, j :: 0 <= i < j < 10 ==> projects[i].title != projects[j].title;
    R.SaveAllFresh(NewRepository(), projects);
  }

  /** The head of the `"-title"` listing has the greatest title. */
  lemma TitleDescendingHead(r: ProjectRepository, x: Project)
    requires x in r.rows
    ensures var s := R.GetAll(r, None, Some(ByTitleDescending()));
      |s| == |r.rows| && s[0] in r.rows && Sorting.StrLe(x.title, s[0].title)
  {
    ByTitleDescendingIsSortKey();
    R.GetAllHead(r, ByTitleDescending(), x);
  }

  /** Among those projects, ordering by `"-title"` puts `"9"` first. */
  lemma GreatestTitleFirst(projects: seq<Project>)
    requires TitledByDigits(projects)
    ensures var s := GetAllProjects(R.SaveAll(NewRepository(), projects), None, Some(ByTitleDescending()));
      |s| == 10 && s[0].title == "9"
  {
    var r := R.SaveAll(NewRepository(), projects);
    SaveDigitTitledRows(projects);
    TitleDescendingHead(r, projects[9]);
    var s := R.GetAll(r, None, Some(ByTitleDescending()));
    var i :| 0 <= i < 10 && projects[i] == s[0];
    DigitTitles(projects);
    assert Sorting.StrLe([Decimal.DigitChar(9)], [Decimal.DigitChar(i)]);
  }

  /** Saving the projects titled `"0"` to `"9"` into a fresh repository:
      nothing can be read before, afterwards all ten come back with `"0"`
      first, and ordering by `"-title"` puts `"9"` first. */
  lemma SaveDigitTitledProjects(projects: seq<Project>)
    requires TitledByDigits(projects)
    ensures forall t :: GetProject(NewRepository(), t).None?
    ensures GetAllProjects(NewRepository(), None, None) == []
    ensures var r := R.SaveAll(NewRepository(), projects);
      GetAllProjects(r, None, None) == projects && projects[0].title == "0"
      && |GetAllProjects(r, None, Some(ByTitleDescending()))| == 10
      && GetAllProjects(r, None, Some(ByTitleDescending()))[0].title == "9"
  {
    SaveDigitTitledRows(projects);
    GreatestTitleFirst(projects);
    DigitTitles(projects);
  }
}
