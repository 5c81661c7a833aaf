/**
  The simplest paginated endpoint: projects in one map, listed by name in
  ascending order, with the name of the last project as the selector.
 */
module BasicScan {
  import opened Wrappers
  import opened Ordering
  import opened KeysetScan
  import opened Pagination
  import opened PagedRun
  import ProjectScan

  type Project = ProjectScan.Project

  type Tree = map<string, Project>

  datatype EmptyScanParams = EmptyScanParams

  datatype ProjectPage = ProjectPage(name: string)

  /** Every project is filed under its name. */
  predicate Filed(tree: Tree) {
    forall n :: n in tree ==> tree[n].name == n
  }

  function Projects(tree: Tree): set<Project> {
    set n | n in tree :: tree[n]
  }

  function ByName(p: Project, q: Project): bool {
    Before(p.name, q.name)
  }

  lemma ByNameIsStrictOrder()
    ensures StrictOrder(ByName)
  {
    BeforeIsStrictTotalOrder();
  }

  /** The names in order, from the first one or from the one after the last seen. */
  function NamesFor(tree: Tree, page: WhichPage<EmptyScanParams, ProjectPage>): (names: seq<string>)
    ensures Increasing(Before, names)
    ensures forall n :: n in names <==> n in tree && (page.Next? ==> Before(page.selector.name, n))
  {
    BeforeIsStrictTotalOrder();
    var names := InOrder(Before, tree.Keys);
    match page
    case First(_) => names
    case Next(ProjectPage(last)) =>
      ProjectScan.WhereKeepsOrder(Before, names, n => Before(last, n));
      ProjectScan.Where(names, n => Before(last, n))
  }

  function SelectorFor(p: Project, params: EmptyScanParams): ProjectPage {
    ProjectPage(p.name)
  }

  function ListProjects(json: Json<ProjectPage>, tree: Tree, page: WhichPage<EmptyScanParams, ProjectPage>, limit: nat)
    : Result<ResultsPage<Project>, TokenError>
  {
    var projects := ProjectScan.Take(ProjectScan.Values(tree, NamesFor(tree, page)), limit);
    NewResultsPage(json, projects, EmptyScanParams, SelectorFor)
  }

  /** The endpoint returns the first projects after the last one seen, with a token for what follows. */
  lemma ListedIsPage(json: Json<ProjectPage>, tree: Tree, last: Option<Project>, limit: nat)
    requires Faithful(json) && Filed(tree)
    requires ListProjects(json, tree, RequestAfter(SelectorFor, EmptyScanParams, last), limit).Ok?
    ensures var response := ListProjects(json, tree, RequestAfter(SelectorFor, EmptyScanParams, last), limit).value;
      && IsPage(ByName, Projects(tree), last, limit, response.items)
      && Resumes(json, SelectorFor, EmptyScanParams, response)
  {
    var names := NamesFor(tree, RequestAfter(SelectorFor, EmptyScanParams, last));
    var walk := ProjectScan.Values(tree, names);
    WalkIs(tree, last);
    hide IsPage, ProjectScan.Values, DeserializePageToken, SerializePageToken, Faithful;
    ProjectScan.TakenIsPage(ByName, Projects(tree), last, limit, walk);
    NextPageResumesAfterLast(json, ProjectScan.Take(walk, limit), EmptyScanParams, SelectorFor);
  }

  /**
    When the endpoint answers: for any filed projects, any last name and any limit
    there is the page that is asked for, and the answer is this page, unless it ends
    with a name whose selector has no JSON form of at most 384 bytes.
   */
  lemma AnswersIff(json: Json<ProjectPage>, tree: Tree, last: Option<Project>, limit: nat) returns (page: seq<Project>)
    requires Filed(tree)
    ensures IsPage(ByName, Projects(tree), last, limit, page)
    ensures var r := ListProjects(json, tree, RequestAfter(SelectorFor, EmptyScanParams, last), limit);
      && (r.Ok? <==> page != [] ==> TokenFits(json, ProjectPage(LastOf(page).value.name)))
      && (r.Ok? ==> r.value.items == page && (r.value.nextPage.None? <==> page == []))
  {
    var walk := ProjectScan.Values(tree, NamesFor(tree, RequestAfter(SelectorFor, EmptyScanParams, last)));
    WalkIs(tree, last);
    page := ProjectScan.Take(walk, limit);
    hide IsPage, ProjectScan.Values, SerializePageToken;
    ProjectScan.TakenIsPage(ByName, Projects(tree), last, limit, walk);
    if page != [] { TokenFitsIff(json, ProjectPage(LastOf(page).value.name)); }
  }

  lemma WalkIs(tree: Tree, last: Option<Project>)
    requires Filed(tree)
    ensures var walk := ProjectScan.Values(tree, NamesFor(tree, RequestAfter(SelectorFor, EmptyScanParams, last)));
      Increasing(ByName, walk) && forall p :: p in walk <==> p in Projects(tree) && After(ByName, last, p)
  {
    var names := NamesFor(tree, RequestAfter(SelectorFor, EmptyScanParams, last));
    ProjectScan.ValuesInOrder(Before, tree, names, ProjectScan.NameOf, ByName);
    assert forall p :: p in Projects(tree) <==> p.name in tree && tree[p.name] == p;
  }

  // ------------------------------------------------------------------ whole runs

  type ParseParams = map<string, string> -> Option<EmptyScanParams>

  type TreeRun = Run<Tree, Project>

  /** The endpoint as its clients meet it. */
  ghost function Lister(json: Json<ProjectPage>, fromMap: ParseParams)
    : Endpoint<Tree, Project, EmptyScanParams, ProjectPage>
  {
    Endpoint(json, fromMap, Filed, Projects, (tree, page, limit) => ListProjects(json, tree, page, limit),
             SelectorFor, _ => ByName)
  }

  lemma ListerListsPages(json: Json<ProjectPage>, fromMap: ParseParams)
    requires Faithful(json)
    ensures ListsPages(Lister(json, fromMap), EmptyScanParams)
    ensures OrderedBySelector(Lister(json, fromMap), EmptyScanParams)
  {
    ByNameIsStrictOrder();
    OrderKnowsNames(json, fromMap);
    hide ByName, Projects, Filed, ListProjects, IsPage, Resumes, OrderedBySelector, StrictOrder;
    forall tree, last, limit ensures ListsPage(Lister(json, fromMap), EmptyScanParams, tree, last, limit) {
      if Filed(tree) && ListProjects(json, tree, RequestAfter(SelectorFor, EmptyScanParams, last), limit).Ok? {
        ListedIsPage(json, tree, last, limit);
      }
    }
  }

  lemma OrderKnowsNames(json: Json<ProjectPage>, fromMap: ParseParams)
    ensures OrderedBySelector(Lister(json, fromMap), EmptyScanParams)
  {
    hide Before;
  }

  /** Request `i` is understood as "after the last project of the page before". */
  lemma RunResumes(json: Json<ProjectPage>, fromMap: ParseParams, config: PageConfig, run: TreeRun, i: nat)
    requires Faithful(json) && IsRun(Lister(json, fromMap), config, EmptyScanParams, run) && i < |run.queries|
    ensures DeserializeWhichPage(json, fromMap, run.queries[i])
         == Ok(RequestAfter(SelectorFor, EmptyScanParams, LastBefore(run, i)))
    ensures var limit := PageLimit(config, run.requested[i]);
      IsPage(ByName, Projects(run.data[i]), LastBefore(run, i), limit, run.responses[i].items)
    ensures Resumes(json, SelectorFor, EmptyScanParams, run.responses[i])
    ensures i > 0 ==> run.responses[i - 1].items != []
  {
    hide ListsPages, IsRun, IsPage, Resumes, RequestAfter;
    ListerListsPages(json, fromMap);
    RunKeepsItsScan(Lister(json, fromMap), config, EmptyScanParams, run, i);
  }

  /**
    Projects come by name and none twice, whatever changes in between; a finished
    run has returned a project of a name if and only if the name was filed when the
    scan came to it, and then the project that was filed.
   */
  lemma RunIsSafe(json: Json<ProjectPage>, fromMap: ParseParams, config: PageConfig, run: TreeRun, p: Project)
    returns (i: nat)
    requires Faithful(json) && IsRun(Lister(json, fromMap), config, EmptyScanParams, run)
    ensures Increasing(ByName, Returned(run))
    ensures Finished(run) ==>
      && i < |run.data| && Settles(ByName, PagesOf(run), p, i)
      && ((exists q :: q in Returned(run) && q.name == p.name) <==> p.name in run.data[i])
      && (p.name in run.data[i] ==> run.data[i][p.name] in Returned(run))
  {
    hide ListsPages, OrderedBySelector, Settles, ByName, Flatten;
    ListerListsPages(json, fromMap);
    RunIsIncreasing(Lister(json, fromMap), config, EmptyScanParams, run);
    i := 0;
    if Finished(run) {
      i := RunReturnsIff(Lister(json, fromMap), config, EmptyScanParams, run, p);
      assert Answered(Lister(json, fromMap), config, run, i);
      FiledAre(run.data[i], p.name);
    }
  }

  lemma FiledAre(tree: Tree, name: string)
    requires Filed(tree)
    ensures forall q :: q in Projects(tree) && q.name == name <==> name in tree && q == tree[name]
  {
  }

  /**
    While the projects stay as they are, n of them take at most n + 1 requests, and
    a finished run returned just them.
   */
  lemma RunOverUnchangingProjects(json: Json<ProjectPage>, fromMap: ParseParams, config: PageConfig, run: TreeRun,
                                  projects: set<Project>)
    requires Faithful(json) && IsRun(Lister(json, fromMap), config, EmptyScanParams, run)
    requires forall i :: 0 <= i < |run.data| ==> Projects(run.data[i]) == projects
    ensures |run.responses| <= |projects| + 1
    ensures Finished(run) ==> forall p :: p in Returned(run) <==> p in projects
  {
    hide ListsPages, OrderedBySelector, Projects, IsRun, Flatten;
    ListerListsPages(json, fromMap);
    RunOverUnchangingItems(Lister(json, fromMap), config, EmptyScanParams, run, projects);
  }
}
