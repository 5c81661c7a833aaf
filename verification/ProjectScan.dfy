/**
  The example endpoint that lists projects in four orders, and what its clients
  can rely on over a whole scan while the projects change between requests.
 */
module ProjectScan {
  import opened Wrappers
  import opened Ordering
  import opened KeysetScan
  import opened Pagination
  import opened PagedRun

  /** A project; what else there is to it comes last. */
  datatype Project = Project(name: string, mtime: int, details: string)

  datatype PaginationOrder = Ascending | Descending

  datatype ProjectSort = ByNameAscending | ByNameDescending | ByMtimeAscending | ByMtimeDescending

  datatype Selector =
    | Name(order: PaginationOrder, name: string)
    | MtimeName(order: PaginationOrder, mtime: int, name: string)

  function PageSelectorFor(last: Project, sort: ProjectSort): Selector {
    match sort
    case ByNameAscending => Name(Ascending, last.name)
    case ByNameDescending => Name(Descending, last.name)
    case ByMtimeAscending => MtimeName(Ascending, last.mtime, last.name)
    case ByMtimeDescending => MtimeName(Descending, last.mtime, last.name)
  }

  function SortOf(page: WhichPage<ProjectSort, Selector>): ProjectSort {
    match page
    case First(sort) => sort
    case Next(Name(Ascending, _)) => ByNameAscending
    case Next(Name(Descending, _)) => ByNameDescending
    case Next(MtimeName(Ascending, _, _)) => ByMtimeAscending
    case Next(MtimeName(Descending, _, _)) => ByMtimeDescending
  }

  // ------------------------------------------------------------- the collection

  type MtimeKey = (int, string)

  function MtimeBefore(a: MtimeKey, b: MtimeKey): bool {
    a.0 < b.0 || (a.0 == b.0 && Before(a.1, b.1))
  }

  lemma MtimeBeforeIsStrictTotalOrder()
    ensures StrictTotalOrder(MtimeBefore)
  {
    BeforeIsStrictTotalOrder();
  }

  /** The projects, indexed by name and by modification time with name. */
  datatype ProjectCollection = ProjectCollection(byName: map<string, Project>, byMtime: map<MtimeKey, Project>)

  function KeyOf(p: Project): MtimeKey {
    (p.mtime, p.name)
  }

  /** Both indexes file the same projects under their own keys. */
  ghost predicate Consistent(data: ProjectCollection) {
    && (forall n :: n in data.byName ==> data.byName[n].name == n)
    && (forall k :: k in data.byMtime ==> KeyOf(data.byMtime[k]) == k)
    && (forall p: Project :: (p.name in data.byName && data.byName[p.name] == p)
                        <==> (KeyOf(p) in data.byMtime && data.byMtime[KeyOf(p)] == p))
  }

  function Projects(data: ProjectCollection): set<Project> {
    set n | n in data.byName :: data.byName[n]
  }

  function IndexByName(projects: seq<Project>): map<string, Project> {
    if projects == [] then map[]
    else
      var last := projects[|projects| - 1];
      IndexByName(projects[..|projects| - 1])[last.name := last]
  }

  function IndexByMtime(projects: seq<Project>): map<MtimeKey, Project> {
    if projects == [] then map[]
    else
      var last := projects[|projects| - 1];
      IndexByMtime(projects[..|projects| - 1])[KeyOf(last) := last]
  }

  /** Fills both indexes with the given projects. */
  method NewCollection(projects: seq<Project>) returns (data: ProjectCollection)
    ensures data == ProjectCollection(IndexByName(projects), IndexByMtime(projects))
  {
    var byName: map<string, Project> := map[];
    var byMtime: map<MtimeKey, Project> := map[];
    for i := 0 to |projects|
      invariant byName == IndexByName(projects[..i]) && byMtime == IndexByMtime(projects[..i])
    {
      assert projects[..i + 1][..i] == projects[..i];
      byName := byName[projects[i].name := projects[i]];
      byMtime := byMtime[KeyOf(projects[i]) := projects[i]];
    }
    assert projects[..|projects|] == projects;
    return ProjectCollection(byName, byMtime);
  }

  function NameOf(p: Project): string {
    p.name
  }

  /** The last of the projects with its key. */
  predicate LastWith<K(==)>(projects: seq<Project>, keyOf: Project -> K, p: Project) {
    exists i :: 0 <= i < |projects| && projects[i] == p
      && forall j :: i < j < |projects| ==> keyOf(projects[j]) != keyOf(p)
  }

  lemma LastWithOneMore<K>(init: seq<Project>, last: Project, keyOf: Project -> K, p: Project)
    ensures LastWith(init + [last], keyOf, p) <==> p == last || (LastWith(init, keyOf, p) && keyOf(p) != keyOf(last))
  {
    var all := init + [last];
    assert all[|init|] == last;
    if LastWith(init, keyOf, p) && keyOf(p) != keyOf(last) {
      var i :| 0 <= i < |init| && init[i] == p && forall j :: i < j < |init| ==> keyOf(init[j]) != keyOf(p);
      assert all[i] == p;
    }
    if LastWith(all, keyOf, p) && p != last {
      var i :| 0 <= i < |all| && all[i] == p && forall j :: i < j < |all| ==> keyOf(all[j]) != keyOf(p);
      assert i < |init| && init[i] == p;
      assert forall j :: i < j < |init| ==> init[j] == all[j];
    }
  }

  /** Each index files the last project of each key. */
  lemma {:induction false} IndexedAreLast(projects: seq<Project>, p: Project)
    ensures LastWith(projects, NameOf, p) <==> p.name in IndexByName(projects) && IndexByName(projects)[p.name] == p
    ensures LastWith(projects, KeyOf, p) <==>
      KeyOf(p) in IndexByMtime(projects) && IndexByMtime(projects)[KeyOf(p)] == p
  {
    hide LastWith, KeyOf;
    if projects == [] {
      NoneIsLast(p);
    } else {
      var init, last := projects[..|projects| - 1], projects[|projects| - 1];
      assert projects == init + [last];
      IndexedAreLast(init, p);
      LastWithOneMore(init, last, NameOf, p);
      LastWithOneMore(init, last, KeyOf, p);
    }
  }

  lemma NoneIsLast(p: Project)
    ensures !LastWith([], NameOf, p) && !LastWith([], KeyOf, p)
  {
  }

  lemma {:induction false} IndexedUnderTheirKeys(projects: seq<Project>)
    ensures forall n :: n in IndexByName(projects) ==> IndexByName(projects)[n].name == n
    ensures forall k :: k in IndexByMtime(projects) ==> KeyOf(IndexByMtime(projects)[k]) == k
    ensures forall p :: p in projects ==> p.name in IndexByName(projects) && KeyOf(p) in IndexByMtime(projects)
  {
    if projects != [] {
      IndexedUnderTheirKeys(projects[..|projects| - 1]);
    }
  }

  /** No name stands for projects of different modification times. */
  ghost predicate OneMtimeEach(projects: seq<Project>) {
    forall p, q :: p in projects && q in projects && p.name == q.name ==> p.mtime == q.mtime
  }

  /**
    The two indexes agree if and only if projects of one name have one modification
    time; they then hold the last project of each name.
   */
  lemma CollectionConsistentIff(projects: seq<Project>)
    ensures var data := ProjectCollection(IndexByName(projects), IndexByMtime(projects));
      && (Consistent(data) <==> OneMtimeEach(projects))
      && forall p :: p in Projects(data) <==> LastWith(projects, NameOf, p)
  {
    hide *;
    var data := ProjectCollection(IndexByName(projects), IndexByMtime(projects));
    IndexedUnderTheirKeys(projects);
    FiledAreLast(projects, data);
    if OneMtimeEach(projects) { OneMtimeAgrees(projects, data); }
    if Consistent(data) { AgreeingHaveOneMtime(projects, data); }
  }

  lemma FiledAreLast(projects: seq<Project>, data: ProjectCollection)
    requires data == ProjectCollection(IndexByName(projects), IndexByMtime(projects))
    ensures forall p :: LastWith(projects, NameOf, p) <==> p.name in data.byName && data.byName[p.name] == p
    ensures forall p :: LastWith(projects, KeyOf, p) <==> KeyOf(p) in data.byMtime && data.byMtime[KeyOf(p)] == p
    ensures forall p :: p in Projects(data) <==> LastWith(projects, NameOf, p)
  {
    hide LastWith, KeyOf;
    IndexedUnderTheirKeys(projects);
    forall p ensures LastWith(projects, NameOf, p) <==> p.name in data.byName && data.byName[p.name] == p
      ensures LastWith(projects, KeyOf, p) <==> KeyOf(p) in data.byMtime && data.byMtime[KeyOf(p)] == p
    {
      IndexedAreLast(projects, p);
    }
    hide IndexByName, IndexByMtime;
  }

  lemma OneMtimeAgrees(projects: seq<Project>, data: ProjectCollection)
    requires OneMtimeEach(projects)
    requires forall n :: n in data.byName ==> data.byName[n].name == n
    requires forall k :: k in data.byMtime ==> KeyOf(data.byMtime[k]) == k
    requires forall p :: LastWith(projects, NameOf, p) <==> p.name in data.byName && data.byName[p.name] == p
    requires forall p :: LastWith(projects, KeyOf, p) <==> KeyOf(p) in data.byMtime && data.byMtime[KeyOf(p)] == p
    ensures Consistent(data)
  {
    hide OneMtimeEach, LastWith, KeyOf;
    forall p ensures LastWith(projects, NameOf, p) <==> LastWith(projects, KeyOf, p) { SameLast(projects, p); }
  }

  lemma AgreeingHaveOneMtime(projects: seq<Project>, data: ProjectCollection)
    requires Consistent(data)
    requires forall p :: p in projects ==> p.name in data.byName && KeyOf(p) in data.byMtime
    ensures OneMtimeEach(projects)
  {
    forall p, q | p in projects && q in projects && p.name == q.name ensures p.mtime == q.mtime {
      assert KeyOf(data.byMtime[KeyOf(p)]) == KeyOf(p) && KeyOf(data.byMtime[KeyOf(q)]) == KeyOf(q);
      assert data.byName[p.name] == data.byMtime[KeyOf(p)];
      assert data.byName[q.name] == data.byMtime[KeyOf(q)];
    }
  }

  lemma SameLast(projects: seq<Project>, p: Project)
    requires OneMtimeEach(projects)
    ensures LastWith(projects, NameOf, p) <==> LastWith(projects, KeyOf, p)
  {
    if p in projects {
      forall j | 0 <= j < |projects| ensures projects[j].name == p.name <==> KeyOf(projects[j]) == KeyOf(p) {
        assert projects[j] in projects;
      }
    }
  }

  // ---------------------------------------------------------------- the iterators

  function Values<K>(index: map<K, Project>, keys: seq<K>): (r: seq<Project>)
    requires forall k :: k in keys ==> k in index
    ensures |r| == |keys| && forall i :: 0 <= i < |r| ==> r[i] == index[keys[i]]
  {
    seq(|keys|, i requires 0 <= i < |keys| => index[keys[i]])
  }

  function Where<K(!new)>(keys: seq<K>, keep: K -> bool): (r: seq<K>)
    ensures forall k :: k in r <==> k in keys && keep(k)
  {
    if keys == [] then []
    else (if keep(keys[0]) then [keys[0]] else []) + Where(keys[1..], keep)
  }

  function Reversed<K(!new)>(keys: seq<K>): (r: seq<K>)
    ensures |r| == |keys| && forall i :: 0 <= i < |r| ==> r[i] == keys[|keys| - 1 - i]
    ensures forall k :: k in r <==> k in keys
  {
    var r := seq(|keys|, i requires 0 <= i < |keys| => keys[|keys| - 1 - i]);
    assert forall i :: 0 <= i < |keys| ==> keys[i] == r[|keys| - 1 - i];
    r
  }

  function NamesInOrder(data: ProjectCollection): (r: seq<string>)
    ensures Increasing(Before, r) && forall n :: n in r <==> n in data.byName
  {
    BeforeIsStrictTotalOrder();
    InOrder(Before, data.byName.Keys)
  }

  function MtimesInOrder(data: ProjectCollection): (r: seq<MtimeKey>)
    ensures Increasing(MtimeBefore, r) && forall k :: k in r <==> k in data.byMtime
  {
    MtimeBeforeIsStrictTotalOrder();
    InOrder(MtimeBefore, data.byMtime.Keys)
  }

  /** The keys strictly after, or strictly before, the last one seen. */
  function NamesAfter(data: ProjectCollection, last: string): (r: seq<string>)
    ensures Increasing(Before, r) && forall n :: n in r <==> n in data.byName && Before(last, n)
  {
    WhereKeepsOrder(Before, NamesInOrder(data), n => Before(last, n));
    Where(NamesInOrder(data), n => Before(last, n))
  }

  function NamesBefore(data: ProjectCollection, last: string): (r: seq<string>)
    ensures Increasing(Before, r) && forall n :: n in r <==> n in data.byName && Before(n, last)
  {
    WhereKeepsOrder(Before, NamesInOrder(data), n => Before(n, last));
    Where(NamesInOrder(data), n => Before(n, last))
  }

  function MtimesAfter(data: ProjectCollection, last: MtimeKey): (r: seq<MtimeKey>)
    ensures Increasing(MtimeBefore, r) && forall k :: k in r <==> k in data.byMtime && MtimeBefore(last, k)
  {
    WhereKeepsOrder(MtimeBefore, MtimesInOrder(data), k => MtimeBefore(last, k));
    Where(MtimesInOrder(data), k => MtimeBefore(last, k))
  }

  function MtimesBefore(data: ProjectCollection, last: MtimeKey): (r: seq<MtimeKey>)
    ensures Increasing(MtimeBefore, r) && forall k :: k in r <==> k in data.byMtime && MtimeBefore(k, last)
  {
    WhereKeepsOrder(MtimeBefore, MtimesInOrder(data), k => MtimeBefore(k, last));
    Where(MtimesInOrder(data), k => MtimeBefore(k, last))
  }

  /** The projects that a page request walks over, in its order and from its starting point. */
  function Iterate(data: ProjectCollection, page: WhichPage<ProjectSort, Selector>): seq<Project> {
    match page
    case First(ByNameAscending) => Values(data.byName, NamesInOrder(data))
    case First(ByNameDescending) => Values(data.byName, Reversed(NamesInOrder(data)))
    case First(ByMtimeAscending) => Values(data.byMtime, MtimesInOrder(data))
    case First(ByMtimeDescending) => Values(data.byMtime, Reversed(MtimesInOrder(data)))
    case Next(Name(Ascending, last)) => Values(data.byName, NamesAfter(data, last))
    case Next(Name(Descending, last)) => Values(data.byName, Reversed(NamesBefore(data, last)))
    case Next(MtimeName(Ascending, mtime, name)) => Values(data.byMtime, MtimesAfter(data, (mtime, name)))
    case Next(MtimeName(Descending, mtime, name)) => Values(data.byMtime, Reversed(MtimesBefore(data, (mtime, name))))
  }

  function Take<T>(xs: seq<T>, limit: nat): seq<T> {
    if |xs| <= limit then xs else xs[..limit]
  }

  /** The endpoint: one page of projects in the order that the request, or its token, asks for. */
  function ListProjects(json: Json<Selector>, data: ProjectCollection, page: WhichPage<ProjectSort, Selector>,
                        limit: nat)
    : Result<ResultsPage<Project>, TokenError>
  {
    NewResultsPage(json, Take(Iterate(data, page), limit), SortOf(page), PageSelectorFor)
  }

  // ------------------------------------------------------------- what a page is

  /** The order of a scan mode. */
  function Precedes(sort: ProjectSort): (Project, Project) -> bool {
    match sort
    case ByNameAscending => (p: Project, q: Project) => Before(p.name, q.name)
    case ByNameDescending => (p: Project, q: Project) => Before(q.name, p.name)
    case ByMtimeAscending => (p: Project, q: Project) => MtimeBefore(KeyOf(p), KeyOf(q))
    case ByMtimeDescending => (p: Project, q: Project) => MtimeBefore(KeyOf(q), KeyOf(p))
  }

  lemma PrecedesIsStrictOrder(sort: ProjectSort)
    ensures StrictOrder(Precedes(sort))
  {
    BeforeIsStrictTotalOrder();
    MtimeBeforeIsStrictTotalOrder();
  }

  lemma {:induction false} WhereKeepsOrder<K(!new)>(lt: (K, K) -> bool, keys: seq<K>, keep: K -> bool)
    requires Increasing(lt, keys)
    ensures Increasing(lt, Where(keys, keep))
  {
    if keys != [] {
      WhereKeepsOrder(lt, keys[1..], keep);
      assert forall k :: k in Where(keys[1..], keep) ==> k in keys[1..];
      forall k | k in keys[1..] ensures lt(keys[0], k) {
        var i :| 0 <= i < |keys[1..]| && keys[1..][i] == k;
      }
    }
  }

  /** What the walk over an index gives: its projects in the order of the keys. */
  lemma ValuesInOrder<K(!new)>(lt: (K, K) -> bool, index: map<K, Project>, keys: seq<K>, keyOf: Project -> K,
                               before: (Project, Project) -> bool)
    requires Increasing(lt, keys) && forall k :: k in keys ==> k in index
    requires forall k :: k in index ==> keyOf(index[k]) == k
    requires forall p, q :: before(p, q) == lt(keyOf(p), keyOf(q))
    ensures Increasing(before, Values(index, keys))
    ensures forall p :: p in Values(index, keys) <==> keyOf(p) in keys && index[keyOf(p)] == p
  {
    var values := Values(index, keys);
    forall p ensures p in values <==> keyOf(p) in keys && index[keyOf(p)] == p {
      if p in values {
        var i :| 0 <= i < |values| && values[i] == p;
        assert keys[i] in keys;
      }
      if keyOf(p) in keys && index[keyOf(p)] == p {
        var i :| 0 <= i < |keys| && keys[i] == keyOf(p);
        assert values[i] == p;
      }
    }
    assert forall i :: 0 <= i < |keys| ==> keys[i] in keys;
  }

  lemma ReversedReversesOrder<K(!new)>(lt: (K, K) -> bool, gt: (K, K) -> bool, keys: seq<K>)
    requires Increasing(lt, keys) && forall x, y :: gt(x, y) == lt(y, x)
    ensures Increasing(gt, Reversed(keys))
  {
  }

  function NameAfter(a: string, b: string): bool {
    Before(b, a)
  }

  function MtimeAfter(a: MtimeKey, b: MtimeKey): bool {
    MtimeBefore(b, a)
  }

  /** A walk over exactly the projects after the last one seen, in the order of the mode. */
  ghost predicate WalksAfter(data: ProjectCollection, sort: ProjectSort, last: Option<Project>, walk: seq<Project>) {
    && Increasing(Precedes(sort), walk)
    && forall p :: p in walk <==> p in Projects(data) && After(Precedes(sort), last, p)
  }

  /** Walking an index over just the keys after that of the last item is walking the projects after it. */
  lemma WalkOfIndex<K(!new)>(data: ProjectCollection, sort: ProjectSort, last: Option<Project>,
                             lt: (K, K) -> bool, index: map<K, Project>, keys: seq<K>, keyOf: Project -> K)
    requires Increasing(lt, keys)
    requires forall k :: k in keys <==> k in index && (last.Some? ==> lt(keyOf(last.value), k))
    requires forall k :: k in index ==> keyOf(index[k]) == k
    requires forall p :: p in Projects(data) <==> keyOf(p) in index && index[keyOf(p)] == p
    requires forall p, q :: Precedes(sort)(p, q) == lt(keyOf(p), keyOf(q))
    ensures WalksAfter(data, sort, last, Values(index, keys))
  {
    hide Precedes, Projects, Values;
    ValuesInOrder(lt, index, keys, keyOf, Precedes(sort));
  }

  lemma FiledByName(data: ProjectCollection)
    requires Consistent(data)
    ensures forall p :: p in Projects(data) <==> p.name in data.byName && data.byName[p.name] == p
    ensures forall n :: n in data.byName ==> data.byName[n].name == n
  {
  }

  lemma FiledByMtime(data: ProjectCollection)
    requires Consistent(data)
    ensures forall p :: p in Projects(data) <==> KeyOf(p) in data.byMtime && data.byMtime[KeyOf(p)] == p
    ensures forall k :: k in data.byMtime ==> KeyOf(data.byMtime[k]) == k
  {
    FiledByName(data);
  }

  lemma ByNameWalks(data: ProjectCollection, sort: ProjectSort, last: Option<Project>)
    requires Consistent(data) && (sort.ByNameAscending? || sort.ByNameDescending?)
    ensures WalksAfter(data, sort, last, Iterate(data, RequestAfter(PageSelectorFor, sort, last)))
  {
    FiledByName(data);
    hide Consistent, Projects, WalksAfter, Before, NamesInOrder, NamesAfter, NamesBefore, Reversed, Values;
    if sort == ByNameAscending {
      var keys := if last.None? then NamesInOrder(data) else NamesAfter(data, last.value.name);
      WalkOfIndex(data, sort, last, Before, data.byName, keys, NameOf);
    } else {
      var keys := if last.None? then NamesInOrder(data) else NamesBefore(data, last.value.name);
      ReversedReversesOrder(Before, NameAfter, keys);
      WalkOfIndex(data, sort, last, NameAfter, data.byName, Reversed(keys), NameOf);
    }
  }

  lemma ByMtimeWalks(data: ProjectCollection, sort: ProjectSort, last: Option<Project>)
    requires Consistent(data) && (sort.ByMtimeAscending? || sort.ByMtimeDescending?)
    ensures WalksAfter(data, sort, last, Iterate(data, RequestAfter(PageSelectorFor, sort, last)))
  {
    FiledByMtime(data);
    hide Consistent, Projects, WalksAfter, MtimeBefore, MtimesInOrder, MtimesAfter, MtimesBefore, Reversed, Values;
    if sort == ByMtimeAscending {
      var keys := if last.None? then MtimesInOrder(data) else MtimesAfter(data, KeyOf(last.value));
      WalkOfIndex(data, sort, last, MtimeBefore, data.byMtime, keys, KeyOf);
    } else {
      var keys := if last.None? then MtimesInOrder(data) else MtimesBefore(data, KeyOf(last.value));
      ReversedReversesOrder(MtimeBefore, MtimeAfter, keys);
      WalkOfIndex(data, sort, last, MtimeAfter, data.byMtime, Reversed(keys), KeyOf);
    }
  }

  lemma IterateWalks(data: ProjectCollection, sort: ProjectSort, last: Option<Project>)
    requires Consistent(data)
    ensures WalksAfter(data, sort, last, Iterate(data, RequestAfter(PageSelectorFor, sort, last)))
  {
    hide *;
    match sort
    case ByNameAscending => ByNameWalks(data, sort, last);
    case ByNameDescending => ByNameWalks(data, sort, last);
    case ByMtimeAscending => ByMtimeWalks(data, sort, last);
    case ByMtimeDescending => ByMtimeWalks(data, sort, last);
  }

  lemma TakenIsPage<T(!new)>(lt: (T, T) -> bool, items: set<T>, last: Option<T>, limit: nat, walk: seq<T>)
    requires Increasing(lt, walk) && forall x :: x in walk <==> x in items && After(lt, last, x)
    ensures IsPage(lt, items, last, limit, Take(walk, limit))
  {
    var page := Take(walk, limit);
    assert forall x :: x in page ==> x in walk;
    assert forall k :: 0 <= k < |page| ==> walk[k] in page by {
      assert forall k :: 0 <= k < |page| ==> page[k] == walk[k];
    }
    forall x | x in walk && x !in page ensures |page| == limit && forall y :: y in page ==> lt(y, x) {
      var i :| 0 <= i < |walk| && walk[i] == x;
    }
  }

  /** A page answered by the endpoint is a page of the scan, and its token resumes the same scan after it. */
  lemma ListedIsPage(json: Json<Selector>, data: ProjectCollection, sort: ProjectSort, last: Option<Project>,
                     limit: nat)
    requires Faithful(json) && Consistent(data)
    requires ListProjects(json, data, RequestAfter(PageSelectorFor, sort, last), limit).Ok?
    ensures var response := ListProjects(json, data, RequestAfter(PageSelectorFor, sort, last), limit).value;
      && IsPage(Precedes(sort), Projects(data), last, limit, response.items)
      && Resumes(json, PageSelectorFor, sort, response)
  {
    hide *;
    var page := RequestAfter(PageSelectorFor, sort, last);
    IterateWalks(data, sort, last);
    RequestKeepsSort(sort, last);
    var projects := Iterate(data, page);
    var taken := Take(projects, limit);
    WalkIsPage(data, sort, last, limit, projects);
    ListProjectsIs(json, data, page, limit);
    NextPageResumesAfterLast(json, taken, sort, PageSelectorFor);
    ResumesIs(json, sort, ListProjects(json, data, page, limit).value);
  }

  lemma RequestKeepsSort(sort: ProjectSort, last: Option<Project>)
    ensures SortOf(RequestAfter(PageSelectorFor, sort, last)) == sort
  {
  }

  lemma WalkIsPage(data: ProjectCollection, sort: ProjectSort, last: Option<Project>, limit: nat, walk: seq<Project>)
    requires WalksAfter(data, sort, last, walk)
    ensures IsPage(Precedes(sort), Projects(data), last, limit, Take(walk, limit))
  {
    hide Precedes, Projects, IsPage;
    TakenIsPage(Precedes(sort), Projects(data), last, limit, walk);
  }

  lemma ListProjectsIs(json: Json<Selector>, data: ProjectCollection, page: WhichPage<ProjectSort, Selector>,
                       limit: nat)
    ensures ListProjects(json, data, page, limit)
         == NewResultsPage(json, Take(Iterate(data, page), limit), SortOf(page), PageSelectorFor)
  {
  }

  lemma ResumesIs(json: Json<Selector>, sort: ProjectSort, response: ResultsPage<Project>)
    requires response.nextPage.None? <==> response.items == []
    requires response.items != [] ==>
      DeserializePageToken(json, response.nextPage.value)
      == Ok(PageSelectorFor(response.items[|response.items| - 1], sort))
    ensures Resumes(json, PageSelectorFor, sort, response)
  {
  }

  /**
    When the endpoint answers: for any consistent projects, any order, last project
    and limit there is the page that is asked for, and the answer is this page,
    unless it ends with a project whose selector has no JSON form of at most 384 bytes.
   */
  lemma AnswersIff(json: Json<Selector>, data: ProjectCollection, sort: ProjectSort, last: Option<Project>,
                   limit: nat) returns (page: seq<Project>)
    requires Consistent(data)
    ensures IsPage(Precedes(sort), Projects(data), last, limit, page)
    ensures var r := ListProjects(json, data, RequestAfter(PageSelectorFor, sort, last), limit);
      && (r.Ok? <==> page != [] ==> TokenFits(json, PageSelectorFor(LastOf(page).value, sort)))
      && (r.Ok? ==> r.value.items == page && (r.value.nextPage.None? <==> page == []))
  {
    var walk := Iterate(data, RequestAfter(PageSelectorFor, sort, last));
    page := Take(walk, limit);
    hide Iterate, IsPage, Take, SerializePageToken, TokenFits, Precedes, Projects, Consistent, PageSelectorFor;
    IterateWalks(data, sort, last);
    WalkIsPage(data, sort, last, limit, walk);
    RequestKeepsSort(sort, last);
    ListProjectsIs(json, data, RequestAfter(PageSelectorFor, sort, last), limit);
    if page != [] { TokenFitsIff(json, PageSelectorFor(LastOf(page).value, sort)); }
  }

  /** What comes before what: by time, then name, or the other way round; or by name alone. */
  lemma OrdersMean(p: Project, q: Project)
    ensures p.mtime < q.mtime ==> Precedes(ByMtimeAscending)(p, q)
    ensures p.mtime == q.mtime ==> (Precedes(ByMtimeAscending)(p, q) <==> Precedes(ByNameAscending)(p, q))
    ensures Precedes(ByMtimeDescending)(p, q) <==> Precedes(ByMtimeAscending)(q, p)
    ensures Precedes(ByNameDescending)(p, q) <==> Precedes(ByNameAscending)(q, p)
    ensures Precedes(ByNameAscending)(p, q) <==> Before(p.name, q.name)
  {
  }

  // ------------------------------------------------------------------ whole runs

  type ParseParams = map<string, string> -> Option<ProjectSort>

  type ProjectRun = Run<ProjectCollection, Project>

  /** The endpoint as its clients meet it. */
  ghost function Lister(json: Json<Selector>, fromMap: ParseParams)
    : Endpoint<ProjectCollection, Project, ProjectSort, Selector>
  {
    Endpoint(json, fromMap, data => Consistent(data), Projects,
             (data, page, limit) => ListProjects(json, data, page, limit), PageSelectorFor, Precedes)
  }

  lemma ListerListsPages(json: Json<Selector>, fromMap: ParseParams, sort: ProjectSort)
    requires Faithful(json)
    ensures ListsPages(Lister(json, fromMap), sort) && OrderedBySelector(Lister(json, fromMap), sort)
  {
    PrecedesIsStrictOrder(sort);
    OrderKnowsSelectors(json, fromMap, sort);
    hide Precedes, Projects, Consistent, ListProjects, IsPage, Resumes, OrderedBySelector, StrictOrder;
    forall data, last, limit ensures ListsPage(Lister(json, fromMap), sort, data, last, limit) {
      if Consistent(data) && ListProjects(json, data, RequestAfter(PageSelectorFor, sort, last), limit).Ok? {
        ListedIsPage(json, data, sort, last, limit);
      }
    }
  }

  lemma OrderKnowsSelectors(json: Json<Selector>, fromMap: ParseParams, sort: ProjectSort)
    ensures OrderedBySelector(Lister(json, fromMap), sort)
  {
    hide Before;
  }

  /**
    The order recovered from each token is that of the first request: request
    `i` is understood as "in this order, after the last item of the page before".
   */
  lemma RunKeepsItsOrder(json: Json<Selector>, fromMap: ParseParams, config: PageConfig, sort: ProjectSort,
                         run: ProjectRun, i: nat)
    requires Faithful(json) && IsRun(Lister(json, fromMap), config, sort, run) && i < |run.queries|
    ensures DeserializeWhichPage(json, fromMap, run.queries[i])
         == Ok(RequestAfter(PageSelectorFor, sort, LastBefore(run, i)))
    ensures var limit := PageLimit(config, run.requested[i]);
      IsPage(Precedes(sort), Projects(run.data[i]), LastBefore(run, i), limit, run.responses[i].items)
    ensures Resumes(json, PageSelectorFor, sort, run.responses[i])
    ensures i > 0 ==> run.responses[i - 1].items != []
  {
    hide ListsPages, IsRun, IsPage, Resumes, RequestAfter;
    ListerListsPages(json, fromMap, sort);
    RunKeepsItsScan(Lister(json, fromMap), config, sort, run, i);
  }

  /** A project of this name, or of this modification time and name, is there. */
  ghost predicate Filed(data: ProjectCollection, key: Selector) {
    match key
    case Name(_, name) => name in data.byName
    case MtimeName(_, mtime, name) => (mtime, name) in data.byMtime
  }

  /** One of the projects has this selector in the order of the scan. */
  ghost predicate Lists(projects: seq<Project>, sort: ProjectSort, key: Selector) {
    exists p :: p in projects && PageSelectorFor(p, sort) == key
  }

  lemma FiledIff(data: ProjectCollection, sort: ProjectSort, p: Project)
    requires Consistent(data)
    ensures Filed(data, PageSelectorFor(p, sort)) <==>
      exists q :: q in Projects(data) && PageSelectorFor(q, sort) == PageSelectorFor(p, sort)
  {
    FiledByMtime(data);
    FiledByName(data);
    hide Consistent, Projects;
    if Filed(data, PageSelectorFor(p, sort)) {
      var q := if sort.ByNameAscending? || sort.ByNameDescending? then data.byName[p.name] else data.byMtime[KeyOf(p)];
      assert q in Projects(data) && PageSelectorFor(q, sort) == PageSelectorFor(p, sort);
    }
  }

  /**
    What exactly a finished run has returned.  Each project has one request that
    comes to its place in the order.  A project of its name (or, in the orders by
    modification time, of its time and name) is returned if and only if one was
    filed then, just as it was then; how it changes otherwise makes no difference.
   */
  lemma RunReturnsIff(json: Json<Selector>, fromMap: ParseParams, config: PageConfig, sort: ProjectSort,
                      run: ProjectRun, p: Project)
    returns (i: nat)
    requires Faithful(json) && IsRun(Lister(json, fromMap), config, sort, run) && Finished(run)
    ensures i < |run.data| && Settles(Precedes(sort), PagesOf(run), p, i)
    ensures Lists(Returned(run), sort, PageSelectorFor(p, sort)) <==> Filed(run.data[i], PageSelectorFor(p, sort))
    ensures p in Returned(run) <==> p in Projects(run.data[i])
  {
    hide ListsPages, Settles, OrderedBySelector, Precedes, Projects, Filed, Flatten;
    ListerListsPages(json, fromMap, sort);
    i := PagedRun.RunReturnsIff(Lister(json, fromMap), config, sort, run, p);
    assert Answered(Lister(json, fromMap), config, run, i);
    FiledIff(run.data[i], sort, p);
  }

  /**
    Over a whole scan, whatever happens to the projects between the requests: the
    client sees them in the order of the scan and none of them twice, and a client
    that got to the end has seen a project of every name (or time and name) that
    was filed throughout.
   */
  lemma RunIsSafe(json: Json<Selector>, fromMap: ParseParams, config: PageConfig, sort: ProjectSort, run: ProjectRun)
    requires Faithful(json) && IsRun(Lister(json, fromMap), config, sort, run)
    ensures Increasing(Precedes(sort), Returned(run))
    ensures forall i, j :: 0 <= i < j < |Returned(run)| ==> Returned(run)[i] != Returned(run)[j]
    ensures Finished(run) ==> forall p: Project ::
      (forall i :: 0 <= i < |run.data| ==> Filed(run.data[i], PageSelectorFor(p, sort))) ==>
        Lists(Returned(run), sort, PageSelectorFor(p, sort))
  {
    hide ListsPages, OrderedBySelector, Precedes, Filed, Lists, IsRun, Flatten;
    ListerListsPages(json, fromMap, sort);
    RunIsIncreasing(Lister(json, fromMap), config, sort, run);
    if Finished(run) {
      forall p: Project | forall i :: 0 <= i < |run.data| ==> Filed(run.data[i], PageSelectorFor(p, sort))
        ensures Lists(Returned(run), sort, PageSelectorFor(p, sort))
      {
        var i := RunReturnsIff(json, fromMap, config, sort, run, p);
      }
    }
  }

  /**
    While the projects stay as they are, n of them take at most n + 1 requests, and
    a finished scan returned just them.
   */
  lemma RunOverUnchangingProjects(json: Json<Selector>, fromMap: ParseParams, config: PageConfig, sort: ProjectSort,
                                  run: ProjectRun, projects: set<Project>)
    requires Faithful(json) && IsRun(Lister(json, fromMap), config, sort, run)
    requires forall i :: 0 <= i < |run.data| ==> Projects(run.data[i]) == projects
    ensures |run.responses| <= |projects| + 1
    ensures Finished(run) ==> forall p :: p in Returned(run) <==> p in projects
  {
    hide ListsPages, OrderedBySelector, Precedes, Projects, IsRun, Flatten;
    ListerListsPages(json, fromMap, sort);
    RunOverUnchangingItems(Lister(json, fromMap), config, sort, run, projects);
  }

  // ----------------------------------------------------- a project that is missed

  /** The first project after `last`, if there is one. */
  ghost predicate ComesNext(sort: ProjectSort, projects: set<Project>, last: Option<Project>, next: Option<Project>) {
    match next
    case None => forall p :: p in projects ==> !After(Precedes(sort), last, p)
    case Some(n) =>
      && n in projects && After(Precedes(sort), last, n)
      && forall p :: p in projects && After(Precedes(sort), last, p) ==> p == n || Precedes(sort)(n, p)
  }

  function PageOf(next: Option<Project>): seq<Project> {
    if next.Some? then [next.value] else []
  }

  lemma PageOfOne(sort: ProjectSort, projects: set<Project>, last: Option<Project>, next: Option<Project>,
                  page: seq<Project>)
    requires IsPage(Precedes(sort), projects, last, 1, page) && ComesNext(sort, projects, last, next)
    ensures page == PageOf(next)
  {
    PrecedesIsStrictOrder(sort);
    hide Precedes;
    assert page != [] ==> page[0] in page;
    assert |page| == 1 ==> page == [page[0]];
  }

  /** Asked for one project, the endpoint returns the next one, and its token. */
  lemma ListsNext(json: Json<Selector>, data: ProjectCollection, sort: ProjectSort, last: Option<Project>,
                  next: Option<Project>)
    requires Faithful(json) && Consistent(data) && ComesNext(sort, Projects(data), last, next)
    requires next.Some? ==> SerializePageToken(json, PageSelectorFor(next.value, sort)).Ok?
    ensures var r := ListProjects(json, data, RequestAfter(PageSelectorFor, sort, last), 1);
      r.Ok? && r.value.items == PageOf(next) && Resumes(json, PageSelectorFor, sort, r.value)
  {
    var walk := Iterate(data, RequestAfter(PageSelectorFor, sort, last));
    hide *;
    IterateWalks(data, sort, last);
    WalkIsPage(data, sort, last, 1, walk);
    PageOfOne(sort, Projects(data), last, next, Take(walk, 1));
    PageOfIs(next);
    RequestKeepsSort(sort, last);
    ListProjectsIs(json, data, RequestAfter(PageSelectorFor, sort, last), 1);
    NextPageResumesAfterLast(json, Take(walk, 1), sort, PageSelectorFor);
    ResumesIs(json, sort, ListProjects(json, data, RequestAfter(PageSelectorFor, sort, last), 1).value);
  }

  lemma PageOfIs(next: Option<Project>)
    ensures PageOf(next) == if next.Some? then [next.value] else []
  {
  }

  /**
    In every order there are runs that miss a project, and any with its selector,
    though it is there before the first request and after the last: it only has to
    be away when the scan comes to its place.
   */
  lemma ProjectMayBeMissed(json: Json<Selector>, fromMap: ParseParams, config: PageConfig, sort: ProjectSort,
                           query: map<string, string>, there: ProjectCollection, away: ProjectCollection,
                           a: Project, b: Project, c: Project) returns (run: ProjectRun)
    requires Faithful(json) && DeserializeWhichPage(json, fromMap, query) == Ok(First(sort))
    requires Consistent(there) && Projects(there) == {a, b, c} && Consistent(away) && Projects(away) == {a, c}
    requires Precedes(sort)(a, b) && Precedes(sort)(b, c)
    requires SerializePageToken(json, PageSelectorFor(a, sort)).Ok?
    requires SerializePageToken(json, PageSelectorFor(c, sort)).Ok?
    ensures IsRun(Lister(json, fromMap), config, sort, run) && Finished(run)
    ensures run.data == [there, away, there] && !Lists(Returned(run), sort, PageSelectorFor(b, sort))
  {
    hide Precedes, Projects, Consistent, ListProjects, DeserializePageToken, SerializePageToken, Faithful, Lists,
      Flatten, PageSelectorFor, ComesNext;
    NextAre(sort, a, b, c);
    ListsNext(json, there, sort, None, Some(a));
    ListsNext(json, away, sort, Some(a), Some(c));
    ListsNext(json, there, sort, Some(c), None);
    var r0 := ListProjects(json, there, RequestAfter(PageSelectorFor, sort, None), 1).value;
    var r1 := ListProjects(json, away, RequestAfter(PageSelectorFor, sort, Some(a)), 1).value;
    var r2 := ListProjects(json, there, RequestAfter(PageSelectorFor, sort, Some(c)), 1).value;
    var q1, q2 := map["page_token" := r0.nextPage.value], map["page_token" := r1.nextPage.value];
    run := Run([there, away, there], [query, q1, q2], [Some(1), Some(1), Some(1)], [r0, r1, r2]);
    assert PageLimit(config, Some(1)) == 1;
    assert Answered(Lister(json, fromMap), config, run, 0);
    assert Answered(Lister(json, fromMap), config, run, 1);
    assert Answered(Lister(json, fromMap), config, run, 2);
    assert Resumed(run, 1) && Resumed(run, 2);
    assert PagesOf(run) == [[a], [c], []];
    MissesMiddle(sort, a, b, c);
  }

  lemma NextAre(sort: ProjectSort, a: Project, b: Project, c: Project)
    requires Precedes(sort)(a, b) && Precedes(sort)(b, c)
    ensures ComesNext(sort, {a, b, c}, None, Some(a)) && ComesNext(sort, {a, c}, Some(a), Some(c))
    ensures ComesNext(sort, {a, b, c}, Some(c), None)
  {
    PrecedesIsStrictOrder(sort);
    hide Precedes;
  }

  lemma MissesMiddle(sort: ProjectSort, a: Project, b: Project, c: Project)
    requires Precedes(sort)(a, b) && Precedes(sort)(b, c)
    ensures !Lists(Flatten([[a], [c], []]), sort, PageSelectorFor(b, sort))
  {
    BeforeIsStrictTotalOrder();
    hide Before;
    forall p | p in Flatten([[a], [c], []]) ensures p == a || p == c {
      InSomePage([[a], [c], []], p);
    }
  }
}
