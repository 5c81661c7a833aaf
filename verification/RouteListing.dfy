/**
  Listing the routes of a trie: the recursive preorder of its nodes, and why the
  listing holds every registered route of a version exactly once.
 */
module RouteListing {
  import opened Wrappers
  import opened Versions
  import opened RoutePath
  import opened Ordering
  import opened RouteTable
  import opened Router

  /** What the route iterator yields for one endpoint. */
  datatype Item = Item(path: string, method_: string, endpoint: Endpoint)

  /** A snapshot of a router's trie. */
  datatype Trie = Trie(nodes: NodeMap, edges: EdgeMap, methods: MethodMap)

  ghost predicate WellShaped(t: Trie) {
    t.edges.Keys == t.nodes.Keys == t.methods.Keys && TreeShape(t.nodes, t.edges)
  }

  // ------------------------------------------------------ the children of a node

  function LiteralLabels(texts: seq<string>): (r: seq<PathSegment>)
    ensures |r| == |texts| && forall i :: 0 <= i < |r| ==> r[i] == PathSegment.Literal(texts[i])
    ensures forall c: PathSegment :: c in r <==> c.Literal? && c.text in texts
  {
    if texts == [] then []
    else
      var rest := LiteralLabels(texts[1..]);
      assert forall text :: text in texts <==> text == texts[0] || text in texts[1..];
      [PathSegment.Literal(texts[0])] + rest
  }

  predicate LabelsIncrease(labels: seq<PathSegment>) {
    forall i, j :: 0 <= i < j < |labels| ==>
      labels[i].Literal? && labels[j].Literal? && Before(labels[i].text, labels[j].text)
  }

  /** The labels of a node's edges, in the order in which its children are visited. */
  function Labels(edges: Option<Edges>): (r: seq<PathSegment>)
    ensures forall c :: c in r <==> Child(edges, c).Some?
    ensures LabelsIncrease(r)
  {
    match edges
    case None => []
    case Some(Literals(children)) =>
      BeforeIsStrictTotalOrder();
      LiteralLabels(InOrder(Before, children.Keys))
    case Some(VariableSingle(name, _)) => [VarnameSegment(name)]
    case Some(VariableRest(name, _)) => [VarnameWildcard(name)]
  }

  /** Patterns that some labels of the node at `p` lead to. */
  ghost predicate LabelsLead(t: Trie, p: Pattern, labels: seq<PathSegment>) {
    forall i :: 0 <= i < |labels| ==> p + [labels[i]] in t.nodes
  }

  lemma AllLabelsLead(t: Trie, p: Pattern)
    requires WellShaped(t) && p in t.nodes
    ensures LabelsLead(t, p, Labels(t.edges[p]))
    ensures forall c :: p + [c] in t.nodes <==> c in Labels(t.edges[p])
  {
    forall c ensures p + [c] in t.nodes <==> Child(t.edges[p], c).Some? {
      assert EdgeLeads(t.nodes, t.edges, p, c);
      if p + [c] in t.nodes {
        assert NodeIsReached(t.nodes, t.edges, p + [c]);
        assert (p + [c])[..|p + [c]| - 1] == p;
      }
    }
  }

  // ---------------------------------------------------------------- the preorder

  ghost function Below(t: Trie, p: Pattern): set<Pattern> {
    set q | q in t.nodes && p <= q
  }

  lemma BelowShrinks(t: Trie, p: Pattern, c: PathSegment)
    requires p in t.nodes
    ensures |Below(t, p + [c])| < |Below(t, p)|
  {
    assert p in Below(t, p) && p !in Below(t, p + [c]);
    assert p <= p + [c];
    assert Below(t, p + [c]) <= Below(t, p) - {p};
    SubsetSize(Below(t, p + [c]), Below(t, p) - {p});
  }

  lemma {:induction false} SubsetSize<T>(a: set<T>, b: set<T>)
    requires a <= b
    ensures |a| <= |b|
    decreases |a|
  {
    if a != {} {
      var x :| x in a;
      SubsetSize(a - {x}, b - {x});
    }
  }

  /** The node itself, then its children with all below them. */
  ghost function Preorder(t: Trie, p: Pattern): seq<Pattern>
    requires WellShaped(t) && p in t.nodes
    decreases |Below(t, p)|, 1, 0
  {
    AllLabelsLead(t, p);
    [p] + PreorderOf(t, p, Labels(t.edges[p]))
  }

  ghost function PreorderOf(t: Trie, p: Pattern, labels: seq<PathSegment>): seq<Pattern>
    requires WellShaped(t) && p in t.nodes && LabelsLead(t, p, labels)
    decreases |Below(t, p)|, 0, |labels|
  {
    if labels == [] then []
    else
      BelowShrinks(t, p, labels[0]);
      Preorder(t, p + [labels[0]]) + PreorderOf(t, p, labels[1..])
  }

  lemma {:induction false} PreorderHoldsBelow(t: Trie, p: Pattern, q: Pattern)
    requires WellShaped(t) && p in t.nodes
    ensures q in Preorder(t, p) <==> q in t.nodes && p <= q
    decreases |Below(t, p)|, 1, 0
  {
    AllLabelsLead(t, p);
    hide WellShaped, TreeShape, Labels, PreorderOf;
    PreorderOfHoldsBelow(t, p, Labels(t.edges[p]), q);
    if q in t.nodes && p <= q && q != p { var i := GoesThroughLabel(t, p, q); }
  }

  /** The way down to a node goes through one of the labels. */
  lemma GoesThroughLabel(t: Trie, p: Pattern, q: Pattern) returns (i: nat)
    requires WellShaped(t) && p in t.nodes && q in t.nodes && p <= q && q != p
    ensures i < |Labels(t.edges[p])| && p + [Labels(t.edges[p])[i]] <= q
  {
    AllLabelsLead(t, p);
    hide WellShaped, Labels;
    var k := |p|;
    assert q[..k + 1] == p + [q[k]];
    PrefixInTrie(t, q, k + 1);
    i :| 0 <= i < |Labels(t.edges[p])| && Labels(t.edges[p])[i] == q[k];
  }

  lemma {:induction false} PreorderOfHoldsBelow(t: Trie, p: Pattern, labels: seq<PathSegment>, q: Pattern)
    requires WellShaped(t) && p in t.nodes && LabelsLead(t, p, labels)
    ensures q in PreorderOf(t, p, labels)
       <==> q in t.nodes && exists i :: 0 <= i < |labels| && p + [labels[i]] <= q
    decreases |Below(t, p)|, 0, |labels|
  {
    if labels != [] {
      BelowShrinks(t, p, labels[0]);
      PreorderHoldsBelow(t, p + [labels[0]], q);
      PreorderOfHoldsBelow(t, p, labels[1..], q);
      assert forall i :: 0 <= i < |labels| - 1 ==> labels[1..][i] == labels[i + 1];
    }
  }

  lemma {:induction false} PrefixInTrie(t: Trie, q: Pattern, k: nat)
    requires WellShaped(t) && q in t.nodes && k <= |q|
    ensures q[..k] in t.nodes
    decreases |q|
  {
    if k < |q| {
      assert NodeIsReached(t.nodes, t.edges, q);
      PrefixInTrie(t, q[..|q| - 1], k);
      assert q[..|q| - 1][..k] == q[..k];
    } else {
      assert q[..k] == q;
    }
  }

  /** A node comes before those below it, and before those of its later siblings. */
  ghost predicate PatternBefore(p: Pattern, q: Pattern) {
    exists k: nat :: DiffersAt(p, q, k)
  }

  ghost predicate DiffersAt(p: Pattern, q: Pattern, k: nat) {
    && k <= |p| && k < |q| && p[..k] == q[..k]
    && (k < |p| ==> p[k].Literal? && q[k].Literal? && Before(p[k].text, q[k].text))
  }

  lemma NeverBeforeItself(p: Pattern)
    ensures !PatternBefore(p, p)
  {
    forall k: nat ensures !DiffersAt(p, p, k) {
      if k < |p| && p[k].Literal? { BeforeIrreflexive(p[k].text); }
    }
  }

  ghost predicate Ordered(ps: seq<Pattern>) {
    forall i, j :: 0 <= i < j < |ps| ==> PatternBefore(ps[i], ps[j])
  }

  lemma OrderedConcat(ps: seq<Pattern>, qs: seq<Pattern>)
    requires Ordered(ps) && Ordered(qs)
    requires forall p, q :: p in ps && q in qs ==> PatternBefore(p, q)
    ensures Ordered(ps + qs)
  {
    forall i, j | 0 <= i < j < |ps + qs| ensures PatternBefore((ps + qs)[i], (ps + qs)[j]) {
      if i < |ps| <= j {
        assert (ps + qs)[i] in ps && (ps + qs)[j] in qs;
      }
    }
  }

  /** The preorder is in increasing order, so in particular it visits no node twice. */
  lemma {:induction false} PreorderIsOrdered(t: Trie, p: Pattern)
    requires WellShaped(t) && p in t.nodes
    ensures Ordered(Preorder(t, p))
    decreases |Below(t, p)|, 1, 0
  {
    AllLabelsLead(t, p);
    var labels := Labels(t.edges[p]);
    PreorderOfIsOrdered(t, p, labels);
    forall q | q in PreorderOf(t, p, labels) ensures PatternBefore(p, q) {
      PreorderOfHoldsBelow(t, p, labels, q);
      assert DiffersAt(p, q, |p|);
    }
    OrderedConcat([p], PreorderOf(t, p, labels));
  }

  lemma SiblingsApart(p: Pattern, c: PathSegment, d: PathSegment, q: Pattern, r: Pattern)
    requires p + [c] <= q && p + [d] <= r
    requires c.Literal? && d.Literal? && Before(c.text, d.text)
    ensures PatternBefore(q, r)
  {
    assert q[|p|] == c && r[|p|] == d;
    assert q[..|p|] == p && r[..|p|] == p;
    assert DiffersAt(q, r, |p|);
  }

  lemma {:induction false} PreorderOfIsOrdered(t: Trie, p: Pattern, labels: seq<PathSegment>)
    requires WellShaped(t) && p in t.nodes && LabelsLead(t, p, labels)
    requires LabelsIncrease(labels)
    ensures Ordered(PreorderOf(t, p, labels))
    decreases |Below(t, p)|, 0, |labels|
  {
    hide WellShaped, TreeShape, Labels;
    if labels != [] {
      var first, rest := p + [labels[0]], labels[1..];
      BelowShrinks(t, p, labels[0]);
      PreorderIsOrdered(t, first);
      PreorderOfIsOrdered(t, p, rest);
      forall q, r | q in Preorder(t, first) && r in PreorderOf(t, p, rest) ensures PatternBefore(q, r) {
        PreorderHoldsBelow(t, first, q);
        PreorderOfHoldsBelow(t, p, rest, r);
        var i :| 0 <= i < |rest| && p + [rest[i]] <= r;
        SiblingsApart(p, labels[0], rest[i], q, r);
      }
      OrderedConcat(Preorder(t, first), PreorderOf(t, p, rest));
    }
  }

  // ------------------------------------------------------------ what is listed

  function MatchingHandlers(handlers: seq<Endpoint>, method_: string, version: Option<Version>)
    : seq<(string, Endpoint)>
  {
    if handlers == [] then []
    else
      (if handlers[0].versions.Matches(version) then [(method_, handlers[0])] else [])
      + MatchingHandlers(handlers[1..], method_, version)
  }

  function HandlersOfMethods(methods: map<string, seq<Endpoint>>, names: seq<string>, version: Option<Version>)
    : seq<(string, Endpoint)>
    requires forall m :: m in names ==> m in methods
  {
    if names == [] then []
    else MatchingHandlers(methods[names[0]], names[0], version) + HandlersOfMethods(methods, names[1..], version)
  }

  /** The handlers of one node that match the version, method by method. */
  function HandlersFromNode(methods: map<string, seq<Endpoint>>, version: Option<Version>): seq<(string, Endpoint)> {
    BeforeIsStrictTotalOrder();
    HandlersOfMethods(methods, InOrder(Before, methods.Keys), version)
  }

  function ItemsAt(path: string, handlers: seq<(string, Endpoint)>): seq<Item> {
    if handlers == [] then []
    else [Item(path, handlers[0].0, handlers[0].1)] + ItemsAt(path, handlers[1..])
  }

  /** The items that visiting the nodes at `ps`, in this order, yields. */
  ghost function Emit(t: Trie, ps: seq<Pattern>, version: Option<Version>): seq<Item>
    requires forall p :: p in ps ==> p in t.methods
  {
    if ps == [] then []
    else ItemsAt(ListedPath(ps[0]), HandlersFromNode(t.methods[ps[0]], version)) + Emit(t, ps[1..], version)
  }

  function ItemOf(e: Entry): Item {
    Item(ListedPath(e.pattern), e.method_, e.endpoint)
  }

  /** The items of the registered routes picked by `keep`, in order of registration. */
  function ListWhere(entries: seq<Entry>, keep: Entry -> bool): seq<Item> {
    if entries == [] then []
    else (if keep(entries[0]) then [ItemOf(entries[0])] else []) + ListWhere(entries[1..], keep)
  }

  function OfVersion(version: Option<Version>): Entry -> bool {
    (e: Entry) => e.endpoint.versions.Matches(version)
  }

  function AtNodes(ps: seq<Pattern>, version: Option<Version>): Entry -> bool {
    (e: Entry) => e.pattern in ps && e.endpoint.versions.Matches(version)
  }

  function AtMethods(p: Pattern, names: seq<string>, version: Option<Version>): Entry -> bool {
    (e: Entry) => e.pattern == p && e.method_ in names && e.endpoint.versions.Matches(version)
  }

  lemma {:induction false} ListWhereAgree(entries: seq<Entry>, f: Entry -> bool, g: Entry -> bool)
    requires forall e :: e in entries ==> f(e) == g(e)
    ensures ListWhere(entries, f) == ListWhere(entries, g)
  {
    if entries != [] {
      assert entries[0] in entries && forall e :: e in entries[1..] ==> e in entries;
      ListWhereAgree(entries[1..], f, g);
    }
  }

  /** Splitting the pick in two splits the items in two. */
  lemma {:induction false} ListWherePartition(entries: seq<Entry>, keep: Entry -> bool, f: Entry -> bool,
                                              g: Entry -> bool)
    requires forall e :: e in entries ==> keep(e) == (f(e) || g(e)) && !(f(e) && g(e))
    ensures multiset(ListWhere(entries, keep)) == multiset(ListWhere(entries, f)) + multiset(ListWhere(entries, g))
  {
    if entries != [] {
      assert entries[0] in entries && forall e :: e in entries[1..] ==> e in entries;
      ListWherePartition(entries[1..], keep, f, g);
    }
  }

  lemma {:induction false} ListWhereNone(entries: seq<Entry>, keep: Entry -> bool)
    requires forall e :: e in entries ==> !keep(e)
    ensures ListWhere(entries, keep) == []
  {
    if entries != [] {
      assert entries[0] in entries && forall e :: e in entries[1..] ==> e in entries;
      ListWhereNone(entries[1..], keep);
    }
  }

  lemma {:induction false} ItemsAtConcat(path: string, a: seq<(string, Endpoint)>, b: seq<(string, Endpoint)>)
    ensures ItemsAt(path, a + b) == ItemsAt(path, a) + ItemsAt(path, b)
  {
    if a == [] {
      assert a + b == b;
    } else {
      assert (a + b)[1..] == a[1..] + b;
      ItemsAtConcat(path, a[1..], b);
    }
  }

  lemma {:induction false} MatchingHandlersConcat(a: seq<Endpoint>, b: seq<Endpoint>, method_: string,
                                                  version: Option<Version>)
    ensures MatchingHandlers(a + b, method_, version)
         == MatchingHandlers(a, method_, version) + MatchingHandlers(b, method_, version)
  {
    if a == [] {
      assert a + b == b;
    } else {
      assert (a + b)[1..] == a[1..] + b;
      MatchingHandlersConcat(a[1..], b, method_, version);
    }
  }

  /** The handlers of one method at one node are its registered routes of the version. */
  lemma {:induction false} OneMethodListed(entries: seq<Entry>, p: Pattern, m: string, version: Option<Version>)
    ensures ItemsAt(ListedPath(p), MatchingHandlers(Registered(entries, p, m), m, version))
         == ListWhere(entries, AtMethods(p, [m], version))
  {
    hide ListedPath, Range.Matches;
    if entries != [] {
      var e, rest := entries[0], Registered(entries[1..], p, m);
      OneMethodListed(entries[1..], p, m, version);
      var here := if e.pattern == p && e.method_ == m then [e.endpoint] else [];
      MatchingHandlersConcat(here, rest, m, version);
      var first := MatchingHandlers(here, m, version);
      ItemsAtConcat(ListedPath(p), first, MatchingHandlers(rest, m, version));
      if here != [] {
        assert MatchingHandlers([e.endpoint], m, version)
            == (if e.endpoint.versions.Matches(version) then [(m, e.endpoint)] else [])
               + MatchingHandlers([], m, version);
      }
      assert ItemsAt(ListedPath(p), first) == if AtMethods(p, [m], version)(e) then [ItemOf(e)] else [];
    }
  }

  lemma {:induction false} MethodsListed(methods: map<string, seq<Endpoint>>, names: seq<string>,
                                         entries: seq<Entry>, p: Pattern, version: Option<Version>)
    requires forall m :: m in names ==> m in methods && methods[m] == Registered(entries, p, m)
    requires forall i, j :: 0 <= i < j < |names| ==> names[i] != names[j]
    ensures multiset(ItemsAt(ListedPath(p), HandlersOfMethods(methods, names, version)))
         == multiset(ListWhere(entries, AtMethods(p, names, version)))
  {
    hide ListedPath, Range.Matches;
    if names == [] {
      ListWhereNone(entries, AtMethods(p, names, version));
    } else {
      var m, rest := names[0], names[1..];
      MethodsListed(methods, rest, entries, p, version);
      OneMethodListed(entries, p, m, version);
      ItemsAtConcat(ListedPath(p), MatchingHandlers(methods[m], m, version), HandlersOfMethods(methods, rest, version));
      ListWherePartition(entries, AtMethods(p, names, version),
                         AtMethods(p, [m], version), AtMethods(p, rest, version));
    }
  }

  /** A node lists exactly its own routes of the version. */
  lemma NodeListed(methods: MethodMap, entries: seq<Entry>, p: Pattern, version: Option<Version>)
    requires HandlersMatch(methods, entries) && p in methods
    ensures multiset(ItemsAt(ListedPath(p), HandlersFromNode(methods[p], version)))
         == multiset(ListWhere(entries, AtNodes([p], version)))
  {
    BeforeIsStrictTotalOrder();
    var names := InOrder(Before, methods[p].Keys);
    forall m | m in names ensures m in methods[p] && methods[p][m] == Registered(entries, p, m) {
      assert HandlersAt(methods, entries, p, m);
    }
    forall i, j | 0 <= i < j < |names| ensures names[i] != names[j] {
      BeforeIrreflexive(names[i]);
    }
    MethodsListed(methods[p], names, entries, p, version);
    forall e | e in entries ensures AtMethods(p, names, version)(e) == AtNodes([p], version)(e) {
      if e.pattern == p {
        assert HandlersAt(methods, entries, p, e.method_);
        RegisteredMember(entries, p, e.method_, e.endpoint);
        var i :| 0 <= i < |entries| && entries[i] == e;
        assert e.endpoint in Registered(entries, p, e.method_);
      }
    }
    ListWhereAgree(entries, AtMethods(p, names, version), AtNodes([p], version));
  }

  lemma {:induction false} NodesListed(t: Trie, ps: seq<Pattern>, entries: seq<Entry>, version: Option<Version>)
    requires HandlersMatch(t.methods, entries) && forall p :: p in ps ==> p in t.methods
    requires forall i, j :: 0 <= i < j < |ps| ==> ps[i] != ps[j]
    ensures multiset(Emit(t, ps, version)) == multiset(ListWhere(entries, AtNodes(ps, version)))
  {
    hide ListedPath, HandlersMatch, Range.Matches;
    if ps == [] {
      ListWhereNone(entries, AtNodes(ps, version));
    } else {
      NodeListed(t.methods, entries, ps[0], version);
      NodesListed(t, ps[1..], entries, version);
      ListWherePartition(entries, AtNodes(ps, version), AtNodes([ps[0]], version), AtNodes(ps[1..], version));
    }
  }

  /** The whole listing of a trie for one version. */
  ghost function Listing(t: Trie, version: Option<Version>): seq<Item>
    requires WellShaped(t)
  {
    PreorderStaysInside(t);
    Emit(t, Preorder(t, []), version)
  }

  lemma PreorderStaysInside(t: Trie)
    requires WellShaped(t)
    ensures forall p :: p in Preorder(t, []) ==> p in t.methods
  {
    forall p | p in Preorder(t, []) ensures p in t.methods { PreorderHoldsBelow(t, [], p); }
  }

  /**
    The listing holds each registered route that matches the version exactly
    once, under the path of its own node, and nothing else.
   */
  lemma ListingHoldsEachRouteOnce(t: Trie, entries: seq<Entry>, version: Option<Version>)
    requires WellShaped(t) && HandlersMatch(t.methods, entries)
    ensures multiset(Listing(t, version)) == multiset(ListWhere(entries, OfVersion(version)))
  {
    var ps := Preorder(t, []);
    PreorderStaysInside(t);
    PreorderIsOrdered(t, []);
    forall i, j | 0 <= i < j < |ps| ensures ps[i] != ps[j] {
      assert PatternBefore(ps[i], ps[j]);
      NeverBeforeItself(ps[i]);
    }
    NodesListed(t, ps, entries, version);
    forall e | e in entries ensures e.pattern in ps {
      var i :| 0 <= i < |entries| && entries[i] == e;
      PreorderHoldsBelow(t, [], e.pattern);
    }
    ListWhereAgree(entries, AtNodes(ps, version), OfVersion(version));
  }
}
