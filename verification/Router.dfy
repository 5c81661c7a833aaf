/**
  The router: a trie of nodes that registration extends in place and that
  lookup walks, binding variables.  Its ghost fields hold the flat list of
  registered routes and, for every node, the pattern that leads to it.
 */
module Router {
  import opened Wrappers
  import opened Versions
  import opened RoutePath
  import Ordering
  import opened RouteTable
  import opened RouteScan

  /** A node has edges of one kind only. */
  datatype Edges =
    | Literals(children: map<string, Node>)
    | VariableSingle(name: string, child: Node)
    | VariableRest(name: string, child: Node)

  class Node {
    var methods: map<string, seq<Endpoint>>
    var edges: Option<Edges>

    constructor ()
      ensures methods == map[] && edges == None
    {
      methods, edges := map[], None;
    }
  }

  function Child(edges: Option<Edges>, c: PathSegment): Option<Node> {
    match (edges, c)
    case (Some(Literals(children)), Literal(text)) => if text in children then Some(children[text]) else None
    case (Some(VariableSingle(name, child)), VarnameSegment(n)) => if n == name then Some(child) else None
    case (Some(VariableRest(name, child)), VarnameWildcard(n)) => if n == name then Some(child) else None
    case _ => None
  }

  /** Whether the edges of a node leave room for an edge labelled `c`. */
  predicate Admits(edges: Option<Edges>, c: PathSegment) {
    match edges
    case None => true
    case Some(Literals(_)) => c.Literal?
    case Some(VariableSingle(name, _)) => c == VarnameSegment(name)
    case Some(VariableRest(name, _)) => c == VarnameWildcard(name)
  }

  /** The edges that also have the edge `c`, leading to `child`. */
  function Widen(edges: Option<Edges>, c: PathSegment, child: Node): (r: Edges)
    requires Admits(edges, c)
    ensures Child(Some(r), c) == Some(child) && r != Literals(map[])
    ensures forall d :: d != c ==> Child(Some(r), d) == Child(edges, d)
  {
    match c
    case Literal(text) => Literals((if edges.Some? then edges.value.children else map[])[text := child])
    case VarnameSegment(name) => VariableSingle(name, child)
    case VarnameWildcard(name) => VariableRest(name, child)
  }

  datatype InsertError =
    | BadPath(cause: PathError)
    | RepeatedVariable
    | SegmentsAfterWildcard
    | ConflictingEdge
    | DuplicateRoute
    | OverlappingVersions

  /** The first handler whose range accepts the version. */
  function FindHandler(handlers: seq<Endpoint>, version: Option<Version>): (r: Option<Endpoint>)
    ensures r.Some? ==> r.value in handlers && r.value.versions.Matches(version)
    ensures r.None? <==> forall h :: h in handlers ==> !h.versions.Matches(version)
  {
    if handlers == [] then None
    else if handlers[0].versions.Matches(version) then Some(handlers[0])
    else FindHandler(handlers[1..], version)
  }

  /** The endpoints registered for one pattern and method, in order of registration. */
  function Registered(entries: seq<Entry>, p: Pattern, method_: string): seq<Endpoint> {
    if entries == [] then []
    else
      (if entries[0].pattern == p && entries[0].method_ == method_ then [entries[0].endpoint] else [])
      + Registered(entries[1..], p, method_)
  }

  lemma {:induction false} RegisteredAppend(entries: seq<Entry>, e: Entry, p: Pattern, method_: string)
    ensures Registered(entries + [e], p, method_)
         == Registered(entries, p, method_) + if e.pattern == p && e.method_ == method_ then [e.endpoint] else []
  {
    if entries == [] {
      assert entries + [e] == [e];
    } else {
      var head := if entries[0].pattern == p && entries[0].method_ == method_ then [entries[0].endpoint] else [];
      var tail := if e.pattern == p && e.method_ == method_ then [e.endpoint] else [];
      RegisteredAppend(entries[1..], e, p, method_);
      assert (entries + [e])[0] == entries[0] && (entries + [e])[1..] == entries[1..] + [e];
      assert head + (Registered(entries[1..], p, method_) + tail) == head + Registered(entries[1..], p, method_) + tail;
    }
  }

  lemma {:induction false} RegisteredMember(entries: seq<Entry>, p: Pattern, method_: string, h: Endpoint)
    ensures h in Registered(entries, p, method_)
       <==> exists i ::
              && 0 <= i < |entries| && entries[i].pattern == p
              && entries[i].method_ == method_ && entries[i].endpoint == h
  {
    if entries != [] {
      RegisteredMember(entries[1..], p, method_, h);
      assert forall i :: 0 <= i < |entries| - 1 ==> entries[1..][i] == entries[i + 1];
    }
  }

  /** The first entry of the operation of `e` whose range overlaps that of `e`. */
  ghost predicate FirstOverlap(entries: seq<Entry>, e: Entry, i: nat) {
    && i < |entries| && SameOperation(entries[i], e)
    && entries[i].endpoint.versions.OverlapsWith(e.endpoint.versions)
    && forall j :: 0 <= j < i && SameOperation(entries[j], e) ==>
         !entries[j].endpoint.versions.OverlapsWith(e.endpoint.versions)
  }

  /** What is reported of the first overlapping entry: a duplicate if its range is the very same. */
  ghost predicate ReportsOverlap(entries: seq<Entry>, e: Entry, error: InsertError) {
    exists i: nat ::
      && FirstOverlap(entries, e, i)
      && error == if entries[i].endpoint.versions == e.endpoint.versions then DuplicateRoute else OverlappingVersions
  }

  /** The first overlapping handler of a node belongs to the first overlapping entry. */
  lemma {:induction false} FirstRegisteredOverlap(entries: seq<Entry>, e: Entry, k: nat) returns (i: nat)
    requires var registered := Registered(entries, e.pattern, e.method_);
      && k < |registered| && registered[k].versions.OverlapsWith(e.endpoint.versions)
      && forall j :: 0 <= j < k ==> !registered[j].versions.OverlapsWith(e.endpoint.versions)
    ensures FirstOverlap(entries, e, i) && entries[i].endpoint == Registered(entries, e.pattern, e.method_)[k]
  {
    var rest := Registered(entries[1..], e.pattern, e.method_);
    if SameOperation(entries[0], e) {
      assert Registered(entries, e.pattern, e.method_) == [entries[0].endpoint] + rest;
      if k == 0 {
        i := 0;
      } else {
        assert Registered(entries, e.pattern, e.method_)[0] == entries[0].endpoint;
        assert forall j :: 0 <= j < k - 1 ==> rest[j] == Registered(entries, e.pattern, e.method_)[j + 1];
        var l := FirstRegisteredOverlap(entries[1..], e, k - 1);
        i := l + 1;
        OneEntryEarlier(entries, e, l);
      }
    } else {
      assert Registered(entries, e.pattern, e.method_) == rest;
      var l := FirstRegisteredOverlap(entries[1..], e, k);
      i := l + 1;
      OneEntryEarlier(entries, e, l);
    }
  }

  lemma OneEntryEarlier(entries: seq<Entry>, e: Entry, l: nat)
    requires entries != [] && FirstOverlap(entries[1..], e, l)
    requires SameOperation(entries[0], e) ==> !entries[0].endpoint.versions.OverlapsWith(e.endpoint.versions)
    ensures FirstOverlap(entries, e, l + 1)
  {
    assert forall j :: 0 < j <= l + 1 ==> entries[j] == entries[1..][j - 1];
  }

  // The invariant is stated on snapshots of the trie: which node each pattern
  // leads to, and the edges and methods of that node.
  type NodeMap = map<Pattern, Node>
  type EdgeMap = map<Pattern, Option<Edges>>
  type MethodMap = map<Pattern, map<string, seq<Endpoint>>>

  /** The edge labelled `c` of the node at `p`, if there is one, leads to the node at `p + [c]`. */
  ghost predicate EdgeLeads(nodes: NodeMap, edges: EdgeMap, p: Pattern, c: PathSegment)
    requires p in edges
  {
    Child(edges[p], c).Some? ==> p + [c] in nodes && nodes[p + [c]] == Child(edges[p], c).value
  }

  /** The node at `p` is the child of the node one segment shorter. */
  ghost predicate NodeIsReached(nodes: NodeMap, edges: EdgeMap, p: Pattern)
    requires p in nodes && p != []
  {
    && p[..|p| - 1] in edges
    && Child(edges[p[..|p| - 1]], p[|p| - 1]) == Some(nodes[p])
  }

  ghost predicate Injective(nodes: NodeMap) {
    forall p, q :: p in nodes && q in nodes && nodes[p] == nodes[q] ==> p == q
  }

  /** The nodes form a tree whose edges spell the patterns. */
  ghost predicate TreeShape(nodes: NodeMap, edges: EdgeMap)
    requires edges.Keys == nodes.Keys
  {
    && [] in nodes
    && Injective(nodes)
    && (forall p, c {:trigger EdgeLeads(nodes, edges, p, c)} :: p in nodes ==> EdgeLeads(nodes, edges, p, c))
    && (forall p {:trigger NodeIsReached(nodes, edges, p)} :: p in nodes && p != [] ==> NodeIsReached(nodes, edges, p))
    && (forall p :: p in nodes ==> ValidPattern(p))
    && (forall p :: p in nodes && EndsInWildcard(p) ==> edges[p] == None)
    && (forall p :: p in nodes ==> edges[p] != Some(Literals(map[])))
  }

  /** The handlers of one method at one node are the routes registered there, in order. */
  ghost predicate HandlersAt(methods: MethodMap, entries: seq<Entry>, p: Pattern, m: string)
    requires p in methods
  {
    && (m in methods[p] <==> Registered(entries, p, m) != [])
    && (m in methods[p] ==> methods[p][m] == Registered(entries, p, m))
  }

  ghost predicate HandlersMatch(methods: MethodMap, entries: seq<Entry>) {
    && (forall i :: 0 <= i < |entries| ==> entries[i].pattern in methods)
    && (forall p, m {:trigger HandlersAt(methods, entries, p, m)} ::
         p in methods ==> HandlersAt(methods, entries, p, m))
  }

  /** Below a node that admits it, a new childless node can be hung. */
  lemma TreeExtended(nodes: NodeMap, edges: EdgeMap, at: Pattern, c: PathSegment, child: Node, widened: Option<Edges>)
    requires edges.Keys == nodes.Keys && TreeShape(nodes, edges)
    requires at in nodes && at + [c] !in nodes && ValidPattern(at + [c])
    requires forall p :: p in nodes ==> nodes[p] != child
    requires Child(widened, c) == Some(child) && widened != Some(Literals(map[]))
    requires forall d :: d != c ==> Child(widened, d) == Child(edges[at], d)
    ensures TreeShape(nodes[at + [c] := child], edges[at := widened][at + [c] := None])
  {
    var below := at + [c];
    var nodes', edges' := nodes[below := child], edges[at := widened][below := None];
    assert below[..|below| - 1] == at && below[|below| - 1] == c && at != below;
    assert EndsInWildcard(at) <==> at != [] && below[|at| - 1].VarnameWildcard?;
    forall p, d | p in nodes' ensures EdgeLeads(nodes', edges', p, d) {
      if p != below && !(p == at && d == c) {
        assert EdgeLeads(nodes, edges, p, d);
        assert p + [d] != below by { assert (p + [d])[..|p|] == p && (p + [d])[|p|] == d; }
      }
    }
    forall p | p in nodes' && p != [] ensures NodeIsReached(nodes', edges', p) {
      if p != below {
        assert NodeIsReached(nodes, edges, p);
        assert p[..|p| - 1] + [p[|p| - 1]] == p;
      }
    }
  }

  /** Appending an endpoint to the handlers of its node accounts for one more registered route. */
  lemma HandlersExtended(methods: MethodMap, entries: seq<Entry>, e: Entry, existing: seq<Endpoint>)
    requires HandlersMatch(methods, entries) && e.pattern in methods
    requires existing == if e.method_ in methods[e.pattern] then methods[e.pattern][e.method_] else []
    ensures HandlersMatch(methods[e.pattern := methods[e.pattern][e.method_ := existing + [e.endpoint]]], entries + [e])
  {
    var methods' := methods[e.pattern := methods[e.pattern][e.method_ := existing + [e.endpoint]]];
    assert HandlersAt(methods, entries, e.pattern, e.method_);
    forall p, m | p in methods' ensures HandlersAt(methods', entries + [e], p, m) {
      RegisteredAppend(entries, e, p, m);
      assert HandlersAt(methods, entries, p, m);
    }
  }

  /** A node without methods accounts for a pattern that no route has. */
  lemma HandlersAtNewNode(methods: MethodMap, entries: seq<Entry>, below: Pattern)
    requires HandlersMatch(methods, entries) && below !in methods
    ensures HandlersMatch(methods[below := map[]], entries)
  {
    var methods' := methods[below := map[]];
    forall p, m | p in methods' ensures HandlersAt(methods', entries, p, m) {
      if p == below {
        if Registered(entries, p, m) != [] {
          var h := Registered(entries, p, m)[0];
          RegisteredMember(entries, p, m, h);
          assert h in Registered(entries, p, m);
        }
      } else {
        assert HandlersAt(methods, entries, p, m);
      }
    }
  }

  /** An entry is what its own endpoint's path and method say it is. */
  ghost predicate FromItsEndpoint(e: Entry) {
    EntryOf(e.endpoint) == Ok(e)
  }

  ghost predicate FromTheirEndpoints(entries: seq<Entry>) {
    forall e {:trigger FromItsEndpoint(e)} :: e in entries ==> FromItsEndpoint(e)
  }

  lemma FromEndpointsOneMore(entries: seq<Entry>, e: Entry)
    requires FromTheirEndpoints(entries) && EntryOf(e.endpoint) == Ok(e)
    ensures FromTheirEndpoints(entries + [e])
  {
    forall f | f in entries + [e] ensures FromItsEndpoint(f) {
      if f in entries { assert FromItsEndpoint(f); }
    }
  }

  ghost predicate AnyVersioned(entries: seq<Entry>) {
    exists i :: 0 <= i < |entries| && !entries[i].endpoint.versions.All?
  }

  lemma AnyVersionedOneMore(entries: seq<Entry>, e: Entry)
    ensures AnyVersioned(entries + [e]) <==> AnyVersioned(entries) || !e.endpoint.versions.All?
  {
    var longer := entries + [e];
    assert longer[|entries|] == e;
    assert forall i :: 0 <= i < |entries| ==> longer[i] == entries[i];
  }

  // What a registration has done to the set of patterns while on its way to `at`.

  ghost predicate PrefixClosed(keys: set<Pattern>) {
    forall p, k {:trigger p[..k]} :: p in keys && 0 <= k <= |p| ==> p[..k] in keys
  }

  /** Every pattern but the empty one is a prefix of a registered one. */
  ghost predicate TightOn(keys: set<Pattern>, entries: seq<Entry>) {
    forall p :: p in keys && p != [] ==> exists i :: 0 <= i < |entries| && p <= entries[i].pattern
  }

  ghost predicate AgreesSoFar(keys: set<Pattern>, at: Pattern) {
    forall k, d {:trigger at[..k] + [d]} :: 0 <= k < |at| && at[..k] + [d] in keys ==> SegmentsAgree(d, at[k])
  }

  lemma AgreesOneFurther(keys: set<Pattern>, at: Pattern, c: PathSegment)
    requires AgreesSoFar(keys, at)
    requires forall d {:trigger at + [d]} :: at + [d] in keys ==> SegmentsAgree(d, c)
    ensures AgreesSoFar(keys, at + [c])
  {
    var longer := at + [c];
    forall k, d | 0 <= k < |longer| && longer[..k] + [d] in keys ensures SegmentsAgree(d, longer[k]) {
      if k < |at| {
        assert longer[..k] == at[..k];
      } else {
        assert longer[..k] == at;
      }
    }
  }

  lemma AgreesWithRegistered(keys: set<Pattern>, at: Pattern, entries: seq<Entry>)
    requires PrefixClosed(keys) && AgreesSoFar(keys, at)
    requires forall i :: 0 <= i < |entries| ==> entries[i].pattern in keys
    ensures forall i :: 0 <= i < |entries| ==> PatternsAgree(entries[i].pattern, at)
  {
    forall i, k | 0 <= i < |entries| && 0 <= k < |entries[i].pattern| && k < |at| && entries[i].pattern[..k] == at[..k]
      ensures SegmentsAgree(entries[i].pattern[k], at[k])
    {
      var q := entries[i].pattern;
      assert q[..k + 1] == at[..k] + [q[k]];
    }
  }

  /** In a tight trie, a pattern that agrees with all routes agrees with all nodes. */
  lemma TightAgrees(keys: set<Pattern>, entries: seq<Entry>, e: Entry)
    requires TightOn(keys, entries) && Acceptable(entries, e)
    ensures AgreesSoFar(keys, e.pattern)
  {
    var p := e.pattern;
    forall k, d | 0 <= k < |p| && p[..k] + [d] in keys ensures SegmentsAgree(d, p[k]) {
      var i :| 0 <= i < |entries| && p[..k] + [d] <= entries[i].pattern;
      var q := entries[i].pattern;
      assert q[..k] == (p[..k] + [d])[..k] == p[..k] && q[k] == (p[..k] + [d])[k];
      assert Compatible(entries[i], e);
    }
  }

  ghost predicate HasRoute(entries: seq<Entry>, p: Pattern) {
    exists i :: 0 <= i < |entries| && entries[i].pattern == p
  }

  /** Wildcard nodes carry routes, but for the one a registration may just have made. */
  ghost predicate WildcardsRouted(nodes: NodeMap, entries: seq<Entry>, made: set<Pattern>) {
    forall p :: p in nodes && EndsInWildcard(p) && p !in made ==> HasRoute(entries, p)
  }

  /** The trie partway through a registration that started from `before` and has come to `at`. */
  ghost predicate Partway(before: NodeMap, nodes: NodeMap, entries: seq<Entry>, at: Pattern) {
    && ValidPattern(at) && at in nodes
    && (forall p :: p in before ==> p in nodes && nodes[p] == before[p])
    && (forall p :: p in nodes ==> p in before || p <= at)
    && AgreesSoFar(before.Keys, at)
    && WildcardsRouted(nodes, entries, if at in before then {} else {at})
  }

  lemma PartwayAtRoute(before: NodeMap, nodes: NodeMap, entries: seq<Entry>, at: Pattern)
    requires Partway(before, nodes, entries, at) && HasRoute(entries, at)
    ensures WildcardsRouted(nodes, entries, {})
  {
  }

  /** Taking an edge that agrees with its siblings, new or not, leads one step further. */
  lemma PartwayOneFurther(before: NodeMap, nodes: NodeMap, after: NodeMap, entries: seq<Entry>,
                          at: Pattern, c: PathSegment, next: Node)
    requires Partway(before, nodes, entries, at) && !EndsInWildcard(at) && ValidPattern(at + [c])
    requires forall d {:trigger at + [d]} :: at + [d] in nodes ==> SegmentsAgree(d, c)
    requires if at + [c] in nodes then after == nodes else after == nodes[at + [c] := next]
    requires forall p :: p in before ==> p in nodes
    ensures Partway(before, after, entries, at + [c])
  {
    AgreesOneFurther(before.Keys, at, c);
    assert at <= at + [c];
    forall p | p in after && EndsInWildcard(p) && p !in (if at + [c] in before then {} else {at + [c]})
      ensures HasRoute(entries, p)
    {
      assert p in nodes;
      assert p != at;
    }
  }

  type Parsed = Result<PathSegment, PathError>

  /** Why a registration cannot go on from `at` with the next segment. */
  ghost predicate Blocked(keys: set<Pattern>, at: Pattern, parsed: Parsed, more: bool) {
    match parsed
    case Err(_) => true
    case Ok(c) =>
      || (c.VarnameWildcard? && more)
      || (!c.Literal? && c.name in Names(at))
      || exists d {:trigger at + [d]} :: at + [d] in keys && !SegmentsAgree(d, c)
  }

  lemma ValidOneFurther(at: Pattern, c: PathSegment)
    requires ValidPattern(at) && !EndsInWildcard(at) && (c.Literal? || c.name !in Names(at))
    ensures ValidPattern(at + [c])
    ensures Names(at + [c]) == Names(at) + (if c.Literal? then {} else {c.name})
  {
    var longer := at + [c];
    assert forall i :: 0 <= i < |at| && !at[i].Literal? ==> at[i].name in Names(at);
    assert longer[..|at|] == at;
    NamesOfExtension(longer, |at|);
  }

  lemma PairwiseOneMore(entries: seq<Entry>, e: Entry)
    requires PairwiseCompatible(entries) && Acceptable(entries, e)
    ensures PairwiseCompatible(entries + [e])
  {
    RegistrationIsPairwise(entries);
    assert (entries + [e])[..|entries|] == entries;
    RegistrationIsPairwise(entries + [e]);
  }

  /** The registered route accounts for the nodes made for it. */
  lemma TightOneMore(before: NodeMap, nodes: NodeMap, entries: seq<Entry>, e: Entry)
    requires Partway(before, nodes, entries, e.pattern)
    ensures TightOn(before.Keys, entries) ==> TightOn(nodes.Keys, entries + [e])
    ensures WildcardsRouted(nodes, entries + [e], {})
  {
    var longer := entries + [e];
    assert longer[|entries|] == e;
    assert forall i :: 0 <= i < |entries| ==> longer[i] == entries[i];
    forall p | p in nodes && EndsInWildcard(p) ensures HasRoute(longer, p) {
      if p != e.pattern {
        assert HasRoute(entries, p);
        var i :| 0 <= i < |entries| && entries[i].pattern == p;
        assert longer[i].pattern == p;
      }
    }
    if TightOn(before.Keys, entries) {
      forall p | p in nodes && p != [] ensures exists i :: 0 <= i < |longer| && p <= longer[i].pattern {
        if p in before {
          var i :| 0 <= i < |entries| && p <= entries[i].pattern;
          assert p <= longer[i].pattern;
        } else {
          assert p <= longer[|entries|].pattern;
        }
      }
    }
  }

  function ParseAll(raws: seq<string>): (r: seq<Parsed>)
    ensures |r| == |raws| && forall i :: 0 <= i < |raws| ==> r[i] == ParseSegment(raws[i])
  {
    seq(|raws|, i requires 0 <= i < |raws| => ParseSegment(raws[i]))
  }

  predicate Reads(parses: seq<Parsed>, at: Pattern) {
    |at| <= |parses| && forall k :: 0 <= k < |at| ==> parses[k] == Ok(at[k])
  }

  lemma ReadsOneFurther(parses: seq<Parsed>, at: Pattern, c: PathSegment)
    requires Reads(parses, at) && |at| < |parses| && parses[|at|] == Ok(c)
    ensures Reads(parses, at + [c])
  {
  }

  /** A registration of `p` gets as far as its first `k` segments. */
  ghost predicate Walks(keys: set<Pattern>, p: Pattern, k: nat) {
    && k <= |p| && ValidPattern(p[..k]) && AgreesSoFar(keys, p[..k])
    && (k < |p| ==> !EndsInWildcard(p[..k]))
  }

  /** The places that a registration of `p` comes to; a node is made at each that has none. */
  ghost function Walked(keys: set<Pattern>, p: Pattern): set<Pattern> {
    set k | 0 <= k <= |p| && Walks(keys, p, k) :: p[..k]
  }

  /** Where a registration is blocked, it gets no further. */
  lemma BlockedStops(keys: set<Pattern>, p: Pattern, parses: seq<Parsed>, at: Pattern, k: nat)
    requires Reads(parses, p) && |p| == |parses| && Reads(parses, at) && |at| < k <= |parses|
    requires Blocked(keys, at, parses[|at|], |at| + 1 < |parses|)
    ensures !Walks(keys, p, k)
  {
    var n := |at|;
    forall j | 0 <= j < n ensures p[j] == at[j] { assert Ok(p[j]) == parses[j]; }
    assert p[..n] == at && parses[n] == Ok(p[n]);
    var c, q := p[n], p[..k];
    assert q[n] == c && q[..n] == at;
    if c.VarnameWildcard? && n + 1 < |p| {
      assert k == n + 1 ==> EndsInWildcard(q);
    } else if !c.Literal? && c.name in Names(at) {
      var j :| 0 <= j < n && !at[j].Literal? && at[j].name == c.name;
      assert q[j] == at[j] && q[j].name == q[n].name;
    } else {
      var d :| at + [d] in keys && !SegmentsAgree(d, c);
      assert q[..n] + [d] in keys;
    }
  }

  lemma ReadsSamePrefix(parses: seq<Parsed>, p: Pattern, at: Pattern)
    requires Reads(parses, p) && |p| == |parses| && Reads(parses, at)
    ensures at == p[..|at|]
  {
    forall j | 0 <= j < |at| ensures p[j] == at[j] { assert Ok(p[j]) == parses[j]; }
  }

  /** What a registration has come to is walked, and so is every prefix. */
  lemma WalksUpTo(keys: set<Pattern>, p: Pattern, n: nat, k: nat)
    requires k <= n <= |p| && ValidPattern(p[..n]) && AgreesSoFar(keys, p[..n]) && (n < |p| ==> !EndsInWildcard(p[..n]))
    ensures Walks(keys, p, k)
  {
    var q, r := p[..n], p[..k];
    assert r == q[..k];
    forall i, d | 0 <= i < |r| && r[..i] + [d] in keys ensures SegmentsAgree(d, r[i]) {
      assert r[..i] == q[..i] && r[i] == q[i];
    }
    if k < n { assert !EndsInWildcard(r); }
  }

  /** The nodes after a registration that has come to `at`. */
  lemma NodesAfterWalk(before: NodeMap, nodes: NodeMap, entries: seq<Entry>, p: Pattern, at: Pattern)
    requires Partway(before, nodes, entries, at) && PrefixClosed(nodes.Keys)
    requires at <= p && (|at| < |p| ==> !EndsInWildcard(at))
    requires forall k :: |at| < k <= |p| ==> !Walks(before.Keys, p, k)
    ensures nodes.Keys == before.Keys + Walked(before.Keys, p)
  {
    assert p[..|at|] == at;
    forall k | 0 <= k <= |at| ensures Walks(before.Keys, p, k) && p[..k] in nodes.Keys {
      WalksUpTo(before.Keys, p, |at|, k);
      assert p[..k] == at[..k];
    }
    forall q | q in nodes.Keys && q !in before.Keys ensures q in Walked(before.Keys, p) {
      assert q <= at && q == p[..|q|];
    }
  }

  /** A registration that is blocked at `at` fails for its pattern alone or for the nodes there are. */
  lemma BlockedRegistration(before: NodeMap, nodes: NodeMap, e: Entry, entries: seq<Entry>, parses: seq<Parsed>,
                            at: Pattern)
    requires Partway(before, nodes, entries, at) && PrefixClosed(nodes.Keys) && !EndsInWildcard(at)
    requires Reads(parses, e.pattern) && |e.pattern| == |parses| && Reads(parses, at) && |at| < |parses|
    requires Blocked(before.Keys, at, parses[|at|], |at| + 1 < |parses|)
    ensures !(Acceptable(entries, e) && AgreesSoFar(before.Keys, e.pattern))
    ensures nodes.Keys == before.Keys + Walked(before.Keys, e.pattern)
  {
    hide Blocked, Reads, Partway, PrefixClosed;
    var p := e.pattern;
    forall k | |at| < k <= |p| ensures !Walks(before.Keys, p, k) { BlockedStops(before.Keys, p, parses, at, k); }
    ReadsSamePrefix(parses, p, at);
    assert p[..|p|] == p && !Walks(before.Keys, p, |p|);
    NodesAfterWalk(before, nodes, entries, p, at);
  }

  lemma CompleteRegistration(before: NodeMap, nodes: NodeMap, entries: seq<Entry>, at: Pattern)
    requires Partway(before, nodes, entries, at) && PrefixClosed(nodes.Keys)
    ensures AgreesSoFar(before.Keys, at)
    ensures nodes.Keys == before.Keys + Walked(before.Keys, at)
  {
    NodesAfterWalk(before, nodes, entries, at, at);
  }

  lemma EntryFromSegments(e: Endpoint)
    ensures RouteSegments(e.path).Err? ==> EntryOf(e).Err?
    ensures RouteSegments(e.path).Ok? ==> var raws := RouteSegments(e.path).value;
      && |ParseAll(raws)| == |raws|
      && (EntryOf(e).Ok? ==> Reads(ParseAll(raws), EntryOf(e).value.pattern) && |EntryOf(e).value.pattern| == |raws|)
      && (forall at {:trigger Reads(ParseAll(raws), at)} ::
           Reads(ParseAll(raws), at) && |at| == |raws| ==> EntryOf(e) == Ok(Entry(at, Upper(e.method_), e)))
  {
    if RouteSegments(e.path).Ok? { EntryFromParses(e, RouteSegments(e.path).value); }
  }

  /** What the parses of the segments say about the route as a whole. */
  lemma EntryFromParses(e: Endpoint, raws: seq<string>)
    requires RouteSegments(e.path) == Ok(raws)
    ensures EntryOf(e).Ok? ==> Reads(ParseAll(raws), EntryOf(e).value.pattern) && |EntryOf(e).value.pattern| == |raws|
    ensures forall at {:trigger Reads(ParseAll(raws), at)} ::
      Reads(ParseAll(raws), at) && |at| == |raws| ==> EntryOf(e) == Ok(Entry(at, Upper(e.method_), e))
  {
    forall at | Reads(ParseAll(raws), at) && |at| == |raws| ensures EntryOf(e) == Ok(Entry(at, Upper(e.method_), e)) {
      forall k | 0 <= k < |raws| ensures ParseSegment(raws[k]) == Ok(at[k]) { assert ParseAll(raws)[k] == Ok(at[k]); }
      SegmentwiseParse(raws, at);
    }
  }

  /** Every route that the segments match lies at or below `at`. */
  ghost predicate Leads(entries: seq<Entry>, at: Pattern, segments: seq<string>) {
    forall e :: e in entries && Matches(e.pattern, segments) ==> at <= e.pattern
  }

  /** The variables after taking the edge `c` for the segments from `i` on. */
  function Bind(variables: VariableSet, c: PathSegment, segments: seq<string>, i: nat): VariableSet
    requires SegmentFits(c, segments, i)
  {
    match c
    case Literal(_) => variables
    case VarnameSegment(name) => variables[name := Single(segments[i])]
    case VarnameWildcard(name) => variables[name := Components(segments[i..])]
  }

  lemma BindOne(at: Pattern, segments: seq<string>, c: PathSegment)
    requires PrefixFits(at, segments) && SegmentFits(c, segments, |at|)
    ensures PrefixFits(at + [c], segments)
    ensures Bindings(at + [c], segments) == Bind(Bindings(at, segments), c, segments, |at|)
  {
    var longer := at + [c];
    assert longer[..|longer| - 1] == at && longer[|longer| - 1] == c;
  }

  /** The candidates for the segments are the routes registered at `at`. */
  ghost predicate Arrives(entries: seq<Entry>, at: Pattern, segments: seq<string>) {
    forall e :: e in entries ==> (Candidate(entries, e, segments) <==> e.pattern == at)
  }

  lemma {:induction false} SelectAgree(entries: seq<Entry>, f: Entry -> bool, g: Entry -> bool)
    requires forall e :: e in entries ==> f(e) == g(e)
    ensures Select(entries, f) == Select(entries, g)
  {
    if entries != [] {
      assert entries[0] in entries;
      assert forall e :: e in entries[1..] ==> e in entries;
      SelectAgree(entries[1..], f, g);
    }
  }

  function AtPattern(p: Pattern): Entry -> bool {
    (e: Entry) => e.pattern == p
  }

  lemma SelectFirst(entries: seq<Entry>, keep: Entry -> bool)
    requires entries != []
    ensures Select(entries, keep) == (if keep(entries[0]) then [entries[0]] else []) + Select(entries[1..], keep)
  {
  }

  lemma FirstServingFirst(e: Entry, rest: seq<Entry>, method_: string, version: Option<Version>)
    ensures FirstServing([e] + rest, method_, version)
         == if Serves(e, method_, version) then Some(e) else FirstServing(rest, method_, version)
  {
    assert ([e] + rest)[1..] == rest;
  }

  lemma FindHandlerFirst(h: Endpoint, rest: seq<Endpoint>, version: Option<Version>)
    ensures FindHandler([h] + rest, version)
         == if h.versions.Matches(version) then Some(h) else FindHandler(rest, version)
  {
    assert ([h] + rest)[1..] == rest;
  }

  /** The first serving route at a node is the first matching handler there. */
  lemma {:induction false} FirstServingIsFirstHandler(entries: seq<Entry>, at: Pattern, method_: string,
                                                      version: Option<Version>)
    ensures var e := FirstServing(Select(entries, AtPattern(at)), method_, version);
      && FindHandler(Registered(entries, at, method_), version) == (if e.Some? then Some(e.value.endpoint) else None)
      && (e.Some? ==> e.value.pattern == at)
  {
    hide Range.Matches, FirstServing, FindHandler;
    if entries == [] {
      NothingServes(method_, version);
    } else {
      FirstServingIsFirstHandler(entries[1..], at, method_, version);
      SelectFirst(entries, AtPattern(at));
      var e, rest := entries[0], Registered(entries[1..], at, method_);
      FirstServingFirst(e, Select(entries[1..], AtPattern(at)), method_, version);
      FindHandlerFirst(e.endpoint, rest, version);
      if e.pattern != at {
        assert [] + Select(entries[1..], AtPattern(at)) == Select(entries[1..], AtPattern(at));
      }
      assert [] + rest == rest;
    }
  }

  lemma NothingServes(method_: string, version: Option<Version>)
    ensures FirstServing([], method_, version) == None && FindHandler([], version) == None
  {
  }

  lemma CandidatesAtNode(entries: seq<Entry>, at: Pattern, segments: seq<string>)
    requires Arrives(entries, at, segments)
    ensures Candidates(entries, segments) == Select(entries, AtPattern(at))
  {
    SelectAgree(entries, e => Candidate(entries, e, segments), AtPattern(at));
  }

  lemma MethodListedIff(methods: MethodMap, entries: seq<Entry>, at: Pattern, segments: seq<string>, m: string)
    requires HandlersMatch(methods, entries) && at in methods && Arrives(entries, at, segments)
    ensures (if m in methods[at] then methods[at][m] else []) == Registered(entries, at, m)
    ensures m in methods[at] <==> m in MethodsOf(Candidates(entries, segments))
  {
    assert HandlersAt(methods, entries, at, m);
    hide HandlersMatch;
    if m in methods[at] {
      var h := methods[at][m][0];
      assert h in Registered(entries, at, m);
      RegisteredMember(entries, at, m, h);
      var i :| 0 <= i < |entries| && entries[i].pattern == at && entries[i].method_ == m;
      assert entries[i] in entries;
      assert entries[i] in Candidates(entries, segments);
    }
    if m in MethodsOf(Candidates(entries, segments)) {
      var e :| e in Candidates(entries, segments) && e.method_ == m;
      RegisteredMember(entries, at, m, e.endpoint);
    }
  }

  class HttpRouter {
    var root: Node
    var hasVersionedRoutes: bool
    ghost var nodes: NodeMap
    ghost var entries: seq<Entry>
    ghost var repr: set<Node>

    ghost predicate Owned()
      reads this`nodes, this`repr
    {
      forall p :: p in nodes ==> nodes[p] in repr
    }

    ghost function EdgesNow(): (r: EdgeMap)
      requires Owned()
      reads this`nodes, this`repr, repr
      ensures r.Keys == nodes.Keys
    {
      map p | p in nodes :: nodes[p].edges
    }

    ghost function MethodsNow(): (r: MethodMap)
      requires Owned()
      reads this`nodes, this`repr, repr
      ensures r.Keys == nodes.Keys
    {
      map p | p in nodes :: nodes[p].methods
    }

    ghost predicate Shape()
      reads this`root, this`nodes, this`repr, repr
    {
      Owned() && [] in nodes && nodes[[]] == root && TreeShape(nodes, EdgesNow())
    }

    ghost predicate Handlers()
      reads this`nodes, this`repr, this`entries, repr
    {
      Owned() && HandlersMatch(MethodsNow(), entries)
    }

    ghost predicate Valid()
      reads this, repr
    {
      && Shape()
      && Handlers()
      && PairwiseCompatible(entries)
      && hasVersionedRoutes == AnyVersioned(entries)
      && WildcardsRouted(nodes, entries, {})
      && FromTheirEndpoints(entries)
    }

    /**
      Every node but the root lies on the way to some route.  A registration
      that fails midway can leave nodes behind, and with them this is lost.
     */
    ghost predicate Tight()
      reads this`nodes, this`entries
    {
      TightOn(nodes.Keys, entries)
    }

    constructor ()
      ensures Valid() && Tight() && entries == [] && !hasVersionedRoutes
      ensures fresh(repr)
    {
      root := new Node();
      hasVersionedRoutes := false;
      entries := [];
      new;
      nodes, repr := map[[] := root], {root};
    }

    lemma {:induction false} ClosedUnderPrefixes(p: Pattern, k: nat)
      requires Shape() && p in nodes && k <= |p|
      ensures p[..k] in nodes
      decreases |p|
    {
      if k < |p| {
        assert NodeIsReached(nodes, EdgesNow(), p);
        ClosedUnderPrefixes(p[..|p| - 1], k);
        assert p[..|p| - 1][..k] == p[..k];
      } else {
        assert p[..k] == p;
      }
    }

    lemma PrefixesPresent()
      requires Shape()
      ensures PrefixClosed(nodes.Keys)
    {
      forall p, k | p in nodes.Keys && 0 <= k <= |p| ensures p[..k] in nodes.Keys { ClosedUnderPrefixes(p, k); }
    }

    /** Where an edge is absent, so is the node it would lead to. */
    lemma ChildIffNode(p: Pattern, d: PathSegment)
      requires Shape() && p in nodes
      ensures Child(nodes[p].edges, d).Some? <==> p + [d] in nodes
      ensures p + [d] in nodes ==> Child(nodes[p].edges, d).value == nodes[p + [d]]
    {
      assert EdgeLeads(nodes, EdgesNow(), p, d);
      if p + [d] in nodes {
        assert NodeIsReached(nodes, EdgesNow(), p + [d]);
        assert (p + [d])[..|p + [d]| - 1] == p;
      }
    }

    /** A node admits an edge exactly when the edge agrees with all its present ones. */
    lemma AdmitsIffSiblingsAgree(p: Pattern, c: PathSegment)
      requires Shape() && p in nodes
      ensures Admits(nodes[p].edges, c) <==> forall d {:trigger p + [d]} :: p + [d] in nodes ==> SegmentsAgree(d, c)
    {
      var edges := nodes[p].edges;
      forall d ensures p + [d] in nodes <==> Child(edges, d).Some? {
        ChildIffNode(p, d);
      }
      match edges
      case None =>
      case Some(Literals(children)) =>
        assert EdgesNow()[p] == edges;
        var text :| text in children;
        assert Child(edges, PathSegment.Literal(text)).Some?;
        assert p + [PathSegment.Literal(text)] in nodes;
      case Some(VariableSingle(name, _)) =>
        assert p + [VarnameSegment(name)] in nodes;
      case Some(VariableRest(name, _)) =>
        assert p + [VarnameWildcard(name)] in nodes;
    }

    /** Replaces the edges of a node by ones that include a new child. */
    method HangChild(node: Node, ghost at: Pattern, ghost below: Pattern, widened: Edges, child: Node)
      requires Owned() && at in nodes && nodes[at] == node && below !in nodes && Injective(nodes)
      requires child !in repr && child.methods == map[] && child.edges == None
      modifies this`nodes, this`repr, node`edges
      ensures nodes == old(nodes)[below := child] && repr == old(repr) + {child}
      ensures Owned()
      ensures EdgesNow() == old(EdgesNow())[at := Some(widened)][below := None]
      ensures MethodsNow() == old(MethodsNow())[below := map[]]
    {
      node.edges := Some(widened);
      nodes, repr := nodes[below := child], repr + {child};
    }

    /** Follows the edge `c` from a node, adding it if the node has room for it. */
    method Descend(node: Node, ghost at: Pattern, c: PathSegment) returns (r: Option<Node>)
      requires Shape() && Handlers() && at in nodes && nodes[at] == node && ValidPattern(at + [c])
      modifies this`nodes, this`repr, node`edges
      ensures Shape() && Handlers() && fresh(repr - old(repr))
      ensures r.Some? <==> old(Admits(node.edges, c))
      ensures r.None? || at + [c] in old(nodes) ==> nodes == old(nodes)
      ensures r.Some? && at + [c] !in old(nodes) ==> nodes == old(nodes)[at + [c] := r.value]
      ensures r.Some? ==> at + [c] in nodes && nodes[at + [c]] == r.value
    {
      hide *;
      ChildIffNode(at, c);
      ShapeParts();
      if !Admits(node.edges, c) {
        return None;
      }
      var found := Child(node.edges, c);
      if found.Some? {
        return found;
      }
      var child := new Node();
      OutsideRepr(child);
      var widened := Widen(node.edges, c, child);
      TreeExtended(nodes, EdgesNow(), at, c, child, Some(widened));
      HandlersAtNewNode(MethodsNow(), entries, at + [c]);
      HangChild(node, at, at + [c], widened, child);
      ShapeFromParts();
      return Some(child);
    }

    lemma ShapeParts()
      requires Shape() && Handlers()
      ensures Owned() && [] in nodes && nodes[[]] == root && TreeShape(nodes, EdgesNow())
      ensures HandlersMatch(MethodsNow(), entries) && Injective(nodes)
      ensures forall p :: p in nodes ==> EdgesNow()[p] == nodes[p].edges && nodes[p] in repr
    {
    }

    lemma ShapeFromParts()
      requires Owned() && [] in nodes && nodes[[]] == root && TreeShape(nodes, EdgesNow())
      requires HandlersMatch(MethodsNow(), entries)
      ensures Shape() && Handlers()
    {
    }

    lemma OutsideRepr(child: Node)
      requires Owned() && child !in repr
      ensures forall p :: p in nodes ==> nodes[p] != child
    {
    }

    /** Looks for a handler of the same operation whose range overlaps the new one's. */
    method FindOverlap(node: Node, e: Endpoint, ghost entry: Entry) returns (r: Option<InsertError>)
      requires Shape() && Handlers()
      requires entry.pattern in nodes && nodes[entry.pattern] == node
      requires entry.method_ == Upper(e.method_) && entry.endpoint == e
      ensures r.None? <==> forall i :: 0 <= i < |entries| && SameOperation(entries[i], entry) ==>
        !entries[i].endpoint.versions.OverlapsWith(e.versions)
      ensures r.Some? ==> ReportsOverlap(entries, entry, r.value)
    {
      var methodname := Upper(e.method_);
      var existing := if methodname in node.methods then node.methods[methodname] else [];
      assert HandlersAt(MethodsNow(), entries, entry.pattern, methodname);
      assert existing == Registered(entries, entry.pattern, methodname);
      for i := 0 to |existing|
        invariant forall k :: 0 <= k < i ==> !existing[k].versions.OverlapsWith(e.versions)
      {
        if existing[i].versions.OverlapsWith(e.versions) {
          ghost var first := FirstRegisteredOverlap(entries, entry, i);
          return Some(if existing[i].versions == e.versions then DuplicateRoute else OverlappingVersions);
        }
      }
      forall i | 0 <= i < |entries| && SameOperation(entries[i], entry)
        ensures !entries[i].endpoint.versions.OverlapsWith(e.versions)
      {
        RegisteredMember(entries, entry.pattern, methodname, entries[i].endpoint);
        var k :| 0 <= k < |existing| && existing[k] == entries[i].endpoint;
      }
      return None;
    }

    /** Replaces the methods of a node. */
    method SetMethods(node: Node, ghost at: Pattern, methods: map<string, seq<Endpoint>>)
      requires Owned() && at in nodes && nodes[at] == node && Injective(nodes)
      modifies node`methods
      ensures MethodsNow() == old(MethodsNow())[at := methods]
      ensures EdgesNow() == old(EdgesNow())
    {
      node.methods := methods;
    }

    /** Appends the endpoint to the handlers of its node. */
    method AddHandler(node: Node, e: Endpoint, ghost entry: Entry)
      requires Shape() && Handlers()
      requires entry.pattern in nodes && nodes[entry.pattern] == node
      requires entry.method_ == Upper(e.method_) && entry.endpoint == e
      modifies this`entries, node`methods
      ensures Shape() && Handlers()
      ensures entries == old(entries) + [entry]
    {
      hide *;
      ShapeParts();
      MethodsAt(entry.pattern);
      var methodname := Upper(e.method_);
      var existing := if methodname in node.methods then node.methods[methodname] else [];
      HandlersExtended(MethodsNow(), entries, entry, existing);
      entries := entries + [entry];
      SetMethods(node, entry.pattern, node.methods[methodname := existing + [e]]);
      ShapeFromParts();
    }

    lemma MethodsAt(p: Pattern)
      requires Owned() && p in nodes
      ensures MethodsNow()[p] == nodes[p].methods
    {
    }

    /** A registration that started from `before` has come to the node at `at`. */
    ghost predicate On(before: NodeMap, at: Pattern, node: Node)
      reads this, repr
    {
      Shape() && Handlers() && Partway(before, nodes, entries, at) && nodes[at] == node && node in repr
    }

    /** A registration that started from `before` got to `at` and no further. */
    ghost predicate Stopped(before: NodeMap, at: Pattern)
      reads this, repr
    {
      Shape() && Handlers() && Partway(before, nodes, entries, at)
    }

    lemma Halted(before: NodeMap, at: Pattern, node: Node)
      requires On(before, at, node)
      ensures Stopped(before, at)
    {
    }

    lemma StoppedParts(before: NodeMap, at: Pattern)
      requires Stopped(before, at) && !EndsInWildcard(at)
      ensures Shape() && Handlers() && Partway(before, nodes, entries, at) && WildcardsRouted(nodes, entries, {})
      ensures PrefixClosed(nodes.Keys)
    {
      PrefixesPresent();
    }

    lemma Departure(raws: seq<string>)
      requires Valid()
      ensures On(nodes, [], root) && root in repr
      ensures Reads(ParseAll(raws), []) && |ParseAll(raws)| == |raws|
      ensures Names([]) == {} && !EndsInWildcard([])
    {
    }

    /** One turn of the registration loop: reads a segment and follows or adds its edge. */
    method FollowSegment(ghost before: NodeMap, node: Node, ghost at: Pattern,
                         raw: string, more: bool, varnames: set<string>)
      returns (r: Result<(Node, set<string>), InsertError>)
      requires On(before, at, node) && varnames == Names(at) && !EndsInWildcard(at)
      modifies this`nodes, this`repr, node`edges
      ensures fresh(repr - old(repr))
      ensures r.Err? ==> Blocked(before.Keys, at, ParseSegment(raw), more)
      ensures r != Err(DuplicateRoute) && r != Err(OverlappingVersions)
      ensures r.Err? ==> On(before, at, node)
      ensures r.Ok? ==> ParseSegment(raw).Ok?
      ensures r.Ok? ==> On(before, at + [ParseSegment(raw).value], r.value.0) && r.value.0 in repr
      ensures r.Ok? ==> Names(at + [ParseSegment(raw).value]) == r.value.1
      ensures r.Ok? ==> EndsInWildcard(at + [ParseSegment(raw).value]) ==> !more
    {
      hide ParseSegment, TreeShape, HandlersMatch;
      var parsed := ParseSegment(raw);
      if parsed.Err? {
        return Err(BadPath(parsed.error));
      }
      var c := parsed.value;
      if c.VarnameWildcard? && more {
        return Err(SegmentsAfterWildcard);
      }
      var names := varnames;
      if !c.Literal? {
        if c.name in names {
          return Err(RepeatedVariable);
        }
        names := names + {c.name};
      }
      ValidOneFurther(at, c);
      AdmitsIffSiblingsAgree(at, c);
      var next := Descend(node, at, c);
      if next.None? {
        return Err(ConflictingEdge);
      }
      PartwayOneFurther(before, old(nodes), nodes, entries, at, c, next.value);
      return Ok((next.value, names));
    }

    /** The registration loop: walks to the node of the route, extending the trie on the way. */
    method WalkRoute(raws: seq<string>) returns (r: Result<Node, InsertError>, ghost at: Pattern)
      requires Valid()
      modifies this`nodes, this`repr, repr`edges
      ensures fresh(repr - old(repr))
      ensures Reads(ParseAll(raws), at)
      ensures r != Err(DuplicateRoute) && r != Err(OverlappingVersions)
      ensures r.Ok? ==> |at| == |raws| && On(old(nodes), at, r.value) && r.value in repr
      ensures r.Err? ==> Stopped(old(nodes), at) && !EndsInWildcard(at)
      ensures r.Err? ==> |at| < |raws| && Blocked(old(nodes).Keys, at, ParseAll(raws)[|at|], |at| + 1 < |raws|)
    {
      ghost var before, parses := nodes, ParseAll(raws);
      var node := root;
      at := [];
      var varnames: set<string> := {};
      var i := 0;
      hide *;
      Departure(raws);
      while i < |raws|
        invariant i == |at| <= |raws| && Reads(parses, at) && varnames == Names(at)
        invariant EndsInWildcard(at) ==> i == |raws|
        invariant On(before, at, node) && fresh(repr - old(repr)) && node in repr
      {
        var step := FollowSegment(before, node, at, raws[i], i + 1 < |raws|, varnames);
        if step.Err? {
          Halted(before, at, node);
          return Err(step.error), at;
        }
        ReadsOneFurther(parses, at, parses[i].value);
        node, varnames := step.value.0, step.value.1;
        at := at + [parses[i].value];
        i := i + 1;
      }
      return Ok(node), at;
    }

    /**
      Registers an endpoint.  This succeeds exactly when the endpoint's route is
      valid and compatible with all those registered, and agrees with all nodes
      there are; in a trie without left-over nodes the last says nothing new.
      Nodes are made as far as the registration gets, even when it fails; but
      then the registered routes stay as they were.
     */
    method Insert(e: Endpoint) returns (r: Result<(), InsertError>)
      requires Valid()
      modifies this, repr
      ensures Valid() && fresh(repr - old(repr))
      ensures r.Ok? <==>
        && EntryOf(e).Ok? && Acceptable(old(entries), EntryOf(e).value)
        && AgreesSoFar(old(nodes.Keys), EntryOf(e).value.pattern)
      ensures old(Tight()) && EntryOf(e).Ok? && Acceptable(old(entries), EntryOf(e).value) ==> r.Ok?
      ensures entries == if r.Ok? then old(entries) + [EntryOf(e).value] else old(entries)
      ensures EntryOf(e).Ok? ==> nodes.Keys == old(nodes.Keys) + Walked(old(nodes.Keys), EntryOf(e).value.pattern)
      ensures old(Tight()) && r.Ok? ==> Tight()
      ensures r == Err(DuplicateRoute) || r == Err(OverlappingVersions) ==>
        EntryOf(e).Ok? && ReportsOverlap(old(entries), EntryOf(e).value, r.error)
    {
      hide *;
      var split := RoutePathToSegments(e.path);
      EntryFromSegments(e);
      if split.Err? {
        return Err(BadPath(split.error));
      }
      WhatHolds();
      ghost var before, keys := nodes, nodes.Keys;
      if TightOn(keys, entries) && EntryOf(e).Ok? && Acceptable(entries, EntryOf(e).value) {
        TightAgrees(keys, entries, EntryOf(e).value);
      }
      var walked, at := WalkRoute(split.value);
      if walked.Err? {
        StoppedParts(before, at);
        StillValid();
        if EntryOf(e).Ok? { BlockedRegistration(before, nodes, EntryOf(e).value, entries, ParseAll(split.value), at); }
        return Err(walked.error);
      }
      ghost var entry := Entry(at, Upper(e.method_), e);
      Arrived(before, at, walked.value);
      CompleteRegistration(before, nodes, entries, at);
      FromEndpointsOneMore(entries, entry);
      r := Finish(walked.value, e, before, entry);
      WhatHolds();
    }

    lemma WhatHolds()
      requires Valid()
      ensures PrefixClosed(nodes.Keys) && PairwiseCompatible(entries) && hasVersionedRoutes == AnyVersioned(entries)
      ensures forall i :: 0 <= i < |entries| ==> entries[i].pattern in nodes
      ensures Tight() == TightOn(nodes.Keys, entries) && FromTheirEndpoints(entries)
    {
      PrefixesPresent();
    }

    /** The end of a registration: the handler joins its node unless it overlaps one that is there. */
    method Finish(node: Node, e: Endpoint, ghost before: NodeMap, ghost entry: Entry)
      returns (r: Result<(), InsertError>)
      requires On(before, entry.pattern, node)
      requires hasVersionedRoutes == AnyVersioned(entries) && PairwiseCompatible(entries)
      requires FromTheirEndpoints(entries) && FromTheirEndpoints(entries + [entry])
      requires PrefixClosed(before.Keys) && forall i :: 0 <= i < |entries| ==> entries[i].pattern in before
      requires entry.method_ == Upper(e.method_) && entry.endpoint == e
      modifies this`entries, this`hasVersionedRoutes, node`methods
      ensures Valid()
      ensures r.Ok? <==> Acceptable(old(entries), entry)
      ensures entries == if r.Ok? then old(entries) + [entry] else old(entries)
      ensures r.Ok? && TightOn(before.Keys, old(entries)) ==> TightOn(nodes.Keys, entries)
      ensures r.Err? ==> ReportsOverlap(old(entries), entry, r.error)
    {
      AgreesWithRegistered(before.Keys, entry.pattern, entries);
      var overlap := FindOverlap(node, e, entry);
      if overlap.Some? {
        PartwayAtRoute(before, nodes, entries, entry.pattern);
        return Err(overlap.value);
      }
      Commit(node, e, before, entry);
      return Ok(());
    }

    lemma Arrived(before: NodeMap, at: Pattern, node: Node)
      requires On(before, at, node)
      ensures Shape() && Handlers() && at in nodes && nodes[at] == node && node in repr
      ensures Partway(before, nodes, entries, at) && ValidPattern(at) && PrefixClosed(nodes.Keys)
    {
      PrefixesPresent();
    }

    lemma StillValid()
      requires Shape() && Handlers() && PairwiseCompatible(entries) && hasVersionedRoutes == AnyVersioned(entries)
      requires WildcardsRouted(nodes, entries, {}) && FromTheirEndpoints(entries)
      ensures Valid()
    {
    }

    method Commit(node: Node, e: Endpoint, ghost before: NodeMap, ghost entry: Entry)
      requires On(before, entry.pattern, node)
      requires hasVersionedRoutes == AnyVersioned(entries) && PairwiseCompatible(entries)
      requires FromTheirEndpoints(entries) && FromTheirEndpoints(entries + [entry])
      requires entry.method_ == Upper(e.method_) && entry.endpoint == e && Acceptable(entries, entry)
      modifies this`entries, this`hasVersionedRoutes, node`methods
      ensures Valid()
      ensures entries == old(entries) + [entry]
      ensures TightOn(before.Keys, old(entries)) ==> TightOn(nodes.Keys, entries)
    {
      hide *;
      PairwiseOneMore(entries, entry);
      AnyVersionedOneMore(entries, entry);
      Arrived(before, entry.pattern, node);
      TightOneMore(before, nodes, entries, entry);
      if e.versions != All {
        hasVersionedRoutes := true;
      }
      AddHandler(node, e, entry);
      StillValid();
    }

    // ------------------------------------------------------------------ lookup

    /** The node at `at` has been reached by consuming the first `i` segments. */
    ghost predicate Followed(at: Pattern, node: Node, variables: VariableSet, segments: seq<string>, i: nat)
      reads this, repr
    {
      && at in nodes && nodes[at] == node && node in repr
      && PrefixFits(at, segments) && variables == Bindings(at, segments)
      && (if EndsInWildcard(at) then i == |segments| else i == |at| <= |segments|)
      && Leads(entries, at, segments)
    }

    lemma RouteIsNode(e: Entry)
      requires Valid() && e in entries
      ensures Shape() && e.pattern in nodes && ValidPattern(e.pattern)
    {
      var i :| 0 <= i < |entries| && entries[i] == e;
    }

    /** A route that goes on below `at` does so through an edge that fits the next segment. */
    lemma MatchingChild(at: Pattern, segments: seq<string>, e: Entry)
      requires Valid() && at in nodes && !EndsInWildcard(at) && |at| <= |segments|
      requires e in entries && Matches(e.pattern, segments) && at < e.pattern
      ensures var d := e.pattern[|at|];
        at + [d] <= e.pattern && Child(nodes[at].edges, d).Some? && SegmentFits(d, segments, |at|)
    {
      hide Valid, Shape;
      var q, k := e.pattern, |at|;
      RouteIsNode(e);
      ClosedUnderPrefixes(q, k + 1);
      assert q[..k + 1] == at + [q[k]];
      ChildIffNode(at, q[k]);
      assert SegmentFits(q[k], segments, k);
    }

    /** One edge alone fits the next segment, so all matching routes go through it. */
    lemma LeadsOneFurther(at: Pattern, segments: seq<string>, c: PathSegment)
      requires Valid() && at in nodes && !EndsInWildcard(at) && |at| < |segments| && Leads(entries, at, segments)
      requires forall d :: Child(nodes[at].edges, d).Some? && SegmentFits(d, segments, |at|) ==> d == c
      ensures Leads(entries, at + [c], segments)
    {
      forall e | e in entries && Matches(e.pattern, segments) ensures at + [c] <= e.pattern {
        assert at <= e.pattern && at != e.pattern;
        MatchingChild(at, segments, e);
      }
    }

    lemma LeadsNowhere(at: Pattern, segments: seq<string>)
      requires Valid() && at in nodes && !EndsInWildcard(at) && |at| < |segments| && Leads(entries, at, segments)
      requires forall d :: Child(nodes[at].edges, d).Some? ==> !SegmentFits(d, segments, |at|)
      ensures Candidates(entries, segments) == []
    {
      var candidates := Candidates(entries, segments);
      assert candidates != [] ==> candidates[0] in candidates;
      forall e | e in entries ensures !Matches(e.pattern, segments) {
        if Matches(e.pattern, segments) {
          assert at <= e.pattern && at != e.pattern;
          MatchingChild(at, segments, e);
        }
      }
    }

    /** The edge `c` fits and takes the walk from `i` to `j` segments. */
    lemma FollowedOneFurther(at: Pattern, node: Node, variables: VariableSet, segments: seq<string>, c: PathSegment)
      requires Valid() && Followed(at, node, variables, segments, |at|) && !EndsInWildcard(at) && |at| < |segments|
      requires Child(node.edges, c).Some? && SegmentFits(c, segments, |at|)
      requires forall d :: Child(node.edges, d).Some? && SegmentFits(d, segments, |at|) ==> d == c
      ensures Followed(at + [c], Child(node.edges, c).value, Bind(variables, c, segments, |at|), segments,
                       if c.VarnameWildcard? then |segments| else |at| + 1)
    {
      LeadsOneFurther(at, segments, c);
      ChildIffNode(at, c);
      BindOne(at, segments, c);
    }

    /** Nothing goes on from the node of a wildcard. */
    lemma WildcardIsTerminal(at: Pattern)
      requires Valid() && at in nodes && EndsInWildcard(at)
      ensures nodes[at].edges == None
    {
    }

    /** Follows one edge for the next segment; a wildcard edge takes all that remain. */
    method FollowInput(node: Node, ghost at: Pattern, variables: VariableSet, segments: seq<string>, i: nat)
      returns (next: Option<(Node, VariableSet, nat)>, ghost at': Pattern)
      requires Valid() && Followed(at, node, variables, segments, i) && i < |segments|
      ensures next.Some? ==> i < next.value.2 && Followed(at', next.value.0, next.value.1, segments, next.value.2)
      ensures next.None? ==> Candidates(entries, segments) == []
    {
      hide Valid, Leads;
      assert at in nodes && nodes[at] == node && i == |at| && !EndsInWildcard(at);
      at' := at;
      match node.edges
      case None =>
        LeadsNowhere(at, segments);
        next := None;
      case Some(Literals(children)) =>
        if segments[i] in children {
          at' := at + [PathSegment.Literal(segments[i])];
          FollowedOneFurther(at, node, variables, segments, PathSegment.Literal(segments[i]));
          next := Some((children[segments[i]], variables, i + 1));
        } else {
          LeadsNowhere(at, segments);
          next := None;
        }
      case Some(VariableSingle(name, child)) =>
        at' := at + [VarnameSegment(name)];
        FollowedOneFurther(at, node, variables, segments, VarnameSegment(name));
        next := Some((child, variables[name := Single(segments[i])], i + 1));
      case Some(VariableRest(name, child)) =>
        at' := at + [VarnameWildcard(name)];
        FollowedOneFurther(at, node, variables, segments, VarnameWildcard(name));
        WildcardIsTerminal(at');
        assert child.edges == None;
        next := Some((child, variables[name := Components(segments[i..])], |segments|));
    }

    lemma ArrivesAtNode(at: Pattern, segments: seq<string>)
      requires Valid() && at in nodes && !EndsInWildcard(at) && |at| == |segments|
      requires PrefixFits(at, segments) && Leads(entries, at, segments)
      requires !(nodes[at].edges.Some? && nodes[at].edges.value.VariableRest?)
      ensures Arrives(entries, at, segments)
    {
      forall e | e in entries && Matches(e.pattern, segments) ensures e.pattern == at {
        if e.pattern != at { MatchingChild(at, segments, e); }
      }
      forall e | e in entries && e.pattern == at ensures !Shadowed(entries, at, segments) {
        ShadowedByMember(entries, at, segments);
      }
    }

    /** A wildcard node is the only child of its parent. */
    lemma OnlyWildcardBelow(at: Pattern)
      requires Shape() && at in nodes && EndsInWildcard(at)
      ensures at[..|at| - 1] in nodes && !EndsInWildcard(at[..|at| - 1])
      ensures var edges := nodes[at[..|at| - 1]].edges;
        forall d {:trigger Child(edges, d)} :: Child(edges, d).Some? ==> d == at[|at| - 1]
    {
      var parent, k := at[..|at| - 1], |at| - 1;
      assert NodeIsReached(nodes, EdgesNow(), at);
      assert ValidPattern(at);
      assert parent != [] ==> parent[|parent| - 1] == at[k - 1];
    }

    /** A matching route at or below the parent of a wildcard node is at one of the two. */
    lemma ParentOrWildcard(at: Pattern, segments: seq<string>, e: Entry)
      requires Valid() && at in nodes && EndsInWildcard(at) && PrefixFits(at, segments)
      requires e in entries && Matches(e.pattern, segments) && at[..|at| - 1] < e.pattern
      ensures e.pattern == at
    {
      var parent, k := at[..|at| - 1], |at| - 1;
      hide Valid, Shape, Matches;
      assert SegmentFits(at[k], segments, k);
      RouteIsNode(e);
      OnlyWildcardBelow(at);
      MatchingChild(parent, segments, e);
      assert parent + [at[k]] == at;
      assert e.pattern[k] == at[k];
      assert |e.pattern| == k + 1;
    }

    /** Below a node with a wildcard edge, the wildcard's routes take every request. */
    lemma ArrivesAtWildcard(at: Pattern, segments: seq<string>)
      requires Valid() && at in nodes && EndsInWildcard(at)
      requires PrefixFits(at, segments) && Leads(entries, at[..|at| - 1], segments)
      ensures Arrives(entries, at, segments)
    {
      var parent := at[..|at| - 1];
      assert HasRoute(entries, at);
      var f :| 0 <= f < |entries| && entries[f].pattern == at;
      assert Matches(at, segments);
      forall e | e in entries && Matches(e.pattern, segments) ensures e.pattern == at || e.pattern == parent {
        assert parent <= e.pattern;
        if e.pattern != parent { ParentOrWildcard(at, segments, e); }
      }
      ShadowedByMember(entries, at, segments);
      assert Shadowed(entries, parent, segments);
    }

    /** The answer at the node the request has arrived at. */
    method Answer(node: Node, ghost at: Pattern, variables: VariableSet, ghost segments: seq<string>,
                  methodname: string, version: Option<Version>) returns (r: Lookup)
      requires Valid() && at in nodes && nodes[at] == node && Arrives(entries, at, segments)
      requires PrefixFits(at, segments) && variables == Bindings(at, segments)
      ensures r == Scan(entries, segments, methodname, version)
    {
      HandlersOf(at, segments);
      FirstHandlerIs(at, segments, methodname, version);
      AnyHandlerIff(at, segments, version);
      hide Valid, Arrives, Candidates, Registered;
      var handlers := if methodname in node.methods then node.methods[methodname] else [];
      var handler := FindHandler(handlers, version);
      if handler.Some? {
        return Ok(LookupResult(handler.value, variables));
      }
      if exists m :: m in node.methods && FindHandler(node.methods[m], version).Some? {
        Ordering.BeforeIsStrictTotalOrder();
        return Err(MethodNotAllowed(Ordering.InOrder(Ordering.Before, node.methods.Keys)));
      }
      return Err(NotFound);
    }

    lemma HandlersOf(at: Pattern, segments: seq<string>)
      requires Valid() && at in nodes && Arrives(entries, at, segments)
      ensures forall m :: (if m in nodes[at].methods then nodes[at].methods[m] else []) == Registered(entries, at, m)
      ensures MethodsOf(Candidates(entries, segments)) == nodes[at].methods.Keys
    {
      assert Shape() && Handlers();
      hide *;
      ShapeParts();
      MethodsAt(at);
      forall m ensures (if m in nodes[at].methods then nodes[at].methods[m] else []) == Registered(entries, at, m)
        && (m in nodes[at].methods <==> m in MethodsOf(Candidates(entries, segments)))
      {
        MethodListedIff(MethodsNow(), entries, at, segments, m);
      }
    }

    lemma FirstHandlerIs(at: Pattern, segments: seq<string>, methodname: string, version: Option<Version>)
      requires Arrives(entries, at, segments)
      ensures var e := FirstServing(Candidates(entries, segments), methodname, version);
        && FindHandler(Registered(entries, at, methodname), version)
           == (if e.Some? then Some(e.value.endpoint) else None)
        && (e.Some? ==> e.value.pattern == at)
    {
      CandidatesAtNode(entries, at, segments);
      FirstServingIsFirstHandler(entries, at, methodname, version);
    }

    lemma AnyHandlerIff(at: Pattern, segments: seq<string>, version: Option<Version>)
      requires Valid() && at in nodes && Arrives(entries, at, segments)
      ensures (exists m :: m in nodes[at].methods && FindHandler(nodes[at].methods[m], version).Some?)
         <==> AnyMatching(Candidates(entries, segments), version)
    {
      var candidates := Candidates(entries, segments);
      AnyMatchingByMember(candidates, version);
      HandlersOf(at, segments);
      forall m ensures FindHandler(Registered(entries, at, m), version).Some?
        <==> FirstServing(candidates, m, version).Some?
      {
        FirstHandlerIs(at, segments, m, version);
      }
      if e :| e in candidates && e.endpoint.versions.Matches(version) {
        assert Serves(e, e.method_, version);
        assert FirstServing(candidates, e.method_, version).Some?;
        assert e.method_ in nodes[at].methods;
      }
    }

    /** Looks up a request: exactly what a scan of the registered routes would find. */
    method LookupRoute(decode: string -> Option<string>, method_: string, path: string, version: Option<Version>)
      returns (r: Lookup)
      requires Valid()
      ensures r == ScanPath(entries, decode, method_, path, version)
    {
      var input := InputSegments(decode, path);
      if input.Err? {
        return Err(BadRequest(input.error));
      }
      var segments := input.value;
      var node := root;
      var variables: VariableSet := map[];
      ghost var at: Pattern := [];
      var i := 0;
      while i < |segments|
        invariant i <= |segments| && Followed(at, node, variables, segments, i)
      {
        var next, at' := FollowInput(node, at, variables, segments, i);
        if next.None? {
          return Err(NotFound);
        }
        node, variables, i := next.value.0, next.value.1, next.value.2;
        at := at';
      }
      r := Conclude(node, at, variables, segments, Upper(method_), version);
    }

    /** The end of a lookup: a wildcard edge consumes the implicit, empty remainder. */
    method Conclude(node: Node, ghost at: Pattern, variables: VariableSet, segments: seq<string>,
                    methodname: string, version: Option<Version>) returns (r: Lookup)
      requires Valid() && Followed(at, node, variables, segments, |segments|)
      ensures r == Scan(entries, segments, methodname, version)
    {
      if node.edges.Some? && node.edges.value.VariableRest? {
        var c := VarnameWildcard(node.edges.value.name);
        ChildIffNode(at, c);
        BindOne(at, segments, c);
        assert (at + [c])[..|at|] == at;
        assert segments[|segments|..] == [];
        WildcardIsTerminal(at + [c]);
        assert node.edges.value.child.edges == None;
        ArrivesAtWildcard(at + [c], segments);
        var bound := variables[c.name := Components([])];
        r := Answer(node.edges.value.child, at + [c], bound, segments, methodname, version);
      } else {
        if EndsInWildcard(at) { ArrivesAtWildcard(at, segments); } else { ArrivesAtNode(at, segments); }
        r := Answer(node, at, variables, segments, methodname, version);
      }
    }
  }

  /**
    A registration that fails for a repeated variable leaves the node of that
    variable behind, and there it refuses a route that goes well with all others.
   */
  method LeftOverNodeRefuses(bad: Endpoint, good: Endpoint, variable: PathSegment, literal: PathSegment)
    returns (router: HttpRouter, refused: Result<(), InsertError>)
    requires variable.VarnameSegment? && bad.path == PrintPattern([variable, variable]) && WellFormedSegment(variable)
    requires literal.Literal? && good.path == PrintPattern([literal]) && WellFormedSegment(literal)
    ensures fresh(router) && router.Valid() && router.entries == []
    ensures EntryOf(good).Ok? && Acceptable(router.entries, EntryOf(good).value)
    ensures refused.Err?
  {
    hide *;
    PrintedEntry(bad, [variable, variable]);
    PrintedEntry(good, [literal]);
    router := new HttpRouter();
    router.WhatHolds();
    TwiceNamed(variable, router.nodes.Keys);
    AcceptableIsValid(EntryOf(bad).value);
    var failed := router.Insert(bad);
    OnlyLiteral(literal, good, router.nodes.Keys, variable);
    refused := router.Insert(good);
  }

  lemma PrintedEntry(e: Endpoint, p: Pattern)
    requires e.path == PrintPattern(p) && forall i :: 0 <= i < |p| ==> WellFormedSegment(p[i])
    ensures EntryOf(e) == Ok(Entry(p, Upper(e.method_), e))
  {
    PrintThenParse(p);
  }

  lemma AcceptableIsValid(e: Entry)
    ensures Acceptable([], e) ==> ValidPattern(e.pattern)
  {
  }

  lemma TwiceNamed(variable: PathSegment, keys: set<Pattern>)
    requires variable.VarnameSegment? && TightOn(keys, [])
    ensures !ValidPattern([variable, variable]) && [variable] in Walked(keys, [variable, variable])
  {
    var p := [variable, variable];
    assert p[..1] == [variable] && p[0].name == p[1].name && !p[0].Literal? && !p[1].Literal?;
    assert forall q :: q in keys ==> q == [];
    assert Walks(keys, p, 1);
  }

  lemma OnlyLiteral(literal: PathSegment, e: Endpoint, keys: set<Pattern>, variable: PathSegment)
    requires literal.Literal? && variable.VarnameSegment? && EntryOf(e) == Ok(Entry([literal], Upper(e.method_), e))
    ensures Acceptable([], EntryOf(e).value)
    ensures [variable] in keys ==> !AgreesSoFar(keys, EntryOf(e).value.pattern)
  {
    var p := [literal];
    assert p[..0] + [variable] == [variable];
  }
}
