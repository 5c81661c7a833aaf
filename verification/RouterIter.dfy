/**
  The route iterator: an explicit stack of partly visited nodes and the handlers
  still to come at the current one.  What it has left to yield is at any time a
  suffix of the trie's listing.
 */
module RouterIter {
  import opened Wrappers
  import opened Versions
  import opened RoutePath
  import RouteTable
  import opened Router
  import opened RouteListing

  /** A node on the stack: the segment that led to it and its children still to be visited. */
  datatype Level = Level(segment: PathSegment, children: seq<(PathSegment, Node)>)

  /** The same as the trie sees it: the node's pattern and the labels still to be followed. */
  datatype Stop = Stop(pattern: Pattern, labels: seq<PathSegment>)

  ghost function TrieOf(router: HttpRouter): Trie
    requires router.Owned()
    reads router, router.repr
  {
    Trie(router.nodes, router.EdgesNow(), router.MethodsNow())
  }

  predicate AllEdges(edges: Option<Edges>, labels: seq<PathSegment>) {
    forall i :: 0 <= i < |labels| ==> Child(edges, labels[i]).Some?
  }

  function Shown(edges: Option<Edges>, labels: seq<PathSegment>): seq<(PathSegment, Node)>
    requires AllEdges(edges, labels)
  {
    seq(|labels|, i requires 0 <= i < |labels| => (Erase(labels[i]), Child(edges, labels[i]).value))
  }

  lemma LabelsHaveChildren(edges: Option<Edges>)
    ensures AllEdges(edges, Labels(edges))
    ensures edges.Some? && edges.value.Literals? ==>
      forall i :: 0 <= i < |Labels(edges)| ==>
        Labels(edges)[i].Literal? && Labels(edges)[i].text in edges.value.children
  {
    var labels := Labels(edges);
    forall i | 0 <= i < |labels| ensures Child(edges, labels[i]).Some? { assert labels[i] in labels; }
  }

  /** The children of a node as the iterator shows them: a wildcard appears as a plain variable. */
  function IterNode(edges: Option<Edges>): (r: seq<(PathSegment, Node)>)
    ensures AllEdges(edges, Labels(edges)) && r == Shown(edges, Labels(edges))
  {
    LabelsHaveChildren(edges);
    match edges
    case None => []
    case Some(Literals(children)) =>
      var labels := Labels(edges);
      seq(|labels|, i requires 0 <= i < |labels| => (labels[i], children[labels[i].text]))
    case Some(VariableSingle(name, child)) => [(VarnameSegment(name), child)]
    case Some(VariableRest(name, child)) => [(VarnameSegment(name), child)]
  }

  ghost predicate LevelMatches(t: Trie, level: Level, stop: Stop, depth: nat)
    requires WellShaped(t)
  {
    && stop.pattern in t.nodes && |stop.pattern| == depth
    && AllEdges(t.edges[stop.pattern], stop.labels)
    && level.children == Shown(t.edges[stop.pattern], stop.labels)
    && level.segment == if depth == 0 then PathSegment.Literal("") else Erase(stop.pattern[depth - 1])
  }

  /** The stack follows one path of the trie from the root down. */
  ghost predicate StackMatches(t: Trie, path: seq<Level>, trail: seq<Stop>)
    requires WellShaped(t)
  {
    && |path| == |trail|
    && (forall k {:trigger LevelMatches(t, path[k], trail[k], k)} ::
         0 <= k < |path| ==> LevelMatches(t, path[k], trail[k], k))
    && (forall k :: 0 <= k < |trail| ==> trail[k].pattern <= trail[|trail| - 1].pattern)
  }

  lemma EdgesAreLed(t: Trie, p: Pattern, labels: seq<PathSegment>)
    requires WellShaped(t) && p in t.nodes && AllEdges(t.edges[p], labels)
    ensures LabelsLead(t, p, labels)
  {
    forall i | 0 <= i < |labels| ensures p + [labels[i]] in t.nodes {
      assert EdgeLeads(t.nodes, t.edges, p, labels[i]);
    }
  }

  ghost predicate StopsValid(t: Trie, trail: seq<Stop>)
    requires WellShaped(t)
  {
    forall k :: 0 <= k < |trail| ==> trail[k].pattern in t.nodes && AllEdges(t.edges[trail[k].pattern], trail[k].labels)
  }

  /** The patterns still to be visited. */
  ghost function ToVisit(t: Trie, trail: seq<Stop>): seq<Pattern>
    requires WellShaped(t)
    requires StopsValid(t, trail)
  {
    if trail == [] then []
    else
      var last := |trail| - 1;
      EdgesAreLed(t, trail[last].pattern, trail[last].labels);
      PreorderOf(t, trail[last].pattern, trail[last].labels) + ToVisit(t, trail[..last])
  }

  lemma {:induction false} ToVisitInside(t: Trie, trail: seq<Stop>)
    requires WellShaped(t)
    requires StopsValid(t, trail)
    ensures forall p :: p in ToVisit(t, trail) ==> p in t.methods
  {
    hide AllEdges;
    if trail != [] {
      var last := |trail| - 1;
      EdgesAreLed(t, trail[last].pattern, trail[last].labels);
      ToVisitInside(t, trail[..last]);
      forall p | p in PreorderOf(t, trail[last].pattern, trail[last].labels) ensures p in t.methods {
        PreorderOfHoldsBelow(t, trail[last].pattern, trail[last].labels, p);
      }
    }
  }

  ghost function Popped(trail: seq<Stop>): seq<Stop>
    requires trail != []
  {
    trail[..|trail| - 1]
  }

  ghost function Pushed(t: Trie, trail: seq<Stop>): seq<Stop>
    requires WellShaped(t) && trail != [] && trail[|trail| - 1].labels != []
    requires trail[|trail| - 1].pattern + [trail[|trail| - 1].labels[0]] in t.nodes
  {
    var top := trail[|trail| - 1];
    var next := top.pattern + [top.labels[0]];
    Popped(trail) + [top.(labels := top.labels[1..]), Stop(next, Labels(t.edges[next]))]
  }

  lemma PopVisitsNothing(t: Trie, path: seq<Level>, trail: seq<Stop>)
    requires WellShaped(t) && StackMatches(t, path, trail) && path != []
    requires path[|path| - 1].children == []
    ensures StackMatches(t, path[..|path| - 1], Popped(trail))
    ensures StopsValid(t, trail) && StopsValid(t, Popped(trail))
    ensures ToVisit(t, trail) == ToVisit(t, Popped(trail))
  {
    hide TreeShape;
    var last := |path| - 1;
    assert LevelMatches(t, path[last], trail[last], last);
    assert trail[last].labels == [];
    forall k | 0 <= k < last ensures LevelMatches(t, path[..last][k], Popped(trail)[k], k) {
      assert LevelMatches(t, path[k], trail[k], k);
    }
    forall k | 0 <= k < last ensures trail[k].pattern <= trail[last - 1].pattern {
      assert LevelMatches(t, path[k], trail[k], k) && LevelMatches(t, path[last - 1], trail[last - 1], last - 1);
      PrefixesNest(trail[k].pattern, trail[last - 1].pattern, trail[last].pattern);
    }
    StopsMatch(t, path, trail);
  }

  lemma PrefixesNest(p: Pattern, q: Pattern, r: Pattern)
    requires p <= r && q <= r && |p| <= |q|
    ensures p <= q
  {
  }

  lemma StopsMatch(t: Trie, path: seq<Level>, trail: seq<Stop>)
    requires WellShaped(t) && StackMatches(t, path, trail)
    ensures StopsValid(t, trail)
  {
    forall k | 0 <= k < |trail|
      ensures trail[k].pattern in t.nodes && AllEdges(t.edges[trail[k].pattern], trail[k].labels)
    {
      assert LevelMatches(t, path[k], trail[k], k);
    }
  }

  /** The stack after taking the next child of its top. */
  ghost function PushedPath(t: Trie, path: seq<Level>, next: Pattern, shown: PathSegment): seq<Level>
    requires WellShaped(t) && path != [] && path[|path| - 1].children != [] && next in t.nodes
  {
    var top := path[|path| - 1];
    path[..|path| - 1] + [top.(children := top.children[1..]), Level(shown, IterNode(t.edges[next]))]
  }

  lemma PushedPathIs(t: Trie, path: seq<Level>, next: Pattern, shown: PathSegment)
    requires WellShaped(t) && path != [] && path[|path| - 1].children != [] && next in t.nodes && next in t.edges
    ensures var top := path[|path| - 1];
      PushedPath(t, path, next, shown)
        == path[..|path| - 1] + [top.(children := top.children[1..]), Level(shown, IterNode(t.edges[next]))]
  {
  }

  lemma PushTop(t: Trie, path: seq<Level>, trail: seq<Stop>)
    requires WellShaped(t) && StackMatches(t, path, trail) && path != []
    requires path[|path| - 1].children != []
    ensures |trail| == |path| && trail[|trail| - 1].labels != []
    ensures var top := trail[|trail| - 1];
      var next := top.pattern + [top.labels[0]];
      next in t.nodes && path[|path| - 1].children[0] == (Erase(top.labels[0]), t.nodes[next])
  {
    var last := |path| - 1;
    assert LevelMatches(t, path[last], trail[last], last);
    assert EdgeLeads(t.nodes, t.edges, trail[last].pattern, trail[last].labels[0]);
  }

  lemma PushMatches(t: Trie, path: seq<Level>, trail: seq<Stop>, next: Pattern)
    requires WellShaped(t) && StackMatches(t, path, trail) && path != []
    requires path[|path| - 1].children != [] && trail[|trail| - 1].labels != []
    requires next == trail[|trail| - 1].pattern + [trail[|trail| - 1].labels[0]] && next in t.nodes
    ensures StackMatches(t, PushedPath(t, path, next, path[|path| - 1].children[0].0), Pushed(t, trail))
  {
    hide TreeShape;
    var last := |path| - 1;
    var top := trail[last];
    var path', trail' := PushedPath(t, path, next, path[last].children[0].0), Pushed(t, trail);
    assert LevelMatches(t, path[last], top, last);
    assert LevelMatches(t, path'[last], trail'[last], last) by {
      assert Shown(t.edges[top.pattern], top.labels)[1..] == Shown(t.edges[top.pattern], top.labels[1..]);
    }
    assert LevelMatches(t, path'[last + 1], trail'[last + 1], last + 1);
    forall k | 0 <= k < |path'| ensures LevelMatches(t, path'[k], trail'[k], k) {
      if k < last { assert LevelMatches(t, path[k], trail[k], k); }
    }
    forall k | 0 <= k < |trail'| ensures trail'[k].pattern <= next {
      if k < last { assert trail[k].pattern <= top.pattern <= next; }
    }
  }

  /** Taking the next child visits it first, and then what was to be visited anyway. */
  lemma PushVisitsNext(t: Trie, trail: seq<Stop>, top: Stop, next: Pattern)
    requires WellShaped(t) && StopsValid(t, trail + [top]) && top.labels != []
    requires next == top.pattern + [top.labels[0]] && next in t.nodes && next in t.edges
    requires StopsValid(t, trail + [top.(labels := top.labels[1..]), Stop(next, Labels(t.edges[next]))])
    ensures ToVisit(t, trail + [top])
         == [next] + ToVisit(t, trail + [top.(labels := top.labels[1..]), Stop(next, Labels(t.edges[next]))])
  {
    hide *;
    var thinner, below := top.(labels := top.labels[1..]), Stop(next, Labels(t.edges[next]));
    assert trail + [thinner, below] == trail + [thinner] + [below];
    ToVisitLast(t, trail, top);
    ToVisitLast(t, trail + [thinner], below);
    ToVisitLast(t, trail, thinner);
    PreorderFirst(t, top.pattern, top.labels);
  }

  lemma ToVisitLast(t: Trie, trail: seq<Stop>, last: Stop)
    requires WellShaped(t) && StopsValid(t, trail + [last])
    ensures StopsValid(t, trail) && last.pattern in t.nodes
    ensures last.pattern in t.edges && LabelsLead(t, last.pattern, last.labels)
    ensures ToVisit(t, trail + [last]) == PreorderOf(t, last.pattern, last.labels) + ToVisit(t, trail)
  {
    var longer, n := trail + [last], |trail|;
    assert longer[n] == last && longer[..n] == trail;
    assert forall k :: 0 <= k < n ==> longer[k] == trail[k];
    EdgesAreLed(t, last.pattern, last.labels);
  }

  lemma PreorderFirst(t: Trie, p: Pattern, labels: seq<PathSegment>)
    requires WellShaped(t) && p in t.nodes && LabelsLead(t, p, labels) && labels != []
    ensures p + [labels[0]] in t.nodes && p + [labels[0]] in t.edges && LabelsLead(t, p, labels[1..])
    ensures LabelsLead(t, p + [labels[0]], Labels(t.edges[p + [labels[0]]]))
    ensures PreorderOf(t, p, labels)
         == [p + [labels[0]]]
            + (PreorderOf(t, p + [labels[0]], Labels(t.edges[p + [labels[0]]])) + PreorderOf(t, p, labels[1..]))
  {
    AllLabelsLead(t, p + [labels[0]]);
  }

  lemma PushOnTop(t: Trie, path: seq<Level>, trail: seq<Stop>, next: Pattern)
    requires WellShaped(t) && StackMatches(t, path, trail) && path != []
    requires path[|path| - 1].children != [] && trail[|trail| - 1].labels != []
    requires next == trail[|trail| - 1].pattern + [trail[|trail| - 1].labels[0]] && next in t.nodes
    ensures StackMatches(t, PushedPath(t, path, next, path[|path| - 1].children[0].0), Pushed(t, trail))
    ensures StopsValid(t, trail) && StopsValid(t, Pushed(t, trail))
    ensures ToVisit(t, trail) == [next] + ToVisit(t, Pushed(t, trail))
    ensures Pushed(t, trail)[|trail|].pattern == next && |Pushed(t, trail)| == |trail| + 1
  {
    PushMatches(t, path, trail, next);
    StopsMatch(t, path, trail);
    StopsMatch(t, PushedPath(t, path, next, path[|path| - 1].children[0].0), Pushed(t, trail));
    assert trail == Popped(trail) + [trail[|trail| - 1]];
    PushVisitsNext(t, Popped(trail), trail[|trail| - 1], next);
  }

  /** The path of the current node as text; the bottom of the stack is only a placeholder. */
  function PathText(path: seq<Level>): string
    requires path != []
  {
    PrintPattern(seq(|path| - 1, i requires 0 <= i < |path| - 1 => path[i + 1].segment))
  }

  lemma PathTextIsListed(t: Trie, path: seq<Level>, trail: seq<Stop>)
    requires WellShaped(t) && StackMatches(t, path, trail) && path != []
    ensures PathText(path) == ListedPath(trail[|trail| - 1].pattern)
  {
    hide WellShaped, Shown, AllEdges, PrintPattern;
    var last := |path| - 1;
    var p := trail[last].pattern;
    assert LevelMatches(t, path[last], trail[last], last);
    var segments := seq(last, i requires 0 <= i < last => path[i + 1].segment);
    forall i | 0 <= i < last ensures segments[i] == ErasePattern(p)[i] {
      assert LevelMatches(t, path[i + 1], trail[i + 1], i + 1);
      assert trail[i + 1].pattern <= p;
    }
    assert segments == ErasePattern(p);
  }

  lemma EmitFirst(t: Trie, p: Pattern, ps: seq<Pattern>, version: Option<Version>)
    requires forall q :: q in [p] + ps ==> q in t.methods
    ensures p in t.methods && forall q :: q in ps ==> q in t.methods
    ensures Emit(t, [p] + ps, version)
         == ItemsAt(ListedPath(p), HandlersFromNode(t.methods[p], version)) + Emit(t, ps, version)
  {
    assert p in [p] + ps && ([p] + ps)[1..] == ps;
    assert forall q :: q in ps ==> q in [p] + ps;
  }

  ghost predicate Consistent(t: Trie, path: seq<Level>, trail: seq<Stop>, methods: seq<(string, RouteTable.Endpoint)>) {
    WellShaped(t) && StackMatches(t, path, trail) && (path == [] ==> methods == [])
  }

  /** What an iterator in this state has still to yield. */
  ghost function StillToYield(t: Trie, path: seq<Level>, trail: seq<Stop>, methods: seq<(string, RouteTable.Endpoint)>,
                              version: Option<Version>): seq<Item>
    requires Consistent(t, path, trail, methods)
  {
    if path == [] then []
    else
      StopsMatch(t, path, trail);
      ToVisitInside(t, trail);
      ItemsAt(ListedPath(trail[|trail| - 1].pattern), methods) + Emit(t, ToVisit(t, trail), version)
  }

  /** The number of nodes an iterator in this state has not come to. */
  ghost function NodesLeft(t: Trie, path: seq<Level>, trail: seq<Stop>): nat
    requires WellShaped(t) && StackMatches(t, path, trail)
  {
    StopsMatch(t, path, trail);
    |ToVisit(t, trail)|
  }

  lemma YieldTakesFirst(t: Trie, path: seq<Level>, trail: seq<Stop>, methods: seq<(string, RouteTable.Endpoint)>,
                        version: Option<Version>)
    requires Consistent(t, path, trail, methods) && methods != []
    ensures path != [] && Consistent(t, path, trail, methods[1..])
    ensures StillToYield(t, path, trail, methods, version)
         == [Item(PathText(path), methods[0].0, methods[0].1)] + StillToYield(t, path, trail, methods[1..], version)
  {
    PathTextIsListed(t, path, trail);
  }

  lemma UpLosesNothing(t: Trie, path: seq<Level>, trail: seq<Stop>, version: Option<Version>)
    requires Consistent(t, path, trail, []) && path != [] && path[|path| - 1].children == []
    ensures |trail| == |path| && Consistent(t, path[..|path| - 1], Popped(trail), [])
    ensures StillToYield(t, path[..|path| - 1], Popped(trail), [], version) == StillToYield(t, path, trail, [], version)
    ensures NodesLeft(t, path[..|path| - 1], Popped(trail)) == NodesLeft(t, path, trail)
  {
    PopVisitsNothing(t, path, trail);
    hide WellShaped, StackMatches, StopsValid, ListedPath;
    ToVisitInside(t, trail);
  }

  lemma DownLosesNothing(t: Trie, path: seq<Level>, trail: seq<Stop>, next: Pattern, version: Option<Version>)
    requires Consistent(t, path, trail, []) && path != [] && path[|path| - 1].children != []
    requires |trail| == |path| && trail[|trail| - 1].labels != [] && next in t.nodes && next in t.methods
    requires next == trail[|trail| - 1].pattern + [trail[|trail| - 1].labels[0]]
    ensures var path' := PushedPath(t, path, next, path[|path| - 1].children[0].0);
      var methods' := HandlersFromNode(t.methods[next], version);
      && Consistent(t, path', Pushed(t, trail), methods')
      && StillToYield(t, path', Pushed(t, trail), methods', version) == StillToYield(t, path, trail, [], version)
      && NodesLeft(t, path', Pushed(t, trail)) < NodesLeft(t, path, trail)
  {
    PushOnTop(t, path, trail, next);
    hide WellShaped, StackMatches, StopsValid, ListedPath, ItemsAt, HandlersFromNode;
    ToVisitInside(t, trail);
    EmitFirst(t, next, ToVisit(t, Pushed(t, trail)), version);
    NothingAt(ListedPath(trail[|trail| - 1].pattern));
  }

  lemma NothingAt(path: string)
    ensures ItemsAt(path, []) == []
  {
  }

  /** At the root, with all its labels ahead, the whole listing is still to be yielded. */
  lemma AtRoot(t: Trie, version: Option<Version>)
    requires WellShaped(t) && [] in t.nodes && [] in t.edges && [] in t.methods
    ensures var methods := HandlersFromNode(t.methods[[]], version);
      var path, trail := [Level(PathSegment.Literal(""), IterNode(t.edges[[]]))], [Stop([], Labels(t.edges[[]]))];
      Consistent(t, path, trail, methods) && StillToYield(t, path, trail, methods, version) == Listing(t, version)
  {
    var path, trail := [Level(PathSegment.Literal(""), IterNode(t.edges[[]]))], [Stop([], Labels(t.edges[[]]))];
    RootMatches(t);
    hide HandlersFromNode, IterNode, Labels, LevelMatches, StackMatches, Emit, Preorder;
    StopsMatch(t, path, trail);
    ToVisitInside(t, trail);
    PreorderStaysInside(t);
    RootVisits(t);
    EmitFirst(t, [], ToVisit(t, trail), version);
  }

  lemma RootMatches(t: Trie)
    requires WellShaped(t) && [] in t.nodes && [] in t.edges
    ensures StackMatches(t, [Level(PathSegment.Literal(""), IterNode(t.edges[[]]))], [Stop([], Labels(t.edges[[]]))])
  {
    var level, stop := Level(PathSegment.Literal(""), IterNode(t.edges[[]])), Stop([], Labels(t.edges[[]]));
    assert LevelMatches(t, level, stop, 0);
  }

  lemma RootVisits(t: Trie)
    requires WellShaped(t) && [] in t.nodes && [] in t.edges
    requires StopsValid(t, [Stop([], Labels(t.edges[[]]))])
    ensures Preorder(t, []) == [[]] + ToVisit(t, [Stop([], Labels(t.edges[[]]))])
  {
    var root := Stop([], Labels(t.edges[[]]));
    assert [] + [root] == [root];
    ToVisitLast(t, [], root);
    assert ToVisit(t, [root]) == PreorderOf(t, [], root.labels);
  }

  class HttpRouterIter {
    const router: HttpRouter
    const version: Option<Version>
    var methods: seq<(string, RouteTable.Endpoint)>
    var path: seq<Level>
    ghost const trie: Trie
    ghost var trail: seq<Stop>

    /** The router is the one the iterator was made for, unchanged. */
    ghost predicate RouterStands()
      reads router, router.repr
    {
      router.Owned() && WellShaped(trie) && trie == TrieOf(router)
    }

    ghost predicate Valid()
      reads this
    {
      Consistent(trie, path, trail, methods)
    }

    /** What is still to be yielded. */
    ghost function Remaining(): seq<Item>
      requires Valid()
      reads this
    {
      StillToYield(trie, path, trail, methods, version)
    }

    ghost function Left(): nat
      requires Valid()
      reads this
    {
      NodesLeft(trie, path, trail)
    }

    constructor (router: HttpRouter, version: Option<Version>)
      requires router.Valid()
      ensures this.router == router && this.version == version
      ensures RouterStands() && trie == TrieOf(router)
      ensures Valid() && Remaining() == Listing(trie, version)
    {
      this.router := router;
      this.version := version;
      methods := HandlersFromNode(router.root.methods, version);
      path := [Level(PathSegment.Literal(""), IterNode(router.root.edges))];
      trie := TrieOf(router);
      trail := [Stop([], Labels(router.root.edges))];
      new;
      hide HandlersFromNode, IterNode, Labels;
      Departure();
    }

    lemma Departure()
      requires router.Valid() && trie == TrieOf(router)
      requires methods == HandlersFromNode(router.root.methods, version)
      requires path == [Level(PathSegment.Literal(""), IterNode(router.root.edges))]
      requires trail == [Stop([], Labels(router.root.edges))]
      ensures RouterStands() && Valid() && Remaining() == Listing(trie, version)
    {
      RootStands();
      hide *;
      AtRoot(trie, version);
      Parts();
    }

    lemma RootStands()
      requires router.Valid() && trie == TrieOf(router)
      ensures RouterStands() && WellShaped(trie) && [] in trie.nodes && [] in trie.edges && [] in trie.methods
      ensures trie.edges[[]] == router.root.edges && trie.methods[[]] == router.root.methods
    {
    }

    lemma NodeStands(p: Pattern)
      requires RouterStands() && p in trie.nodes
      ensures p in trie.methods && trie.methods[p] == trie.nodes[p].methods
      ensures p in trie.edges && trie.edges[p] == trie.nodes[p].edges
    {
    }

    lemma Parts()
      ensures Valid() <==> Consistent(trie, path, trail, methods)
      ensures Valid() ==> WellShaped(trie) && StackMatches(trie, path, trail)
      ensures Valid() ==> Remaining() == StillToYield(trie, path, trail, methods, version)
      ensures Valid() ==> Left() == NodesLeft(trie, path, trail)
      ensures Valid() && path == [] ==> Remaining() == []
    {
    }

    /** Takes the first handler still to come at the current node. */
    method Yield() returns (item: Item)
      requires Valid() && methods != []
      modifies this`methods
      ensures Valid() && old(Remaining()) == [item] + Remaining()
    {
      hide *;
      Parts();
      YieldTakesFirst(trie, path, trail, methods, version);
      item := Item(PathText(path), methods[0].0, methods[0].1);
      methods := methods[1..];
      Parts();
    }

    /** A node without further children is left; its handlers stay exhausted. */
    method Up()
      requires Valid() && methods == [] && path != [] && path[|path| - 1].children == []
      modifies this`path, this`trail
      ensures Valid() && methods == [] && Remaining() == old(Remaining())
      ensures |path| == |old(path)| - 1 && Left() == old(Left())
    {
      hide *;
      Parts();
      UpLosesNothing(trie, path, trail, version);
      path := path[..|path| - 1];
      trail := Popped(trail);
      Parts();
    }

    /** The next child is entered and its handlers come up. */
    method Down()
      requires Valid() && RouterStands() && methods == [] && path != [] && path[|path| - 1].children != []
      modifies this`methods, this`path, this`trail
      ensures Valid() && RouterStands() && Remaining() == old(Remaining())
      ensures path != [] && Left() < old(Left())
    {
      hide *;
      Parts();
      PushTop(trie, path, trail);
      ghost var next := trail[|trail| - 1].pattern + [trail[|trail| - 1].labels[0]];
      var top := path[|path| - 1];
      var node := top.children[0].1;
      NodeStands(next);
      DownLosesNothing(trie, path, trail, next, version);
      PushedPathIs(trie, path, next, top.children[0].0);
      path := path[..|path| - 1]
        + [top.(children := top.children[1..]), Level(top.children[0].0, IterNode(node.edges))];
      trail := Pushed(trie, trail);
      methods := HandlersFromNode(node.methods, version);
      Parts();
    }

    /**
      Yields the next route, walking up and down the trie as far as needed:
      always the first of what is left of the listing, and nothing once that is
      used up.
     */
    method Next() returns (r: Option<Item>)
      requires Valid() && RouterStands()
      modifies this`methods, this`path, this`trail
      ensures Valid() && RouterStands()
      ensures r == (if old(Remaining()) == [] then None else Some(old(Remaining())[0]))
      ensures Remaining() == if old(Remaining()) == [] then [] else old(Remaining())[1..]
    {
      hide *;
      Parts();
      if path == [] {
        return None;
      }
      while true
        invariant Valid() && RouterStands() && Remaining() == old(Remaining())
        decreases Left(), |path|
      {
        if methods != [] {
          var item := Yield();
          assert ([item] + Remaining())[1..] == Remaining();
          return Some(item);
        }
        if path == [] {
          Parts();
          return None;
        }
        if path[|path| - 1].children == [] {
          Up();
        } else {
          Down();
        }
      }
    }
  }
}
