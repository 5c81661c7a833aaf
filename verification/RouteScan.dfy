/**
  Looking up a request by scanning the flat list of registered routes: the
  meaning that the trie's lookup is proved to have.
 */
module RouteScan {
  import opened Wrappers
  import opened Versions
  import opened RoutePath
  import Ordering
  import opened RouteTable

  datatype LookupResult = LookupResult(endpoint: Endpoint, variables: VariableSet)

  datatype LookupError =
    | BadRequest(cause: InputError)
    | NotFound
    | MethodNotAllowed(allow: seq<string>)

  type Lookup = Result<LookupResult, LookupError>

  /** A wildcard below a matching pattern takes the request away from it. */
  predicate Shadowed(entries: seq<Entry>, p: Pattern, segments: seq<string>) {
    exists i :: 0 <= i < |entries| && |entries[i].pattern| > |p| && Matches(entries[i].pattern, segments)
  }

  predicate Candidate(entries: seq<Entry>, e: Entry, segments: seq<string>) {
    Matches(e.pattern, segments) && !Shadowed(entries, e.pattern, segments)
  }

  function Select(entries: seq<Entry>, keep: Entry -> bool): (r: seq<Entry>)
    ensures forall e :: e in r <==> e in entries && keep(e)
  {
    if entries == [] then []
    else
      var rest := Select(entries[1..], keep);
      if keep(entries[0]) then [entries[0]] + rest else rest
  }

  /** The entries, in order of registration, at the most specific place that the segments lead to. */
  function Candidates(entries: seq<Entry>, segments: seq<string>): (r: seq<Entry>)
    ensures forall e :: e in r <==> e in entries && Candidate(entries, e, segments)
  {
    Select(entries, e => Candidate(entries, e, segments))
  }

  predicate Serves(e: Entry, method_: string, version: Option<Version>) {
    e.method_ == method_ && e.endpoint.versions.Matches(version)
  }

  function FirstServing(entries: seq<Entry>, method_: string, version: Option<Version>): (r: Option<Entry>)
    ensures r.Some? ==> r.value in entries && Serves(r.value, method_, version)
    ensures r.None? <==> forall e :: e in entries ==> !Serves(e, method_, version)
  {
    if entries == [] then None
    else if Serves(entries[0], method_, version) then Some(entries[0])
    else FirstServing(entries[1..], method_, version)
  }

  predicate AnyMatching(entries: seq<Entry>, version: Option<Version>) {
    exists i :: 0 <= i < |entries| && entries[i].endpoint.versions.Matches(version)
  }

  function MethodsOf(entries: seq<Entry>): set<string> {
    set e | e in entries :: e.method_
  }

  /** What the list of routes has to say about decoded segments, an upper-case method and a version. */
  function Scan(entries: seq<Entry>, segments: seq<string>, method_: string, version: Option<Version>): Lookup {
    var candidates := Candidates(entries, segments);
    match FirstServing(candidates, method_, version)
    case Some(e) => Ok(LookupResult(e.endpoint, Bindings(e.pattern, segments)))
    case None =>
      if AnyMatching(candidates, version) then
        Ordering.BeforeIsStrictTotalOrder();
        Err(MethodNotAllowed(Ordering.InOrder(Ordering.Before, MethodsOf(candidates))))
      else
        Err(NotFound)
  }

  function ScanPath(entries: seq<Entry>, decode: string -> Option<string>,
                    method_: string, path: string, version: Option<Version>): Lookup
  {
    match InputSegments(decode, path)
    case Err(cause) => Err(BadRequest(cause))
    case Ok(segments) => Scan(entries, segments, Upper(method_), version)
  }

  // ---------------------------------------------------------- one place at most

  lemma {:induction false} NestedWhenBothFit(p: Pattern, q: Pattern, segments: seq<string>, k: nat)
    requires PatternsAgree(p, q) && PrefixFits(p, segments) && PrefixFits(q, segments)
    requires k <= |p| && k <= |q|
    ensures p[..k] == q[..k]
  {
    if k > 0 {
      NestedWhenBothFit(p, q, segments, k - 1);
      assert SegmentsAgree(p[k - 1], q[k - 1]);
      assert SegmentFits(p[k - 1], segments, k - 1) && SegmentFits(q[k - 1], segments, k - 1);
      assert p[..k] == p[..k - 1] + [p[k - 1]] && q[..k] == q[..k - 1] + [q[k - 1]];
    }
  }

  /** Of compatible routes, all candidates for a request share one pattern. */
  lemma CandidatesShareAPattern(entries: seq<Entry>, segments: seq<string>, a: Entry, b: Entry)
    requires PairwiseCompatible(entries) && a in entries && b in entries
    requires Candidate(entries, a, segments) && Candidate(entries, b, segments)
    ensures a.pattern == b.pattern
  {
    var p, q := a.pattern, b.pattern;
    if a != b {
      PairwiseMembersCompatible(entries, a, b);
      assert |p| == |q|;
      NestedWhenBothFit(p, q, segments, |p|);
      assert p[..|p|] == p && q[..|q|] == q;
    }
  }

  /** A route that goes on from `p` with a wildcard and nothing else. */
  predicate WildcardBelow(entries: seq<Entry>, p: Pattern) {
    exists i :: 0 <= i < |entries| && GoesOnWithWildcard(entries[i].pattern, p)
  }

  predicate GoesOnWithWildcard(q: Pattern, p: Pattern) {
    |q| == |p| + 1 && q[..|p|] == p && EndsInWildcard(q)
  }

  /** Of two compatible routes that match, a longer one goes on with a wildcard that takes nothing. */
  lemma LongerMatchIsWildcard(p: Pattern, q: Pattern, segments: seq<string>)
    requires PatternsAgree(p, q) && ValidPattern(q) && |q| > |p|
    requires Matches(p, segments) && Matches(q, segments)
    ensures GoesOnWithWildcard(q, p)
  {
    NestedWhenBothFit(p, q, segments, |p|);
    assert p[..|p|] == p;
    assert p != [] ==> p[|p| - 1] == q[..|p|][|p| - 1] == q[|p| - 1];
    assert SegmentFits(q[|p|], segments, |p|);
  }

  /**
    A registered route is a candidate exactly for the requests that match it --
    unless a route goes on from it with a wildcard, and then for none at all.
   */
  lemma CandidateIff(entries: seq<Entry>, e: Entry, segments: seq<string>)
    requires PairwiseCompatible(entries) && e in entries
    ensures e in Candidates(entries, segments) <==> Matches(e.pattern, segments) && !WildcardBelow(entries, e.pattern)
  {
    hide Candidates, PatternsAgree, Matches;
    if Matches(e.pattern, segments) {
      if Shadowed(entries, e.pattern, segments) {
        var i :| 0 <= i < |entries| && |entries[i].pattern| > |e.pattern| && Matches(entries[i].pattern, segments);
        assert entries[i] in entries;
        PairwiseMembersCompatible(entries, e, entries[i]);
        LongerMatchIsWildcard(e.pattern, entries[i].pattern, segments);
      }
      if WildcardBelow(entries, e.pattern) {
        var i :| 0 <= i < |entries| && GoesOnWithWildcard(entries[i].pattern, e.pattern);
        assert ValidPattern(entries[i].pattern);
        WildcardTakesNothing(e.pattern, entries[i].pattern, segments);
      }
    }
  }

  lemma WildcardTakesNothing(p: Pattern, q: Pattern, segments: seq<string>)
    requires GoesOnWithWildcard(q, p) && ValidPattern(q) && Matches(p, segments)
    ensures Matches(q, segments)
  {
    assert p != [] ==> p[|p| - 1] == q[..|p|][|p| - 1] == q[|p| - 1];
    forall i | 0 <= i < |q| ensures SegmentFits(q[i], segments, i) {
      if i < |p| { assert SegmentFits(p[i], segments, i) && p[i] == q[..|p|][i]; }
    }
  }

  /**
    A route and a wildcard going on from it register together, and then every
    request for the route itself is answered by the wildcard, binding nothing.
   */
  lemma WildcardTakesParentsRequests(a: Entry, c: Entry, segments: seq<string>, method_: string,
                                     version: Option<Version>)
    requires ValidPattern(c.pattern) && GoesOnWithWildcard(c.pattern, a.pattern)
    requires Matches(a.pattern, segments) && Serves(c, method_, version)
    ensures RegistersInTurn([a, c])
    ensures Matches(c.pattern, segments) && a !in Candidates([a, c], segments)
    ensures Scan([a, c], segments, method_, version) == Ok(LookupResult(c.endpoint, Bindings(c.pattern, segments)))
    ensures Bindings(c.pattern, segments)
         == Bindings(a.pattern, segments)[c.pattern[|a.pattern|].name := Components([])]
  {
    ParentAndWildcardRegister(a, c);
    WildcardTakesNothing(a.pattern, c.pattern, segments);
    assert [a, c][0] == a && [a, c][1] == c;
    assert WildcardBelow([a, c], a.pattern);
    CandidateIff([a, c], a, segments);
    assert c in Candidates([a, c], segments) by {
      assert !Shadowed([a, c], c.pattern, segments);
    }
    ParentTakesAll(a.pattern, c.pattern, segments);
    assert c.pattern[..|c.pattern| - 1] == a.pattern && segments[|a.pattern|..] == [];
    hide Candidates, RegistersInTurn;
    var found := FirstServing(Candidates([a, c], segments), method_, version);
    assert found == Some(c);
  }

  lemma ParentTakesAll(p: Pattern, q: Pattern, segments: seq<string>)
    requires GoesOnWithWildcard(q, p) && ValidPattern(q) && Matches(p, segments)
    ensures |p| == |segments|
  {
    assert p != [] ==> p[|p| - 1] == q[..|p|][|p| - 1] == q[|p| - 1];
  }

  lemma ParentAndWildcardRegister(a: Entry, c: Entry)
    requires ValidPattern(c.pattern) && GoesOnWithWildcard(c.pattern, a.pattern)
    ensures RegistersInTurn([a, c]) && PairwiseCompatible([a, c])
  {
    var p, q := a.pattern, c.pattern;
    forall k | 0 <= k < |p| ensures p[k] == q[k] { assert q[..|p|][k] == q[k]; }
    assert Compatible(a, c);
    assert PairwiseCompatible([a, c]);
    RegistrationIsPairwise([a, c]);
  }

  /**
    A successful lookup comes from a registered route of that method and version,
    and writing the variables into the route's path gives back the request.
   */
  lemma LookupReproducesRequest(entries: seq<Entry>, segments: seq<string>, method_: string, version: Option<Version>)
    returns (e: Entry)
    requires PairwiseCompatible(entries) && Scan(entries, segments, method_, version).Ok?
    ensures var r := Scan(entries, segments, method_, version).value;
      && e in entries && e.endpoint == r.endpoint && Serves(e, method_, version)
      && Fills(r.variables, e.pattern) && Instantiate(e.pattern, r.variables) == segments
  {
    hide Bindings, Fills, Instantiate, Serves, Candidates;
    e := FirstServing(Candidates(entries, segments), method_, version).value;
    assert Candidate(entries, e, segments);
    MatchThenInstantiate(e.pattern, segments);
  }

  // ----------------------------------------------------- at most one endpoint

  /** No two routes of one operation have ranges that the overlap test misjudges. */
  ghost predicate NoBlindPairs(entries: seq<Entry>) {
    forall i, j :: 0 <= i < j < |entries| && SameOperation(entries[i], entries[j]) ==>
      !BlindPair(entries[i].endpoint.versions, entries[j].endpoint.versions)
  }

  /** For every operation and version at most one registered route answers. */
  ghost predicate Unambiguous(entries: seq<Entry>) {
    forall i, j, v: Version :: 0 <= i < j < |entries| && SameOperation(entries[i], entries[j]) ==>
      !(entries[i].endpoint.versions.Contains(v) && entries[j].endpoint.versions.Contains(v))
  }

  /** Registered routes are unambiguous if and only if no blind pair is among them. */
  lemma UnambiguousIffNoBlindPairs(entries: seq<Entry>)
    requires PairwiseCompatible(entries)
    ensures Unambiguous(entries) <==> NoBlindPairs(entries)
  {
    if NoBlindPairs(entries) {
      forall i, j, v: Version | 0 <= i < j < |entries| && SameOperation(entries[i], entries[j])
        ensures !(entries[i].endpoint.versions.Contains(v) && entries[j].endpoint.versions.Contains(v))
      {
        assert Compatible(entries[i], entries[j]);
        NonOverlappingAreDisjoint(entries[i].endpoint.versions, entries[j].endpoint.versions, v);
      }
    }
    if Unambiguous(entries) {
      forall i, j | 0 <= i < j < |entries| && SameOperation(entries[i], entries[j])
        ensures !BlindPair(entries[i].endpoint.versions, entries[j].endpoint.versions)
      {
        var v: Version := LowerBound(entries[i].endpoint.versions);
        assert !(entries[i].endpoint.versions.Contains(v) && entries[j].endpoint.versions.Contains(v));
      }
    }
  }

  /** Blind pairs stand only where a wildcard goes on, and so takes all their requests. */
  ghost predicate BlindPairsShadowed(entries: seq<Entry>) {
    forall i, j :: 0 <= i < j < |entries| && SameOperation(entries[i], entries[j]) ==>
      BlindPair(entries[i].endpoint.versions, entries[j].endpoint.versions) ==>
        WildcardBelow(entries, entries[i].pattern)
  }

  lemma ServingIsUnique(entries: seq<Entry>, segments: seq<string>, method_: string, v: Version, a: Entry, b: Entry)
    requires PairwiseCompatible(entries) && BlindPairsShadowed(entries)
    requires a in Candidates(entries, segments) && b in Candidates(entries, segments)
    requires Serves(a, method_, Some(v)) && Serves(b, method_, Some(v))
    ensures a == b
  {
    CandidatesShareAPattern(entries, segments, a, b);
    CandidateIff(entries, a, segments);
    hide Candidates, WildcardBelow, BlindPair;
    if a != b {
      PairwiseMembersCompatible(entries, a, b);
      var i :| 0 <= i < |entries| && entries[i] == a;
      var j :| 0 <= j < |entries| && entries[j] == b;
      var low, high := if i < j then i else j, if i < j then j else i;
      assert SameOperation(entries[low], entries[high]) && !WildcardBelow(entries, entries[low].pattern);
      BlindPairIsSymmetric(a.endpoint.versions, b.endpoint.versions);
      assert !BlindPair(a.endpoint.versions, b.endpoint.versions);
      NonOverlappingAreDisjoint(a.endpoint.versions, b.endpoint.versions, v);
    }
  }

  lemma BlindPairIsSymmetric(a: VersionRange, b: VersionRange)
    ensures BlindPair(a, b) == BlindPair(b, a)
  {
  }

  lemma SameCandidatesUnderReordering(entries: seq<Entry>, reordered: seq<Entry>, segments: seq<string>)
    requires multiset(entries) == multiset(reordered)
    ensures forall e :: e in Candidates(entries, segments) <==> e in Candidates(reordered, segments)
    ensures MethodsOf(Candidates(entries, segments)) == MethodsOf(Candidates(reordered, segments))
  {
    assert forall e :: e in entries <==> e in multiset(entries);
    assert forall e :: e in reordered <==> e in multiset(reordered);
    forall p ensures Shadowed(entries, p, segments) <==> Shadowed(reordered, p, segments) {
      ShadowedByMember(entries, p, segments);
      ShadowedByMember(reordered, p, segments);
    }
  }

  lemma ShadowedByMember(entries: seq<Entry>, p: Pattern, segments: seq<string>)
    ensures Shadowed(entries, p, segments)
       <==> exists e :: e in entries && |e.pattern| > |p| && Matches(e.pattern, segments)
  {
    if Shadowed(entries, p, segments) {
      var i :| 0 <= i < |entries| && |entries[i].pattern| > |p| && Matches(entries[i].pattern, segments);
      assert entries[i] in entries;
    }
  }

  lemma AnyMatchingByMember(entries: seq<Entry>, version: Option<Version>)
    ensures AnyMatching(entries, version) <==> exists e :: e in entries && e.endpoint.versions.Matches(version)
  {
    if AnyMatching(entries, version) {
      var i :| 0 <= i < |entries| && entries[i].endpoint.versions.Matches(version);
      assert entries[i] in entries;
    }
  }

  /** Every request that names a version is answered alike by these routes in another order. */
  ghost predicate AnswersAlike(entries: seq<Entry>, reordered: seq<Entry>) {
    forall segments, method_, v: Version ::
      Scan(entries, segments, method_, Some(v)) == Scan(reordered, segments, method_, Some(v))
  }

  /** Routes whose blind pairs are all shadowed answer a request alike in any order. */
  lemma LookupIsOrderFree(entries: seq<Entry>, reordered: seq<Entry>,
                          segments: seq<string>, method_: string, v: Version)
    requires multiset(entries) == multiset(reordered)
    requires PairwiseCompatible(entries) && BlindPairsShadowed(entries)
    ensures Scan(entries, segments, method_, Some(v)) == Scan(reordered, segments, method_, Some(v))
  {
    hide BlindPairsShadowed, PairwiseCompatible;
    SameCandidatesUnderReordering(entries, reordered, segments);
    var here, there := Candidates(entries, segments), Candidates(reordered, segments);
    AnyMatchingByMember(here, Some(v));
    AnyMatchingByMember(there, Some(v));
    var a, b := FirstServing(here, method_, Some(v)), FirstServing(there, method_, Some(v));
    assert a.Some? ==> a.value in there;
    assert b.Some? ==> b.value in here;
    if a.Some? {
      ServingIsUnique(entries, segments, method_, v, a.value, b.value);
    }
  }

  /**
    The order of registration never matters to a request that names a version, if
    and only if every blind pair stands where a wildcard goes on from its route.
   */
  lemma OrderFreeIff(entries: seq<Entry>)
    requires PairwiseCompatible(entries)
    ensures (forall reordered :: multiset(reordered) == multiset(entries) ==> AnswersAlike(entries, reordered))
       <==> BlindPairsShadowed(entries)
  {
    if BlindPairsShadowed(entries) {
      forall reordered | multiset(reordered) == multiset(entries) ensures AnswersAlike(entries, reordered) {
        forall segments, method_, v: Version
          ensures Scan(entries, segments, method_, Some(v)) == Scan(reordered, segments, method_, Some(v))
        {
          LookupIsOrderFree(entries, reordered, segments, method_, v);
        }
      }
    }
    if !BlindPairsShadowed(entries) {
      var i, j :| 0 <= i < j < |entries| && SameOperation(entries[i], entries[j])
        && BlindPair(entries[i].endpoint.versions, entries[j].endpoint.versions)
        && !WildcardBelow(entries, entries[i].pattern);
      hide *;
      var first := InFront(entries, i);
      var second := InFront(entries, j);
      var segments, v := BlindPairDiffers(entries, i, j, first, second);
      OneDiffers(entries, first, second, segments, entries[i].method_, v);
    }
  }

  lemma OneDiffers(entries: seq<Entry>, first: seq<Entry>, second: seq<Entry>, segments: seq<string>, method_: string,
                   v: Version)
    requires Scan(first, segments, method_, Some(v)) != Scan(second, segments, method_, Some(v))
    ensures !AnswersAlike(entries, first) || !AnswersAlike(entries, second)
  {
    hide Scan;
  }

  /** The entries with the one at `i` moved to the front. */
  lemma InFront(entries: seq<Entry>, i: nat) returns (reordered: seq<Entry>)
    requires i < |entries|
    ensures reordered != [] && reordered[0] == entries[i] && multiset(reordered) == multiset(entries)
  {
    reordered := [entries[i]] + entries[..i] + entries[i + 1..];
    assert entries == entries[..i] + [entries[i]] + entries[i + 1..];
  }

  /** Some variables that fill a pattern. */
  function SomeVariables(p: Pattern): VariableSet {
    if p == [] then map[]
    else
      var k := |p| - 1;
      match p[k]
      case Literal(_) => SomeVariables(p[..k])
      case VarnameSegment(name) => SomeVariables(p[..k])[name := Single("")]
      case VarnameWildcard(name) => SomeVariables(p[..k])[name := Components([])]
  }

  lemma {:induction false} SomeVariablesFill(p: Pattern)
    requires ValidPattern(p)
    ensures Fills(SomeVariables(p), p)
  {
    if p != [] {
      var k := |p| - 1;
      SomeVariablesFill(p[..k]);
      NamesOfExtension(p, k);
      forall i | 0 <= i < k ensures p[i] == p[..k][i] {}
    }
  }

  /** Of a blind pair that no wildcard shadows, the one registered first answers some request. */
  lemma BlindPairDiffers(entries: seq<Entry>, i: nat, j: nat, first: seq<Entry>, second: seq<Entry>)
    returns (segments: seq<string>, v: Version)
    requires PairwiseCompatible(entries) && i < j < |entries| && SameOperation(entries[i], entries[j])
    requires BlindPair(entries[i].endpoint.versions, entries[j].endpoint.versions)
    requires !WildcardBelow(entries, entries[i].pattern)
    requires multiset(first) == multiset(entries) == multiset(second)
    requires first != [] && first[0] == entries[i] && second != [] && second[0] == entries[j]
    ensures Scan(first, segments, entries[i].method_, Some(v)) != Scan(second, segments, entries[i].method_, Some(v))
  {
    var a, b, p := entries[i], entries[j], entries[i].pattern;
    assert ValidPattern(p);
    SomeVariablesFill(p);
    segments := Instantiate(p, SomeVariables(p));
    InstantiateThenMatch(p, SomeVariables(p));
    v := LowerBound(a.endpoint.versions);
    hide PairwiseCompatible, Scan, Matches, WildcardBelow;
    FrontAnswers(entries, first, segments, v);
    FrontAnswers(entries, second, segments, v);
  }

  /** The entry in front answers every request that it serves, unless a wildcard goes on from it. */
  lemma FrontAnswers(entries: seq<Entry>, reordered: seq<Entry>, segments: seq<string>, v: Version)
    requires PairwiseCompatible(entries) && multiset(reordered) == multiset(entries) && reordered != []
    requires Matches(reordered[0].pattern, segments) && !WildcardBelow(entries, reordered[0].pattern)
    requires reordered[0].endpoint.versions.Contains(v)
    ensures Scan(reordered, segments, reordered[0].method_, Some(v))
         == Ok(LookupResult(reordered[0].endpoint, Bindings(reordered[0].pattern, segments)))
  {
    var e := reordered[0];
    SameCandidatesUnderReordering(entries, reordered, segments);
    assert e in multiset(reordered) && e in multiset(entries);
    CandidateIff(entries, e, segments);
    hide PairwiseCompatible, Matches, WildcardBelow, Candidate, Shadowed;
    assert Candidate(reordered, e, segments);
    assert Candidates(reordered, segments)[0] == e;
  }

  /** With a blind pair, the order of registration decides which endpoint answers. */
  lemma BlindPairMakesOrderMatter() returns (a: Entry, b: Entry)
    ensures RegistersInTurn([a, b]) && RegistersInTurn([b, a])
    ensures Scan([a, b], [], "GET", Some(1.0)).Ok? && Scan([b, a], [], "GET", Some(1.0)).Ok?
    ensures Scan([a, b], [], "GET", Some(1.0)).value.endpoint == a.endpoint
    ensures Scan([b, a], [], "GET", Some(1.0)).value.endpoint == b.endpoint
    ensures a.endpoint != b.endpoint
  {
    a := Entry([], "GET", Endpoint("first", 1, "GET", "/", From(1.0), true, [], [], Response(None, [], None), None));
    b := Entry([], "GET",
               Endpoint("second", 2, "GET", "/", FromUntil(1.0, 1.0), true, [], [], Response(None, [], None), None));
    hide Scan, RegistersInTurn;
    TwoRegister(a, b);
    TwoRegister(b, a);
    ScanOfTwo(a, b, "GET", Some(1.0));
    ScanOfTwo(b, a, "GET", Some(1.0));
  }

  lemma TwoRegister(a: Entry, b: Entry)
    requires a.pattern == b.pattern == [] && !a.endpoint.versions.OverlapsWith(b.endpoint.versions)
    ensures RegistersInTurn([a, b])
  {
    RegistrationIsPairwise([a, b]);
    assert Compatible(a, b);
  }

  lemma ScanOfTwo(a: Entry, b: Entry, method_: string, version: Option<Version>)
    requires a.pattern == b.pattern == [] && Serves(a, method_, version)
    ensures Scan([a, b], [], method_, version) == Ok(LookupResult(a.endpoint, map[]))
  {
    FirstOfTwo(a, b);
    hide Candidates, Serves;
  }

  lemma FirstOfTwo(a: Entry, b: Entry)
    requires a.pattern == b.pattern == []
    ensures Candidates([a, b], []) == [a, b]
  {
    var keep := e => Candidate([a, b], e, []);
    assert !Shadowed([a, b], [], []);
    assert keep(a) && keep(b);
    assert Select([b], keep) == [b] + Select([], keep);
    assert [a, b][1..] == [b];
  }

  // ------------------------------------------------ the requests a route answers

  /** The route answers every request that it matches with a version of its range. */
  ghost predicate AnswersItsRequests(entries: seq<Entry>, i: nat)
    requires i < |entries|
  {
    forall segments, v: Version :: Matches(entries[i].pattern, segments) && entries[i].endpoint.versions.Contains(v) ==>
      AnsweredBy(entries, entries[i], segments, v)
  }

  predicate AnsweredBy(entries: seq<Entry>, e: Entry, segments: seq<string>, v: Version)
    requires Matches(e.pattern, segments)
  {
    Scan(entries, segments, e.method_, Some(v)) == Ok(LookupResult(e.endpoint, Bindings(e.pattern, segments)))
  }

  /** An earlier route of the operation has a range that makes a blind pair with this one's. */
  ghost predicate BlindlyPreceded(entries: seq<Entry>, i: nat)
    requires i < |entries|
  {
    exists j :: 0 <= j < i && SameOperation(entries[j], entries[i])
      && BlindPair(entries[j].endpoint.versions, entries[i].endpoint.versions)
  }

  /**
    A route answers its requests if and only if its range is empty, or no wildcard
    goes on from it and no earlier route of its operation makes a blind pair with it.
   */
  lemma AnswersItsRequestsIff(entries: seq<Entry>, i: nat)
    requires PairwiseCompatible(entries) && i < |entries|
    ensures AnswersItsRequests(entries, i) <==>
      || Empty(entries[i].endpoint.versions)
      || (!WildcardBelow(entries, entries[i].pattern) && !BlindlyPreceded(entries, i))
  {
    var e := entries[i];
    EmptyIff(e.endpoint.versions);
    assert ValidPattern(e.pattern);
    hide *;
    if Empty(e.endpoint.versions) {
      EmptyRangeAnswers(entries, i);
    } else if WildcardBelow(entries, e.pattern) {
      var segments := SomeRequest(e.pattern);
      var v: Version :| e.endpoint.versions.Contains(v);
      ShadowedIsSilent(entries, i, segments, v);
      SilentOnce(entries, i, segments, v);
    } else if BlindlyPreceded(entries, i) {
      var segments := SomeRequest(e.pattern);
      var v := PrecededIsSilent(entries, i, segments);
      SilentOnce(entries, i, segments, v);
    } else {
      forall segments, v: Version | Matches(e.pattern, segments) && e.endpoint.versions.Contains(v)
        ensures AnsweredBy(entries, e, segments, v)
      {
        UnprecededAnswers(entries, i, segments, v);
      }
      AlwaysAnswers(entries, i);
    }
  }

  lemma AlwaysAnswers(entries: seq<Entry>, i: nat)
    requires i < |entries|
    requires forall segments, v: Version
      | Matches(entries[i].pattern, segments) && entries[i].endpoint.versions.Contains(v)
      :: AnsweredBy(entries, entries[i], segments, v)
    ensures AnswersItsRequests(entries, i)
  {
    hide AnsweredBy, Matches;
  }

  lemma EmptyRangeAnswers(entries: seq<Entry>, i: nat)
    requires i < |entries| && Empty(entries[i].endpoint.versions)
    ensures AnswersItsRequests(entries, i)
  {
    EmptyIff(entries[i].endpoint.versions);
    hide AnsweredBy, Matches, Empty;
  }

  lemma SilentOnce(entries: seq<Entry>, i: nat, segments: seq<string>, v: Version)
    requires i < |entries| && Matches(entries[i].pattern, segments) && entries[i].endpoint.versions.Contains(v)
    requires !AnsweredBy(entries, entries[i], segments, v)
    ensures !AnswersItsRequests(entries, i)
  {
    hide AnsweredBy, Matches;
  }

  /** Some request that a pattern matches. */
  lemma SomeRequest(p: Pattern) returns (segments: seq<string>)
    requires ValidPattern(p)
    ensures Matches(p, segments)
  {
    SomeVariablesFill(p);
    segments := Instantiate(p, SomeVariables(p));
    InstantiateThenMatch(p, SomeVariables(p));
  }

  /** The first of the selected entries to serve a request is the first of all entries that is selected and serves. */
  lemma {:induction false} FirstOfSelection(entries: seq<Entry>, keep: Entry -> bool, method_: string,
                                            version: Option<Version>, i: nat)
    requires i < |entries| && keep(entries[i]) && Serves(entries[i], method_, version)
    requires forall j :: 0 <= j < i ==> !(keep(entries[j]) && Serves(entries[j], method_, version))
    ensures FirstServing(Select(entries, keep), method_, version) == Some(entries[i])
  {
    hide Serves;
    var rest := Select(entries[1..], keep);
    if i > 0 {
      FirstOfSelection(entries[1..], keep, method_, version, i - 1);
      assert keep(entries[0]) ==> ([entries[0]] + rest)[1..] == rest;
    }
  }

  lemma UnprecededAnswers(entries: seq<Entry>, i: nat, segments: seq<string>, v: Version)
    requires PairwiseCompatible(entries) && i < |entries| && Matches(entries[i].pattern, segments)
    requires entries[i].endpoint.versions.Contains(v)
    requires !WildcardBelow(entries, entries[i].pattern) && !BlindlyPreceded(entries, i)
    ensures AnsweredBy(entries, entries[i], segments, v)
  {
    var e := entries[i];
    CandidateIff(entries, e, segments);
    hide WildcardBelow, Matches, BlindPair;
    forall j | 0 <= j < i && Candidate(entries, entries[j], segments) ensures !Serves(entries[j], e.method_, Some(v)) {
      CandidatesShareAPattern(entries, segments, entries[j], e);
      if Serves(entries[j], e.method_, Some(v)) {
        assert Compatible(entries[j], e) && SameOperation(entries[j], e);
        NonOverlappingAreDisjoint(entries[j].endpoint.versions, e.endpoint.versions, v);
      }
    }
    FirstOfSelection(entries, f => Candidate(entries, f, segments), e.method_, Some(v), i);
  }

  /** The wildcard that goes on binds a variable more, so that its answer is another one. */
  lemma ShadowedIsSilent(entries: seq<Entry>, i: nat, segments: seq<string>, v: Version)
    requires PairwiseCompatible(entries) && i < |entries| && Matches(entries[i].pattern, segments)
    requires WildcardBelow(entries, entries[i].pattern)
    ensures !AnsweredBy(entries, entries[i], segments, v)
  {
    var e := entries[i];
    CandidateIff(entries, e, segments);
    hide Candidates, WildcardBelow;
    var found := FirstServing(Candidates(entries, segments), e.method_, Some(v));
    if found.Some? {
      var f := found.value;
      LongerCandidate(entries, e, f, segments);
      WildcardIsOneMoreName(e.pattern, f.pattern);
      BindingsFill(f.pattern, segments);
      BindingsFill(e.pattern, segments);
    }
  }

  /** A candidate for a request that a shadowed route matches goes on from that route with a wildcard. */
  lemma LongerCandidate(entries: seq<Entry>, e: Entry, f: Entry, segments: seq<string>)
    requires PairwiseCompatible(entries) && e in entries && f in entries && Matches(e.pattern, segments)
    requires Candidate(entries, f, segments) && !Candidate(entries, e, segments)
    ensures ValidPattern(e.pattern) && ValidPattern(f.pattern) && GoesOnWithWildcard(f.pattern, e.pattern)
  {
    PairwiseMembersCompatible(entries, e, f);
    assert |f.pattern| > |e.pattern|;
    LongerMatchIsWildcard(e.pattern, f.pattern, segments);
  }

  lemma WildcardIsOneMoreName(p: Pattern, q: Pattern)
    requires GoesOnWithWildcard(q, p) && ValidPattern(q)
    ensures Names(q) != Names(p)
  {
    LastNameIsNew(q);
    NamesOfExtension(q, |p|);
  }

  lemma PrecededIsSilent(entries: seq<Entry>, i: nat, segments: seq<string>) returns (v: Version)
    requires PairwiseCompatible(entries) && i < |entries| && Matches(entries[i].pattern, segments)
    requires !WildcardBelow(entries, entries[i].pattern) && BlindlyPreceded(entries, i)
    ensures entries[i].endpoint.versions.Contains(v) && !AnsweredBy(entries, entries[i], segments, v)
  {
    var e := entries[i];
    var j :| 0 <= j < i && SameOperation(entries[j], e) && BlindPair(entries[j].endpoint.versions, e.endpoint.versions);
    v := LowerBound(e.endpoint.versions);
    CandidateIff(entries, entries[j], segments);
    var keep := f => Candidate(entries, f, segments);
    assert keep(entries[j]) && Serves(entries[j], e.method_, Some(v));
    hide Candidate, BlindPair, Matches, WildcardBelow;
    var k := FirstIndex(entries, keep, e.method_, Some(v), j);
    FirstOfSelection(entries, keep, e.method_, Some(v), k);
    CandidatesShareAPattern(entries, segments, entries[k], entries[j]);
    assert SameOperation(entries[k], e) && Compatible(entries[k], e);
    OverlapsItself(e.endpoint.versions);
  }

  lemma {:induction false} FirstIndex(entries: seq<Entry>, keep: Entry -> bool, method_: string,
                                      version: Option<Version>, j: nat) returns (k: nat)
    requires j < |entries| && keep(entries[j]) && Serves(entries[j], method_, version)
    ensures k <= j && keep(entries[k]) && Serves(entries[k], method_, version)
    ensures forall l :: 0 <= l < k ==> !(keep(entries[l]) && Serves(entries[l], method_, version))
  {
    hide Serves;
    if l :| 0 <= l < j && keep(entries[l]) && Serves(entries[l], method_, version) {
      k := FirstIndex(entries, keep, method_, version, l);
    } else {
      k := j;
    }
  }

  // -------------------------------------------------------- unversioned servers

  /** If no route is constrained by version, an operation has one route only. */
  lemma UnversionedOperationsAreUnique(entries: seq<Entry>, a: Entry, b: Entry)
    requires PairwiseCompatible(entries) && a in entries && b in entries && SameOperation(a, b)
    requires forall e :: e in entries ==> e.endpoint.versions.All?
    ensures a == b
  {
    if a != b { PairwiseMembersCompatible(entries, a, b); }
  }

  /** So a lookup without a version is order-free as well. */
  lemma UnversionedLookupIsOrderFree(entries: seq<Entry>, reordered: seq<Entry>,
                                     segments: seq<string>, method_: string)
    requires multiset(entries) == multiset(reordered)
    requires RegistersInTurn(entries) && forall e :: e in entries ==> e.endpoint.versions.All?
    ensures Scan(entries, segments, method_, None) == Scan(reordered, segments, method_, None)
  {
    RegistrationIsPairwise(entries);
    SameCandidatesUnderReordering(entries, reordered, segments);
    var here, there := Candidates(entries, segments), Candidates(reordered, segments);
    AnyMatchingByMember(here, None);
    AnyMatchingByMember(there, None);
    var a, b := FirstServing(here, method_, None), FirstServing(there, method_, None);
    assert a.Some? ==> a.value in there;
    assert b.Some? ==> b.value in here;
    if a.Some? {
      CandidatesShareAPattern(entries, segments, a.value, b.value);
      UnversionedOperationsAreUnique(entries, a.value, b.value);
    }
  }

  /**
    Without a version, a request for a path from which no wildcard goes on is
    answered by the first route registered for the path and the method, whatever
    its range.
   */
  lemma UnversionedAnsweredByFirst(entries: seq<Entry>, segments: seq<string>, i: nat)
    requires PairwiseCompatible(entries) && i < |entries| && Matches(entries[i].pattern, segments)
    requires !WildcardBelow(entries, entries[i].pattern)
    requires forall j :: 0 <= j < i ==> !SameOperation(entries[j], entries[i])
    ensures Scan(entries, segments, entries[i].method_, None)
         == Ok(LookupResult(entries[i].endpoint, Bindings(entries[i].pattern, segments)))
  {
    var e := entries[i];
    CandidateIff(entries, e, segments);
    hide WildcardBelow, Matches, PairwiseCompatible;
    forall j | 0 <= j < i && Candidate(entries, entries[j], segments) ensures !Serves(entries[j], e.method_, None) {
      CandidatesShareAPattern(entries, segments, entries[j], e);
    }
    FirstOfSelection(entries, f => Candidate(entries, f, segments), e.method_, None, i);
  }

  /** If no route is constrained by version, every route answers all requests it matches that name no version. */
  lemma UnversionedAnswersItsRequests(entries: seq<Entry>, segments: seq<string>, e: Entry)
    requires PairwiseCompatible(entries) && e in entries && Matches(e.pattern, segments)
    requires !WildcardBelow(entries, e.pattern) && forall f :: f in entries ==> f.endpoint.versions.All?
    ensures Scan(entries, segments, e.method_, None) == Ok(LookupResult(e.endpoint, Bindings(e.pattern, segments)))
  {
    var i :| 0 <= i < |entries| && entries[i] == e;
    assert forall j :: 0 <= j < i ==> Compatible(entries[j], entries[i]);
    assert forall j :: 0 <= j < i ==> entries[j] in entries;
    hide WildcardBelow, Matches, PairwiseCompatible;
    UnversionedAnsweredByFirst(entries, segments, i);
  }

  // ------------------------------------------------------------ error partition

  /** 405 is reported exactly when this method fails and some other method would succeed. */
  lemma MethodNotAllowedIff(entries: seq<Entry>, segments: seq<string>, method_: string, version: Option<Version>)
    ensures var r := Scan(entries, segments, method_, version);
      (r.Err? && r.error.MethodNotAllowed?) <==>
      (r.Err? && exists other :: Scan(entries, segments, other, version).Ok?)
  {
    var candidates := Candidates(entries, segments);
    AnyMatchingByMember(candidates, version);
    if AnyMatching(candidates, version) {
      var e :| e in candidates && e.endpoint.versions.Matches(version);
      assert Serves(e, e.method_, version);
      assert Scan(entries, segments, e.method_, version).Ok?;
    } else {
      assert forall e :: e in candidates ==> !e.endpoint.versions.Matches(version);
      forall other ensures Scan(entries, segments, other, version).Err? {
        assert FirstServing(candidates, other, version).None?;
      }
    }
  }

  /** 404 is reported exactly when no method at all would succeed. */
  lemma NotFoundIff(entries: seq<Entry>, segments: seq<string>, method_: string, version: Option<Version>)
    ensures Scan(entries, segments, method_, version) == Err(NotFound)
       <==> forall other :: Scan(entries, segments, other, version).Err?
  {
    MethodNotAllowedIff(entries, segments, method_, version);
  }

  /** The Allow list names every method that would succeed; without a version, it names no other. */
  lemma AllowListCoversSuccesses(entries: seq<Entry>, segments: seq<string>, method_: string,
                                 version: Option<Version>, other: string)
    requires var r := Scan(entries, segments, method_, version); r.Err? && r.error.MethodNotAllowed?
    ensures var allow := Scan(entries, segments, method_, version).error.allow;
      && (Scan(entries, segments, other, version).Ok? ==> other in allow)
      && (version.None? ==> (other in allow <==> Scan(entries, segments, other, version).Ok?))
  {
    Ordering.BeforeIsStrictTotalOrder();
    var candidates := Candidates(entries, segments);
    if other in MethodsOf(candidates) {
      var e :| e in candidates && e.method_ == other;
      assert version.None? ==> Serves(e, other, version);
    }
  }

  /** One of these routes has the method. */
  ghost predicate Named(candidates: seq<Entry>, method_: string) {
    exists e :: e in candidates && e.method_ == method_
  }

  /** One of these routes has the method and the version. */
  ghost predicate Served(candidates: seq<Entry>, method_: string, version: Option<Version>) {
    exists e :: e in candidates && Serves(e, method_, version)
  }

  /**
    The Allow list names just the methods that would succeed, if and only if each
    method that has a route there has one of the requested version.
   */
  lemma AllowListExactIff(entries: seq<Entry>, segments: seq<string>, method_: string, version: Option<Version>)
    requires var r := Scan(entries, segments, method_, version); r.Err? && r.error.MethodNotAllowed?
    ensures var allow := Scan(entries, segments, method_, version).error.allow;
      var candidates := Candidates(entries, segments);
      (forall other :: other in allow <==> Scan(entries, segments, other, version).Ok?) <==>
      (forall e :: e in candidates ==> Served(candidates, e.method_, version))
  {
    var allow, candidates := Scan(entries, segments, method_, version).error.allow, Candidates(entries, segments);
    hide *;
    forall other ensures other in allow <==> Named(candidates, other) {
      AllowListIsMethods(entries, segments, method_, version, other);
    }
    forall other ensures Scan(entries, segments, other, version).Ok? <==> Served(candidates, other, version) {
      OkIffServed(entries, segments, other, version);
    }
    forall e | e in candidates ensures Named(candidates, e.method_) { NamedByMember(candidates, e); }
    forall other ensures Served(candidates, other, version) ==> Named(candidates, other) {
      ServedIsNamed(candidates, other, version);
    }
    if forall e :: e in candidates ==> Served(candidates, e.method_, version) {
      forall other | Named(candidates, other) ensures Served(candidates, other, version) {
        NamedIsMembers(candidates, other);
      }
    }
  }

  /** On a 405 for this request, the Allow list names just the methods that would succeed. */
  ghost predicate AllowListExact(entries: seq<Entry>, segments: seq<string>, method_: string, version: Option<Version>)
  {
    var r := Scan(entries, segments, method_, version);
    r.Err? && r.error.MethodNotAllowed? ==>
      forall other :: other in r.error.allow <==> Scan(entries, segments, other, version).Ok?
  }

  ghost predicate RouteFor(entries: seq<Entry>, p: Pattern, method_: string, v: Version) {
    exists c :: c in entries && c.pattern == p && Serves(c, method_, Some(v))
  }

  /**
    Where no wildcard goes on from a path, each version that one of its routes is
    for has a route of every method of the path.
   */
  ghost predicate MethodsKeepPace(entries: seq<Entry>) {
    forall a, b, v: Version ::
      && a in entries && b in entries && a.pattern == b.pattern
      && !WildcardBelow(entries, a.pattern) && a.endpoint.versions.Contains(v) ==>
        RouteFor(entries, b.pattern, b.method_, v)
  }

  /** All Allow lists of all requests with a version are exact, if and only if methods keep pace on every path. */
  lemma AllowListsExactIff(entries: seq<Entry>)
    requires PairwiseCompatible(entries)
    ensures (forall segments, method_, v: Version :: AllowListExact(entries, segments, method_, Some(v)))
       <==> MethodsKeepPace(entries)
  {
    hide *;
    if MethodsKeepPace(entries) {
      forall segments, method_, v: Version ensures AllowListExact(entries, segments, method_, Some(v)) {
        KeptPaceIsExact(entries, segments, method_, v);
      }
    } else {
      var segments, method_, v := LaggingMethod(entries);
    }
  }

  lemma KeptPaceIsExact(entries: seq<Entry>, segments: seq<string>, method_: string, v: Version)
    requires PairwiseCompatible(entries) && MethodsKeepPace(entries)
    ensures AllowListExact(entries, segments, method_, Some(v))
  {
    hide Scan, Candidates, PairwiseCompatible, MethodsKeepPace, Served;
    var r := Scan(entries, segments, method_, Some(v));
    if r.Err? && r.error.MethodNotAllowed? {
      var a := MatchedOn405(entries, segments, method_, v);
      forall e | e in Candidates(entries, segments) ensures Served(Candidates(entries, segments), e.method_, Some(v)) {
        KeptPaceServes(entries, segments, a, e, v);
      }
      AllowListExactIff(entries, segments, method_, Some(v));
    }
  }

  lemma MatchedOn405(entries: seq<Entry>, segments: seq<string>, method_: string, v: Version) returns (a: Entry)
    requires var r := Scan(entries, segments, method_, Some(v)); r.Err? && r.error.MethodNotAllowed?
    ensures a in Candidates(entries, segments) && a.endpoint.versions.Contains(v)
  {
    hide Candidates;
    AnyMatchingByMember(Candidates(entries, segments), Some(v));
    a :| a in Candidates(entries, segments) && a.endpoint.versions.Contains(v);
  }

  lemma KeptPaceServes(entries: seq<Entry>, segments: seq<string>, a: Entry, e: Entry, v: Version)
    requires PairwiseCompatible(entries) && MethodsKeepPace(entries)
    requires a in Candidates(entries, segments) && e in Candidates(entries, segments) && a.endpoint.versions.Contains(v)
    ensures Served(Candidates(entries, segments), e.method_, Some(v))
  {
    CandidateIff(entries, a, segments);
    CandidatesShareAPattern(entries, segments, a, e);
    assert RouteFor(entries, e.pattern, e.method_, v);
    hide PairwiseCompatible, MethodsKeepPace, Candidate, WildcardBelow, Matches, RouteFor;
    var c := RouteIs(entries, e.pattern, e.method_, v);
    CandidateIff(entries, c, segments);
  }

  lemma RouteIs(entries: seq<Entry>, p: Pattern, method_: string, v: Version) returns (c: Entry)
    requires RouteFor(entries, p, method_, v)
    ensures c in entries && c.pattern == p && Serves(c, method_, Some(v))
  {
    c :| c in entries && c.pattern == p && Serves(c, method_, Some(v));
  }

  lemma LaggingMethod(entries: seq<Entry>) returns (segments: seq<string>, method_: string, v: Version)
    requires PairwiseCompatible(entries) && !MethodsKeepPace(entries)
    ensures !AllowListExact(entries, segments, method_, Some(v))
  {
    var a, b, w: Version :| && a in entries && b in entries && a.pattern == b.pattern
      && !WildcardBelow(entries, a.pattern) && a.endpoint.versions.Contains(w)
      && !RouteFor(entries, b.pattern, b.method_, w);
    assert ValidPattern(a.pattern);
    hide PairwiseCompatible, Scan, Candidate, WildcardBelow;
    segments := SomeRequest(a.pattern);
    method_, v := b.method_, w;
    CandidateIff(entries, a, segments);
    CandidateIff(entries, b, segments);
    var candidates := Candidates(entries, segments);
    if Served(candidates, method_, Some(v)) {
      var c :| c in candidates && Serves(c, method_, Some(v));
      CandidatesShareAPattern(entries, segments, b, c);
    }
    NotServedIs405(entries, segments, method_, v, a);
    AllowListExactIff(entries, segments, method_, Some(v));
  }

  lemma NotServedIs405(entries: seq<Entry>, segments: seq<string>, method_: string, v: Version, a: Entry)
    requires a in Candidates(entries, segments) && a.endpoint.versions.Contains(v)
    requires !Served(Candidates(entries, segments), method_, Some(v))
    ensures var r := Scan(entries, segments, method_, Some(v)); r.Err? && r.error.MethodNotAllowed?
  {
    var candidates := Candidates(entries, segments);
    hide Candidates, Candidate;
    AnyMatchingByMember(candidates, Some(v));
    assert FirstServing(candidates, method_, Some(v)).None?;
  }

  lemma NamedByMember(candidates: seq<Entry>, e: Entry)
    requires e in candidates
    ensures Named(candidates, e.method_)
  {
  }

  lemma NamedIsMembers(candidates: seq<Entry>, method_: string)
    requires Named(candidates, method_)
    ensures exists e :: e in candidates && e.method_ == method_
  {
  }

  lemma ServedIsNamed(candidates: seq<Entry>, method_: string, version: Option<Version>)
    ensures Served(candidates, method_, version) ==> Named(candidates, method_)
  {
  }

  /** A request succeeds exactly when some candidate serves it. */
  lemma OkIffServed(entries: seq<Entry>, segments: seq<string>, method_: string, version: Option<Version>)
    ensures Scan(entries, segments, method_, version).Ok? <==> Served(Candidates(entries, segments), method_, version)
  {
    hide Candidates;
  }

  lemma AllowListIsMethods(entries: seq<Entry>, segments: seq<string>, method_: string, version: Option<Version>,
                           other: string)
    requires var r := Scan(entries, segments, method_, version); r.Err? && r.error.MethodNotAllowed?
    ensures other in Scan(entries, segments, method_, version).error.allow <==>
      Named(Candidates(entries, segments), other)
  {
    hide Candidates;
    Ordering.BeforeIsStrictTotalOrder();
    assert other in Scan(entries, segments, method_, version).error.allow <==>
      other in MethodsOf(Candidates(entries, segments));
  }

  /** With a version the list may be larger: it names a method whose only route lacks that version. */
  lemma AllowListMayBeLarger(a: Entry, b: Entry, method_: string, v: Version)
    requires a.pattern == b.pattern == [] && a.method_ != b.method_
    requires a.endpoint.versions.Contains(v) && !b.endpoint.versions.Contains(v)
    requires method_ != a.method_ && method_ != b.method_
    ensures RegistersInTurn([a, b])
    ensures var r := Scan([a, b], [], method_, Some(v));
      r.Err? && r.error.MethodNotAllowed? && b.method_ in r.error.allow
    ensures Scan([a, b], [], b.method_, Some(v)).Err?
  {
    RegistrationIsPairwise([a, b]);
    FirstOfTwo(a, b);
    hide Candidates, Select, RegistersInTurn;
    assert AnyMatching([a, b], Some(v)) by { assert [a, b][0] == a; }
    assert b.method_ in MethodsOf([a, b]) by { assert b in [a, b]; }
    Ordering.BeforeIsStrictTotalOrder();
    assert FirstServing([a, b], method_, Some(v)).None?;
    assert FirstServing([a, b], b.method_, Some(v)).None?;
  }
}
