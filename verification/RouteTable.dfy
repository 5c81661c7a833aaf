/**
  The flat view of a router: the list of registered routes, when a new route is
  compatible with it, and what a request resolves to when the list is scanned.
 */
module RouteTable {
  import opened Wrappers
  import Versions
  import opened RoutePath
  import JS = JsonSchema

  datatype ParameterLocation = PathParameter | QueryParameter | HeaderParameter | BodyParameter

  /**
    Where a schema comes from: given with the definitions it refers to, or made by
    a generator, under a name, together with definitions that the generator keeps.
   */
  datatype SchemaGenerator =
    | Static(schema: JS.Schema, dependencies: JS.Definitions)
    | Gen(name: string, schema: JS.Schema, definitions: JS.Definitions)

  /** A parameter; the name of a body is its media type. */
  datatype Parameter = Parameter(location: ParameterLocation, name: string, schema: SchemaGenerator)

  datatype Header = Header(name: string, schema: SchemaGenerator)

  /** A response without a schema is made by hand, and one without a success code may have any. */
  datatype Response = Response(schema: Option<SchemaGenerator>, headers: seq<Header>, success: Option<nat>)

  datatype ErrorType = ErrorType(typeName: string, schema: SchemaGenerator)

  datatype Endpoint = Endpoint(
    operationId: string,
    handler: nat,
    method_: string,
    path: string,
    versions: Versions.VersionRange,
    visible: bool,
    tags: seq<string>,
    parameters: seq<Parameter>,
    response: Response,
    error: Option<ErrorType>)

  /** A registered route: where its path leads, its method in upper case, and its endpoint. */
  datatype Entry = Entry(pattern: Pattern, method_: string, endpoint: Endpoint)

  function UpperChar(c: char): char {
    if 'a' <= c <= 'z' then c - 'a' + 'A' else c
  }

  function Upper(s: string): string {
    seq(|s|, i requires 0 <= i < |s| => UpperChar(s[i]))
  }

  /** The same letter, in upper or lower case. */
  predicate SameLetter(c: char, d: char) {
    || c == d
    || ('a' <= c <= 'z' && c as int - d as int == 'a' as int - 'A' as int)
    || ('a' <= d <= 'z' && d as int - c as int == 'a' as int - 'A' as int)
  }

  /** Methods are told apart exactly by more than the case of letters, and end up without lower-case letters. */
  lemma UpperIff(s: string, t: string)
    ensures Upper(s) == Upper(t) <==> |s| == |t| && forall i :: 0 <= i < |s| ==> SameLetter(s[i], t[i])
    ensures |Upper(s)| == |s| && forall i :: 0 <= i < |s| ==>
      SameLetter(Upper(s)[i], s[i]) && !('a' <= Upper(s)[i] <= 'z')
  {
    assert |Upper(s)| == |s| && |Upper(t)| == |t|;
    if |s| == |t| {
      forall i | 0 <= i < |s| ensures Upper(s)[i] == Upper(t)[i] <==> SameLetter(s[i], t[i]) {
        UpperCharIff(s[i], t[i]);
      }
    }
    forall i | 0 <= i < |s| ensures SameLetter(Upper(s)[i], s[i]) { UpperCharIff(s[i], s[i]); }
  }

  lemma UpperCharIff(c: char, d: char)
    ensures UpperChar(c) == UpperChar(d) <==> SameLetter(c, d)
    ensures SameLetter(UpperChar(c), c)
  {
    assert 'a' <= c <= 'z' ==> UpperChar(c) as int == c as int - 'a' as int + 'A' as int;
    assert 'a' <= d <= 'z' ==> UpperChar(d) as int == d as int - 'a' as int + 'A' as int;
  }

  function EntryOf(e: Endpoint): Result<Entry, PathError> {
    match ParsePath(e.path)
    case Err(error) => Err(error)
    case Ok(pattern) => Ok(Entry(pattern, Upper(e.method_), e))
  }

  // ------------------------------------------------------------- compatibility

  /** A wildcard comes last, and no variable name is used twice. */
  predicate ValidPattern(p: Pattern) {
    && (forall i :: 0 <= i < |p| - 1 ==> !p[i].VarnameWildcard?)
    && (forall i, j :: 0 <= i < j < |p| && !p[i].Literal? && !p[j].Literal? ==> p[i].name != p[j].name)
  }

  /** Two edges that one node can have: literals side by side, or the very same variable. */
  predicate SegmentsAgree(a: PathSegment, b: PathSegment) {
    (a.Literal? && b.Literal?) || a == b
  }

  predicate PatternsAgree(p: Pattern, q: Pattern) {
    forall k :: 0 <= k < |p| && k < |q| && p[..k] == q[..k] ==> SegmentsAgree(p[k], q[k])
  }

  predicate SameOperation(a: Entry, b: Entry) {
    a.pattern == b.pattern && a.method_ == b.method_
  }

  predicate Compatible(a: Entry, b: Entry) {
    && PatternsAgree(a.pattern, b.pattern)
    && (SameOperation(a, b) ==> !a.endpoint.versions.OverlapsWith(b.endpoint.versions))
  }

  /** The condition under which a route can join those registered before it. */
  predicate Acceptable(entries: seq<Entry>, e: Entry) {
    ValidPattern(e.pattern) && forall i :: 0 <= i < |entries| ==> Compatible(entries[i], e)
  }

  /** Registering the entries one after the other succeeds. */
  predicate RegistersInTurn(entries: seq<Entry>) {
    if entries == [] then true
    else
      var last := |entries| - 1;
      RegistersInTurn(entries[..last]) && Acceptable(entries[..last], entries[last])
  }

  /** Each entry is valid alone and every pair is compatible. */
  predicate PairwiseCompatible(entries: seq<Entry>) {
    && (forall i :: 0 <= i < |entries| ==> ValidPattern(entries[i].pattern))
    && (forall i, j :: 0 <= i < j < |entries| ==> Compatible(entries[i], entries[j]))
  }

  lemma {:induction false} RegistrationIsPairwise(entries: seq<Entry>)
    ensures RegistersInTurn(entries) <==> PairwiseCompatible(entries)
  {
    if entries != [] {
      var last := |entries| - 1;
      var init := entries[..last];
      RegistrationIsPairwise(init);
      assert forall i :: 0 <= i < last ==> init[i] == entries[i];
      assert PairwiseCompatible(entries) <==> PairwiseCompatible(init) && Acceptable(init, entries[last]);
    }
  }

  lemma CompatibleIsSymmetric(a: Entry, b: Entry)
    ensures Compatible(a, b) == Compatible(b, a)
  {
    Versions.OverlapIsSymmetric(a.endpoint.versions, b.endpoint.versions);
  }

  lemma NeverCompatibleWithItself(a: Entry)
    ensures !Compatible(a, a)
  {
    Versions.OverlapsItself(a.endpoint.versions);
  }

  /** Two equal members sit at distinct places exactly when the multiset holds the value twice. */
  lemma {:induction false} RepeatedInMultiset<T>(xs: seq<T>, i: nat, j: nat)
    requires i < j < |xs| && xs[i] == xs[j]
    ensures multiset(xs)[xs[i]] >= 2
  {
    assert xs == xs[..j] + xs[j..];
    assert xs[..j][i] == xs[i] && xs[i] in xs[..j];
    assert xs[j..][0] == xs[j] && xs[j] in xs[j..];
    assert multiset(xs) == multiset(xs[..j]) + multiset(xs[j..]);
  }

  lemma {:induction false} RepeatedInSequence<T>(xs: seq<T>, x: T) returns (i: nat, j: nat)
    requires multiset(xs)[x] >= 2
    ensures i < j < |xs| && xs[i] == x && xs[j] == x
  {
    assert x in xs;
    i :| 0 <= i < |xs| && xs[i] == x;
    assert xs == xs[..i] + [xs[i]] + xs[i + 1..];
    assert multiset(xs) == multiset(xs[..i]) + multiset{x} + multiset(xs[i + 1..]);
    if x in xs[i + 1..] {
      var k :| 0 <= k < |xs[i + 1..]| && xs[i + 1..][k] == x;
      j := i + 1 + k;
    } else {
      assert x in xs[..i];
      var k :| 0 <= k < |xs[..i]| && xs[..i][k] == x;
      i, j := k, i;
    }
  }

  lemma PairwiseMembersCompatible(entries: seq<Entry>, a: Entry, b: Entry)
    requires PairwiseCompatible(entries) && a in entries && b in entries && a != b
    ensures Compatible(a, b)
  {
    var i :| 0 <= i < |entries| && entries[i] == a;
    var j :| 0 <= j < |entries| && entries[j] == b;
    CompatibleIsSymmetric(a, b);
  }

  /** Whether a set of routes can be registered does not depend on the order of registration. */
  lemma RegistrationIsOrderFree(entries: seq<Entry>, reordered: seq<Entry>)
    requires multiset(entries) == multiset(reordered)
    ensures RegistersInTurn(entries) <==> RegistersInTurn(reordered)
  {
    RegistrationIsPairwise(entries);
    RegistrationIsPairwise(reordered);
    if PairwiseCompatible(entries) { PairwiseUnderReordering(entries, reordered); }
    if PairwiseCompatible(reordered) { PairwiseUnderReordering(reordered, entries); }
  }

  lemma PairwiseUnderReordering(entries: seq<Entry>, reordered: seq<Entry>)
    requires multiset(entries) == multiset(reordered)
    requires PairwiseCompatible(entries)
    ensures PairwiseCompatible(reordered)
  {
    forall i | 0 <= i < |reordered| ensures ValidPattern(reordered[i].pattern) {
      assert reordered[i] in multiset(entries);
      assert reordered[i] in entries;
    }
    forall i, j | 0 <= i < j < |reordered| ensures Compatible(reordered[i], reordered[j]) {
      var a, b := reordered[i], reordered[j];
      assert a in multiset(entries) && b in multiset(entries);
      if a == b {
        RepeatedInMultiset(reordered, i, j);
        var k, l := RepeatedInSequence(entries, a);
      } else {
        PairwiseMembersCompatible(entries, a, b);
      }
    }
  }

  // ------------------------------------------------------------------ matching

  datatype VariableValue = Single(text: string) | Components(parts: seq<string>)

  type VariableSet = map<string, VariableValue>

  predicate SegmentFits(c: PathSegment, segments: seq<string>, i: nat) {
    match c
    case Literal(text) => i < |segments| && segments[i] == text
    case VarnameSegment(_) => i < |segments|
    case VarnameWildcard(_) => i <= |segments|
  }

  predicate PrefixFits(p: Pattern, segments: seq<string>) {
    forall i :: 0 <= i < |p| ==> SegmentFits(p[i], segments, i)
  }

  predicate EndsInWildcard(p: Pattern) {
    p != [] && p[|p| - 1].VarnameWildcard?
  }

  /** A literal matches an equal segment, a variable one segment, a wildcard all that remain. */
  predicate Matches(p: Pattern, segments: seq<string>) {
    PrefixFits(p, segments) && (EndsInWildcard(p) || |p| == |segments|)
  }

  /** The values that the variables of `p` take on the given segments. */
  function Bindings(p: Pattern, segments: seq<string>): VariableSet
    requires PrefixFits(p, segments)
  {
    if p == [] then map[]
    else
      var k := |p| - 1;
      var before := Bindings(p[..k], segments);
      assert SegmentFits(p[k], segments, k);
      match p[k]
      case Literal(_) => before
      case VarnameSegment(name) => before[name := Single(segments[k])]
      case VarnameWildcard(name) => before[name := Components(segments[k..])]
  }

  function Names(p: Pattern): set<string> {
    set i | 0 <= i < |p| && !p[i].Literal? :: p[i].name
  }

  /** Variables fill a pattern when they are its own and each has the shape its segment asks for. */
  predicate Fills(vars: VariableSet, p: Pattern) {
    && vars.Keys == Names(p)
    && (forall i :: 0 <= i < |p| && p[i].VarnameSegment? ==> p[i].name in vars && vars[p[i].name].Single?)
    && (forall i :: 0 <= i < |p| && p[i].VarnameWildcard? ==> p[i].name in vars && vars[p[i].name].Components?)
  }

  /** The segments obtained by writing the values of the variables into the pattern. */
  function Instantiate(p: Pattern, vars: VariableSet): seq<string>
    requires forall i :: 0 <= i < |p| && p[i].VarnameSegment? ==> p[i].name in vars && vars[p[i].name].Single?
    requires forall i :: 0 <= i < |p| && p[i].VarnameWildcard? ==> p[i].name in vars && vars[p[i].name].Components?
  {
    if p == [] then []
    else
      var k := |p| - 1;
      Instantiate(p[..k], vars) + match p[k]
        case Literal(text) => [text]
        case VarnameSegment(name) => [vars[name].text]
        case VarnameWildcard(name) => vars[name].parts
  }

  lemma NamesOfExtension(p: Pattern, k: nat)
    requires k + 1 == |p|
    ensures Names(p) == Names(p[..k]) + (if p[k].Literal? then {} else {p[k].name})
  {
    forall n ensures n in Names(p) <==> n in Names(p[..k]) + (if p[k].Literal? then {} else {p[k].name}) {
      if n in Names(p) {
        var i :| 0 <= i < |p| && !p[i].Literal? && p[i].name == n;
        assert i < k ==> p[..k][i] == p[i];
      }
      if n in Names(p[..k]) {
        var i :| 0 <= i < k && !p[..k][i].Literal? && p[..k][i].name == n;
        assert p[i].name == n;
      }
    }
  }

  lemma {:induction false} BindingsFill(p: Pattern, segments: seq<string>)
    requires ValidPattern(p) && PrefixFits(p, segments)
    ensures Fills(Bindings(p, segments), p)
  {
    if p != [] {
      var k := |p| - 1;
      BindingsFill(p[..k], segments);
      NamesOfExtension(p, k);
      forall i | 0 <= i < k ensures p[i] == p[..k][i] {}
    }
  }

  lemma {:induction false} InstantiateIgnoresOthers(p: Pattern, vars: VariableSet, name: string, value: VariableValue)
    requires Fills(vars, p) && name !in Names(p)
    ensures forall i :: 0 <= i < |p| && !p[i].Literal? ==> p[i].name in vars && p[i].name != name
    ensures Instantiate(p, vars[name := value]) == Instantiate(p, vars)
  {
    assert forall i :: 0 <= i < |p| && !p[i].Literal? ==> p[i].name in Names(p);
    InstantiateDependsOnNames(p, vars, vars[name := value]);
  }

  lemma {:induction false} InstantiateDependsOnNames(p: Pattern, vars: VariableSet, others: VariableSet)
    requires forall i :: 0 <= i < |p| && p[i].VarnameSegment? ==> p[i].name in vars && vars[p[i].name].Single?
    requires forall i :: 0 <= i < |p| && p[i].VarnameWildcard? ==> p[i].name in vars && vars[p[i].name].Components?
    requires forall i :: 0 <= i < |p| && !p[i].Literal? ==> p[i].name in others && others[p[i].name] == vars[p[i].name]
    ensures Instantiate(p, others) == Instantiate(p, vars)
  {
    if p != [] {
      InstantiateDependsOnNames(p[..|p| - 1], vars, others);
    }
  }

  /** Writing the bound variables back into the pattern reproduces what was matched. */
  lemma {:induction false} MatchThenInstantiate(p: Pattern, segments: seq<string>)
    requires ValidPattern(p) && Matches(p, segments)
    ensures Fills(Bindings(p, segments), p)
    ensures Instantiate(p, Bindings(p, segments)) == segments
  {
    BindingsFill(p, segments);
    InstantiateBindings(p, segments);
    if !EndsInWildcard(p) {
      assert segments[..|p|] == segments;
    }
  }

  lemma {:induction false} InstantiateBindings(p: Pattern, segments: seq<string>)
    requires ValidPattern(p) && PrefixFits(p, segments)
    requires Fills(Bindings(p, segments), p)
    ensures EndsInWildcard(p) || |p| <= |segments|
    ensures Instantiate(p, Bindings(p, segments)) == if EndsInWildcard(p) then segments else segments[..|p|]
  {
    if p != [] {
      var k := |p| - 1;
      var init := p[..k];
      assert SegmentFits(p[k], segments, k);
      assert !EndsInWildcard(init);
      BindingsFill(init, segments);
      InstantiateBindings(init, segments);
      InstantiateLast(p, segments);
    }
  }

  /** The last segment's own binding does not disturb the segments before it. */
  lemma InstantiateLast(p: Pattern, segments: seq<string>)
    requires p != [] && ValidPattern(p) && PrefixFits(p, segments) && Fills(Bindings(p, segments), p)
    requires var init := p[..|p| - 1];
      Fills(Bindings(init, segments), init) && Instantiate(init, Bindings(init, segments)) == segments[..|p| - 1]
    requires |p| - 1 <= |segments|
    ensures Instantiate(p, Bindings(p, segments)) == if EndsInWildcard(p) then segments else segments[..|p|]
  {
    var k := |p| - 1;
    var init, bound := p[..k], Bindings(p, segments);
    assert SegmentFits(p[k], segments, k);
    if !p[k].Literal? {
      LastNameIsNew(p);
      InstantiateIgnoresOthers(init, Bindings(init, segments), p[k].name, bound[p[k].name]);
    }
    assert p[k].VarnameWildcard? ==> segments[..k] + segments[k..] == segments;
    assert !p[k].VarnameWildcard? ==> segments[..k] + [segments[k]] == segments[..k + 1];
  }

  lemma LastNameIsNew(p: Pattern)
    requires p != [] && ValidPattern(p) && !p[|p| - 1].Literal?
    ensures p[|p| - 1].name !in Names(p[..|p| - 1])
  {
    var init := p[..|p| - 1];
    forall i | 0 <= i < |init| && !init[i].Literal? ensures init[i].name != p[|p| - 1].name { assert init[i] == p[i]; }
  }

  /** And the other way round: a filled-in pattern matches, and binds the very values filled in. */
  lemma {:induction false} InstantiateThenMatch(p: Pattern, vars: VariableSet)
    requires ValidPattern(p) && Fills(vars, p)
    ensures Matches(p, Instantiate(p, vars))
    ensures Bindings(p, Instantiate(p, vars)) == vars
  {
    var segments := Instantiate(p, vars);
    InstantiatedFits(p, vars, segments);
    BindingsFill(p, segments);
    var bound := Bindings(p, segments);
    forall n | n in vars ensures bound[n] == vars[n] {
      var i :| 0 <= i < |p| && !p[i].Literal? && p[i].name == n;
    }
    assert bound == vars;
  }

  lemma {:induction false} InstantiatedFits(p: Pattern, vars: VariableSet, segments: seq<string>)
    requires ValidPattern(p)
    requires forall i :: 0 <= i < |p| && p[i].VarnameSegment? ==> p[i].name in vars && vars[p[i].name].Single?
    requires forall i :: 0 <= i < |p| && p[i].VarnameWildcard? ==> p[i].name in vars && vars[p[i].name].Components?
    requires Instantiate(p, vars) <= segments && (EndsInWildcard(p) ==> Instantiate(p, vars) == segments)
    ensures !EndsInWildcard(p) ==> |Instantiate(p, vars)| == |p|
    ensures PrefixFits(p, segments)
    ensures forall i :: 0 <= i < |p| && !p[i].Literal? ==>
      p[i].name in Bindings(p, segments) && Bindings(p, segments)[p[i].name] == vars[p[i].name]
  {
    if p != [] {
      var k := |p| - 1;
      var init := p[..k];
      InstantiatedFits(init, vars, segments);
      assert |Instantiate(init, vars)| == k;
      assert segments[..k] == Instantiate(init, vars);
      assert SegmentFits(p[k], segments, k);
      forall i | 0 <= i < |p| ensures SegmentFits(p[i], segments, i) {
        if i < k { assert init[i] == p[i]; }
      }
      assert p[k].VarnameWildcard? ==> segments[k..] == vars[p[k].name].parts;
      forall i | 0 <= i < |p| && !p[i].Literal?
        ensures p[i].name in Bindings(p, segments) && Bindings(p, segments)[p[i].name] == vars[p[i].name]
      {
        if i < k { assert init[i] == p[i]; }
      }
    }
  }
}
