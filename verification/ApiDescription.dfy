/**
  Registration of endpoints: the parameters that an endpoint declares are checked
  against its path, and then the route goes to the router.
 */
module ApiDescription {
  import opened Wrappers
  import opened RoutePath
  import opened RouteTable
  import RouteScan
  import Router
  import TypeUtil
  import Versions
  import JS = JsonSchema

  datatype TagPolicy = AnyTags | AtLeastOneTag | ExactlyOneTag

  datatype TagConfig = TagConfig(allowOtherTags: bool, policy: TagPolicy, tags: set<string>)

  datatype RegisterError =
    | TagsTooFew
    | TagsNotOne
    | InvalidTag(tag: string)
    | PathParametersDiffer(notConsumed: set<string>, notInPath: set<string>)
    | NotScalar(name: string)
    | NotStringArray(name: string)
    | InQueryAndPath(name: string)
    | ParameterPanic(name: string)
    | PathPanic(path: PathError)
    | InsertPanic(insert: Router.InsertError)

  function PathParameters(parameters: seq<Parameter>): set<string> {
    set i | 0 <= i < |parameters| && parameters[i].location.PathParameter? :: parameters[i].name
  }

  /** The last variable of a name; a valid pattern has only one. */
  function VariableNamed(p: Pattern, name: string): Option<PathSegment> {
    if p == [] then None
    else if !p[|p| - 1].Literal? && p[|p| - 1].name == name then Some(p[|p| - 1])
    else VariableNamed(p[..|p| - 1], name)
  }

  lemma {:induction false} VariableNamedIff(p: Pattern, name: string)
    ensures VariableNamed(p, name).Some? <==> name in Names(p)
    ensures VariableNamed(p, name).Some? ==> VariableNamed(p, name).value in p && !VariableNamed(p, name).value.Literal?
    ensures VariableNamed(p, name).Some? ==> VariableNamed(p, name).value.name == name
  {
    if p != [] {
      var k := |p| - 1;
      VariableNamedIff(p[..k], name);
      NamesOfExtension(p, k);
    }
  }

  /** The check of one parameter, where `depth` is how far the check of a schema can go down the stack. */
  function CheckParameter(p: Pattern, parameter: Parameter, depth: nat): (r: Option<RegisterError>)
    ensures r.Some? ==> !r.value.InsertPanic?
  {
    var name := parameter.name;
    if parameter.location.HeaderParameter? || parameter.location.BodyParameter? then None
    else if parameter.schema.Gen? then Some(ParameterPanic(name))
    else
      var schema, deps := parameter.schema.schema, parameter.schema.dependencies;
      match (parameter.location, VariableNamed(p, name))
      case (PathParameter, Some(VarnameWildcard(_))) =>
        Complaint(TypeUtil.TypeIsStringEnum(schema, deps, depth), name, NotStringArray(name))
      case (PathParameter, Some(_)) =>
        Complaint(TypeUtil.TypeIsScalarCommon(schema, deps, TypeUtil.IsScalarType, depth), name, NotScalar(name))
      case (PathParameter, None) => Some(ParameterPanic(name))
      case (_, Some(_)) => Some(InQueryAndPath(name))
      case (_, None) =>
        Complaint(TypeUtil.TypeIsScalarCommon(schema, deps, TypeUtil.IsScalarType, depth), name, NotScalar(name))
  }

  function Complaint(verdict: TypeUtil.Verdict, name: string, rejected: RegisterError): Option<RegisterError> {
    match verdict
    case Accepts => None
    case Rejects => Some(rejected)
    case _ => Some(ParameterPanic(name))
  }

  predicate FirstComplaint(parameters: seq<Parameter>, p: Pattern, depth: nat, i: nat) {
    && i < |parameters| && CheckParameter(p, parameters[i], depth).Some?
    && forall j :: 0 <= j < i ==> CheckParameter(p, parameters[j], depth).None?
  }

  /** The parameters that an endpoint declares suit its path. */
  predicate ParametersSuit(p: Pattern, parameters: seq<Parameter>, depth: nat) {
    && PathParameters(parameters) == Names(p)
    && forall i :: 0 <= i < |parameters| ==> CheckParameter(p, parameters[i], depth).None?
  }

  /** The number of tags is as the policy asks. */
  predicate TagCountAllowed(config: TagConfig, tags: seq<string>) {
    (config.policy.AtLeastOneTag? ==> tags != []) && (config.policy.ExactlyOneTag? ==> |tags| == 1)
  }

  predicate TagKnown(config: TagConfig, tag: string) {
    config.allowOtherTags || tag in config.tags
  }

  /** Endpoints that are not documented may have any tags. */
  predicate TagsAllowed(config: TagConfig, e: Endpoint) {
    e.visible ==> TagCountAllowed(config, e.tags) && forall tag :: tag in e.tags ==> TagKnown(config, tag)
  }

  /** Every registered endpoint declares just the variables of its path. */
  ghost predicate Declared(entries: seq<Entry>) {
    forall e :: e in entries ==> PathParameters(e.endpoint.parameters) == Names(e.pattern)
  }

  /** An endpoint whose tags and parameters pass. */
  ghost predicate Suits(config: TagConfig, e: Endpoint, depth: nat) {
    TagsAllowed(config, e) && EntryOf(e).Ok? && ParametersSuit(EntryOf(e).value.pattern, e.parameters, depth)
  }

  /** An endpoint can be registered after those already there. */
  ghost predicate Registrable(config: TagConfig, entries: seq<Entry>, e: Endpoint, depth: nat) {
    Suits(config, e, depth) && Acceptable(entries, EntryOf(e).value)
  }

  /** The error is of the first check that the endpoint fails, and in it of the first thing at fault. */
  ghost predicate Reported(config: TagConfig, e: Endpoint, depth: nat, error: RegisterError) {
    if !TagsAllowed(config, e) then TagErrorReported(config, e.tags, error)
    else match ParsePath(e.path)
      case Err(cause) => error == PathPanic(cause)
      case Ok(p) =>
        if PathParameters(e.parameters) != Names(p) then
          var declared := PathParameters(e.parameters);
          error == PathParametersDiffer(Names(p) - declared, declared - Names(p))
        else if exists i: nat :: FirstComplaint(e.parameters, p, depth, i) then
          exists i: nat ::
            && FirstComplaint(e.parameters, p, depth, i)
            && CheckParameter(p, e.parameters[i], depth) == Some(error)
        else error.InsertPanic?
  }

  ghost predicate TagErrorReported(config: TagConfig, tags: seq<string>, error: RegisterError) {
    if !TagCountAllowed(config, tags) then error == if config.policy.AtLeastOneTag? then TagsTooFew else TagsNotOne
    else exists i :: 0 <= i < |tags| && FirstUnknownTag(config, tags, i) && error == InvalidTag(tags[i])
  }

  ghost predicate FirstUnknownTag(config: TagConfig, tags: seq<string>, i: nat)
    requires i < |tags|
  {
    !TagKnown(config, tags[i]) && forall j :: 0 <= j < i ==> TagKnown(config, tags[j])
  }

  class ApiDescription {
    var router: Router.HttpRouter
    const tagConfig: TagConfig

    ghost predicate Valid()
      reads this, router, router.repr
    {
      router.Valid() && Declared(router.entries)
    }

    constructor (tagConfig: TagConfig)
      ensures Valid() && router.Tight() && router.entries == [] && this.tagConfig == tagConfig
      ensures fresh(router) && fresh(router.repr)
    {
      router := new Router.HttpRouter();
      this.tagConfig := tagConfig;
    }

    /** The tags of a visible endpoint must be as many, and such, as the configuration asks. */
    method ValidateTags(e: Endpoint) returns (r: Result<(), RegisterError>)
      ensures r.Ok? <==> TagsAllowed(tagConfig, e)
      ensures r.Err? ==> TagErrorReported(tagConfig, e.tags, r.error)
    {
      if !e.visible { return Ok(()); }
      match tagConfig.policy {
        case AtLeastOneTag => if |e.tags| == 0 { return Err(TagsTooFew); }
        case ExactlyOneTag => if |e.tags| != 1 { return Err(TagsNotOne); }
        case AnyTags =>
      }
      if !tagConfig.allowOtherTags {
        for i := 0 to |e.tags|
          invariant forall j :: 0 <= j < i ==> TagKnown(tagConfig, e.tags[j])
        {
          if e.tags[i] !in tagConfig.tags {
            assert FirstUnknownTag(tagConfig, e.tags, i);
            return Err(InvalidTag(e.tags[i]));
          }
        }
      }
      return Ok(());
    }

    /**
      Gathers the variables of the path and the declared path parameters: every
      variable must be declared and every declared parameter a variable.
     */
    method ValidatePathParameters(e: Endpoint, p: Pattern) returns (r: Result<(), RegisterError>)
      ensures r.Ok? <==> PathParameters(e.parameters) == Names(p)
      ensures r.Err? ==>
        && r.error.PathParametersDiffer?
        && r.error.notConsumed == Names(p) - PathParameters(e.parameters)
        && r.error.notInPath == PathParameters(e.parameters) - Names(p)
    {
      var path: set<string> := {};
      for i := 0 to |p|
        invariant path == Names(p[..i])
      {
        NamesOfExtension(p[..i + 1], i);
        assert p[..i + 1][..i] == p[..i];
        if !p[i].Literal? { path := path + {p[i].name}; }
      }
      assert p[..|p|] == p;
      var vars: set<string> := {};
      for i := 0 to |e.parameters|
        invariant vars == PathParameters(e.parameters[..i])
      {
        PathParametersOneMore(e.parameters, i);
        if e.parameters[i].location.PathParameter? { vars := vars + {e.parameters[i].name}; }
      }
      assert e.parameters[..|e.parameters|] == e.parameters;
      if path != vars { return Err(PathParametersDiffer(path - vars, vars - path)); }
      return Ok(());
    }

    /** The first complaint about a parameter, if there is one. */
    method ValidateNamedParameters(e: Endpoint, p: Pattern, depth: nat) returns (r: Result<(), RegisterError>)
      ensures r.Ok? <==> forall i :: 0 <= i < |e.parameters| ==> CheckParameter(p, e.parameters[i], depth).None?
      ensures r.Err? ==>
        exists i: nat ::
          && FirstComplaint(e.parameters, p, depth, i)
          && CheckParameter(p, e.parameters[i], depth) == Some(r.error)
    {
      for i := 0 to |e.parameters|
        invariant forall j :: 0 <= j < i ==> CheckParameter(p, e.parameters[j], depth).None?
      {
        var complaint := CheckParameter(p, e.parameters[i], depth);
        if complaint.Some? {
          assert FirstComplaint(e.parameters, p, depth, i);
          return Err(complaint.value);
        }
      }
      return Ok(());
    }

    /**
      Registers an endpoint if its tags and parameters pass and the router takes
      its route; otherwise says which check it failed, and the routes are as before.
     */
    method Register(e: Endpoint, depth: nat) returns (r: Result<(), RegisterError>)
      requires Valid()
      modifies router, router.repr
      ensures Valid() && router == old(router) && fresh(router.repr - old(router.repr))
      ensures r.Ok? <==>
        && Registrable(tagConfig, old(router.entries), e, depth)
        && Router.AgreesSoFar(old(router.nodes.Keys), EntryOf(e).value.pattern)
      ensures old(router.Tight()) && Registrable(tagConfig, old(router.entries), e, depth) ==> r.Ok?
      ensures depth > 0 && AllTyped(e.parameters) && old(router.Tight()) ==>
        (r.Ok? <==> TypedRegistrable(tagConfig, old(router.entries), e))
      ensures router.entries == if r.Ok? then old(router.entries) + [EntryOf(e).value] else old(router.entries)
      ensures old(router.Tight()) && r.Ok? ==> router.Tight()
      ensures r.Err? ==> Reported(tagConfig, e, depth, r.error)
      ensures r.Err? && r.error in {InsertPanic(Router.DuplicateRoute), InsertPanic(Router.OverlappingVersions)} ==>
        EntryOf(e).Ok? && Router.ReportsOverlap(old(router.entries), EntryOf(e).value, r.error.insert)
      ensures r.Err? && !r.error.InsertPanic? ==> old(router.Tight()) ==> router.Tight()
    {
      hide *;
      Parts();
      var tags := ValidateTags(e);
      SuitsIff(tagConfig, e, depth);
      RegistrableIff(tagConfig, router.entries, e, depth);
      if depth > 0 && AllTyped(e.parameters) {
        TypedEndpointIsRegistrableIff(tagConfig, router.entries, e, depth);
      }
      if tags.Err? {
        TagsReported(tagConfig, e, depth, tags.error);
        return tags;
      }
      var pattern := ParsePath(e.path);
      if pattern.Err? {
        PathReported(tagConfig, e, depth);
        return Err(PathPanic(pattern.error));
      }
      var path := ValidatePathParameters(e, pattern.value);
      if path.Err? {
        DifferenceReported(tagConfig, e, depth, path.error);
        return path;
      }
      var named := ValidateNamedParameters(e, pattern.value, depth);
      if named.Err? {
        ComplaintReported(tagConfig, e, depth, named.error);
        return named;
      }
      var inserted := router.Insert(e);
      if inserted.Ok? { DeclaredOneMore(old(router.entries), EntryOf(e).value); }
      Parts();
      if inserted.Err? {
        InsertReported(tagConfig, e, depth, inserted.error);
        return Err(InsertPanic(inserted.error));
      }
      return Ok(());
    }

    lemma Parts()
      ensures Valid() <==> router.Valid() && Declared(router.entries)
    {
    }
  }

  lemma PathParametersOneMore(parameters: seq<Parameter>, i: nat)
    requires i < |parameters|
    ensures PathParameters(parameters[..i + 1])
         == PathParameters(parameters[..i]) + if parameters[i].location.PathParameter? then {parameters[i].name} else {}
  {
    var before, after := parameters[..i], parameters[..i + 1];
    forall n | n in PathParameters(after)
      ensures n in PathParameters(before) + if parameters[i].location.PathParameter? then {parameters[i].name} else {}
    {
      var j :| 0 <= j < |after| && after[j].location.PathParameter? && after[j].name == n;
      assert j < i ==> before[j] == after[j];
    }
    forall n | n in PathParameters(before) ensures n in PathParameters(after) {
      var j :| 0 <= j < |before| && before[j].location.PathParameter? && before[j].name == n;
      assert after[j] == before[j];
    }
    assert after[i] == parameters[i];
  }

  // Of each way for a registration to fail, that it is the one to be reported.

  lemma TagsReported(config: TagConfig, e: Endpoint, depth: nat, error: RegisterError)
    requires !TagsAllowed(config, e) && TagErrorReported(config, e.tags, error)
    ensures Reported(config, e, depth, error)
  {
  }

  lemma PathReported(config: TagConfig, e: Endpoint, depth: nat)
    requires TagsAllowed(config, e) && ParsePath(e.path).Err?
    ensures Reported(config, e, depth, PathPanic(ParsePath(e.path).error))
  {
  }

  lemma DifferenceReported(config: TagConfig, e: Endpoint, depth: nat, error: RegisterError)
    requires TagsAllowed(config, e) && ParsePath(e.path).Ok?
    requires PathParameters(e.parameters) != Names(ParsePath(e.path).value) && error.PathParametersDiffer?
    requires error.notConsumed == Names(ParsePath(e.path).value) - PathParameters(e.parameters)
    requires error.notInPath == PathParameters(e.parameters) - Names(ParsePath(e.path).value)
    ensures Reported(config, e, depth, error)
  {
  }

  lemma ComplaintReported(config: TagConfig, e: Endpoint, depth: nat, error: RegisterError)
    requires TagsAllowed(config, e) && ParsePath(e.path).Ok?
    requires PathParameters(e.parameters) == Names(ParsePath(e.path).value)
    requires exists i: nat ::
      && FirstComplaint(e.parameters, ParsePath(e.path).value, depth, i)
      && CheckParameter(ParsePath(e.path).value, e.parameters[i], depth) == Some(error)
    ensures Reported(config, e, depth, error)
    ensures !error.InsertPanic?
  {
    hide FirstComplaint, CheckParameter, PathParameters, Names, ParsePath;
  }

  lemma InsertReported(config: TagConfig, e: Endpoint, depth: nat, error: Router.InsertError)
    requires Suits(config, e, depth)
    ensures Reported(config, e, depth, InsertPanic(error))
  {
    SuitsIff(config, e, depth);
    hide CheckParameter, PathParameters, Names, ParsePath, EntryOf;
  }

  lemma SuitsIff(config: TagConfig, e: Endpoint, depth: nat)
    ensures EntryOf(e).Ok? <==> ParsePath(e.path).Ok?
    ensures EntryOf(e).Ok? ==> EntryOf(e).value.pattern == ParsePath(e.path).value && EntryOf(e).value.endpoint == e
    ensures Suits(config, e, depth) <==>
      && TagsAllowed(config, e) && EntryOf(e).Ok?
      && PathParameters(e.parameters) == Names(EntryOf(e).value.pattern)
      && forall i :: 0 <= i < |e.parameters| ==> CheckParameter(EntryOf(e).value.pattern, e.parameters[i], depth).None?
  {
    hide CheckParameter, PathParameters, Names, TagsAllowed;
  }

  lemma RegistrableIff(config: TagConfig, entries: seq<Entry>, e: Endpoint, depth: nat)
    ensures Registrable(config, entries, e, depth) <==>
      Suits(config, e, depth) && EntryOf(e).Ok? && Acceptable(entries, EntryOf(e).value)
  {
    hide Acceptable, ParametersSuit, TagsAllowed;
  }

  lemma DeclaredOneMore(entries: seq<Entry>, e: Entry)
    requires Declared(entries) && PathParameters(e.endpoint.parameters) == Names(e.pattern)
    ensures Declared(entries + [e])
  {
    hide PathParameters, Names;
  }

  // ---------------------------------------------------------- whole descriptions

  /** The entries after registering the endpoints one after the other, if all succeed. */
  ghost function RegisterAll(config: TagConfig, endpoints: seq<Endpoint>, depth: nat): Option<seq<Entry>> {
    if endpoints == [] then Some([])
    else
      var last := |endpoints| - 1;
      match RegisterAll(config, endpoints[..last], depth)
      case None => None
      case Some(entries) =>
        if !Registrable(config, entries, endpoints[last], depth) then None
        else Some(entries + [EntryOf(endpoints[last]).value])
  }

  predicate IsPanic(error: RegisterError) {
    error.ParameterPanic? || error.PathPanic? || error.InsertPanic?
  }

  /**
    Registers the endpoints of an API on a new description, and collects the
    errors; a panic ends it.  It succeeds if and only if each endpoint suits and
    every two routes are compatible, and then the routes are just theirs.
   */
  method BuildDescription(config: TagConfig, endpoints: seq<Endpoint>, depth: nat)
    returns (api: ApiDescription, errors: seq<RegisterError>)
    ensures api.Valid() && api.tagConfig == config
    ensures errors == [] <==> EachSuits(config, endpoints, depth) && PairwiseCompatible(EntriesOf(endpoints))
    ensures errors == [] ==> api.router.entries == EntriesOf(endpoints) && api.router.Tight()
  {
    hide *;
    api := new ApiDescription(config);
    errors := [];
    NothingRegistered(config, depth);
    var i := 0;
    while i < |endpoints|
      invariant 0 <= i <= |endpoints| && api.Valid() && api.tagConfig == config
      invariant fresh(api.router) && fresh(api.router.repr)
      invariant errors == [] <==> RegisterAll(config, endpoints[..i], depth).Some?
      invariant errors == [] ==>
        RegisterAll(config, endpoints[..i], depth) == Some(api.router.entries) && api.router.Tight()
    {
      RegisterOneMore(config, endpoints, i, depth);
      var r := api.Register(endpoints[i], depth);
      if r.Err? {
        errors := errors + [r.error];
        if IsPanic(r.error) {
          NeverRecovers(config, endpoints, i + 1, depth);
          RegisterAllIff(config, endpoints, depth);
          return;
        }
      }
      i := i + 1;
    }
    assert endpoints[..|endpoints|] == endpoints;
    RegisterAllIff(config, endpoints, depth);
  }

  lemma NothingRegistered(config: TagConfig, depth: nat)
    ensures forall endpoints: seq<Endpoint> :: RegisterAll(config, endpoints[..0], depth) == Some([])
  {
  }

  lemma RegisterOneMore(config: TagConfig, endpoints: seq<Endpoint>, i: nat, depth: nat)
    requires i < |endpoints|
    ensures RegisterAll(config, endpoints[..i + 1], depth) == match RegisterAll(config, endpoints[..i], depth)
      case None => None
      case Some(entries) =>
        if !Registrable(config, entries, endpoints[i], depth) then None
        else Some(entries + [EntryOf(endpoints[i]).value])
  {
    assert endpoints[..i + 1][..i] == endpoints[..i];
    hide Registrable;
  }

  lemma {:induction false} NeverRecovers(config: TagConfig, endpoints: seq<Endpoint>, i: nat, depth: nat)
    requires i <= |endpoints| && RegisterAll(config, endpoints[..i], depth).None?
    ensures RegisterAll(config, endpoints, depth).None?
    decreases |endpoints| - i
  {
    if i < |endpoints| {
      RegisterOneMore(config, endpoints, i, depth);
      NeverRecovers(config, endpoints, i + 1, depth);
    } else {
      assert endpoints[..i] == endpoints;
    }
  }

  ghost predicate EachSuits(config: TagConfig, endpoints: seq<Endpoint>, depth: nat)
    ensures EachSuits(config, endpoints, depth) ==> forall e :: e in endpoints ==> EntryOf(e).Ok?
  {
    forall e :: e in endpoints ==> Suits(config, e, depth)
  }

  ghost function EntriesOf(endpoints: seq<Endpoint>): (entries: seq<Entry>)
    requires forall e :: e in endpoints ==> EntryOf(e).Ok?
    ensures |entries| == |endpoints| && forall i :: 0 <= i < |entries| ==> entries[i] == EntryOf(endpoints[i]).value
  {
    seq(|endpoints|, i requires 0 <= i < |endpoints| => assert endpoints[i] in endpoints; EntryOf(endpoints[i]).value)
  }

  /**
    A whole description can be registered if and only if each endpoint's
    parameters suit its path, and each path is valid and every two routes are
    compatible -- in whatever order they come.
   */
  lemma {:induction false} RegisterAllIff(config: TagConfig, endpoints: seq<Endpoint>, depth: nat)
    ensures RegisterAll(config, endpoints, depth).Some? <==>
      EachSuits(config, endpoints, depth) && PairwiseCompatible(EntriesOf(endpoints))
    ensures RegisterAll(config, endpoints, depth).Some? ==>
      RegisterAll(config, endpoints, depth).value == EntriesOf(endpoints)
  {
    hide Suits, Acceptable, EntryOf, PairwiseCompatible;
    if endpoints == [] {
      assert PairwiseCompatible(EntriesOf(endpoints)) by { NothingIsCompatible(); assert EntriesOf(endpoints) == []; }
    } else {
      var last := |endpoints| - 1;
      var init := endpoints[..last];
      RegisterAllIff(config, init, depth);
      assert forall e :: e in endpoints <==> e in init || e == endpoints[last];
      assert EachSuits(config, endpoints, depth) <==>
        EachSuits(config, init, depth) && Suits(config, endpoints[last], depth);
      if EachSuits(config, endpoints, depth) {
        assert EntriesOf(endpoints) == EntriesOf(init) + [EntryOf(endpoints[last]).value];
        CompatibleOneMore(EntriesOf(init), EntryOf(endpoints[last]).value);
      }
    }
  }

  lemma NothingIsCompatible()
    ensures PairwiseCompatible([])
  {
  }

  lemma CompatibleOneMore(entries: seq<Entry>, e: Entry)
    ensures PairwiseCompatible(entries + [e]) <==> PairwiseCompatible(entries) && Acceptable(entries, e)
  {
    hide Compatible, ValidPattern;
    var longer := entries + [e];
    assert longer[|entries|] == e && forall i :: 0 <= i < |entries| ==> longer[i] == entries[i];
  }

  /**
    What a handler gets: the variables of a successful lookup are exactly the path
    parameters that its endpoint declares, so none is ever missing.
   */
  lemma NoParameterIsMissing(entries: seq<Entry>, segments: seq<string>, method_: string,
                             version: Option<Versions.Version>)
    requires PairwiseCompatible(entries) && Declared(entries) && RouteScan.Scan(entries, segments, method_, version).Ok?
    ensures var r := RouteScan.Scan(entries, segments, method_, version).value;
      r.variables.Keys == PathParameters(r.endpoint.parameters)
  {
    hide RouteScan.Scan, PairwiseCompatible, Instantiate;
    var e := RouteScan.LookupReproducesRequest(entries, segments, method_, version);
  }

  /** After the first check every declared path parameter is a variable of the path, so the second never misses one. */
  lemma PathParametersAreAccountedFor(p: Pattern, parameters: seq<Parameter>, i: nat)
    requires PathParameters(parameters) == Names(p) && i < |parameters| && parameters[i].location.PathParameter?
    ensures VariableNamed(p, parameters[i].name).Some?
  {
    VariableNamedIff(p, parameters[i].name);
    assert parameters[i].name in PathParameters(parameters);
  }

  /** A path parameter that is no wildcard admits, apart from null, only booleans, numbers and strings. */
  lemma PathParametersAreScalar(p: Pattern, parameter: Parameter, depth: nat, voc: JS.Vocabulary, n: nat, v: JS.Value)
    requires CheckParameter(p, parameter, depth).None? && parameter.location.PathParameter?
    requires VariableNamed(p, parameter.name).Some? && VariableNamed(p, parameter.name).value.VarnameSegment?
    requires parameter.schema.Static?
    requires JS.Valid(voc, parameter.schema.dependencies, n, parameter.schema.schema, v) && !v.Null?
    ensures v.Boolean? || v.Number? || v.Text?
  {
    TypeUtil.ScalarParametersAreScalar(voc, parameter.schema.dependencies, n, parameter.schema.schema, v, depth);
  }

  /** A query parameter has a name that is no variable of the path, and admits, apart from null, scalars only. */
  lemma QueryParametersAreScalar(p: Pattern, parameter: Parameter, depth: nat, voc: JS.Vocabulary, n: nat, v: JS.Value)
    requires CheckParameter(p, parameter, depth).None? && parameter.location.QueryParameter?
    ensures parameter.name !in Names(p) && parameter.schema.Static?
    ensures JS.Valid(voc, parameter.schema.dependencies, n, parameter.schema.schema, v) && !v.Null? ==>
      v.Boolean? || v.Number? || v.Text?
  {
    VariableNamedIff(p, parameter.name);
    if JS.Valid(voc, parameter.schema.dependencies, n, parameter.schema.schema, v) && !v.Null? {
      TypeUtil.ScalarParametersAreScalar(voc, parameter.schema.dependencies, n, parameter.schema.schema, v, depth);
    }
  }

  // ------------------------------------------- endpoints with typed parameters

  /** The parameter comes with a schema that leads to a plain one of this type. */
  ghost predicate OfType(parameter: Parameter, t: JS.InstanceType) {
    parameter.schema.Static? &&
    exists n: nat, end ::
      TypeUtil.EndsWith(parameter.schema.dependencies, parameter.schema.schema, n, end) && TypeUtil.Typed(end, t)
  }

  predicate Checked(parameter: Parameter) {
    parameter.location.PathParameter? || parameter.location.QueryParameter?
  }

  ghost predicate AllTyped(parameters: seq<Parameter>) {
    forall i :: 0 <= i < |parameters| && Checked(parameters[i]) ==> exists t :: OfType(parameters[i], t)
  }

  /** The parameter is a boolean, a number, a string or an integer, and has its place. */
  ghost predicate TypedSuits(p: Pattern, parameter: Parameter) {
    && (exists t :: OfType(parameter, t) && t in {JS.BooleanType, JS.NumberType, JS.StringType, JS.IntegerType})
    && (parameter.location.PathParameter? ==> VarnameSegment(parameter.name) in p)
    && (parameter.location.QueryParameter? ==> parameter.name !in Names(p))
  }

  ghost predicate TypedRegistrable(config: TagConfig, entries: seq<Entry>, e: Endpoint) {
    && TagsAllowed(config, e) && EntryOf(e).Ok? && Acceptable(entries, EntryOf(e).value)
    && PathParameters(e.parameters) == Names(EntryOf(e).value.pattern)
    && forall i :: 0 <= i < |e.parameters| && Checked(e.parameters[i]) ==>
         TypedSuits(EntryOf(e).value.pattern, e.parameters[i])
  }

  lemma OneVariableOfAName(p: Pattern, name: string)
    requires ValidPattern(p)
    ensures VariableNamed(p, name) == Some(VarnameSegment(name)) <==> VarnameSegment(name) in p
  {
    VariableNamedIff(p, name);
    var found := VariableNamed(p, name);
    if VarnameSegment(name) in p {
      var i :| 0 <= i < |p| && p[i] == VarnameSegment(name);
      assert name in Names(p);
      var j :| 0 <= j < |p| && p[j] == found.value;
    }
  }

  lemma TypedCheckIff(p: Pattern, parameter: Parameter, depth: nat)
    requires ValidPattern(p) && depth > 0 && Checked(parameter) && exists t :: OfType(parameter, t)
    ensures CheckParameter(p, parameter, depth).None? <==> TypedSuits(p, parameter)
  {
    hide TypeUtil.EndsWith, TypeUtil.Typed;
    var t :| OfType(parameter, t);
    var schema, deps := parameter.schema.schema, parameter.schema.dependencies;
    var n: nat, end :| TypeUtil.EndsWith(deps, schema, n, end) && TypeUtil.Typed(end, t);
    TypeUtil.TypedIsJudgedByType(schema, deps, n, end, t, depth);
    forall u | OfType(parameter, u) ensures u == t {
      var m: nat, other :| TypeUtil.EndsWith(deps, schema, m, other) && TypeUtil.Typed(other, u);
      TypeUtil.EndIsUnique(deps, schema, n, end, m, other);
      OneTypeOnly(end, t, u);
    }
    OneVariableOfAName(p, parameter.name);
    VariableNamedIff(p, parameter.name);
    TypedIsNoStringArray(schema, deps, n, end, t, depth);
    hide TypeUtil.TypeIsScalarCommon, TypeUtil.TypeIsStringEnum, OfType, VariableNamed, Names;
  }

  lemma OneTypeOnly(s: JS.Schema, t: JS.InstanceType, u: JS.InstanceType)
    requires TypeUtil.Typed(s, t) && TypeUtil.Typed(s, u)
    ensures t == u
  {
  }

  lemma TypedIsNoStringArray(s: JS.Schema, deps: JS.Definitions, n: nat, end: JS.Schema, t: JS.InstanceType, depth: nat)
    requires TypeUtil.EndsWith(deps, s, n, end) && TypeUtil.Typed(end, t)
    ensures TypeUtil.TypeIsStringEnum(s, deps, depth) == TypeUtil.Rejects
  {
    hide TypeUtil.EndsWith;
    TypeUtil.ResolveOkIff(deps, s, end);
  }

  /**
    What registration accepts of an endpoint whose path and query parameters are
    given with plain types: each declared path parameter is a single variable of the
    path and each variable is declared, no query parameter is named like one, all
    types are boolean, number, string or integer, and the tags and the route are fine.
   */
  lemma TypedEndpointIsRegistrableIff(config: TagConfig, entries: seq<Entry>, e: Endpoint, depth: nat)
    requires depth > 0 && AllTyped(e.parameters)
    ensures Registrable(config, entries, e, depth) <==> TypedRegistrable(config, entries, e)
  {
    hide OfType, TypedSuits, TagsAllowed, Compatible, ValidPattern, PathParameters, Names;
    if EntryOf(e).Ok? && Acceptable(entries, EntryOf(e).value) {
      var p := EntryOf(e).value.pattern;
      forall i | 0 <= i < |e.parameters|
        ensures CheckParameter(p, e.parameters[i], depth).None? <==>
          (Checked(e.parameters[i]) ==> TypedSuits(p, e.parameters[i]))
      {
        if Checked(e.parameters[i]) { TypedCheckIff(p, e.parameters[i], depth); }
      }
    }
  }

  /** What passes the check, for any schema: bodies and headers, and scalars and string arrays at their places. */
  lemma CheckParameterIff(p: Pattern, parameter: Parameter, depth: nat)
    requires ValidPattern(p)
    ensures CheckParameter(p, parameter, depth).None? <==>
      || !Checked(parameter)
      || (parameter.schema.Static? &&
           var (schema, deps) := (parameter.schema.schema, parameter.schema.dependencies);
           var scalar := TypeUtil.TypeIsScalarCommon(schema, deps, TypeUtil.IsScalarType, depth) == TypeUtil.Accepts;
           if parameter.location.QueryParameter? then scalar && parameter.name !in Names(p)
           else
             || (VarnameSegment(parameter.name) in p && scalar)
             || (VarnameWildcard(parameter.name) in p
                  && TypeUtil.TypeIsStringEnum(schema, deps, depth) == TypeUtil.Accepts))
  {
    VariableNamedIff(p, parameter.name);
    OneVariableOfAName(p, parameter.name);
    var found := VariableNamed(p, parameter.name);
    if VarnameWildcard(parameter.name) in p {
      var i :| 0 <= i < |p| && p[i] == VarnameWildcard(parameter.name);
      assert parameter.name in Names(p);
      var j :| 0 <= j < |p| && p[j] == found.value;
    }
    hide TypeUtil.TypeIsScalarCommon, TypeUtil.TypeIsStringEnum, VariableNamed, Names;
  }
}
