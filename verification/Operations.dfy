/**
  What the document says of one endpoint on its own, and the schemas and
  definitions that it takes from the endpoint.
 */
module Operations {
  import opened Wrappers
  import opened RouteTable
  import JS = JsonSchema
  import OA = OpenApiSchema
  import SchemaUtil
  import SchemaPanics
  import SchemaMeaning

  type Schemas = map<string, OA.ReferenceOr>

  datatype DocumentedParameter = DocumentedParameter(location: ParameterLocation, name: string, schema: OA.ReferenceOr)

  /** The content of a response by media type, and its headers by name. */
  datatype ResponseObject = ResponseObject(content: Schemas, headers: Schemas)

  /** An operation; without a success code its response is the default one. */
  datatype Operation = Operation(
    operationId: string,
    tags: seq<string>,
    parameters: seq<DocumentedParameter>,
    requestBody: Option<Schemas>,
    success: Option<nat>,
    response: ResponseObject,
    error: Option<string>)

  const JSON: string := "application/json"

  const ANYTHING: Schemas := map["*/*" := OA.Item(OA.Schema(SchemaUtil.DEFAULT_DATA, OA.Any(SchemaUtil.DEFAULT_ANY)))]

  // ----------------------------------------------------------- the parts of one

  /** A schema under the name of its generator, if it has one. */
  function Converted(g: SchemaGenerator): Option<OA.ReferenceOr> {
    match g
    case Static(schema, _) => SchemaUtil.J2oasSchema(None, schema)
    case Gen(name, schema, _) => SchemaUtil.J2oasSchema(Some(name), schema)
  }

  /** Parameters and headers must come with their schemas. */
  function ConvertedStatic(g: SchemaGenerator): Option<OA.ReferenceOr> {
    if g.Static? then Converted(g) else None
  }

  function ParametersFor(parameters: seq<Parameter>): Option<seq<DocumentedParameter>> {
    if parameters == [] then Some([])
    else
      var p, rest := parameters[0], ParametersFor(parameters[1..]);
      if p.location.BodyParameter? then rest
      else match (ConvertedStatic(p.schema), rest)
        case (Some(schema), Some(others)) => Some([DocumentedParameter(p.location, p.name, schema)] + others)
        case _ => None
  }

  /** The first body alone counts; the others are not even converted. */
  function BodyFor(parameters: seq<Parameter>): Option<Option<Schemas>> {
    if parameters == [] then Some(None)
    else if !parameters[0].location.BodyParameter? then BodyFor(parameters[1..])
    else match Converted(parameters[0].schema)
      case None => None
      case Some(schema) => Some(Some(map[parameters[0].name := schema]))
  }

  /** Of headers with the same name the last one stays. */
  function HeadersFor(headers: seq<Header>): Option<Schemas> {
    if headers == [] then Some(map[])
    else
      var last := headers[|headers| - 1];
      match (HeadersFor(headers[..|headers| - 1]), ConvertedStatic(last.schema))
      case (Some(others), Some(schema)) => Some(others[last.name := schema])
      case _ => None
  }

  /** The schema `false`, or the negation of one that accepts everything. */
  predicate IsEmpty(s: JS.Schema) {
    match s
    case Bool(b) => !b
    case Schema(o) =>
      && o.subschemas.Some? && Unconstrained(o.(subschemas := None))
      && var sv := o.subschemas.value;
        && sv.allOf.Absent? && sv.anyOf.Absent? && sv.oneOf.Absent?
        && sv.if_.None? && sv.then_.None? && sv.else_.None?
        && sv.not_.Some?
        && match sv.not_.value
           case Bool(b) => b
           case Schema(negated) => Unconstrained(negated)
  }

  predicate Unconstrained(o: JS.SchemaObject) {
    && o.instanceType.AnyType? && o.format.None? && o.enumValues.None? && o.constValue.None? && o.subschemas.None?
    && o.numberRules.None? && o.textRules.None? && o.arrayRules.None? && o.objectRules.None? && o.reference.None?
  }

  function ContentFor(g: SchemaGenerator): Option<Schemas> {
    if IsEmpty(g.schema) then Some(map[])
    else match Converted(g)
      case None => None
      case Some(schema) => Some(map[JSON := schema])
  }

  function ResponseFor(response: Response): Option<ResponseObject> {
    match response.schema
    case None => Some(ResponseObject(ANYTHING, map[]))
    case Some(g) =>
      match (ContentFor(g), HeadersFor(response.headers))
      case (Some(content), Some(headers)) => Some(ResponseObject(content, headers))
      case _ => None
  }

  /** The operation of an endpoint, but for its error response; none if a schema makes the conversion panic. */
  function OperationFor(e: Endpoint): (r: Option<Operation>)
    ensures r.Some? ==> r.value.error.None?
  {
    match (ParametersFor(e.parameters), BodyFor(e.parameters), ResponseFor(e.response))
    case (Some(parameters), Some(body), Some(response)) =>
      Some(Operation(e.operationId, e.tags, parameters, body, e.response.success, response, None))
    case _ => None
  }

  /** The error type that the document speaks of: only with a known success code. */
  function ErrorOf(e: Endpoint): Option<ErrorType> {
    if e.response.success.Some? then e.error else None
  }

  // -------------------------------------------------------- when there is one

  ghost predicate StaticConvertible(g: SchemaGenerator) {
    g.Static? && SchemaPanics.Convertible(g.schema)
  }

  predicate FirstBody(parameters: seq<Parameter>, i: nat) {
    && i < |parameters| && parameters[i].location.BodyParameter?
    && forall j :: 0 <= j < i ==> !parameters[j].location.BodyParameter?
  }

  ghost predicate ParametersConvertible(parameters: seq<Parameter>) {
    && (forall i :: 0 <= i < |parameters| && !parameters[i].location.BodyParameter? ==>
         StaticConvertible(parameters[i].schema))
    && (forall i: nat :: FirstBody(parameters, i) ==> SchemaPanics.Convertible(parameters[i].schema.schema))
  }

  ghost predicate ResponseConvertible(response: Response) {
    response.schema.Some? ==>
      && (IsEmpty(response.schema.value.schema) || SchemaPanics.Convertible(response.schema.value.schema))
      && forall i :: 0 <= i < |response.headers| ==> StaticConvertible(response.headers[i].schema)
  }

  /** No schema that the document takes from the endpoint has a part that is refused. */
  ghost predicate SchemasConvertible(e: Endpoint) {
    ParametersConvertible(e.parameters) && ResponseConvertible(e.response)
  }

  lemma ConvertedIff(g: SchemaGenerator)
    ensures Converted(g).Some? <==> SchemaPanics.Convertible(g.schema)
    ensures ConvertedStatic(g).Some? <==> StaticConvertible(g)
  {
    SchemaPanics.ConvertsIff(if g.Gen? then Some(g.name) else None, g.schema);
    hide SchemaUtil.J2oasSchema, SchemaPanics.Convertible;
  }

  lemma {:induction false} ParametersForIff(parameters: seq<Parameter>)
    ensures ParametersFor(parameters).Some? <==>
      forall i :: 0 <= i < |parameters| && !parameters[i].location.BodyParameter? ==>
        StaticConvertible(parameters[i].schema)
  {
    hide ConvertedStatic, StaticConvertible;
    if parameters != [] {
      ConvertedIff(parameters[0].schema);
      ParametersForIff(parameters[1..]);
      assert parameters == [parameters[0]] + parameters[1..];
    }
  }

  lemma {:induction false} BodyForIff(parameters: seq<Parameter>)
    ensures BodyFor(parameters).Some? <==>
      forall i: nat :: FirstBody(parameters, i) ==> SchemaPanics.Convertible(parameters[i].schema.schema)
  {
    hide Converted, SchemaPanics.Convertible;
    if parameters != [] {
      ConvertedIff(parameters[0].schema);
      if parameters[0].location.BodyParameter? {
        assert FirstBody(parameters, 0);
      } else {
        BodyForIff(parameters[1..]);
        forall i: nat ensures FirstBody(parameters[1..], i) <==> FirstBody(parameters, i + 1) {
          assert forall j :: 0 <= j < |parameters[1..]| ==> parameters[1..][j] == parameters[j + 1];
        }
        assert forall i: nat :: FirstBody(parameters, i) ==> i > 0 && FirstBody(parameters[1..], i - 1);
      }
    }
  }

  lemma {:induction false} HeadersForIff(headers: seq<Header>)
    ensures HeadersFor(headers).Some? <==>
      forall i :: 0 <= i < |headers| ==> StaticConvertible(headers[i].schema)
  {
    hide ConvertedStatic, StaticConvertible;
    if headers != [] {
      HeadersForIff(headers[..|headers| - 1]);
      ConvertedIff(headers[|headers| - 1].schema);
    }
  }

  /** The generator can write the operation exactly when no schema of the endpoint has a part that is refused. */
  lemma OperationForIff(e: Endpoint)
    ensures OperationFor(e).Some? <==> SchemasConvertible(e)
  {
    hide ParametersFor, BodyFor, HeadersFor, IsEmpty, Converted, StaticConvertible, SchemaPanics.Convertible, FirstBody;
    ParametersForIff(e.parameters);
    BodyForIff(e.parameters);
    HeadersForIff(e.response.headers);
    if e.response.schema.Some? { ConvertedIff(e.response.schema.value); }
  }

  // ------------------------------------------------------- what it then says

  /** `r` is the schema converted, titled with the name that a generator gives it. */
  predicate Renders(r: OA.ReferenceOr, g: SchemaGenerator) {
    SchemaUtil.J2oasSchema(if g.Gen? then Some(g.name) else None, g.schema) == Some(r)
  }

  lemma ConvertedRenders(g: SchemaGenerator)
    ensures Converted(g).Some? ==> Renders(Converted(g).value, g)
  {
  }

  /** The parameters that are not bodies, in turn. */
  function NonBodies(parameters: seq<Parameter>): seq<Parameter> {
    if parameters == [] then []
    else (if parameters[0].location.BodyParameter? then [] else [parameters[0]]) + NonBodies(parameters[1..])
  }

  predicate SaysParameters(said: seq<DocumentedParameter>, parameters: seq<Parameter>) {
    && |said| == |NonBodies(parameters)|
    && forall i :: 0 <= i < |said| ==>
         var p := NonBodies(parameters)[i];
         && said[i].location == p.location && said[i].name == p.name
         && p.schema.Static? && Renders(said[i].schema, p.schema)
  }

  /** The first body alone, under its media type. */
  ghost predicate SaysBody(said: Option<Schemas>, parameters: seq<Parameter>) {
    && (said.Some? <==> exists i: nat :: FirstBody(parameters, i))
    && forall i: nat :: FirstBody(parameters, i) ==>
         && said.Some? && said.value.Keys == {parameters[i].name}
         && Renders(said.value[parameters[i].name], parameters[i].schema)
  }

  /** The header has a name that no later one has. */
  predicate LastOfName(headers: seq<Header>, i: nat) {
    i < |headers| && forall j :: i < j < |headers| ==> headers[j].name != headers[i].name
  }

  ghost predicate SaysHeaders(said: Schemas, headers: seq<Header>) {
    && (forall n :: n in said ==> exists i :: 0 <= i < |headers| && headers[i].name == n)
    && forall i: nat :: LastOfName(headers, i) ==>
         headers[i].name in said && headers[i].schema.Static? && Renders(said[headers[i].name], headers[i].schema)
  }

  /** The negation of a schema, and the schema of anything, with nothing else but annotations. */
  function Negation(inner: JS.Schema, metadata: Option<JS.Metadata>, extensions: map<string, JS.Value>): JS.Schema {
    JS.Schema(JS.SchemaObject(metadata, JS.AnyType, None, None, None,
      Some(JS.SubschemaValidation(JS.Absent, JS.Absent, JS.Absent, Some(inner), None, None, None)),
      None, None, None, None, None, extensions))
  }

  function Unconditional(metadata: Option<JS.Metadata>, extensions: map<string, JS.Value>): JS.Schema {
    JS.Schema(JS.SchemaObject(metadata, JS.AnyType, None, None, None, None, None, None, None, None, None, extensions))
  }

  /** The schemas of no content: `false`, and those that negate everything. */
  ghost predicate OfNothing(s: JS.Schema) {
    || s == JS.Bool(false)
    || exists inner, metadata, extensions :: s == Negation(inner, metadata, extensions) && OfAnything(inner)
  }

  ghost predicate OfAnything(s: JS.Schema) {
    s == JS.Bool(true) || exists metadata, extensions :: s == Unconditional(metadata, extensions)
  }

  lemma IsEmptyIff(s: JS.Schema)
    ensures IsEmpty(s) <==> OfNothing(s)
  {
    if IsEmpty(s) && s.Schema? {
      var inner := s.obj.subschemas.value.not_.value;
      if inner.Schema? { assert inner == Unconditional(inner.obj.metadata, inner.obj.extensions); }
      assert s == Negation(inner, s.obj.metadata, s.obj.extensions);
    }
  }

  /** A response made by hand may be anything; one with a schema of no content has none; and else it is JSON. */
  ghost predicate SaysResponse(said: ResponseObject, response: Response) {
    match response.schema
    case None =>
      && said.content.Keys == {"*/*"} && SchemaUtil.J2oasSchema(None, JS.Bool(true)) == Some(said.content["*/*"])
      && said.headers == map[]
    case Some(g) =>
      && (if OfNothing(g.schema) then said.content == map[]
          else said.content.Keys == {"application/json"} && Renders(said.content["application/json"], g))
      && SaysHeaders(said.headers, response.headers)
  }

  /** What an operation says of its endpoint, its error response apart. */
  ghost predicate Describes(operation: Operation, e: Endpoint) {
    && operation.operationId == e.operationId && operation.tags == e.tags
    && operation.success == e.response.success
    && SaysParameters(operation.parameters, e.parameters) && SaysBody(operation.requestBody, e.parameters)
    && SaysResponse(operation.response, e.response)
  }

  lemma {:induction false} ParametersAreSaid(parameters: seq<Parameter>)
    requires ParametersFor(parameters).Some?
    ensures SaysParameters(ParametersFor(parameters).value, parameters)
  {
    if parameters == [] {
      assert ParametersFor(parameters).value == [];
    } else {
      var said := ParametersFor(parameters[1..]).value;
      ParametersAreSaid(parameters[1..]);
      if !parameters[0].location.BodyParameter? {
        ParameterSaidOneMore(said, parameters, ParametersFor(parameters).value[0]);
      }
    }
  }

  lemma ParameterSaidOneMore(said: seq<DocumentedParameter>, parameters: seq<Parameter>, first: DocumentedParameter)
    requires parameters != [] && !parameters[0].location.BodyParameter? && SaysParameters(said, parameters[1..])
    requires first.location == parameters[0].location && first.name == parameters[0].name
    requires parameters[0].schema.Static? && Renders(first.schema, parameters[0].schema)
    ensures SaysParameters([first] + said, parameters)
  {
    hide Renders;
  }

  lemma {:induction false} BodyIsSaid(parameters: seq<Parameter>)
    requires BodyFor(parameters).Some?
    ensures SaysBody(BodyFor(parameters).value, parameters)
  {
    hide SchemaUtil.J2oasSchema;
    if parameters != [] {
      if parameters[0].location.BodyParameter? {
        assert FirstBody(parameters, 0);
      } else {
        BodyIsSaid(parameters[1..]);
        BodyAmongRest(parameters);
        hide BodyFor;
      }
    }
  }

  lemma BodyAmongRest(parameters: seq<Parameter>)
    requires parameters != [] && !parameters[0].location.BodyParameter?
    ensures forall i: nat :: FirstBody(parameters[1..], i) ==> FirstBody(parameters, i + 1)
    ensures forall i: nat :: FirstBody(parameters, i) ==> i > 0 && FirstBody(parameters[1..], i - 1)
  {
    assert forall j :: 0 <= j < |parameters[1..]| ==> parameters[1..][j] == parameters[j + 1];
  }

  lemma LastOfNameOneMore(init: seq<Header>, last: Header, i: nat)
    ensures LastOfName(init + [last], i) <==> i == |init| || (LastOfName(init, i) && init[i].name != last.name)
  {
    var all := init + [last];
    assert all[|init|] == last && forall j :: 0 <= j < |init| ==> all[j] == init[j];
  }

  lemma HeadersSaidOneMore(said: Schemas, init: seq<Header>, last: Header, r: OA.ReferenceOr)
    requires SaysHeaders(said, init) && last.schema.Static? && Renders(r, last.schema)
    ensures SaysHeaders(said[last.name := r], init + [last])
  {
    hide Renders, LastOfName;
    var all, more := init + [last], said[last.name := r];
    forall i: nat | LastOfName(all, i)
      ensures i < |all| && all[i].name in more && all[i].schema.Static?
        && Renders(more[all[i].name], all[i].schema)
    {
      LastOfNameOneMore(init, last, i);
      LastOfNameInRange(all, i);
    }
    forall n | n in more ensures exists i :: 0 <= i < |all| && all[i].name == n {
      if n == last.name {
        assert all[|init|].name == n;
      } else {
        var i :| 0 <= i < |init| && init[i].name == n;
        assert all[i].name == n;
      }
    }
    SaidByParts(more, all);
  }

  lemma LastOfNameInRange(headers: seq<Header>, i: nat)
    requires LastOfName(headers, i)
    ensures i < |headers|
  {
  }

  lemma SaidByParts(said: Schemas, headers: seq<Header>)
    requires forall n :: n in said ==> exists i :: 0 <= i < |headers| && headers[i].name == n
    requires forall i: nat :: LastOfName(headers, i) ==>
      i < |headers| && headers[i].name in said && headers[i].schema.Static?
      && Renders(said[headers[i].name], headers[i].schema)
    ensures SaysHeaders(said, headers)
  {
    hide Renders;
  }

  lemma {:induction false} HeadersAreSaid(headers: seq<Header>)
    requires HeadersFor(headers).Some?
    ensures SaysHeaders(HeadersFor(headers).value, headers)
  {
    hide SchemaUtil.J2oasSchema, SaysHeaders;
    if headers == [] {
      NoHeadersSaid();
    } else {
      var init, last := headers[..|headers| - 1], headers[|headers| - 1];
      HeadersAreSaid(init);
      assert headers == init + [last];
      HeadersSaidOneMore(HeadersFor(init).value, init, last, ConvertedStatic(last.schema).value);
    }
  }

  lemma NoHeadersSaid()
    ensures SaysHeaders(map[], [])
  {
  }

  lemma ResponseIsSaid(response: Response)
    requires ResponseFor(response).Some?
    ensures SaysResponse(ResponseFor(response).value, response)
  {
    if response.schema.Some? {
      IsEmptyIff(response.schema.value.schema);
      HeadersAreSaid(response.headers);
      hide HeadersFor, SaysHeaders, IsEmpty, OfNothing, SchemaUtil.J2oasSchema;
    }
  }

  /** The operation of an endpoint says of it what it should, and nothing of an error response yet. */
  lemma OperationDescribes(e: Endpoint)
    requires OperationFor(e).Some?
    ensures Describes(OperationFor(e).value, e)
  {
    hide ParametersFor, BodyFor, ResponseFor, SaysParameters, SaysBody, SaysResponse;
    ParametersAreSaid(e.parameters);
    BodyIsSaid(e.parameters);
    ResponseIsSaid(e.response);
  }

  // -------------------------------------------------- definitions of components

  /** The schemas looked at for an endpoint, in turn, its error type apart. */
  function ConsultedBy(e: Endpoint): seq<SchemaGenerator> {
    ConsultedParameters(e.parameters) + ConsultedBody(e.parameters)
    + (if e.response.schema.Some? then [e.response.schema.value] + ConsultedHeaders(e.response.headers) else [])
  }

  function ConsultedParameters(parameters: seq<Parameter>): seq<SchemaGenerator> {
    if parameters == [] then []
    else
      (if parameters[0].location.BodyParameter? then [] else [parameters[0].schema])
      + ConsultedParameters(parameters[1..])
  }

  function ConsultedBody(parameters: seq<Parameter>): seq<SchemaGenerator> {
    if parameters == [] then []
    else if parameters[0].location.BodyParameter? then [parameters[0].schema]
    else ConsultedBody(parameters[1..])
  }

  function ConsultedHeaders(headers: seq<Header>): seq<SchemaGenerator> {
    seq(|headers|, i requires 0 <= i < |headers| => headers[i].schema)
  }

  /** The schemas of the parameters that are no bodies, of the first body, of the response, and then of its headers. */
  lemma ConsultedInTurn(e: Endpoint)
    ensures var p, b := ConsultedParameters(e.parameters), ConsultedBody(e.parameters);
      && |p| == |NonBodies(e.parameters)| && (forall i :: 0 <= i < |p| ==> p[i] == NonBodies(e.parameters)[i].schema)
      && (forall i: nat :: FirstBody(e.parameters, i) ==> b == [e.parameters[i].schema])
      && ((forall i: nat :: !FirstBody(e.parameters, i)) ==> b == [])
      && (e.response.schema.None? ==> ConsultedBy(e) == p + b)
      && (e.response.schema.Some? ==>
           |ConsultedBy(e)| == |p + b| + 1 + |e.response.headers| && p + b <= ConsultedBy(e)
           && ConsultedBy(e)[|p + b|] == e.response.schema.value
           && forall i :: 0 <= i < |e.response.headers| ==>
                ConsultedBy(e)[|p + b| + 1 + i] == e.response.headers[i].schema)
  {
    ParametersConsulted(e.parameters);
    BodyConsulted(e.parameters);
    hide ConsultedParameters, ConsultedBody, NonBodies, FirstBody;
  }

  lemma {:induction false} ParametersConsulted(parameters: seq<Parameter>)
    ensures |ConsultedParameters(parameters)| == |NonBodies(parameters)|
    ensures forall i :: 0 <= i < |NonBodies(parameters)| ==>
      ConsultedParameters(parameters)[i] == NonBodies(parameters)[i].schema
  {
    if parameters != [] { ParametersConsulted(parameters[1..]); }
  }

  lemma {:induction false} BodyConsulted(parameters: seq<Parameter>)
    ensures forall i: nat :: FirstBody(parameters, i) ==> ConsultedBody(parameters) == [parameters[i].schema]
    ensures (forall i: nat :: !FirstBody(parameters, i)) ==> ConsultedBody(parameters) == []
  {
    if parameters != [] {
      if parameters[0].location.BodyParameter? {
        assert FirstBody(parameters, 0);
      } else {
        BodyConsulted(parameters[1..]);
        BodyAmongRest(parameters);
      }
    }
  }

  /** Definitions given with schemas: a later one replaces an earlier one of the same name. */
  function GivenDefinitions(consulted: seq<SchemaGenerator>): JS.Definitions {
    if consulted == [] then map[]
    else Extended(GivenDefinitions(consulted[..|consulted| - 1]), consulted[|consulted| - 1])
  }

  function Extended(given: JS.Definitions, g: SchemaGenerator): JS.Definitions {
    if g.Static? then given + g.dependencies else given
  }

  /** Definitions that the generator keeps: what it has made, it does not make again. */
  function MadeDefinitions(consulted: seq<SchemaGenerator>): JS.Definitions {
    if consulted == [] then map[]
    else Kept(MadeDefinitions(consulted[..|consulted| - 1]), consulted[|consulted| - 1])
  }

  function Kept(made: JS.Definitions, g: SchemaGenerator): JS.Definitions {
    if g.Gen? then g.definitions + made else made
  }

  /** All definitions of a document; one that the generator made comes before one that was given. */
  function AllDefinitions(consulted: seq<SchemaGenerator>): JS.Definitions {
    GivenDefinitions(consulted) + MadeDefinitions(consulted)
  }

  function DefinitionsOf(g: SchemaGenerator): JS.Definitions {
    match g
    case Static(_, dependencies) => dependencies
    case Gen(_, _, definitions) => definitions
  }

  ghost predicate DefinitionsConvertible(consulted: seq<SchemaGenerator>) {
    forall k :: k in AllDefinitions(consulted) ==> SchemaPanics.Convertible(AllDefinitions(consulted)[k])
  }

  /** The schemas of the components, unless one of them makes the conversion panic. */
  function ComponentsFor(definitions: JS.Definitions): Option<Schemas> {
    if forall k :: k in definitions ==> SchemaUtil.J2oasSchema(None, definitions[k]).Some? then
      Some(map k | k in definitions :: SchemaUtil.J2oasSchema(None, definitions[k]).value)
    else None
  }

  /** Each component is the definition of its name, converted. */
  lemma ComponentsAre(definitions: JS.Definitions)
    requires ComponentsFor(definitions).Some?
    ensures var components := ComponentsFor(definitions).value;
      && components.Keys == definitions.Keys
      && (forall name :: name in components ==>
           SchemaUtil.J2oasSchema(None, definitions[name]) == Some(components[name]))
      && SchemaMeaning.Components(definitions) == components
  {
    hide SchemaUtil.J2oasSchema;
  }

  /** On the fragment, a schema accepts with the components what it accepts with the definitions. */
  lemma ComponentsMean(definitions: JS.Definitions, g: SchemaGenerator, r: OA.ReferenceOr, voc: JS.Vocabulary,
                       fuel: nat, v: JS.Value)
    requires ComponentsFor(definitions).Some? && Renders(r, g)
    requires SchemaMeaning.InFragment(g.schema) && SchemaMeaning.DefinitionsInFragment(definitions)
    ensures OA.Valid(voc, ComponentsFor(definitions).value, fuel, r, v)
       <==> JS.Valid(voc, definitions, fuel, g.schema, v)
  {
    ComponentsAre(definitions);
    hide SchemaUtil.J2oasSchema, OA.Valid, JS.Valid, SchemaMeaning.InFragment, ComponentsFor, SchemaMeaning.Components;
    SchemaMeaning.ConversionKeepsMeaning(voc, definitions, fuel, if g.Gen? then Some(g.name) else None, g.schema, v);
  }

  lemma ComponentsForIff(consulted: seq<SchemaGenerator>)
    ensures ComponentsFor(AllDefinitions(consulted)).Some? <==> DefinitionsConvertible(consulted)
  {
    hide SchemaUtil.J2oasSchema, SchemaPanics.Convertible;
    forall k | k in AllDefinitions(consulted)
      ensures SchemaUtil.J2oasSchema(None, AllDefinitions(consulted)[k]).Some?
         <==> SchemaPanics.Convertible(AllDefinitions(consulted)[k])
    {
      SchemaPanics.ConvertsIff(None, AllDefinitions(consulted)[k]);
    }
  }

  /** One of the schemas brings this definition of the name along. */
  ghost predicate Brings(consulted: seq<SchemaGenerator>, name: string, s: JS.Schema) {
    exists i :: 0 <= i < |consulted| && Defines(consulted[i], name, s)
  }

  ghost predicate Defines(g: SchemaGenerator, name: string, s: JS.Schema) {
    name in DefinitionsOf(g) && DefinitionsOf(g)[name] == s
  }

  lemma BringsOneMore(init: seq<SchemaGenerator>, last: SchemaGenerator, name: string, s: JS.Schema)
    ensures Brings(init + [last], name, s) <==> Brings(init, name, s) || Defines(last, name, s)
  {
    hide Defines;
    var all := init + [last];
    assert all[|init|] == last;
    if i :| 0 <= i < |init| && Defines(init[i], name, s) {
      assert Defines(all[i], name, s);
    }
  }

  lemma NothingBrings(name: string)
    ensures forall s :: !Brings([], name, s)
  {
  }

  /** Every definition that some schema brings along is among the components by its name, and no other. */
  lemma {:induction false} BroughtAreDefined(consulted: seq<SchemaGenerator>, name: string)
    ensures forall s :: Brings(consulted, name, s) ==> name in AllDefinitions(consulted)
    ensures name in AllDefinitions(consulted) ==> Brings(consulted, name, AllDefinitions(consulted)[name])
    ensures name in GivenDefinitions(consulted) ==> Brings(consulted, name, GivenDefinitions(consulted)[name])
  {
    hide Brings;
    if consulted == [] {
      NothingBrings(name);
    } else {
      var init, last := consulted[..|consulted| - 1], consulted[|consulted| - 1];
      assert consulted == init + [last];
      BroughtAreDefined(init, name);
      forall s ensures Brings(consulted, name, s) <==> Brings(init, name, s) || Defines(last, name, s) {
        BringsOneMore(init, last, name, s);
      }
    }
  }

  predicate Makes(g: SchemaGenerator, name: string) {
    g.Gen? && name in g.definitions
  }

  predicate Gives(g: SchemaGenerator, name: string) {
    g.Static? && name in g.dependencies
  }

  /** The generator has made the name here first. */
  predicate FirstMade(consulted: seq<SchemaGenerator>, name: string, i: nat) {
    i < |consulted| && Makes(consulted[i], name) && forall j :: 0 <= j < i ==> !Makes(consulted[j], name)
  }

  /** The name is given here last, and never made. */
  predicate LastGiven(consulted: seq<SchemaGenerator>, name: string, i: nat) {
    && i < |consulted| && Gives(consulted[i], name)
    && (forall j :: i < j < |consulted| ==> !Gives(consulted[j], name))
    && forall j :: 0 <= j < |consulted| ==> !Makes(consulted[j], name)
  }

  /** Of several definitions of a name the first that the generator made counts, or else the last one given. */
  lemma {:induction false} DefinitionChosen(consulted: seq<SchemaGenerator>, name: string, i: nat)
    requires FirstMade(consulted, name, i) || LastGiven(consulted, name, i)
    ensures name in AllDefinitions(consulted)
    ensures AllDefinitions(consulted)[name] == DefinitionsOf(consulted[i])[name]
  {
    if FirstMade(consulted, name, i) {
      MadeFirst(consulted, name, i);
    } else {
      NeverMade(consulted, name);
      GivenLast(consulted, name, i);
    }
  }

  lemma {:induction false} NeverMade(consulted: seq<SchemaGenerator>, name: string)
    requires forall j :: 0 <= j < |consulted| ==> !Makes(consulted[j], name)
    ensures name !in MadeDefinitions(consulted)
  {
    if consulted != [] { NeverMade(consulted[..|consulted| - 1], name); }
  }

  lemma {:induction false} MadeFirst(consulted: seq<SchemaGenerator>, name: string, i: nat)
    requires FirstMade(consulted, name, i)
    ensures name in MadeDefinitions(consulted) && MadeDefinitions(consulted)[name] == consulted[i].definitions[name]
  {
    var init := consulted[..|consulted| - 1];
    if i < |init| { MadeFirst(init, name, i); } else { NeverMade(init, name); }
  }

  lemma {:induction false} GivenLast(consulted: seq<SchemaGenerator>, name: string, i: nat)
    requires LastGiven(consulted, name, i)
    ensures name in GivenDefinitions(consulted) && GivenDefinitions(consulted)[name] == consulted[i].dependencies[name]
  {
    var init := consulted[..|consulted| - 1];
    if i < |init| {
      assert !Gives(consulted[|init|], name);
      GivenLast(init, name, i);
    }
  }
}
