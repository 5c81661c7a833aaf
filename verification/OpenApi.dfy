/**
  The generated OpenAPI document of a version: one slot per path and method, filled
  by walking the routes of the version; the schemas of the components; and one
  response for each error type.
 */
module OpenApi {
  import opened Wrappers
  import opened Versions
  import opened RoutePath
  import opened RouteTable
  import opened RouteScan
  import opened Router
  import opened RouteListing
  import opened RouterIter
  import opened Operations
  import ErrorNames
  import JS = JsonSchema
  import OA = OpenApiSchema
  import SchemaPanics

  const METHODS: set<string> := {"GET", "PUT", "POST", "DELETE", "OPTIONS", "HEAD", "PATCH", "TRACE"}

  /** The methods that OpenAPI has a slot for in a path. */
  predicate HasSlot(method_: string) {
    || method_ == "GET" || method_ == "PUT" || method_ == "POST" || method_ == "DELETE"
    || method_ == "OPTIONS" || method_ == "HEAD" || method_ == "PATCH" || method_ == "TRACE"
  }

  lemma MethodsHaveSlots(method_: string)
    ensures method_ in METHODS <==> HasSlot(method_)
  {
  }

  const RESPONSES: string := "#/components/responses/"

  type PathItem = map<string, Operation>

  type Paths = map<string, PathItem>

  datatype Document = Document(paths: Paths, schemas: Schemas, responses: Schemas)

  // ------------------------------------------------------------ the operations

  /** One operation and the slot it goes to. */
  datatype Row = Row(path: string, method_: string, operation: Operation)

  /** Fills the slot of the row's path and method, whatever it held before. */
  function AddOperation(paths: Paths, row: Row): Paths {
    var pathItem := if row.path in paths then paths[row.path] else map[];
    paths[row.path := pathItem[row.method_ := row.operation]]
  }

  function Table(rows: seq<Row>): Paths {
    if rows == [] then map[]
    else AddOperation(Table(rows[..|rows| - 1]), rows[|rows| - 1])
  }

  function Visible(items: seq<Item>): seq<Item> {
    if items == [] then []
    else Visible(items[..|items| - 1]) + if items[|items| - 1].endpoint.visible then [items[|items| - 1]] else []
  }

  /** The error types of the documented endpoints, in turn. */
  function ErrorsOf(items: seq<Item>): seq<ErrorType> {
    if items == [] then []
    else ErrorsOf(items[..|items| - 1]) + ErrorList(items[|items| - 1].endpoint)
  }

  function ErrorList(e: Endpoint): seq<ErrorType> {
    if ErrorOf(e).Some? then [ErrorOf(e).value] else []
  }

  /** The schema of the endpoint's error type, if the type is a new one. */
  function NewError(uses: seq<ErrorType>, e: Endpoint): seq<SchemaGenerator> {
    if ErrorOf(e).Some? && ErrorOf(e).value.typeName !in ErrorNames.TypesOf(uses) then [ErrorOf(e).value.schema] else []
  }

  /** All schemas looked at, in turn. */
  function Consulted(items: seq<Item>): seq<SchemaGenerator> {
    if items == [] then []
    else
      var init, last := items[..|items| - 1], items[|items| - 1].endpoint;
      Consulted(init) + (ConsultedBy(last) + NewError(ErrorsOf(init), last))
  }

  function ErrorReference(uses: seq<ErrorType>, e: Endpoint): Option<string> {
    match ErrorOf(e)
    case None => None
    case Some(u) =>
      match ErrorNames.ResponseName(uses, u.typeName)
      case None => None
      case Some(name) => Some(RESPONSES + name)
  }

  function RowOf(item: Item, uses: seq<ErrorType>): Row
    requires OperationFor(item.endpoint).Some?
  {
    Row(item.path, item.method_, OperationFor(item.endpoint).value.(error := ErrorReference(uses, item.endpoint)))
  }

  predicate KnownMethods(items: seq<Item>) {
    forall i :: 0 <= i < |items| ==> items[i].method_ in METHODS
  }

  /** No schema that an operation takes makes the conversion panic. */
  predicate Describable(items: seq<Item>) {
    forall i :: 0 <= i < |items| ==> OperationFor(items[i].endpoint).Some?
  }

  predicate ErrorsDescribable(types: seq<ErrorType>) {
    forall i :: 0 <= i < |types| ==> Converted(types[i].schema).Some?
  }

  function RowsOf(items: seq<Item>): (r: seq<Row>)
    requires Describable(items)
    ensures |r| == |items| && forall i :: 0 <= i < |r| ==> r[i] == RowOf(items[i], ErrorsOf(items))
  {
    seq(|items|, i requires 0 <= i < |items| => RowOf(items[i], ErrorsOf(items)))
  }

  /** The visible routes of a version, in the order in which the document takes them. */
  ghost function Documented(router: HttpRouter, version: Version): seq<Item>
    requires router.Owned() && WellShaped(TrieOf(router))
    reads router, router.repr
  {
    Visible(Listing(TrieOf(router), Some(version)))
  }

  /** The document of these items, unless writing it panics. */
  function DocumentOf(items: seq<Item>): Option<Document> {
    var types, components :=
      ErrorNames.FirstUses(ErrorsOf(items)), ComponentsFor(AllDefinitions(Consulted(items)));
    if && KnownMethods(items) && Describable(items) && ErrorsDescribable(types) && components.Some?
       && ErrorNames.Distinct(ErrorNames.ResponseNames(ErrorsOf(items)))
    then
      Some(Document(Table(RowsOf(items)), components.value,
                    ErrorNames.ByName(ErrorNames.ResponseNames(ErrorsOf(items)), ErrorSchemas(types))))
    else None
  }

  function ErrorSchemas(types: seq<ErrorType>): (r: seq<OA.ReferenceOr>)
    requires ErrorsDescribable(types)
    ensures |r| == |types| && forall i :: 0 <= i < |r| ==> Some(r[i]) == Converted(types[i].schema)
  {
    seq(|types|, i requires 0 <= i < |types| => Converted(types[i].schema).value)
  }

  /** What the generator makes for a version. */
  ghost function Generated(router: HttpRouter, version: Version): Option<Document>
    requires router.Owned() && WellShaped(TrieOf(router))
    reads router, router.repr
  {
    DocumentOf(Documented(router, version))
  }

  lemma DocumentedIsVisibleListing(router: HttpRouter, version: Version)
    requires router.Owned() && WellShaped(TrieOf(router))
    ensures Documented(router, version) == Visible(Listing(TrieOf(router), Some(version)))
    ensures Generated(router, version) == DocumentOf(Documented(router, version))
  {
  }

  lemma ValidRouterHasTrie(router: HttpRouter)
    requires router.Valid()
    ensures router.Owned() && WellShaped(TrieOf(router)) && HandlersMatch(TrieOf(router).methods, router.entries)
    ensures PairwiseCompatible(router.entries) && FromTheirEndpoints(router.entries)
  {
  }

  // -------------------------------------------------------------- one item more

  lemma VisibleOneMore(items: seq<Item>, item: Item)
    ensures Visible(items + [item]) == Visible(items) + if item.endpoint.visible then [item] else []
  {
    assert (items + [item])[..|items|] == items;
  }

  lemma TableOneMore(rows: seq<Row>, row: Row)
    ensures Table(rows + [row]) == AddOperation(Table(rows), row)
  {
    assert (rows + [row])[..|rows|] == rows;
  }

  lemma ErrorsOneMore(items: seq<Item>, item: Item)
    ensures ErrorsOf(items + [item]) == ErrorsOf(items) + ErrorList(item.endpoint)
  {
    assert (items + [item])[..|items|] == items;
  }

  lemma ConsultedOneMore(items: seq<Item>, item: Item)
    ensures Consulted(items + [item])
         == Consulted(items) + (ConsultedBy(item.endpoint) + NewError(ErrorsOf(items), item.endpoint))
  {
    assert (items + [item])[..|items|] == items;
  }

  lemma {:induction false} ErrorIsUsed(items: seq<Item>, i: nat)
    requires i < |items| && ErrorOf(items[i].endpoint).Some?
    ensures ErrorOf(items[i].endpoint).value in ErrorsOf(items)
    ensures ErrorOf(items[i].endpoint).value.typeName in ErrorNames.TypesOf(ErrorsOf(items))
  {
    hide ErrorOf;
    if i < |items| - 1 {
      ErrorIsUsed(items[..|items| - 1], i);
    }
  }

  /** Rows written stay as they are, since names once given stay. */
  lemma RowsOneMore(items: seq<Item>, item: Item)
    requires Describable(items) && OperationFor(item.endpoint).Some?
    ensures Describable(items + [item])
    ensures RowsOf(items + [item]) == RowsOf(items) + [RowOf(item, ErrorsOf(items + [item]))]
  {
    hide OperationFor, ErrorOf, ErrorNames.ResponseName, ErrorsOf, ErrorNames.TypesOf;
    ErrorsOneMore(items, item);
    assert ErrorsOf(items) + [] == ErrorsOf(items);
    forall i | 0 <= i < |items| ensures ErrorReference(ErrorsOf(items + [item]), items[i].endpoint)
        == ErrorReference(ErrorsOf(items), items[i].endpoint)
    {
      if ErrorOf(items[i].endpoint).Some? {
        ErrorIsUsed(items, i);
        if ErrorOf(item.endpoint).Some? {
          ErrorNames.ResponseNameStays(ErrorsOf(items), ErrorOf(item.endpoint).value,
                                       ErrorOf(items[i].endpoint).value.typeName);
        }
      }
    }
  }

  lemma {:induction false} GivenByParts(before: seq<SchemaGenerator>, after: seq<SchemaGenerator>)
    ensures GivenDefinitions(before + after) == GivenDefinitions(before) + GivenDefinitions(after)
    ensures MadeDefinitions(before + after) == MadeDefinitions(after) + MadeDefinitions(before)
  {
    if after == [] {
      assert before + after == before;
    } else {
      var init, last := after[..|after| - 1], after[|after| - 1];
      GivenByParts(before, init);
      assert before + after == (before + init) + [last];
      OneMoreDefines(before + init, last);
      OneMoreDefines(init, last);
      ExtendedLater(GivenDefinitions(before), GivenDefinitions(init), last);
      ExtendedLater(MadeDefinitions(init), MadeDefinitions(before), last);
      hide GivenDefinitions, MadeDefinitions, Extended, Kept;
      assert after == init + [last];
    }
  }

  lemma ExtendedLater(a: JS.Definitions, b: JS.Definitions, g: SchemaGenerator)
    ensures Extended(a + b, g) == a + Extended(b, g)
    ensures Kept(a + b, g) == Kept(a, g) + b
  {
  }

  lemma OneMoreDefines(consulted: seq<SchemaGenerator>, g: SchemaGenerator)
    ensures GivenDefinitions(consulted + [g]) == Extended(GivenDefinitions(consulted), g)
    ensures MadeDefinitions(consulted + [g]) == Kept(MadeDefinitions(consulted), g)
  {
    assert (consulted + [g])[..|consulted|] == consulted;
  }

  /** The item can be written after those before it. */
  predicate Writable(before: seq<Item>, item: Item) {
    && item.method_ in METHODS && OperationFor(item.endpoint).Some?
    && forall i :: 0 <= i < |NewError(ErrorsOf(before), item.endpoint)| ==>
         Converted(NewError(ErrorsOf(before), item.endpoint)[i]).Some?
  }

  predicate WritableInTurn(items: seq<Item>) {
    if items == [] then true
    else WritableInTurn(items[..|items| - 1]) && Writable(items[..|items| - 1], items[|items| - 1])
  }

  lemma WritableOneMore(items: seq<Item>, item: Item)
    ensures WritableInTurn(items + [item]) <==> WritableInTurn(items) && Writable(items, item)
  {
    assert (items + [item])[..|items|] == items;
  }

  lemma {:induction false} WritableInTurnIff(items: seq<Item>)
    ensures WritableInTurn(items) <==>
      KnownMethods(items) && Describable(items) && ErrorsDescribable(ErrorNames.FirstUses(ErrorsOf(items)))
  {
    if items != [] {
      var init, last := items[..|items| - 1], items[|items| - 1];
      assert items == init + [last];
      WritableInTurnIff(init);
      NewErrorDescribable(init, last);
      WritableIff(init, last);
      KnownOneMore(init, last);
      hide ErrorsOf, OperationFor, ErrorOf, Converted, Writable, ErrorsDescribable, ErrorNames.FirstUses,
        ErrorNames.TypesOf, KnownMethods, Describable;
    }
  }

  lemma KnownOneMore(items: seq<Item>, item: Item)
    ensures KnownMethods(items + [item]) <==> KnownMethods(items) && item.method_ in METHODS
    ensures Describable(items + [item]) <==> Describable(items) && OperationFor(item.endpoint).Some?
  {
    hide OperationFor;
    var more := items + [item];
    assert more[|items|] == item && forall i :: 0 <= i < |items| ==> more[i] == items[i];
  }

  lemma NewErrorDescribable(items: seq<Item>, item: Item)
    ensures ErrorsDescribable(ErrorNames.FirstUses(ErrorsOf(items + [item]))) <==>
      && ErrorsDescribable(ErrorNames.FirstUses(ErrorsOf(items)))
      && var u := ErrorOf(item.endpoint);
        u.Some? && u.value.typeName !in ErrorNames.TypesOf(ErrorsOf(items)) ==> Converted(u.value.schema).Some?
  {
    hide ErrorsOf, ErrorOf, Converted, ErrorNames.FirstUses, ErrorNames.TypesOf;
    var uses, u := ErrorsOf(items), ErrorOf(item.endpoint);
    ErrorsOneMore(items, item);
    if u.None? {
      assert uses + [] == uses;
    } else {
      ErrorNames.FirstUsesOneMore(uses, u.value);
      var types := ErrorNames.FirstUses(uses);
      assert types + [] == types;
      var more := types + [u.value];
      assert more[|types|] == u.value && forall i :: 0 <= i < |types| ==> more[i] == types[i];
    }
  }

  lemma {:induction false} UnwritableStays(items: seq<Item>, item: Item, later: seq<Item>)
    requires item.endpoint.visible && !Writable(Visible(items), item)
    ensures !WritableInTurn(Visible(items + [item] + later))
  {
    hide Writable;
    var all := items + [item] + later;
    if later == [] {
      assert all == items + [item];
      VisibleOneMore(items, item);
      WritableOneMore(Visible(items), item);
    } else {
      var init, last := later[..|later| - 1], later[|later| - 1];
      assert all == (items + [item] + init) + [last];
      UnwritableStays(items, item, init);
      VisibleOneMore(items + [item] + init, last);
      WritableOneMore(Visible(items + [item] + init), last);
      assert Visible(items + [item] + init) + [] == Visible(items + [item] + init);
    }
  }

  // ----------------------------------------------------------- the generator

  /** What the operation loop has gathered. */
  datatype Progress = Progress(
    paths: Paths, responses: ErrorNames.ErrorResponses, given: JS.Definitions, made: JS.Definitions)

  const AT_FIRST: Progress := Progress(map[], ErrorNames.NO_RESPONSES, map[], map[])

  /** These items have been written. */
  ghost predicate Written(items: seq<Item>, progress: Progress) {
    && WritableInTurn(items) && Describable(items)
    && progress.paths == Table(RowsOf(items))
    && ErrorNames.AreFor(progress.responses, ErrorsOf(items))
    && progress.given == GivenDefinitions(Consulted(items)) && progress.made == MadeDefinitions(Consulted(items))
  }

  lemma NothingWritten()
    ensures Visible([]) == [] && Written([], AT_FIRST)
  {
    ErrorNames.NothingNamed();
  }

  /** One turn of the operation loop. */
  method WriteOperation(item: Item, progress: Progress, ghost before: seq<Item>) returns (r: Option<Progress>)
    requires Written(before, progress)
    ensures r.Some? <==> Writable(before, item)
    ensures r.Some? ==> Written(before + [item], r.value)
  {
    hide *;
    WrittenParts(before, progress);
    WritableIff(before, item);
    if item.method_ !in METHODS {
      return None;
    }
    var operation := OperationFor(item.endpoint);
    if operation.None? {
      return None;
    }
    var withError := WriteError(item.endpoint, progress.responses, ErrorsOf(before));
    if withError.None? {
      return None;
    }
    var (responses, error, newError) := withError.value;
    var consulted := ConsultedBy(item.endpoint) + newError;
    var row := Row(item.path, item.method_, operation.value.(error := error));
    RowIs(item, ErrorsOf(before) + ErrorList(item.endpoint), row);
    var next := Progress(AddOperation(progress.paths, row), responses,
                         progress.given + GivenDefinitions(consulted), MadeDefinitions(consulted) + progress.made);
    OneMoreWritten(before, item, progress, next);
    return Some(next);
  }

  lemma RowIs(item: Item, uses: seq<ErrorType>, row: Row)
    requires OperationFor(item.endpoint).Some?
    requires row.operation == OperationFor(item.endpoint).value.(error := ErrorReference(uses, item.endpoint))
    requires row.path == item.path && row.method_ == item.method_
    ensures row == RowOf(item, uses)
  {
    hide OperationFor, ErrorReference;
  }

  /** The error response of an endpoint, the reference to it, and its schema if the error type is a new one. */
  method WriteError(e: Endpoint, responses: ErrorNames.ErrorResponses, ghost uses: seq<ErrorType>)
    returns (r: Option<(ErrorNames.ErrorResponses, Option<string>, seq<SchemaGenerator>)>)
    requires ErrorNames.AreFor(responses, uses)
    ensures r.Some? <==> ErrorOf(e).Some? && ErrorOf(e).value.typeName !in ErrorNames.TypesOf(uses) ==>
      Converted(ErrorOf(e).value.schema).Some?
    ensures r.Some? ==> ErrorNames.AreFor(r.value.0, uses + ErrorList(e))
    ensures r.Some? ==> r.value.1 == ErrorReference(uses + ErrorList(e), e) && r.value.2 == NewError(uses, e)
  {
    hide *;
    ErrorParts(uses, e);
    ErrorNames.Parts(responses, uses);
    var u := ErrorOf(e);
    if u.None? {
      return Some((responses, None, []));
    }
    var next := ErrorNames.ResponseFor(responses, u.value, uses);
    if next.None? {
      return None;
    }
    var isNew := u.value.typeName !in ErrorNames.TypesOf(responses.types);
    return Some((next.value.0, Some(RESPONSES + next.value.1), if isNew then [u.value.schema] else []));
  }

  lemma WrittenParts(items: seq<Item>, progress: Progress)
    requires Written(items, progress)
    ensures ErrorNames.AreFor(progress.responses, ErrorsOf(items))
    ensures ErrorNames.TypesOf(progress.responses.types) == ErrorNames.TypesOf(ErrorsOf(items))
  {
    ErrorNames.Parts(progress.responses, ErrorsOf(items));
  }

  lemma WritableIff(before: seq<Item>, item: Item)
    ensures Writable(before, item) <==>
      && item.method_ in METHODS && OperationFor(item.endpoint).Some?
      && var u := ErrorOf(item.endpoint);
        u.Some? && u.value.typeName !in ErrorNames.TypesOf(ErrorsOf(before)) ==> Converted(u.value.schema).Some?
  {
    hide OperationFor, Converted, ErrorOf, ErrorsOf, ErrorNames.TypesOf;
    if NewError(ErrorsOf(before), item.endpoint) != [] {
      assert NewError(ErrorsOf(before), item.endpoint)[0] == ErrorOf(item.endpoint).value.schema;
    }
  }

  lemma ErrorParts(uses: seq<ErrorType>, e: Endpoint)
    ensures match ErrorOf(e)
      case None =>
        uses + ErrorList(e) == uses && NewError(uses, e) == [] && ErrorReference(uses, e) == None
      case Some(u) =>
        && ErrorList(e) == [u]
        && NewError(uses, e) == (if u.typeName !in ErrorNames.TypesOf(uses) then [u.schema] else [])
        && (ErrorNames.ResponseName(uses + [u], u.typeName).Some? ==>
             ErrorReference(uses + [u], e) == Some(RESPONSES + ErrorNames.ResponseName(uses + [u], u.typeName).value))
  {
    hide ErrorNames.ResponseName, ErrorNames.TypesOf, ErrorOf;
  }

  lemma OneMoreWritten(before: seq<Item>, item: Item, progress: Progress, next: Progress)
    requires Written(before, progress) && Writable(before, item)
    requires ErrorNames.AreFor(next.responses, ErrorsOf(before) + ErrorList(item.endpoint))
    requires next.paths == AddOperation(progress.paths, RowOf(item, ErrorsOf(before) + ErrorList(item.endpoint)))
    requires var consulted := ConsultedBy(item.endpoint) + NewError(ErrorsOf(before), item.endpoint);
      && next.given == progress.given + GivenDefinitions(consulted)
      && next.made == MadeDefinitions(consulted) + progress.made
    ensures Written(before + [item], next)
  {
    hide OperationFor, ErrorsOf, ErrorList, ErrorNames.AreFor, Consulted, ConsultedBy, NewError, AddOperation, Table,
      GivenDefinitions, MadeDefinitions, Writable;
    assert OperationFor(item.endpoint).Some? by { WritableIff(before, item); }
    ErrorsOneMore(before, item);
    RowsOneMore(before, item);
    TableOneMore(RowsOf(before), RowOf(item, ErrorsOf(before + [item])));
    ConsultedOneMore(before, item);
    GivenByParts(Consulted(before), ConsultedBy(item.endpoint) + NewError(ErrorsOf(before), item.endpoint));
    WritableOneMore(before, item);
  }

  /** Writing the document; it gives up where the program panics. */
  method GenOpenApi(router: HttpRouter, version: Version) returns (r: Option<Document>)
    requires router.Valid()
    ensures router.Owned() && WellShaped(TrieOf(router))
    ensures r == Generated(router, version)
  {
    hide *;
    ValidRouterHasTrie(router);
    var iter := new HttpRouterIter(router, Some(version));
    ghost var items := iter.Remaining();
    ghost var seen: seq<Item> := [];
    var progress := AT_FIRST;
    NothingWritten();
    DocumentedIsVisibleListing(router, version);
    var next := iter.Next();
    while next.Some?
      invariant iter.Valid() && iter.RouterStands()
      invariant items == seen + (if next.Some? then [next.value] else []) + iter.Remaining()
      invariant next.None? ==> iter.Remaining() == []
      invariant Written(Visible(seen), progress)
      decreases |iter.Remaining()| + if next.Some? then 1 else 0
    {
      var item := next.value;
      VisibleOneMore(seen, item);
      assert Visible(seen) + [] == Visible(seen);
      if item.endpoint.visible {
        var more := WriteOperation(item, progress, Visible(seen));
        if more.None? {
          UnwritableStays(seen, item, iter.Remaining());
          NotWritable(Visible(items));
          return None;
        }
        progress := more.value;
      }
      seen := seen + [item];
      next := iter.Next();
    }
    assert items == seen;
    r := Finish(progress, Visible(items));
  }

  lemma NotWritable(items: seq<Item>)
    requires !WritableInTurn(items)
    ensures DocumentOf(items).None?
  {
    WritableInTurnIff(items);
    hide WritableInTurn, KnownMethods, Describable, ErrorsDescribable;
  }

  /** After the operations: the components, and the responses under their names. */
  method Finish(progress: Progress, ghost items: seq<Item>) returns (r: Option<Document>)
    requires Written(items, progress)
    ensures r == DocumentOf(items)
  {
    hide *;
    DocumentFrom(items, progress);
    var components := ComponentsFor(progress.given + progress.made);
    if components.None? {
      return None;
    }
    var responses := ErrorNames.AddResponses(progress.responses.names, progress.responses.schemas);
    if responses.None? {
      return None;
    }
    return Some(Document(progress.paths, components.value, responses.value));
  }

  lemma DocumentFrom(items: seq<Item>, progress: Progress)
    requires Written(items, progress)
    ensures |progress.responses.schemas| == |progress.responses.names|
    ensures DocumentOf(items) ==
      var components := ComponentsFor(progress.given + progress.made);
      if components.Some? && ErrorNames.Distinct(progress.responses.names) then
        Some(Document(progress.paths, components.value,
                      ErrorNames.ByName(progress.responses.names, progress.responses.schemas)))
      else None
  {
    WritableInTurnIff(items);
    ErrorNames.Parts(progress.responses, ErrorsOf(items));
    SchemasAreErrorSchemas(items, progress);
    hide WritableInTurn, KnownMethods, Describable, ErrorsDescribable, RowsOf, Table, ErrorsOf, ErrorNames.FirstUses,
      ErrorNames.ResponseNames, ErrorNames.ByName, ErrorNames.Distinct, ErrorNames.AreFor, ComponentsFor, Consulted,
      GivenDefinitions, MadeDefinitions, ErrorSchemas;
  }

  lemma SchemasAreErrorSchemas(items: seq<Item>, progress: Progress)
    requires Written(items, progress) && ErrorsDescribable(ErrorNames.FirstUses(ErrorsOf(items)))
    ensures progress.responses.schemas == ErrorSchemas(ErrorNames.FirstUses(ErrorsOf(items)))
  {
    hide Converted, ErrorNames.FirstUses, WritableInTurn, Describable, RowsOf, Table, ErrorsOf, Consulted;
  }

  // ------------------------------------------------ what the document contains

  function Key(row: Row): (string, string) {
    (row.path, row.method_)
  }

  predicate KeysDistinct(rows: seq<Row>) {
    forall i, j :: 0 <= i < j < |rows| ==> Key(rows[i]) != Key(rows[j])
  }

  /** The slots of the document that hold an operation. */
  function Slots(paths: Paths): set<(string, string)> {
    set p, m | p in paths && m in paths[p] :: (p, m)
  }

  predicate Holds(paths: Paths, row: Row) {
    && row.path in paths && row.method_ in paths[row.path]
    && paths[row.path][row.method_] == row.operation
  }

  lemma SlotsOneMore(paths: Paths, row: Row)
    ensures Slots(AddOperation(paths, row)) == Slots(paths) + {Key(row)}
    ensures Holds(AddOperation(paths, row), row)
    ensures forall other :: Holds(paths, other) && Key(other) != Key(row) ==> Holds(AddOperation(paths, row), other)
  {
    var more := AddOperation(paths, row);
    forall p, m ensures (p, m) in Slots(more) <==> (p, m) in Slots(paths) + {Key(row)} {
    }
  }

  lemma {:induction false} SlotsAreKeys(rows: seq<Row>)
    ensures forall k :: k in Slots(Table(rows)) <==> exists i :: 0 <= i < |rows| && Key(rows[i]) == k
  {
    hide AddOperation, Key, Slots;
    if rows == [] {
      NoSlots();
    } else {
      var init, last := rows[..|rows| - 1], rows[|rows| - 1];
      SlotsAreKeys(init);
      SlotsOneMore(Table(init), last);
      assert rows == init + [last];
    }
  }

  lemma NoSlots()
    ensures Slots(map[]) == {}
  {
    assert forall k :: k !in Slots(map[]);
  }

  /** If no slot is asked for twice, none is overwritten: every row keeps its own operation. */
  lemma {:induction false} DistinctKeysKeepOperations(rows: seq<Row>)
    requires KeysDistinct(rows)
    ensures forall i :: 0 <= i < |rows| ==> Holds(Table(rows), rows[i])
    ensures |Slots(Table(rows))| == |rows|
    ensures forall k :: k in Slots(Table(rows)) <==> exists i :: 0 <= i < |rows| && Key(rows[i]) == k
  {
    hide AddOperation, Holds, Slots, Key;
    SlotsAreKeys(rows);
    if rows == [] {
      NoSlots();
    } else {
      var init, last := rows[..|rows| - 1], rows[|rows| - 1];
      DistinctKeysKeepOperations(init);
      SlotsOneMore(Table(init), last);
      assert forall i :: 0 <= i < |init| ==> rows[i] == init[i];
    }
  }

  /** A slot asked for twice is counted once, so the document then lacks an operation. */
  lemma {:induction false} SlotsAtMostRows(rows: seq<Row>)
    ensures |Slots(Table(rows))| <= |rows|
    ensures forall i :: 0 <= i < |rows| ==> Key(rows[i]) in Slots(Table(rows))
    ensures |Slots(Table(rows))| == |rows| ==> KeysDistinct(rows)
  {
    hide AddOperation, Holds, Slots, Key;
    if rows == [] {
      NoSlots();
    } else {
      var init, last := rows[..|rows| - 1], rows[|rows| - 1];
      SlotsAtMostRows(init);
      SlotsOneMore(Table(init), last);
      assert forall i :: 0 <= i < |init| ==> rows[i] == init[i];
    }
  }

  // --------------------------------------------------- one slot for one operation

  lemma {:induction false} ErasureTellsAgreeingPatternsApart(p: Pattern, q: Pattern, k: nat)
    requires PatternsAgree(p, q) && ErasePattern(p) == ErasePattern(q) && k <= |p|
    ensures |p| == |q| && p[..k] == q[..k]
  {
    if k > 0 {
      ErasureTellsAgreeingPatternsApart(p, q, k - 1);
      var c, d := p[k - 1], q[k - 1];
      assert ErasePattern(p)[k - 1] == Erase(c) && ErasePattern(q)[k - 1] == Erase(d);
      assert SegmentsAgree(c, d);
      assert p[..k] == p[..k - 1] + [c] && q[..k] == q[..k - 1] + [d];
    }
  }

  lemma EntriesAreWellFormed(e: Entry)
    requires FromItsEndpoint(e)
    ensures WellFormed(e.pattern)
  {
    assert ParsePath(e.endpoint.path) == Ok(e.pattern);
    hide ParsePath, WellFormed;
    ParseThenPrint(e.endpoint.path);
  }

  /** In one router, printed paths tell nodes apart although wildcards print as variables. */
  lemma ListedPathsTellRoutesApart(entries: seq<Entry>, a: Entry, b: Entry)
    requires PairwiseCompatible(entries) && FromTheirEndpoints(entries) && a in entries && b in entries
    requires ListedPath(a.pattern) == ListedPath(b.pattern)
    ensures a.pattern == b.pattern
  {
    hide FromItsEndpoint, WellFormed, ListedPath;
    if a != b {
      assert FromItsEndpoint(a) && FromItsEndpoint(b);
      EntriesAreWellFormed(a);
      EntriesAreWellFormed(b);
      ListedPathDeterminesErasure(a.pattern, b.pattern);
      PairwiseMembersCompatible(entries, a, b);
      var p, q := a.pattern, b.pattern;
      ErasureTellsAgreeingPatternsApart(p, q, |p|);
      assert p[..|p|] == p && q[..|q|] == q;
    }
  }

  // ----------------------------------------------- the document and the routes

  function VisibleOfVersion(version: Version): Entry -> bool {
    (e: Entry) => e.endpoint.visible && e.endpoint.versions.Contains(version)
  }

  function IsVisible(): Entry -> bool {
    (e: Entry) => e.endpoint.visible
  }

  /** The routes that the document for a version is to describe. */
  function RoutesToDocument(entries: seq<Entry>, version: Version): seq<Entry> {
    Select(entries, VisibleOfVersion(version))
  }

  function ItemsOf(entries: seq<Entry>): (r: seq<Item>)
    ensures |r| == |entries| && forall i :: 0 <= i < |r| ==> r[i] == ItemOf(entries[i])
  {
    seq(|entries|, i requires 0 <= i < |entries| => ItemOf(entries[i]))
  }

  lemma {:induction false} ListWhereIsSelect(entries: seq<Entry>, keep: Entry -> bool)
    ensures ListWhere(entries, keep) == ItemsOf(Select(entries, keep))
  {
    if entries != [] {
      ListWhereIsSelect(entries[1..], keep);
    }
  }

  lemma {:induction false} VisibleCounts(items: seq<Item>, x: Item)
    ensures multiset(Visible(items))[x] == if x.endpoint.visible then multiset(items)[x] else 0
  {
    if items != [] {
      var init, last := items[..|items| - 1], items[|items| - 1];
      VisibleCounts(init, x);
      assert items == init + [last];
      assert multiset(items) == multiset(init) + multiset{last};
      assert multiset(Visible(items))
          == multiset(Visible(init)) + (if last.endpoint.visible then multiset{last} else multiset{});
    }
  }

  lemma {:induction false} VisibleOfListWhere(entries: seq<Entry>, version: Version, x: Item)
    ensures multiset(ListWhere(entries, VisibleOfVersion(version)))[x]
         == if x.endpoint.visible then multiset(ListWhere(entries, OfVersion(Some(version))))[x] else 0
  {
    hide ListedPath, Range.Contains;
    if entries != [] {
      VisibleOfListWhere(entries[1..], version, x);
    }
  }

  /** The documented items are those of the routes to document, each once. */
  lemma DocumentedAreTheRoutes(router: HttpRouter, version: Version)
    requires router.Valid()
    ensures router.Owned() && WellShaped(TrieOf(router))
    ensures multiset(Documented(router, version)) == multiset(ItemsOf(RoutesToDocument(router.entries, version)))
  {
    hide *;
    ValidRouterHasTrie(router);
    DocumentedIsVisibleListing(router, version);
    var entries := router.entries;
    ListingHoldsEachRouteOnce(TrieOf(router), entries, Some(version));
    RoutesToDocumentAre(entries, version);
    ListWhereIsSelect(entries, VisibleOfVersion(version));
    forall x
      ensures multiset(Documented(router, version))[x] == multiset(ItemsOf(RoutesToDocument(entries, version)))[x]
    {
      VisibleCounts(Listing(TrieOf(router), Some(version)), x);
      VisibleOfListWhere(entries, version, x);
    }
  }

  lemma RoutesToDocumentAre(entries: seq<Entry>, version: Version)
    ensures RoutesToDocument(entries, version) == Select(entries, VisibleOfVersion(version))
  {
  }

  /** No operation has two routes among these. */
  predicate OneRouteEach(entries: seq<Entry>) {
    forall i, j :: 0 <= i < j < |entries| ==> !SameOperation(entries[i], entries[j])
  }

  lemma DifferentMembers(entries: seq<Entry>, a: Entry, b: Entry)
    requires OneRouteEach(entries) && a in entries && b in entries && a != b
    ensures !SameOperation(a, b)
  {
    var k :| 0 <= k < |entries| && entries[k] == a;
    var l :| 0 <= l < |entries| && entries[l] == b;
    assert if k < l then !SameOperation(entries[k], entries[l]) else !SameOperation(entries[l], entries[k]);
  }

  lemma {:induction false} SelectionCompatible(entries: seq<Entry>, keep: Entry -> bool)
    requires PairwiseCompatible(entries)
    ensures PairwiseCompatible(Select(entries, keep))
  {
    hide Compatible, ValidPattern;
    if entries != [] {
      var rest := Select(entries[1..], keep);
      SelectionCompatible(entries[1..], keep);
      forall e | e in rest ensures Compatible(entries[0], e) {
        var i :| 0 <= i < |entries[1..]| && entries[1..][i] == e;
        assert Compatible(entries[0], entries[i + 1]);
      }
    }
  }

  lemma SelectionFromEndpoints(entries: seq<Entry>, keep: Entry -> bool)
    requires FromTheirEndpoints(entries)
    ensures FromTheirEndpoints(Select(entries, keep))
  {
    hide FromItsEndpoint;
  }

  /** Where the operation of an item goes. */
  function Place(item: Item): (string, string) {
    (item.path, item.method_)
  }

  predicate PlacesDistinct(items: seq<Item>) {
    forall i, j :: 0 <= i < j < |items| ==> Place(items[i]) != Place(items[j])
  }

  lemma RowsKeepPlaces(items: seq<Item>)
    requires Describable(items)
    ensures KeysDistinct(RowsOf(items)) <==> PlacesDistinct(items)
  {
    hide Describable, OperationFor, ErrorReference, ErrorsOf;
    assert forall i :: 0 <= i < |items| ==> Key(RowsOf(items)[i]) == Place(items[i]);
  }

  /** Places are distinct exactly when operations are. */
  lemma ItemsDistinctIff(entries: seq<Entry>)
    requires PairwiseCompatible(entries) && FromTheirEndpoints(entries)
    ensures PlacesDistinct(ItemsOf(entries)) <==> OneRouteEach(entries)
  {
    hide PairwiseCompatible, FromTheirEndpoints, ListedPath;
    var items := ItemsOf(entries);
    forall i, j | 0 <= i < j < |entries|
      ensures Place(items[i]) == Place(items[j]) <==> SameOperation(entries[i], entries[j])
    {
      if ListedPath(entries[i].pattern) == ListedPath(entries[j].pattern) {
        ListedPathsTellRoutesApart(entries, entries[i], entries[j]);
      }
    }
  }

  lemma PlacesDistinctIsAboutContents(items: seq<Item>, reordered: seq<Item>)
    requires multiset(items) == multiset(reordered) && PlacesDistinct(items)
    ensures PlacesDistinct(reordered)
  {
    forall i, j | 0 <= i < j < |reordered| ensures Place(reordered[i]) != Place(reordered[j]) {
      var x, y := reordered[i], reordered[j];
      assert x in multiset(items) && y in multiset(items);
      if x == y {
        RepeatedInMultiset(reordered, i, j);
        var k, l := RepeatedInSequence(items, x);
      } else {
        var k :| 0 <= k < |items| && items[k] == x;
        var l :| 0 <= l < |items| && items[l] == y;
        assert k < l || l < k;
      }
    }
  }

  lemma OneRouteEachIffUnambiguous(entries: seq<Entry>)
    requires PairwiseCompatible(entries)
    ensures (forall v: Version :: OneRouteEach(RoutesToDocument(entries, v)))
       <==> Unambiguous(Select(entries, IsVisible()))
  {
    var visible := Select(entries, IsVisible());
    SelectionCompatible(entries, IsVisible());
    if Unambiguous(visible) {
      forall v: Version, i, j | 0 <= i < j < |RoutesToDocument(entries, v)|
        ensures !SameOperation(RoutesToDocument(entries, v)[i], RoutesToDocument(entries, v)[j])
      {
        SelectionCompatible(entries, VisibleOfVersion(v));
        AmbiguousPairInVisible(entries, v, i, j);
      }
    }
    if forall v: Version :: OneRouteEach(RoutesToDocument(entries, v)) {
      forall i, j, v: Version | 0 <= i < j < |visible| && SameOperation(visible[i], visible[j])
        ensures !(visible[i].endpoint.versions.Contains(v) && visible[j].endpoint.versions.Contains(v))
      {
        DocumentedPairOfVisible(entries, v, i, j);
      }
    }
  }

  lemma AmbiguousPairInVisible(entries: seq<Entry>, v: Version, i: nat, j: nat)
    requires PairwiseCompatible(entries) && PairwiseCompatible(RoutesToDocument(entries, v))
    requires Unambiguous(Select(entries, IsVisible())) && i < j < |RoutesToDocument(entries, v)|
    ensures !SameOperation(RoutesToDocument(entries, v)[i], RoutesToDocument(entries, v)[j])
  {
    var visible, routes := Select(entries, IsVisible()), RoutesToDocument(entries, v);
    var a, b := routes[i], routes[j];
    assert a in routes && b in routes;
    assert Compatible(a, b);
    hide PairwiseCompatible, Compatible, Unambiguous;
    NeverCompatibleWithItself(a);
    if SameOperation(a, b) { UnambiguousMembers(visible, a, b, v); }
  }

  lemma UnambiguousMembers(entries: seq<Entry>, a: Entry, b: Entry, v: Version)
    requires Unambiguous(entries) && a in entries && b in entries && a != b && SameOperation(a, b)
    ensures !(a.endpoint.versions.Contains(v) && b.endpoint.versions.Contains(v))
  {
    hide Range.Contains;
    var k :| 0 <= k < |entries| && entries[k] == a;
    var l :| 0 <= l < |entries| && entries[l] == b;
    assert k < l || l < k;
  }

  lemma DocumentedPairOfVisible(entries: seq<Entry>, v: Version, i: nat, j: nat)
    requires PairwiseCompatible(Select(entries, IsVisible())) && OneRouteEach(RoutesToDocument(entries, v))
    requires i < j < |Select(entries, IsVisible())|
    requires SameOperation(Select(entries, IsVisible())[i], Select(entries, IsVisible())[j])
    ensures var visible := Select(entries, IsVisible());
      !(visible[i].endpoint.versions.Contains(v) && visible[j].endpoint.versions.Contains(v))
  {
    var visible, routes := Select(entries, IsVisible()), RoutesToDocument(entries, v);
    var a, b := visible[i], visible[j];
    assert a in visible && b in visible;
    assert Compatible(a, b);
    NeverCompatibleWithItself(a);
    hide PairwiseCompatible, Compatible;
    if a.endpoint.versions.Contains(v) && b.endpoint.versions.Contains(v) {
      DifferentMembers(routes, a, b);
    }
  }

  // -------------------------------------------- when the document is complete

  /** The slot of the route holds its operation, with a reference to an error response if it has an error type. */
  ghost predicate Shows(paths: Paths, e: Entry) {
    var path := ItemOf(e).path;
    && path in paths && e.method_ in paths[path]
    && var operation := paths[path][e.method_];
      && Describes(operation, e.endpoint)
      && (operation.error.Some? <==> e.endpoint.response.success.Some? && e.endpoint.error.Some?)
  }

  ghost predicate CompleteFor(paths: Paths, routes: seq<Entry>) {
    (forall e :: e in routes ==> Shows(paths, e)) && |Slots(paths)| == |routes|
  }

  /**
    The generator makes a document, and in it no operation of a visible route of the version is missing or
    overwritten.
   */
  ghost predicate DocumentComplete(router: HttpRouter, version: Version)
    requires router.Owned() && WellShaped(TrieOf(router))
    reads router, router.repr
  {
    var document := Generated(router, version);
    document.Some? && CompleteFor(document.value.paths, RoutesToDocument(router.entries, version))
  }

  /** Every one of these routes has a method that OpenAPI has a slot for. */
  predicate HaveSlots(entries: seq<Entry>) {
    forall e :: e in entries ==> HasSlot(e.method_)
  }

  /** No schema of these routes, their error types apart, has a part that is refused. */
  ghost predicate HaveSchemas(entries: seq<Entry>) {
    forall e :: e in entries ==> SchemasConvertible(e.endpoint)
  }

  ghost predicate EndpointsConvertible(items: seq<Item>) {
    forall i :: 0 <= i < |items| ==> SchemasConvertible(items[i].endpoint)
  }

  /** Every visible route that answers to any version at all has a method with a slot. */
  predicate VisibleHaveSlots(entries: seq<Entry>) {
    forall e :: e in entries && e.endpoint.visible && !Empty(e.endpoint.versions) ==> HasSlot(e.method_)
  }

  ghost predicate VisibleHaveSchemas(entries: seq<Entry>) {
    forall e :: e in entries && e.endpoint.visible && !Empty(e.endpoint.versions) ==> SchemasConvertible(e.endpoint)
  }

  /**
    What documented routes have in common: error types and definitions without a
    part that is refused, and base names of error types that do not clash.
   */
  ghost predicate SharedPartsFit(items: seq<Item>) {
    var types := ErrorNames.FirstUses(ErrorsOf(items));
    && (forall i :: 0 <= i < |types| ==> SchemaPanics.Convertible(types[i].schema.schema))
    && DefinitionsConvertible(Consulted(items))
    && !ErrorNames.NamesClash(ErrorNames.BasesOf(types))
  }

  /** The generator does not panic: every method has a slot, every schema converts, and error names differ. */
  lemma DocumentOfIff(items: seq<Item>)
    ensures DocumentOf(items).Some? <==>
      && KnownMethods(items) && EndpointsConvertible(items)
      && SharedPartsFit(items)
  {
    var types := ErrorNames.FirstUses(ErrorsOf(items));
    hide OperationFor, SchemasConvertible, Converted, SchemaPanics.Convertible, ErrorNames.FirstUses, ErrorsOf,
      ComponentsFor, DefinitionsConvertible, Consulted, ErrorNames.BasesOf, ErrorNames.NamesOf, ErrorNames.Distinct,
      ErrorNames.NamesClash, RowsOf, Table, ErrorSchemas, KnownMethods;
    forall i | 0 <= i < |items|
      ensures OperationFor(items[i].endpoint).Some? <==> SchemasConvertible(items[i].endpoint)
    {
      OperationForIff(items[i].endpoint);
    }
    forall i | 0 <= i < |types|
      ensures Converted(types[i].schema).Some? <==> SchemaPanics.Convertible(types[i].schema.schema)
    {
      ConvertedIff(types[i].schema);
    }
    ComponentsForIff(Consulted(items));
    ErrorNames.NamesUniqueIff(ErrorNames.BasesOf(types));
  }

  /** For one version: no two routes of one operation, a slot and schemas for each, and shared parts that fit. */
  lemma DocumentCompleteIff(router: HttpRouter, v: Version)
    requires router.Valid()
    ensures router.Owned() && WellShaped(TrieOf(router))
    ensures DocumentComplete(router, v) <==>
      var routes := RoutesToDocument(router.entries, v);
      OneRouteEach(routes) && HaveSlots(routes) && HaveSchemas(routes) && SharedPartsFit(Documented(router, v))
  {
    ValidRouterHasTrie(router);
    var entries := router.entries;
    var routes, items := RoutesToDocument(entries, v), Documented(router, v);
    hide *;
    RoutesToDocumentAre(entries, v);
    SelectionCompatible(entries, VisibleOfVersion(v));
    SelectionFromEndpoints(entries, VisibleOfVersion(v));
    DocumentedAreTheRoutes(router, v);
    KnownIffHaveSlots(items, routes);
    DocumentOfIff(items);
    DocumentCompleteIs(router, v);
    if DocumentOf(items).Some? {
      CompletenessOf(items, routes);
    }
  }

  lemma ItemIsRoute(items: seq<Item>, routes: seq<Entry>, i: nat) returns (e: Entry)
    requires multiset(items) == multiset(ItemsOf(routes)) && i < |items|
    ensures e in routes && items[i] == ItemOf(e)
  {
    hide ListedPath;
    assert items[i] in multiset(ItemsOf(routes));
    var j :| 0 <= j < |routes| && ItemsOf(routes)[j] == items[i];
    e := routes[j];
  }

  lemma RouteIsItem(items: seq<Item>, routes: seq<Entry>, e: Entry) returns (i: nat)
    requires multiset(items) == multiset(ItemsOf(routes)) && e in routes
    ensures i < |items| && items[i] == ItemOf(e)
  {
    hide ListedPath;
    var j :| 0 <= j < |routes| && routes[j] == e;
    assert ItemsOf(routes)[j] in multiset(items);
    i :| 0 <= i < |items| && items[i] == ItemsOf(routes)[j];
  }

  lemma KnownIffHaveSlots(items: seq<Item>, routes: seq<Entry>)
    requires multiset(items) == multiset(ItemsOf(routes))
    ensures KnownMethods(items) <==> HaveSlots(routes)
    ensures EndpointsConvertible(items) <==> HaveSchemas(routes)
  {
    hide SchemasConvertible, ListedPath, ItemsOf;
    forall i | 0 <= i < |items|
      ensures HaveSlots(routes) ==> items[i].method_ in METHODS
      ensures HaveSchemas(routes) ==> SchemasConvertible(items[i].endpoint)
    {
      var e := ItemIsRoute(items, routes, i);
      MethodsHaveSlots(e.method_);
    }
    forall e | e in routes
      ensures KnownMethods(items) ==> HasSlot(e.method_)
      ensures EndpointsConvertible(items) ==> SchemasConvertible(e.endpoint)
    {
      var i := RouteIsItem(items, routes, e);
      MethodsHaveSlots(e.method_);
    }
  }

  lemma DocumentCompleteIs(router: HttpRouter, v: Version)
    requires router.Owned() && WellShaped(TrieOf(router))
    ensures var document := DocumentOf(Documented(router, v));
      && (DocumentComplete(router, v) <==>
           document.Some? && CompleteFor(document.value.paths, RoutesToDocument(router.entries, v)))
      && (document.Some? ==>
           Describable(Documented(router, v)) && document.value.paths == Table(RowsOf(Documented(router, v))))
  {
    hide CompleteFor, Table, RowsOf;
  }

  lemma RowShows(items: seq<Item>, i: nat, paths: Paths, e: Entry)
    requires Describable(items) && i < |items| && items[i] == ItemOf(e) && Holds(paths, RowsOf(items)[i])
    ensures Shows(paths, e)
  {
    hide OperationFor, ErrorsOf, Describes;
    OperationDescribes(e.endpoint);
    DescribesWithError(OperationFor(e.endpoint).value, ErrorReference(ErrorsOf(items), e.endpoint), e.endpoint);
    if ErrorOf(e.endpoint).Some? { ErrorIsUsed(items, i); }
  }

  lemma DescribesWithError(operation: Operation, error: Option<string>, e: Endpoint)
    requires Describes(operation, e)
    ensures Describes(operation.(error := error), e)
  {
    hide SaysParameters, SaysBody, SaysResponse;
  }

  lemma CompletenessOf(items: seq<Item>, routes: seq<Entry>)
    requires multiset(items) == multiset(ItemsOf(routes)) && Describable(items)
    requires PairwiseCompatible(routes) && FromTheirEndpoints(routes)
    ensures CompleteFor(Table(RowsOf(items)), routes) <==> OneRouteEach(routes)
  {
    ItemsDistinctIff(routes);
    RowsKeepPlaces(items);
    hide PairwiseCompatible, FromTheirEndpoints, ListedPath, Table, Slots, Holds, Shows, Describable, OneRouteEach,
      PlacesDistinct, KeysDistinct;
    assert |items| == |multiset(items)| == |routes|;
    var rows := RowsOf(items);
    if OneRouteEach(routes) {
      PlacesDistinctIsAboutContents(ItemsOf(routes), items);
      DistinctKeysKeepOperations(rows);
      forall e | e in routes ensures Shows(Table(rows), e) {
        var i :| 0 <= i < |routes| && routes[i] == e;
        assert ItemsOf(routes)[i] in multiset(items);
        var k :| 0 <= k < |items| && items[k] == ItemOf(e);
        RowShows(items, k, Table(rows), e);
      }
    }
    if CompleteFor(Table(rows), routes) {
      SlotsAtMostRows(rows);
      PlacesDistinctIsAboutContents(items, ItemsOf(routes));
    }
  }

  /**
    For every version the generator makes a document of exactly the visible routes
    of that version, if and only if no blind pair is among the visible routes; each
    of them, unless its range is empty, has a method with a slot and schemas that
    convert; and in each version what they share fits.
   */
  lemma DocumentAgreesIff(router: HttpRouter)
    requires router.Valid()
    ensures router.Owned() && WellShaped(TrieOf(router))
    ensures (forall v: Version :: DocumentComplete(router, v)) <==>
      && NoBlindPairs(Select(router.entries, IsVisible()))
      && VisibleHaveSlots(router.entries) && VisibleHaveSchemas(router.entries)
      && forall v: Version :: SharedPartsFit(Documented(router, v))
  {
    hide *;
    ValidRouterHasTrie(router);
    var entries := router.entries;
    SelectionCompatible(entries, IsVisible());
    UnambiguousIffNoBlindPairs(Select(entries, IsVisible()));
    OneRouteEachIffUnambiguous(entries);
    SlotsForAllVersions(entries);
    forall v: Version
      ensures DocumentComplete(router, v) <==>
        && OneRouteEach(RoutesToDocument(entries, v))
        && HaveSlots(RoutesToDocument(entries, v)) && HaveSchemas(RoutesToDocument(entries, v))
        && SharedPartsFit(Documented(router, v))
    {
      DocumentCompleteIff(router, v);
    }
  }

  lemma SlotsForAllVersions(entries: seq<Entry>)
    ensures (forall v: Version :: HaveSlots(RoutesToDocument(entries, v))) <==> VisibleHaveSlots(entries)
    ensures (forall v: Version :: HaveSchemas(RoutesToDocument(entries, v))) <==> VisibleHaveSchemas(entries)
  {
    hide SchemasConvertible;
    forall e | e in entries && e.endpoint.visible && !Empty(e.endpoint.versions)
      ensures exists v: Version :: e in RoutesToDocument(entries, v)
    {
      EmptyIff(e.endpoint.versions);
      var v: Version :| e.endpoint.versions.Contains(v);
      assert e in RoutesToDocument(entries, v);
    }
    forall v: Version, e | e in RoutesToDocument(entries, v)
      ensures e in entries && e.endpoint.visible && !Empty(e.endpoint.versions)
    {
      EmptyIff(e.endpoint.versions);
      assert e.endpoint.versions.Contains(v);
    }
  }

  // ------------------------------------------------------ inputs that stop it

  /** With a visible route of another method, such as CONNECT, the generator gives up for all versions of the route. */
  lemma UnknownMethodStopsGenerator(router: HttpRouter, e: Entry, v: Version)
    requires router.Valid() && e in router.entries
    requires e.endpoint.visible && e.endpoint.versions.Contains(v) && !HasSlot(e.method_)
    ensures router.Owned() && WellShaped(TrieOf(router))
    ensures Generated(router, v).None?
  {
    ValidRouterHasTrie(router);
    hide *;
    DocumentedHas(router.entries, e, v);
    DocumentCompleteNeeds(router, v);
  }

  lemma DocumentedHas(entries: seq<Entry>, e: Entry, v: Version)
    requires e in entries && e.endpoint.visible && e.endpoint.versions.Contains(v)
    ensures HaveSlots(RoutesToDocument(entries, v)) ==> HasSlot(e.method_)
    ensures HaveSchemas(RoutesToDocument(entries, v)) ==> SchemasConvertible(e.endpoint)
  {
    hide SchemasConvertible, Range.Contains;
    assert e in RoutesToDocument(entries, v);
  }

  /** Whatever else holds, the generator stops for a method without a slot and for a schema with a refused part. */
  lemma DocumentCompleteNeeds(router: HttpRouter, v: Version)
    requires router.Valid()
    ensures router.Owned() && WellShaped(TrieOf(router))
    ensures Generated(router, v).Some? ==>
      HaveSlots(RoutesToDocument(router.entries, v)) && HaveSchemas(RoutesToDocument(router.entries, v))
  {
    ValidRouterHasTrie(router);
    hide *;
    DocumentedAreTheRoutes(router, v);
    KnownIffHaveSlots(Documented(router, v), RoutesToDocument(router.entries, v));
    DocumentOfIff(Documented(router, v));
    DocumentedIsVisibleListing(router, v);
  }

  /** So it does with a visible route whose response is a tuple, which registration does not look at. */
  lemma TupleResponseStopsGenerator(router: HttpRouter, e: Entry, v: Version)
    requires router.Valid() && e in router.entries && e.endpoint.visible && e.endpoint.versions.Contains(v)
    requires e.endpoint.response.schema.Some? && IsTuple(e.endpoint.response.schema.value.schema)
    ensures router.Owned() && WellShaped(TrieOf(router))
    ensures Generated(router, v).None?
  {
    ValidRouterHasTrie(router);
    hide *;
    TupleIsRefused(e.endpoint);
    DocumentedHas(router.entries, e, v);
    DocumentCompleteNeeds(router, v);
  }

  predicate IsTuple(s: JS.Schema) {
    && s.Schema? && s.obj.reference.None? && s.obj.enumValues.None?
    && s.obj.instanceType == JS.OneType(JS.ArrayType) && s.obj.subschemas.None?
    && s.obj.arrayRules.Some? && s.obj.arrayRules.value.items.TupleItems?
  }

  lemma TupleIsRefused(e: Endpoint)
    requires e.response.schema.Some? && IsTuple(e.response.schema.value.schema)
    ensures !SchemasConvertible(e)
  {
    var s := e.response.schema.value.schema;
    assert SchemaPanics.ComesTo(s, s.obj) && SchemaPanics.Refused(s.obj);
    assert !IsEmpty(s);
  }
}
