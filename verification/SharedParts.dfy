/**
  What the routes of an OpenAPI document share: definitions of schemas, and one
  response for each error type.  References to responses lead where they should;
  and where equal names mean equal things, neither what is shared nor whether the
  document can be written depends on the order of the routes.
 */
module SharedParts {
  import opened Wrappers
  import Versions
  import opened RouteTable
  import Router
  import RoutePath
  import opened RouteListing
  import RouterIter
  import opened Operations
  import opened OpenApi
  import ErrorNames
  import JS = JsonSchema
  import OA = OpenApiSchema
  import SchemaPanics
  import SchemaMeaning
  import SchemaUtil

  // ---------------------------------------------------- references to responses

  /** One of the error types with this name has the schema. */
  predicate IsSchemaOf(schema: OA.ReferenceOr, uses: seq<ErrorType>, typeName: string) {
    exists u :: u in uses && u.typeName == typeName && Renders(schema, u.schema)
  }

  /** The response that `reference` leads to has the schema of an error type of this name. */
  ghost predicate LeadsTo(document: Document, reference: string, uses: seq<ErrorType>, typeName: string) {
    exists name :: reference == "#/components/responses/" + name
      && name in document.responses && IsSchemaOf(document.responses[name], uses, typeName)
  }

  /**
    In a document that is written, the error reference of each operation leads to a
    response of its error type, and two operations share a response exactly when
    they have the same error type.
   */
  lemma ErrorReferencesResolve(items: seq<Item>, i: nat, j: nat)
    requires DocumentOf(items).Some? && i < |items| && j < |items|
    requires ErrorOf(items[i].endpoint).Some? && ErrorOf(items[j].endpoint).Some?
    ensures Describable(items)
    ensures var t, u := ErrorOf(items[i].endpoint).value.typeName, ErrorOf(items[j].endpoint).value.typeName;
      var a, b := RowsOf(items)[i].operation.error, RowsOf(items)[j].operation.error;
      && a.Some? && LeadsTo(DocumentOf(items).value, a.value, ErrorsOf(items), t)
      && (a == b <==> t == u)
  {
    hide OperationFor, ErrorOf, Converted, ErrorsOf, ErrorNames.TypesOf, ErrorNames.FirstUses, ErrorNames.ResponseNames,
      ErrorNames.ByName, ErrorNames.Distinct, ErrorNames.NameIn, KnownMethods, ComponentsFor, Consulted, AllDefinitions,
      Table;
    var uses := ErrorsOf(items);
    var x := ReferenceFor(items, i);
    var y := ReferenceFor(items, j);
    assert RowsOf(items)[i].operation.error == Some(RESPONSES + x);
    assert RowsOf(items)[j].operation.error == Some(RESPONSES + y);
    assert (RESPONSES + x)[|RESPONSES|..] == x && (RESPONSES + y)[|RESPONSES|..] == y;
    ResponsesDiffer(uses, ErrorOf(items[i].endpoint).value.typeName, x, ErrorOf(items[j].endpoint).value.typeName, y);
    ResponseIs(uses, ErrorOf(items[i].endpoint).value.typeName, x);
  }

  lemma ReferenceFor(items: seq<Item>, i: nat) returns (name: string)
    requires i < |items| && ErrorOf(items[i].endpoint).Some?
    ensures ErrorNames.ResponseName(ErrorsOf(items), ErrorOf(items[i].endpoint).value.typeName) == Some(name)
    ensures ErrorReference(ErrorsOf(items), items[i].endpoint) == Some(RESPONSES + name)
  {
    hide ErrorOf, ErrorsOf, ErrorNames.TypesOf, ErrorNames.FirstUses;
    ErrorIsUsed(items, i);
    name := ErrorNames.ResponseName(ErrorsOf(items), ErrorOf(items[i].endpoint).value.typeName).value;
  }

  lemma ResponsesDiffer(uses: seq<ErrorType>, t: string, x: string, u: string, y: string)
    requires ErrorNames.Distinct(ErrorNames.ResponseNames(uses))
    requires ErrorNames.ResponseName(uses, t) == Some(x) && ErrorNames.ResponseName(uses, u) == Some(y)
    ensures x == y <==> t == u
  {
    var types, names := ErrorNames.FirstUses(uses), ErrorNames.ResponseNames(uses);
    hide ErrorNames.FirstUses, ErrorNames.ResponseNames, ErrorNames.NameIn;
    var i :| 0 <= i < |types| && types[i].typeName == t && names[i] == x;
    var j :| 0 <= j < |types| && types[j].typeName == u && names[j] == y;
  }

  lemma ResponseIs(uses: seq<ErrorType>, t: string, x: string)
    requires ErrorsDescribable(ErrorNames.FirstUses(uses)) && ErrorNames.Distinct(ErrorNames.ResponseNames(uses))
    requires ErrorNames.ResponseName(uses, t) == Some(x)
    ensures var responses :=
        ErrorNames.ByName(ErrorNames.ResponseNames(uses), ErrorSchemas(ErrorNames.FirstUses(uses)));
      x in responses && IsSchemaOf(responses[x], uses, t)
  {
    var types, names := ErrorNames.FirstUses(uses), ErrorNames.ResponseNames(uses);
    hide ErrorNames.FirstUses, ErrorNames.ResponseNames, ErrorNames.NameIn, ErrorNames.Distinct, ErrorNames.ByName,
      Converted;
    ErrorNames.ByNameHolds(names, ErrorSchemas(types));
    var i :| 0 <= i < |types| && types[i].typeName == t && names[i] == x;
    assert types[i] in uses;
    ConvertedRenders(types[i].schema);
  }

  // ---------------------------------------------------------- what schemas mean

  /**
    In a document that is written, the components are the definitions that the
    schemas brought along, converted under their names; and a schema that the
    document took accepts, with these components, what it accepts with those
    definitions -- on the fragment for which the conversion keeps meanings.
   */
  lemma DocumentedSchemasMean(items: seq<Item>, g: SchemaGenerator, r: OA.ReferenceOr, voc: JS.Vocabulary, fuel: nat,
                              v: JS.Value)
    requires DocumentOf(items).Some? && Renders(r, g)
    ensures var components, definitions := DocumentOf(items).value.schemas, AllDefinitions(Consulted(items));
      && components.Keys == definitions.Keys
      && (forall name :: name in components ==>
           SchemaUtil.J2oasSchema(None, definitions[name]) == Some(components[name]))
      && (SchemaMeaning.InFragment(g.schema) && SchemaMeaning.DefinitionsInFragment(definitions) ==>
           (OA.Valid(voc, components, fuel, r, v) <==> JS.Valid(voc, definitions, fuel, g.schema, v)))
  {
    var definitions := AllDefinitions(Consulted(items));
    ComponentsOf(items);
    hide *;
    ComponentsAre(definitions);
    if SchemaMeaning.InFragment(g.schema) && SchemaMeaning.DefinitionsInFragment(definitions) {
      ComponentsMean(definitions, g, r, voc, fuel, v);
    }
  }

  lemma ComponentsOf(items: seq<Item>)
    requires DocumentOf(items).Some?
    ensures ComponentsFor(AllDefinitions(Consulted(items))) == Some(DocumentOf(items).value.schemas)
  {
    hide ComponentsFor, AllDefinitions, Consulted, Table, RowsOf;
  }

  // ------------------------------------------------------- whatever the order

  /** The schemas that an endpoint brings along, that of its error type included. */
  function TakenFrom(e: Endpoint): seq<SchemaGenerator> {
    ConsultedBy(e) + if ErrorOf(e).Some? then [ErrorOf(e).value.schema] else []
  }

  ghost predicate Supplies(e: Endpoint, name: string, s: JS.Schema) {
    exists g :: g in TakenFrom(e) && Defines(g, name, s)
  }

  ghost predicate DefinitionsAgree(items: seq<Item>) {
    forall i, j, name, s, t ::
      && 0 <= i < |items| && 0 <= j < |items|
      && Supplies(items[i].endpoint, name, s) && Supplies(items[j].endpoint, name, t) ==>
        s == t
  }

  /** Error types of one name are the same, and so are definitions of one name. */
  ghost predicate NamesAgree(items: seq<Item>) {
    ErrorNames.ErrorsAgree(ErrorsOf(items)) && DefinitionsAgree(items)
  }

  /** Neither the error type of the endpoint nor a definition that it brings along has a part that is refused. */
  ghost predicate PartsConvertible(e: Endpoint) {
    && (ErrorOf(e).Some? ==> SchemaPanics.Convertible(ErrorOf(e).value.schema.schema))
    && forall name, s :: Supplies(e, name, s) ==> SchemaPanics.Convertible(s)
  }

  ghost predicate EachConverts(items: seq<Item>) {
    forall i :: 0 <= i < |items| ==> PartsConvertible(items[i].endpoint)
  }

  ghost predicate BasesClash(items: seq<Item>) {
    ErrorNames.NamesClash(ErrorNames.BasesOf(ErrorNames.FirstUses(ErrorsOf(items))))
  }

  lemma {:induction false} ErrorMembers(items: seq<Item>, u: ErrorType)
    ensures u in ErrorsOf(items) <==> exists i :: 0 <= i < |items| && ErrorOf(items[i].endpoint) == Some(u)
  {
    hide ErrorOf;
    if items != [] {
      var init, last := items[..|items| - 1], items[|items| - 1];
      ErrorMembers(init, u);
      assert items == init + [last];
    }
  }

  lemma {:induction false} ConsultedAreTaken(items: seq<Item>, g: SchemaGenerator) returns (i: nat)
    requires g in Consulted(items)
    ensures i < |items| && g in TakenFrom(items[i].endpoint)
  {
    hide ConsultedBy, ErrorOf, ErrorNames.TypesOf;
    var init, last := items[..|items| - 1], items[|items| - 1];
    if g in Consulted(init) {
      i := ConsultedAreTaken(init, g);
    } else {
      i := |init|;
      assert items[i] == last;
    }
  }

  lemma {:induction false} TakenAreConsulted(items: seq<Item>, i: nat, g: SchemaGenerator)
    requires ErrorNames.ErrorsAgree(ErrorsOf(items)) && i < |items| && g in TakenFrom(items[i].endpoint)
    ensures g in Consulted(items)
  {
    hide ConsultedBy, ErrorOf;
    var init, last := items[..|items| - 1], items[|items| - 1];
    assert items == init + [last];
    ErrorsOneMore(init, last);
    if i < |init| {
      TakenAreConsulted(init, i, g);
    } else if g !in ConsultedBy(last.endpoint) && NewError(ErrorsOf(init), last.endpoint) == [] {
      var u := ErrorOf(last.endpoint).value;
      var t :| t in ErrorsOf(init) && t.typeName == u.typeName;
      assert u in ErrorsOf(items) && t in ErrorsOf(items);
      ErrorMembers(init, t);
      var j :| 0 <= j < |init| && ErrorOf(init[j].endpoint) == Some(t);
      TakenAreConsulted(init, j, g);
    }
  }

  lemma BroughtIffSupplied(items: seq<Item>, name: string, s: JS.Schema)
    requires ErrorNames.ErrorsAgree(ErrorsOf(items))
    ensures Brings(Consulted(items), name, s) <==> exists i :: 0 <= i < |items| && Supplies(items[i].endpoint, name, s)
  {
    hide Consulted, TakenFrom, Defines, ErrorsOf, ErrorNames.ErrorsAgree;
    var consulted := Consulted(items);
    if Brings(consulted, name, s) {
      var k :| 0 <= k < |consulted| && Defines(consulted[k], name, s);
      var i := ConsultedAreTaken(items, consulted[k]);
      assert Supplies(items[i].endpoint, name, s);
    }
    if i :| 0 <= i < |items| && Supplies(items[i].endpoint, name, s) {
      var g :| g in TakenFrom(items[i].endpoint) && Defines(g, name, s);
      TakenAreConsulted(items, i, g);
      var k :| 0 <= k < |consulted| && consulted[k] == g;
    }
  }

  lemma DefinitionsConvertibleIff(items: seq<Item>)
    requires NamesAgree(items)
    ensures DefinitionsConvertible(Consulted(items)) <==>
      forall i, name, s :: 0 <= i < |items| && Supplies(items[i].endpoint, name, s) ==> SchemaPanics.Convertible(s)
  {
    hide Consulted, Supplies, Brings, AllDefinitions, ErrorsOf, ErrorNames.ErrorsAgree, SchemaPanics.Convertible;
    var all := AllDefinitions(Consulted(items));
    forall name | name in all
      ensures exists i :: 0 <= i < |items| && Supplies(items[i].endpoint, name, all[name])
    {
      BroughtAreDefined(Consulted(items), name);
      BroughtIffSupplied(items, name, all[name]);
    }
    forall i, name, s | 0 <= i < |items| && Supplies(items[i].endpoint, name, s) ensures name in all && all[name] == s {
      BroughtIffSupplied(items, name, s);
      BroughtAreDefined(Consulted(items), name);
      var j :| 0 <= j < |items| && Supplies(items[j].endpoint, name, all[name]);
    }
  }

  /** Where names agree, what the routes share fits if it does for each and no base names clash. */
  lemma SharedPartsFitIff(items: seq<Item>)
    requires NamesAgree(items)
    ensures SharedPartsFit(items) <==>
      EachConverts(items) && !BasesClash(items)
  {
    DefinitionsConvertibleIff(items);
    var types := ErrorNames.FirstUses(ErrorsOf(items));
    ErrorNames.FirstUsesAreUses(ErrorsOf(items));
    hide DefinitionsConvertible, Consulted, Supplies, ErrorsOf, ErrorOf, ErrorNames.FirstUses, ErrorNames.BasesOf,
      ErrorNames.NamesClash, SchemaPanics.Convertible;
    forall i | 0 <= i < |types|
      ensures exists k :: 0 <= k < |items| && ErrorOf(items[k].endpoint) == Some(types[i])
    {
      assert types[i] in types;
      ErrorMembers(items, types[i]);
    }
    forall k | 0 <= k < |items| && ErrorOf(items[k].endpoint).Some?
      ensures exists i :: 0 <= i < |types| && types[i] == ErrorOf(items[k].endpoint).value
    {
      ErrorMembers(items, ErrorOf(items[k].endpoint).value);
    }
  }

  /** Items in another order share the same parts. */
  lemma PartsInAnyOrder(items: seq<Item>, others: seq<Item>)
    requires NamesAgree(others) && forall x :: x in items <==> x in others
    ensures NamesAgree(items) && (BasesClash(items) <==> BasesClash(others))
    ensures EachConverts(items) <==> EachConverts(others)
  {
    hide ErrorsOf, ErrorOf, Supplies, PartsConvertible, ErrorNames.FirstUses, ErrorNames.BasesOf, ErrorNames.NamesClash;
    forall u ensures u in ErrorsOf(items) <==> u in ErrorsOf(others) {
      ErrorMembers(items, u);
      ErrorMembers(others, u);
      assert forall i :: 0 <= i < |items| ==> items[i] in others;
      assert forall i :: 0 <= i < |others| ==> others[i] in items;
    }
    assert forall i :: 0 <= i < |items| ==> items[i] in others;
    assert forall i :: 0 <= i < |others| ==> others[i] in items;
    ErrorNames.NamesClashIsOrderFree(ErrorsOf(others), ErrorsOf(items));
  }

  /**
    Where names agree among the routes of a version, the document is complete if and
    only if no two routes are of one operation, each has a slot and converts with all
    that it brings along, and no base names clash: the order of the routes is nothing.
   */
  lemma DocumentCompleteIffEachFits(router: Router.HttpRouter, v: Versions.Version)
    requires router.Valid() && NamesAgree(ItemsOf(RoutesToDocument(router.entries, v)))
    ensures router.Owned() && WellShaped(RouterIter.TrieOf(router))
    ensures DocumentComplete(router, v) <==>
      var routes := RoutesToDocument(router.entries, v);
      && OneRouteEach(routes) && HaveSlots(routes) && HaveSchemas(routes)
      && (forall e :: e in routes ==> PartsConvertible(e.endpoint)) && !BasesClash(ItemsOf(routes))
  {
    ValidRouterHasTrie(router);
    var routes, items := RoutesToDocument(router.entries, v), Documented(router, v);
    hide *;
    DocumentCompleteIff(router, v);
    DocumentedAreTheRoutes(router, v);
    SamePartsAsRoutes(items, routes);
  }

  lemma SamePartsAsRoutes(items: seq<Item>, routes: seq<Entry>)
    requires multiset(items) == multiset(ItemsOf(routes)) && NamesAgree(ItemsOf(routes))
    ensures SharedPartsFit(items) <==>
      (forall e :: e in routes ==> PartsConvertible(e.endpoint)) && !BasesClash(ItemsOf(routes))
  {
    hide *;
    SameMembers(items, ItemsOf(routes));
    PartsInAnyOrder(items, ItemsOf(routes));
    SharedPartsFitIff(items);
    EachRouteConverts(routes);
  }

  lemma SameMembers<T>(xs: seq<T>, ys: seq<T>)
    requires multiset(xs) == multiset(ys)
    ensures forall x :: x in xs <==> x in ys
  {
    forall x ensures x in xs <==> x in ys { assert x in multiset(xs) <==> x in multiset(ys); }
  }

  lemma EachRouteConverts(routes: seq<Entry>)
    ensures EachConverts(ItemsOf(routes)) <==> forall e :: e in routes ==> PartsConvertible(e.endpoint)
  {
    hide PartsConvertible, RoutePath.ListedPath;
    var items := ItemsOf(routes);
    assert forall i :: 0 <= i < |items| ==> items[i].endpoint == routes[i].endpoint && routes[i] in routes;
    forall e | e in routes ensures EachConverts(items) ==> PartsConvertible(e.endpoint) {
      var i :| 0 <= i < |routes| && routes[i] == e;
      assert items[i].endpoint == e.endpoint;
    }
  }

  /**
    Three routes of one version, with error types that generators name Error, Error
    and Error2, stop the generator, although each converts and none is ambiguous.
   */
  lemma ClashingErrorsStopGenerator(router: Router.HttpRouter, v: Versions.Version, a: Entry, b: Entry, c: Entry)
    requires router.Valid() && NamesAgree(ItemsOf(RoutesToDocument(router.entries, v)))
    requires var routes := RoutesToDocument(router.entries, v); a in routes && b in routes && c in routes
    requires HasErrorNamed(a.endpoint, "Error") && HasErrorNamed(b.endpoint, "Error")
    requires HasErrorNamed(c.endpoint, "Error2")
    requires ErrorOf(a.endpoint).value.typeName != ErrorOf(b.endpoint).value.typeName
    ensures router.Owned() && WellShaped(RouterIter.TrieOf(router))
    ensures Generated(router, v).None?
  {
    ValidRouterHasTrie(router);
    var routes, items := RoutesToDocument(router.entries, v), Documented(router, v);
    hide *;
    DocumentedAreTheRoutes(router, v);
    SamePartsAsRoutes(items, routes);
    var i := RouteIsItem(ItemsOf(routes), routes, a);
    var j := RouteIsItem(ItemsOf(routes), routes, b);
    var k := RouteIsItem(ItemsOf(routes), routes, c);
    ItemsKeepEndpoints();
    ThreeErrorsClash(ItemsOf(routes), i, j, k);
    DocumentOfIff(items);
    DocumentedIsVisibleListing(router, v);
  }

  lemma ItemsKeepEndpoints()
    ensures forall e {:trigger ItemOf(e)} :: ItemOf(e).endpoint == e.endpoint
  {
  }

  lemma ThreeErrorsClash(items: seq<Item>, i: nat, j: nat, k: nat)
    requires NamesAgree(items) && i < |items| && j < |items| && k < |items|
    requires HasErrorNamed(items[i].endpoint, "Error") && HasErrorNamed(items[j].endpoint, "Error")
    requires HasErrorNamed(items[k].endpoint, "Error2")
    requires ErrorOf(items[i].endpoint).value.typeName != ErrorOf(items[j].endpoint).value.typeName
    ensures BasesClash(items)
  {
    var types := ErrorNames.FirstUses(ErrorsOf(items));
    var t, u, w := ErrorOf(items[i].endpoint).value, ErrorOf(items[j].endpoint).value, ErrorOf(items[k].endpoint).value;
    ErrorNames.FirstUsesAreUses(ErrorsOf(items));
    ErrorMembers(items, t);
    ErrorMembers(items, u);
    ErrorMembers(items, w);
    hide ErrorsOf, ErrorNames.FirstUses;
    ErrorNames.CountIsSharing(types, "Error");
    assert {t, u} <= ErrorNames.Sharing(types, "Error");
    AtLeastTwo(ErrorNames.Sharing(types, "Error"), t, u);
    var l :| 0 <= l < |types| && types[l] == t;
    var m :| 0 <= m < |types| && types[m] == w;
    ErrorTwo();
    var bases := ErrorNames.BasesOf(types);
    assert bases[l] == "Error" && bases[m] == "Error2";
    assert ErrorNames.Clash(bases, bases[m], bases[l]) by { hide ErrorNames.Decimal; }
  }

  lemma ErrorTwo()
    ensures "Error2" == "Error" + ErrorNames.Decimal(2)
  {
    assert ErrorNames.Decimal(2) == "2";
  }

  lemma AtLeastTwo<T>(s: set<T>, t: T, u: T)
    requires t in s && u in s && t != u
    ensures |s| >= 2
  {
    assert u in s - {t} && |s - {t}| == |s| - 1;
  }

  predicate HasErrorNamed(e: Endpoint, name: string) {
    ErrorOf(e).Some? && ErrorOf(e).value.schema.Gen? && ErrorOf(e).value.schema.name == name
  }
}
