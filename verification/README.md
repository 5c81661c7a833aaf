# Verified model of Dropshot's core

Dropshot is an HTTP server framework that routes requests, documents the routes
as OpenAPI, pages through collections, and shuts down gracefully.  These Dafny
modules model that logic and prove what it is for.

* **Routing** (`Versions`, `RoutePath`, `RouteTable`, `RouteScan`, `Router`).
  The router is a trie that registration extends in place.  Its meaning is a flat
  list of registered routes: `LookupRoute` is proved to answer what a scan of
  that list answers, and `Insert`, while no registration has failed, to accept
  exactly the routes that are valid on their own and compatible with each one
  before.  Everything else about routing -- order of registration, errors,
  variables -- is then a theorem about the list.
* **Listing and documentation** (`RouteListing`, `RouterIter`, `Operations`,
  `OpenApi`, `ErrorNames`, `SharedParts`).  The iterator with its explicit stack
  yields the recursive preorder listing of the trie.  The generator walks it and
  writes operations, components and error responses, or panics; it writes a
  complete document for every version exactly when no two visible routes are
  ambiguous, each has a method that OpenAPI knows and schemas without a part that
  the conversion refuses, and in each version the error types have names that do
  not clash.
* **Registration** (`ApiDescription`, `TypeUtil`, `JsonSchema`).  Tags are checked
  against the policy, parameters against the path, and their schemas for being
  scalar; a whole description builds without errors exactly when each endpoint
  suits and every two routes are compatible.
* **Schemas** (`JsonSchema`, `OpenApiSchema`, `SchemaUtil`, `SchemaPanics`,
  `SchemaMeaning`, `SchemaAnnotations`).  JSON Schema and OpenAPI schemas are given a
  meaning -- which values they accept.  The conversion from one to the other is proved
  to keep it, to keep the annotations of every schema at their place, and to panic
  exactly when it comes to a refused keyword.
* **Pagination** (`Base64`, `Pagination`, `KeysetScan`, `PagedRun`, `ProjectScan`,
  `BasicScan`).  Page tokens, and whole client scans over a collection that changes
  between requests, in general and for the handlers of two examples.
* **Server** (`Server`, `ServerHistory`).  Close signal, accept loop, connections,
  both task modes, reference counts and the join future as a protocol of steps, with
  theorems over all reachable states; and the same protocol told by what has happened
  alone, with the theorem that both have the same runs.
* **Error store** (`ErrorStore`).  The tree of error sinks of the procedural macros.

`Ordering` and `Wrappers` hold the order of strings, sorted sequences and
`Option`/`Result`.

Conventions: a panic is a failed result.  A version is a non-negative real
number: versions are a countable total order with a least element, which embeds
there, and only the order is used.  Methods are upper-cased as ASCII.
Percent-decoding, the JSON form of a page selector, string formats and regular
expressions are parameters, so every statement holds whatever they do.  Mutable
objects of the program (`HttpRouter` and its nodes, its iterator, `ApiDescription`,
`ErrorStoreData`) are classes; their long loops are cut into one method per turn.
The server's tasks interleave, so it is a state with steps that any of them may take.

Where the code does not do what it or its documentation says, the model follows
the code, and a theorem says exactly when the two agree:

* `overlaps_with` calls "from e on" and the single version "from e until e"
  disjoint, although both match e (`OverlapExactIff`).  With such a blind pair the
  order of registration decides which endpoint answers (`BlindPairMakesOrderMatter`),
  unless a wildcard goes on from the pair's path: routes answer requests with a
  version alike in every order if and only if each blind pair is shadowed so
  (`OrderFreeIff`).
* The OpenAPI document loses an operation to a visible blind pair.  It is not made at
  all for a visible route whose method has no slot in OpenAPI, such as `CONNECT`
  (`UnknownMethodStopsGenerator`); for one with a schema -- of a body, a response, an
  error type, a definition -- that does not convert, such as a tuple
  (`TupleResponseStopsGenerator`); or for error types with clashing names
  (`ClashingErrorsStopGenerator`).  All of these register.  A document is made and
  complete for every version if and only if none of this is so (`DocumentAgreesIff`).
* The null type is converted to a string type that accepts nothing
  (`NullTypeAcceptsNothing`), and keywords that do not belong to the type are dropped
  (`OthersAreDropped`).
* A wildcard below a route takes away all requests of that route
  (`WildcardTakesParentsRequests`), and an earlier route may take the version of a
  blind pair.  A route answers all requests that it matches with a version of its
  range, if and only if the range is empty, or no wildcard goes on from the route and
  no earlier route of its operation makes a blind pair with it
  (`AnswersItsRequestsIff`).
* On 405 the `Allow` list may name a method that has no route of the requested
  version (`AllowListMayBeLarger`).  All lists are right if and only if, on every path
  from which no wildcard goes on, each version that a route is for has a route of
  every method of the path (`AllowListsExactIff`).
* A detached handler's result can be neither delivered nor logged: when the client
  disconnects after the result was sent and before it was received
  (`ResultOutcome`, `ResultMayBeLost`).
* A handler panic leaves the record that is worded "client disconnected"
  (`PanicIsRecordedAsCancelled`).  That record means a disconnect if and only if no
  panic has come through for the request (`CancelledIff`).
* A scan is promised to return every object that existed before and after it and was
  not renamed; one that is away while the scan passes its place is missed
  (`ItemMayBeMissed`, `ProjectMayBeMissed`).  A finished scan returns an object with a
  given selector -- a name, say -- if and only if one was there at the request whose
  page passes its place, however it changes otherwise (`RunReturnsIff`).
* A router that a failed registration has left nodes in may refuse an acceptable
  route (`LeftOverNodeRefuses`); it accepts one if and only if the path also agrees
  with all nodes present (`Insert`).

## Model

| member | source | states |
|---|---|---|
| Versions.MakeFromUntil | dropshot/src/api_description.rs:1262-1277 | a from-until range is made exactly when its bounds are in order; it holds its first version and not its last, unless they are equal |
| Versions.RangesAreIntervals | dropshot/src/api_description.rs:1288-1307 | what ranges hold: from and until ranges with one bound share out the versions, a from-until range is what its halves share or its one version |
| Versions.OverlapExactIff | dropshot/src/api_description.rs:1313-1384 | the overlap test says "overlap" exactly when the ranges share a version, if and only if the pair is no blind pair and no empty range against all versions or an until range |
| Versions.NonOverlappingAreDisjoint | dropshot/src/api_description.rs:1309-1384 | ranges that pass as disjoint share no version, except the single version of a blind pair |
| Versions.OverlapIsSymmetric | dropshot/src/api_description.rs:1313-1384 | the overlap test is symmetric |
| Versions.BlindPairExample | dropshot/src/api_description.rs:1343-1356 | from 1 on and from 1 until 1 pass as disjoint, and both match 1 |
| RoutePath.RoutePathToSegments | dropshot/src/router.rs:809-827 | the checking loop and the pop give the segments of a route path, or fail where it must not be empty or must begin with a slash |
| RoutePath.JoinSplit | dropshot/src/router.rs:813 | splitting at a separator and joining again gives the text back |
| RoutePath.PrintThenParse | dropshot/src/router.rs:125-167 | parsing the printed form of a well-formed pattern gives the pattern back |
| RoutePath.ParseThenPrint | dropshot/src/router.rs:809-827 | printing a parsed path gives the path back, up to one trailing slash |
| RoutePath.ParsesAsIff | dropshot/src/router.rs:125-167 | a path parses as a pattern if and only if the pattern is well-formed and the path is its printed form, with or without a trailing slash unless it is the root |
| RoutePath.ListedPathDeterminesErasure | dropshot/src/router.rs:655-693 | two patterns that the iterator prints alike differ at most in wildcards against variables |
| RoutePath.ListedPathShows | dropshot/src/router.rs:655-693 | the iterator prints literals as they are and the name of every variable in braces |
| RoutePath.RequestPathIsRead | dropshot/src/router.rs:791-800 | a request path written from raw segments is read as just these, decoded, unless one is a dot-segment as it stands or cannot be decoded |
| RoutePath.SlashesCollapse | dropshot/src/router.rs:738-741 | consecutive slashes in a request count as one |
| RoutePath.LastSlashIsIgnored | dropshot/src/router.rs:738-741 | a slash at the end of a request makes no difference |
| RouteTable.UpperIff | dropshot/src/router.rs:506 | methods are told apart exactly by more than the case of letters |
| Ordering.BeforeIff | dropshot/src/router.rs:98 | names are in the order of the first character that differs, or of a prefix before what goes on from it |
| RouteTable.RegistrationIsPairwise | dropshot/src/router.rs:238-415 | registering routes one after the other succeeds if and only if each is valid alone and every two are compatible |
| RouteTable.RegistrationIsOrderFree | dropshot/src/router.rs:238-415 | whether a multiset of routes can be registered does not depend on the order |
| RouteTable.MatchThenInstantiate | dropshot/src/router.rs:454-503 | the variables bound on a match are the pattern's own, each of its kind, and written into the pattern give the request's segments |
| RouteTable.InstantiateThenMatch | dropshot/src/router.rs:454-503 | a filled-in pattern matches and binds the values it was filled with |
| Router.HttpRouter.constructor | dropshot/src/router.rs:228-233 | a new router has no routes |
| Router.HttpRouter.Insert | dropshot/src/router.rs:238-415 | a route is accepted if and only if it is valid, compatible with each one before, and its path agrees with every node present, left-overs of failed registrations included; without left-overs the last condition follows; the route is then the last of the list, and otherwise the list is as before; the nodes are the old ones and those walked through; the conflict reported is with the first route that overlaps, and is a duplicate exactly if the versions are equal |
| Router.LeftOverNodeRefuses | dropshot/src/router.rs:248-385 | a run on a new router: a registration fails on a repeated variable, and its left-over node refuses a route that is acceptable |
| Router.HttpRouter.FindOverlap | dropshot/src/router.rs:387-408 | the loop over existing handlers reports nothing exactly when no route of the operation overlaps, and else the first that does, as a duplicate exactly if its versions are equal |
| Router.HttpRouter.LookupRoute | dropshot/src/router.rs:438-562 | the walk down the trie answers what the scan of the registered routes answers: endpoint and variables, or the error with its list of methods; the assertions on its way hold |
| RouteScan.CandidateIff | dropshot/src/router.rs:493-503 | a registered route is a candidate for exactly the requests it matches, unless a wildcard goes on from it, and then for none |
| RouteScan.AnswersItsRequestsIff | dropshot/src/router.rs:438-520 | a route answers every request that it matches with a version of its range, if and only if the range is empty, or no wildcard goes on from the route and no earlier route of its operation makes a blind pair with it |
| RouteScan.WildcardTakesParentsRequests | dropshot/src/router.rs:493-503 | a route and the wildcard that goes on from it register together, and a request that the route matches is answered by the wildcard's endpoint, which binds nothing to the wildcard |
| RouteScan.CandidatesShareAPattern | dropshot/src/router.rs:69-109 | all candidates of a request are registered at one place of the trie |
| RouteScan.LookupReproducesRequest | dropshot/src/router.rs:505-520 | a successful lookup comes from a registered route of that method and version, and its variables written into the route give back the request |
| RouteScan.UnambiguousIffNoBlindPairs | dropshot/src/api_description.rs:1309-1312 | at most one route answers per operation and version, if and only if no blind pair is registered |
| RouteScan.LookupIsOrderFree | dropshot/src/router.rs:575-584 | every request with a version is answered alike whatever the order of registration, if each blind pair has a wildcard going on from it |
| RouteScan.OrderFreeIff | dropshot/src/api_description.rs:1343-1356 | all orders of registration answer all requests with a version alike, if and only if each blind pair has a wildcard going on from it |
| RouteScan.BlindPairMakesOrderMatter | dropshot/src/api_description.rs:1343-1356 | two routes that register in both orders, and answer one request differently |
| RouteScan.UnversionedOperationsAreUnique | dropshot/src/versioning.rs:45-50 | when no route is constrained by version, an operation has one route |
| RouteScan.UnversionedAnsweredByFirst | dropshot/src/api_description.rs:1288-1292 | a request without a version, for a path from which no wildcard goes on, is answered by the first route registered for the path and the method, whatever its range |
| RouteScan.UnversionedAnswersItsRequests | dropshot/src/router.rs:505-520 | when no route is constrained by version, every route from which no wildcard goes on answers all requests without a version that it matches |
| RouteScan.UnversionedLookupIsOrderFree | dropshot/src/versioning.rs:45-50 | then a lookup without a version is answered alike whatever the order of registration |
| RouteScan.MethodNotAllowedIff | dropshot/src/router.rs:522-549 | 405 is answered exactly when the method fails and some other would succeed |
| RouteScan.NotFoundIff | dropshot/src/router.rs:550-561 | 404 is answered exactly when no method would succeed |
| RouteScan.AllowListCoversSuccesses | dropshot/src/router.rs:534-548 | the Allow list has every method that would succeed, and without a version no other |
| RouteScan.AllowListExactIff | dropshot/src/router.rs:534-548 | the Allow list of a 405 is exactly the methods that would succeed, if and only if each method with a candidate has one that serves the version |
| RouteScan.AllowListsExactIff | dropshot/src/router.rs:534-548 | the Allow lists of all 405 answers to requests with a version are exact, if and only if on each path from which no wildcard goes on, each version that some route is for has a route of every method |
| RouteScan.AllowListMayBeLarger | dropshot/src/router.rs:545-548 | an example: with a version the Allow list names a method whose only route lacks that version |
| RouteListing.PreorderHoldsBelow | dropshot/src/router.rs:604-611 | the preorder from a node holds exactly the nodes below it |
| RouteListing.PreorderIsOrdered | dropshot/src/router.rs:604-611 | the preorder lists a node before those below it and siblings in order, and so no node twice |
| RouteListing.ListingHoldsEachRouteOnce | dropshot/src/router.rs:621-634 | the listing for a version is, as a multiset, the registered routes that match it, each under its own path |
| RouterIter.HttpRouterIter.constructor | dropshot/src/router.rs:637-649 | a new iterator has the whole listing ahead |
| RouterIter.HttpRouterIter.Next | dropshot/src/router.rs:699-735 | each call yields the first of what is left of the listing, with nothing once it is used up; the loop ends, and its assertion holds |
| RouterIter.PathTextIsListed | dropshot/src/router.rs:680-693 | the text made from the stack is the listed path of the node on top |
| OpenApi.GenOpenApi | dropshot/src/api_description.rs:746-1146 | writing the document over the routes of a version: the operation loop with its error responses and definitions, then components and responses; it gives up where the program panics |
| OpenApi.ListedPathsTellRoutesApart | dropshot/src/router.rs:669-693 | two compatible routes with the same printed path have the same pattern |
| OpenApi.DistinctKeysKeepOperations | dropshot/src/api_description.rs:1116-1117 | if no two routes share path and method, no operation is replaced |
| OpenApi.DocumentedAreTheRoutes | dropshot/src/api_description.rs:746-749 | what is documented for a version are, as a multiset, the visible routes that match it |
| OpenApi.DocumentCompleteIff | dropshot/src/api_description.rs:746-1144 | a document is made for a version that has, for every visible route of it and no other, an operation that says all that is due (as in OperationDescribes), if and only if no two of them are of one operation, each has a method with a slot and schemas without a refused part, and so have the error types and definitions that they share, with error names that do not clash |
| OpenApi.DocumentAgreesIff | dropshot/src/api_description.rs:746-1144 | that is so for all versions if and only if the visible routes have no blind pair, each that has a version has a method with a slot and schemas without a refused part, and in each version what they share fits |
| OpenApi.DocumentOfIff | dropshot/src/api_description.rs:746-1144 | the generator reaches no panic if and only if every method has a slot, no schema, error type or definition that is taken has a refused part, and no base names of error types clash |
| OpenApi.UnknownMethodStopsGenerator | dropshot/src/api_description.rs:759-769 | a visible route of a version with a method other than the eight of OpenAPI, such as CONNECT, makes the generator give up on it |
| OpenApi.MethodsHaveSlots | dropshot/src/api_description.rs:759-768 | the methods with a slot are GET, PUT, POST, DELETE, OPTIONS, HEAD, PATCH and TRACE |
| OpenApi.TupleResponseStopsGenerator | dropshot/src/api_description.rs:903-921 | a visible route whose response is a tuple makes the generator give up on its versions |
| SharedParts.ErrorReferencesResolve | dropshot/src/api_description.rs:1024-1114 | in a document that is made, each error reference is that of a response with the schema of its error type, and two operations share a response exactly when they have the same error type |
| SharedParts.DocumentedSchemasMean | dropshot/src/api_description.rs:1124-1136 | the components of a document are the definitions brought along, converted under their names; and each schema that the document takes accepts with them what it accepts with the definitions, on the fragment |
| SharedParts.DocumentCompleteIffEachFits | dropshot/src/api_description.rs:746-1144 | where error types and definitions of one name are the same, whether a document is complete depends on the registered routes alone, each on its own and by their base names, and not on their order |
| SharedParts.ClashingErrorsStopGenerator | dropshot/src/api_description.rs:1070-1144 | three visible routes with error types named Error, Error and Error2 make the generator give up |
| Operations.OperationForIff | dropshot/src/api_description.rs:777-1012 | the operation of an endpoint can be written if and only if its parameters and headers come with schemas, and these, its first body, and its response unless that is empty, have no refused part |
| Operations.OperationDescribes | dropshot/src/api_description.rs:771-1012 | an operation has the identifier, tags and success code of its endpoint; its parameters that are no bodies, in order, each with its name, place and converted schema; the first body under its media type; the response as JSON, as nothing, or as anything; and the last header of each name |
| Operations.IsEmptyIff | dropshot/src/api_description.rs:1416-1472 | a schema counts as no content if and only if it is false or negates a schema of anything |
| Operations.BroughtAreDefined | dropshot/src/api_description.rs:1124-1136 | the components hold a definition by each name that a schema brings along, one of those brought by that name, and no other |
| Operations.ConsultedInTurn | dropshot/src/api_description.rs:777-940 | the schemas whose definitions an endpoint brings along, in turn: those of its parameters that are no bodies, its first body, its response, and that response's headers |
| Operations.DefinitionChosen | dropshot/src/api_description.rs:1124-1136 | of several definitions of a name the first that the generator made counts, or else the last one given |
| ErrorNames.ResponseFor | dropshot/src/api_description.rs:1024-1114 | one turn of naming error responses: a type seen before keeps its response, a new one gets the base name and the number of types of that base so far; each type is named once; a schema that does not convert gives up |
| ErrorNames.BaseNameIs | dropshot/src/api_description.rs:1034-1060 | the base name of an error type is its generator's, or else what stands last in the path of the type |
| ErrorNames.AddResponses | dropshot/src/api_description.rs:1138-1144 | the final loop succeeds exactly on distinct names, and then each name leads to its own response |
| ErrorNames.NamesUniqueIff | dropshot/src/api_description.rs:1070-1080 | the names are distinct if and only if neither: a used base name is another one continued by a number from 2 up to the uses of that other; or a base name used at least twice is another one continued by 1, and that other is used at least twelve times |
| ErrorNames.NamesClashIsOrderFree | dropshot/src/api_description.rs:1070-1080 | where type names determine error types, whether names clash does not depend on the order of the endpoints |
| ErrorNames.NamesUniqueWithoutDigits | dropshot/src/api_description.rs:1140-1144 | if no base name ends in a digit, the uniqueness assertion holds |
| ErrorNames.NamesClashExample | dropshot/src/api_description.rs:1070-1080 | Error, Error and Error2 clash |
| ApiDescription.ApiDescription.ValidatePathParameters | dropshot/src/api_description.rs:507-562 | the two gathering loops and the comparison: passes exactly when the set of declared path parameters is the set of variables of the path, and else reports the variables not declared and the parameters not in the path |
| ApiDescription.ApiDescription.ValidateNamedParameters | dropshot/src/api_description.rs:566-651 | passes exactly when every parameter passes its check, and else reports the first complaint |
| ApiDescription.ApiDescription.ValidateTags | dropshot/src/api_description.rs:478-503 | passes exactly when a hidden endpoint, or one with as many tags as the policy asks and none unknown where only known ones are allowed; else reports the count, or the first unknown tag |
| ApiDescription.ApiDescription.Register | dropshot/src/api_description.rs:445-475 | an endpoint is registered if and only if its tags meet the policy, its parameters suit its path, its route is valid and compatible with those before, and its path agrees with the nodes present; on a description without failed registrations the last follows, and with plain types that means: each path parameter a single variable and each variable declared, no query parameter named like one, and all of them booleans, numbers, strings or integers; the error is that of the first check that fails; after a failure the routes are as before |
| ApiDescription.TypedEndpointIsRegistrableIff | dropshot/src/api_description.rs:566-651 | what is registered of endpoints with plain parameter types, without naming the checks |
| ApiDescription.CheckParameterIff | dropshot/src/api_description.rs:588-646 | a parameter of any schema passes exactly if it is a body or header, or a scalar at a variable, or a string array at a wildcard, or a scalar in the query with a name of its own |
| ApiDescription.RegisterAllIff | dropshot/src/api_description.rs:445-475 | registering endpoints one after the other succeeds if and only if each suits on its own and every two routes are compatible |
| ApiDescription.BuildDescription | dropshot_endpoint/src/api_trait.rs:769-778 | the run over all endpoints from a new description collects no error if and only if each endpoint suits on its own and every two routes are compatible, and the description then has just their routes in turn |
| ApiDescription.NoParameterIsMissing | dropshot/src/http_util.rs:56-63 | the variables of a successful lookup are exactly the path parameters its endpoint declares |
| ApiDescription.PathParametersAreAccountedFor | dropshot/src/api_description.rs:624-626 | after the first check, the second finds every declared path parameter in the path |
| ApiDescription.PathParametersAreScalar | dropshot/src/api_description.rs:605-615 | a non-null value valid for a registered single path parameter is a boolean, number or string |
| ApiDescription.QueryParametersAreScalar | dropshot/src/api_description.rs:628-643 | a registered query parameter is no variable of the path, and a non-null value valid for it is a boolean, number or string |
| TypeUtil.TypeResolve | dropshot/src/type_util.rs:223-258 | the loop with its set of visited references gives what following the chain gives |
| TypeUtil.ResolveFindsOut | dropshot/src/type_util.rs:223-258 | within as many steps as there are definitions it returns the end of the chain or the reference that leads nowhere; it reports a cycle if and only if the chain never ends |
| TypeUtil.ResolveOkIff | dropshot/src/type_util.rs:223-258 | a schema is returned if and only if it is the end of the chain |
| TypeUtil.ReferenceIsFollowed | dropshot/src/type_util.rs:223-258 | a bare reference leads to the definition of the name after its prefix, with whatever annotations, and nowhere if there is none |
| TypeUtil.ScalarCheckIsSound | dropshot/src/type_util.rs:54-167 | a non-null value valid against an accepted schema is of a type that passes, through references and subschemas |
| TypeUtil.ScalarParametersAreScalar | dropshot/src/type_util.rs:14-36 | for the scalar check that means a boolean, a number or a string |
| TypeUtil.TypedIsJudgedByType | dropshot/src/type_util.rs:14-52 | a schema that leads to a plain one of one type is accepted as scalar exactly if the type is boolean, number, string or integer, and as string exactly if it is string |
| TypeUtil.JudgedByEnd | dropshot/src/type_util.rs:54-167 | a schema is accepted exactly if its chain ends with a plain one of a type that passes, or with a wrapper of accepted ones; without an end it panics |
| TypeUtil.StringEnumIff | dropshot/src/type_util.rs:169-221 | a schema is accepted for a wildcard exactly if its chain ends with an array of accepted strings and nothing more |
| TypeUtil.StringEnumsAreStrings | dropshot/src/type_util.rs:169-221 | for the wildcard check it means an array whose non-null items are strings |
| TypeUtil.ReferencesAreTransparent | dropshot/src/type_util.rs:61-62 | a chain of references is judged as its end is |
| TypeUtil.WrappersAreTransparent | dropshot/src/type_util.rs:107-167 | a schema that only wraps one other, or lists alternatives, is accepted exactly when all that it wraps is |
| TypeUtil.VerdictIsFinal | dropshot/src/type_util.rs:54-167 | a verdict reached with some depth of recursion is the same with more |
| SchemaMeaning.Converts | dropshot/src/schema_util.rs:329-361 | on the fragment no panic of the conversion is reached |
| SchemaPanics.ConvertsIff | dropshot/src/schema_util.rs:329-966 | the conversion of any schema is without panic if and only if nothing that it comes to has a list of types, an enumerated value of another type, two bounds on one side, a tuple, no items where they are due, several kinds of subschemas, or a constant outside its enumeration |
| SchemaMeaning.ConversionKeepsMeaning | dropshot/src/schema_util.rs:329-966 | on the fragment a value is valid against a schema if and only if it is valid against the converted one, references unfolded equally deep on both sides |
| SchemaMeaning.ReferenceKeepsMeaning | dropshot/src/schema_util.rs:376-419 | a reference accepts the same values after conversion, also inside the wrapper made for a nullable one |
| SchemaMeaning.KindKeepsMeaning | dropshot/src/schema_util.rs:465-566 | so do the kinds of schema, case by case |
| SchemaMeaning.AnyKeepsMeaning | dropshot/src/schema_util.rs:568-672 | so do schemas with a type and subschemas |
| SchemaMeaning.SubschemasKeepMeaning | dropshot/src/schema_util.rs:674-697 | so do subschemas on their own |
| SchemaMeaning.FieldsKeepMeaning | dropshot/src/schema_util.rs:936-966 | so do the rules for objects |
| SchemaMeaning.ArrayKeepsMeaning | dropshot/src/schema_util.rs:902-921 | so do the rules for arrays |
| SchemaMeaning.StringMeans | dropshot/src/schema_util.rs:845-900 | so do string schemas |
| SchemaMeaning.NumberMeans | dropshot/src/schema_util.rs:773-843 | so do number schemas |
| SchemaMeaning.IntegerMeans | dropshot/src/schema_util.rs:699-771 | so do integer schemas |
| SchemaMeaning.AtLeastKeptIff | dropshot/src/schema_util.rs:717-735 | a minimum or exclusive maximum cut off to 64 bits admits the same integers if and only if it is in range and integral or negative |
| SchemaMeaning.AboveKeptIff | dropshot/src/schema_util.rs:717-735 | an exclusive minimum or maximum cut off to 64 bits admits the same integers if and only if it is in range and integral or positive |
| SchemaMeaning.NullTypeIsLost | dropshot/src/schema_util.rs:503-512 | outside the fragment: the converted null type rejects null |
| SchemaMeaning.NullTypeAcceptsNothing | dropshot/src/schema_util.rs:503-512 | the converted null type accepts no value at all, but null if it is nullable |
| SchemaMeaning.NullableAcceptsNull | dropshot/src/schema_util.rs:456-463 | every nullable schema accepts null once converted, references included |
| SchemaMeaning.OthersAreDropped | dropshot/src/schema_util.rs:465-566 | a schema is converted as if it had only the keywords read for its type |
| SchemaMeaning.ConstantIsLost | dropshot/src/schema_util.rs:550-556 | outside the fragment: a constant is dropped |
| SchemaMeaning.UntypedEnumerationIsLost | dropshot/src/schema_util.rs:561-563 | outside the fragment: an enumeration without a type is dropped |
| SchemaAnnotations.AnnotationsSurvive | dropshot/src/schema_util.rs:329-966 | in a converted schema, at every depth, each subschema that is kept carries its description, default, example, flags and x-... extensions at its place, with a given name as title, and each reference stands for itself, wrapped only to be nullable |
| Base64.EncodedLength | dropshot/src/pagination.rs:458 | n bytes become four characters per three bytes begun (section 5 of RFC 4648) |
| Base64.AlphabetRuns | dropshot/src/pagination.rs:458 | the symbols are those of the URL-safe alphabet, in its order (table 2 of RFC 4648) |
| Base64.GroupsOfSix | dropshot/src/pagination.rs:458 | bytes are written as groups of six bits, the first ones first, with padding |
| Base64.DecodeEncode | dropshot/src/pagination.rs:488-490 | decoding an encoding gives the bytes back |
| Base64.EncodeDecode | dropshot/src/pagination.rs:488-490 | only the encoding of some bytes decodes to them |
| Pagination.TokenRoundTrip | dropshot/src/pagination.rs:443-514 | every token handed out is redeemed for the selector it was made from |
| Pagination.RedeemedIff | dropshot/src/pagination.rs:480-514 | a token is redeemed for a selector exactly when it is within the bound and encodes a JSON form that reads as that selector |
| Pagination.QueryIsUnderstoodIff | dropshot/src/pagination.rs:335-372 | a query with a token is understood exactly if the token redeems, as a request to go on from its selector, and one without exactly if its parameters parse, as a request to begin |
| Pagination.TokenFitsIff | dropshot/src/pagination.rs:467-473 | a token is handed out exactly when its JSON form has at most 384 bytes |
| Pagination.NextPageResumesAfterLast | dropshot/src/pagination.rs:159-177 | a page is made exactly when it is empty or a token for its last item can be; it has a token exactly when it is not empty, and the token leads to the selector of that item |
| Pagination.PageLimit | dropshot/src/handler.rs:194-212 | the limit is the client's capped by the server's, or the default, and so never above the server's if the default is not |
| KeysetScan.ScanIsIncreasing | dropshot/src/pagination.rs:13-20 | a scan over a changing collection returns items in strictly increasing order |
| KeysetScan.PageIsUnique | dropshot/src/pagination.rs:13-20 | the collection, the last item seen and the limit determine the page |
| KeysetScan.ReturnedIffPresentWhenSettled | dropshot/src/pagination.rs:13-20 | when a page is the first not to end before an item, the scan returns the item if and only if it was present at that request, also if the scan goes on |
| KeysetScan.FinishedScanReturnsIff | dropshot/src/pagination.rs:17-20 | every finished scan has a request that settles a given item, and returns the item if and only if it was present then |
| KeysetScan.ItemMayBeMissed | dropshot/src/pagination.rs:17-20 | a finished scan that does not return an item present before and after it |
| KeysetScan.ReturnedItemsWerePresent | dropshot/src/pagination.rs:13-20 | every item returned was in the collection at one of the requests |
| KeysetScan.ScanOfUnchangingCollection | dropshot/src/pagination.rs:13-20 | over n unchanging items a scan takes at most n+1 requests, and returns just them once finished |
| PagedRun.RunKeepsItsScan | dropshot/src/pagination.rs:13-20 | for any endpoint that lists pages and hands out tokens for their last items, each request of a run is understood as the scan of the first, after the last item of the page before |
| PagedRun.RunIsIncreasing | dropshot/src/pagination.rs:13-20 | over any run of it, whatever changes in between, items come in order and none twice |
| PagedRun.RunReturnsIff | dropshot/src/pagination.rs:17-20 | a finished run has one request that settles a given selector, and returned an item with that selector if and only if it was there then, whatever it was like at other times |
| PagedRun.RunOverUnchangingItems | dropshot/src/pagination.rs:13-20 | while n items stay, a run takes at most n+1 requests, and returned just them once finished |
| ProjectScan.NewCollection | dropshot/examples/pagination-multiple-sorts.rs:351-378 | the insert loop builds the two indexes |
| ProjectScan.CollectionConsistentIff | dropshot/examples/pagination-multiple-sorts.rs:342-378 | the two indexes agree if and only if projects of one name have one modification time, and hold the last project of each name |
| ProjectScan.IterateWalks | dropshot/examples/pagination-multiple-sorts.rs:251-275 | the iterator of a request walks over exactly the projects after the last one seen, in the order of the scan |
| ProjectScan.ListedIsPage | dropshot/examples/pagination-multiple-sorts.rs:223-283 | the endpoint returns the first projects after the last one seen, up to the limit, with a token for what follows |
| ProjectScan.AnswersIff | dropshot/examples/pagination-multiple-sorts.rs:223-283 | for any projects, order, last project and limit there is the page asked for, and the endpoint answers with it exactly if it is empty or the selector of its last project has a JSON form of at most 384 bytes |
| ProjectScan.OrdersMean | dropshot/examples/pagination-multiple-sorts.rs:251-275 | projects come by time and then name, or by name, or the other way round |
| ProjectScan.RunKeepsItsOrder | dropshot/examples/pagination-multiple-sorts.rs:230-249 | in a run every token is understood as the order of the first request, after the last project of the page before |
| ProjectScan.RunIsSafe | dropshot/src/pagination.rs:17-20 | over a whole run with arbitrary changes and limits, projects come in order and none twice, and a run that ended has returned a project of every name (by modification time: of every time and name) that was filed throughout, however the projects changed otherwise |
| ProjectScan.RunReturnsIff | dropshot/src/pagination.rs:17-20 | a run that ended has a request that settles a given project, and returned a project of its name (by modification time: of its time and name) if and only if one was filed then, as it was then |
| ProjectScan.ProjectMayBeMissed | dropshot/src/pagination.rs:17-20 | in every order of scan, a run of three requests that ended without a project, or any with its selector, that was there before and after it |
| ProjectScan.RunOverUnchangingProjects | dropshot/examples/pagination-multiple-sorts.rs:223-283 | while the n projects stay, the run takes at most n+1 requests, and returns just them once ended |
| BasicScan.ListedIsPage | dropshot/examples/pagination-basic.rs:116-145 | the endpoint over one sorted map returns the first projects after the last name seen, up to the limit, with a token for what follows |
| BasicScan.AnswersIff | dropshot/examples/pagination-basic.rs:116-145 | for any filed projects, last name and limit there is the page asked for, and the endpoint answers with it exactly if it is empty or its last name has a JSON form of at most 384 bytes |
| BasicScan.RunResumes | dropshot/examples/pagination-basic.rs:125-138 | in a run every token is understood as the name of the last project of the page before, and the page goes on from there |
| BasicScan.RunIsSafe | dropshot/src/pagination.rs:13-20 | over a whole run with arbitrary changes and limits, projects come in order of names, and a run that ended returned a project of a given name if and only if the name was filed at the request that settled it, and then the project filed there |
| BasicScan.RunOverUnchangingProjects | dropshot/examples/pagination-basic.rs:116-145 | while the n projects stay, the run takes at most n+1 requests, and returns just them once ended |
| Server.StepKeepsCounts | dropshot/src/server.rs:251-374 | every step keeps the reference count equal to the number of holders, and the workers equal to the detached handlers plus one while the state is held |
| Server.StepKeeps | dropshot/src/server.rs:251-374 | every step keeps the whole invariant of server, requests and channels |
| Server.ReachableKept | dropshot/src/server.rs:251-374 | so every reachable state has it |
| Server.ResolvedOkMeansOver | dropshot/src/server.rs:341-348 | when the join future has resolved well, accept loop and connections are finished, all requests are over, no handler runs, and no step is possible |
| Server.SignalSentOnce | dropshot/src/server.rs:691-724 | the close signal is sent at most once, and closing can fail only if the accept loop has failed |
| Server.StateMustBeDropped | dropshot/src/server.rs:698-704 | when all else is over, dropping its own state is the one step that close() can and must take |
| ServerHistory.RunsAreHistories | dropshot/src/server.rs:251-374 | the runs of the protocol are exactly the sequences of steps each of which may follow those before it, told by what has happened alone |
| ServerHistory.NoConnectionsAfterSignal | dropshot/src/server.rs:306-330 | once the close signal has been received, or the accept task has failed, no connection is accepted, and those there are only become fewer |
| Server.NeverStuck | dropshot/src/server.rs:341-348 | once let go, the server has a step to take until the join future resolves, and after connections and handlers have ended it is the server's own |
| Server.WindingDownIsBounded | dropshot/src/server.rs:300-348 | without new connections and requests only a bounded number of steps is left |
| Server.ShutdownCompletes | dropshot/src/server.rs:691-707 | from any state in which the server has been let go, it can run on to a resolved join future, well unless the accept loop failed, by its own steps once connections and handlers have ended |
| Server.OneRecordPerRequest | dropshot/src/server.rs:809-898 | every request leaves exactly one record, completed or cancelled, and not before it has ended |
| Server.CancelledIff | dropshot/src/server.rs:809-844 | in every reachable state the record of a request is the cancelled one if and only if the client disconnected or a panic came through, directly or from the receive; so it means a disconnect if and only if no panic came through |
| ServerHistory.RecordsTellEnds | dropshot/src/server.rs:846-995 | a request has the record of its completion exactly if it was rejected, returned in place, or its result was received; and that of a panicked handler exactly if the receive failed |
| Server.PanicIsRecordedAsCancelled | dropshot/src/server.rs:809-844 | a run without any disconnect, in which a handler panics and the record of the request is the cancelled one |
| Server.ResultOutcome | dropshot/src/server.rs:944-998 | a result that was sent is still awaited, or delivered, or recorded late, or lost, never two of these; late exactly when the client disconnected before it was sent, lost exactly when between sending and receiving |
| Server.ResultMayBeLost | dropshot/src/server.rs:954-970 | a run in which a result is neither delivered nor recorded |
| Server.ReceiveFailsOnlyAfterPanic | dropshot/src/server.rs:978-995 | the receive fails only after the handler has panicked without a result |
| ErrorStore.ErrorStoreData.RegisterSink | dropshot_endpoint/src/error_store.rs:144-149 | a new sink has the next number, no errors, and changes nothing else |
| ErrorStore.ErrorStoreData.Push | dropshot_endpoint/src/error_store.rs:132-142 | the error goes to the end of the list, and exactly the sink and those above it are marked; the loop ends as a parent has a smaller number |
| ErrorStore.ErrorStoreData.HasErrors | dropshot_endpoint/src/error_store.rs:105-110 | true exactly when an error was pushed to the sink or below it |
| ErrorStore.MarkedTells | dropshot_endpoint/src/error_store.rs:132-142 | marking keeps this true of every sink |
| ErrorStore.RegisteredTells | dropshot_endpoint/src/error_store.rs:144-149 | so does a new sink |
| ErrorStore.AncestorsAreNested | dropshot_endpoint/src/error_store.rs:136-141 | of two sinks above a third, one is above the other |

## Left out

- ProjectScan.RunIsSafe: asks for a name filed throughout, not just before and after, because that is not enough for the code (`ProjectMayBeMissed`); `RunReturnsIff` is exact.
- SchemaMeaning.ConversionKeepsMeaning: claimed on the fragment `InFragment`; beyond it the conversion panics, or drops or changes keywords, and what it reads (`OthersAreDropped`), examples, and two exact conditions for integer bounds are given.
- SchemaMeaning.IntegerMeans: numbers are real numbers, so the rounding of floats, and that an integer written with a decimal point makes the conversion of an enumeration panic, are not modelled.
- TypeUtil.ScalarCheckIsSound: the recursion of the check has a depth, as it does not end in the program on schemas that contain themselves; running out of it counts as a panic.
- OpenApi.GenOpenApi: an operation has its identifier, tags, parameters, body, response, headers and error reference; summaries, descriptions, extensions, and the list of tags of the document are left out.
- OpenApi.GenOpenApi: what a schema generator makes for a type is given with the type: its name, its schema, and the definitions that it keeps, in their final form; how the generator renames two types of one name is not part of this model.
- A `nullable` schema is taken to accept null besides what it otherwise accepts, which is what the generator and the conversion mean by it; a strict reading of section 4.7.24 of OpenAPI 3.0.3 ties the keyword to a type in the same schema.
- The functions that build a schema record field by field are modelled as functions that build the record, since nothing else sees it meanwhile.
- Server: its objects are one value that steps change, not classes, because no single body runs from start to end; response headers set in place are not modelled.
- Server: sockets, TLS, retries of accept, HTTP/1 and HTTP/2 connection handling, upgrades, timeouts, response bodies and compression; one-shot channels, wait groups and the connection watcher are taken at their usual contracts.
- Server: the join future counts as polled; a dropped server on which no one else waits has nobody who does that, and then its task is not joined though it still ends.
- Server: handlers that keep the shared state beyond their own end, and a runtime that drops tasks other than the accept loop.
- Version policies: how a request's version is found; a lookup takes it as given.
- Error texts, and the conversion of variables into handler arguments.
- The example data of the project lists: the indexes are built from any list, and the single map of the simpler example is any map filed by name.
- The width of page limits and lengths.
- Extractors, response types, error types, websockets, configuration, and the code generation of the procedural macros: thin wrappers or token plumbing that would add only easy members.
