/** Checks on the schemas of parameters: following references, and scalar types. */
module TypeUtil {
  import opened Wrappers
  import JS = JsonSchema

  type Schema = JS.Schema
  type Definitions = JS.Definitions

  datatype ResolveError = CycleDetected | InvalidReference(reference: string)

  /** A schema that is nothing but a reference, apart from annotations. */
  predicate IsReference(s: Schema) {
    && s.Schema? && s.obj.reference.Some?
    && s.obj.instanceType.AnyType? && s.obj.format.None? && s.obj.enumValues.None? && s.obj.constValue.None?
    && s.obj.subschemas.None? && s.obj.numberRules.None? && s.obj.textRules.None?
    && s.obj.arrayRules.None? && s.obj.objectRules.None?
  }

  function ReferenceOf(s: Schema): string
    requires IsReference(s)
  {
    s.obj.reference.value
  }

  /** What a reference leads to; it must be well-formed and present. */
  function Target(deps: Definitions, reference: string): Option<Schema> {
    match JS.NameOf(reference)
    case None => None
    case Some(name) => if name in deps then Some(deps[name]) else None
  }

  function Unvisited(deps: Definitions, visited: set<string>): set<string> {
    set name | name in deps && JS.PREFIX + name !in visited
  }

  lemma VisitingLeavesLess(deps: Definitions, visited: set<string>, reference: string)
    requires reference !in visited && Target(deps, reference).Some?
    ensures Unvisited(deps, visited + {reference}) < Unvisited(deps, visited)
  {
    var name := JS.NameOf(reference).value;
    assert JS.PREFIX + name == reference;
    assert name in Unvisited(deps, visited) && name !in Unvisited(deps, visited + {reference});
  }

  /** The schema at the end of a chain of references, none of which is met twice. */
  function Resolve(deps: Definitions, s: Schema, visited: set<string>): Result<Schema, ResolveError>
    decreases Unvisited(deps, visited)
  {
    if !IsReference(s) then Ok(s)
    else
      var reference := ReferenceOf(s);
      if reference in visited then Err(CycleDetected)
      else match Target(deps, reference)
        case None => Err(InvalidReference(reference))
        case Some(next) =>
          VisitingLeavesLess(deps, visited, reference);
          Resolve(deps, next, visited + {reference})
  }

  method TypeResolve(s: Schema, deps: Definitions) returns (r: Result<Schema, ResolveError>)
    ensures r == Resolve(deps, s, {})
  {
    var schema := s;
    var visited: set<string> := {};
    while IsReference(schema)
      invariant Resolve(deps, schema, visited) == Resolve(deps, s, {})
      decreases Unvisited(deps, visited)
    {
      var reference := ReferenceOf(schema);
      if reference in visited { return Err(CycleDetected); }
      var target := Target(deps, reference);
      if target.None? { return Err(InvalidReference(reference)); }
      VisitingLeavesLess(deps, visited, reference);
      visited := visited + {reference};
      schema := target.value;
    }
    return Ok(schema);
  }

  // ------------------------------------------------------ what resolving amounts to

  /** The schema `n` references further on, if the chain gets that far. */
  function Follow(deps: Definitions, s: Schema, n: nat): Option<Schema> {
    if n == 0 then Some(s)
    else match Follow(deps, s, n - 1)
      case None => None
      case Some(c) => if IsReference(c) then Target(deps, ReferenceOf(c)) else None
  }

  lemma {:induction false} FollowFromNext(deps: Definitions, s: Schema, n: nat)
    requires IsReference(s) && Target(deps, ReferenceOf(s)).Some?
    ensures Follow(deps, s, n + 1) == Follow(deps, Target(deps, ReferenceOf(s)).value, n)
  {
    if n > 0 { FollowFromNext(deps, s, n - 1); }
  }

  /** The chain of references goes on for ever. */
  ghost predicate Endless(deps: Definitions, s: Schema) {
    forall n: nat :: Follow(deps, s, n).Some?
  }

  /** The chain ends, after `n` references, with a schema that is not one. */
  ghost predicate EndsWith(deps: Definitions, s: Schema, n: nat, end: Schema) {
    Follow(deps, s, n) == Some(end) && !IsReference(end)
  }

  /** The chain breaks off, after `n` references, at one that leads nowhere. */
  ghost predicate BreaksAt(deps: Definitions, s: Schema, n: nat, reference: string) {
    Follow(deps, s, n).Some? && IsReference(Follow(deps, s, n).value)
    && ReferenceOf(Follow(deps, s, n).value) == reference && Target(deps, reference).None?
  }

  lemma {:induction false} NothingAfterTheEnd(deps: Definitions, s: Schema, m: nat, n: nat)
    requires m <= n && Follow(deps, s, m).None?
    ensures Follow(deps, s, n).None?
  {
    if m < n { NothingAfterTheEnd(deps, s, m, n - 1); }
  }

  /** A reference met twice is met again and again. */
  lemma {:induction false} Repeats(deps: Definitions, s: Schema, i: nat, j: nat, n: nat)
    requires i < j && Follow(deps, s, i).Some? && Follow(deps, s, j).Some?
    requires IsReference(Follow(deps, s, i).value) && IsReference(Follow(deps, s, j).value)
    requires ReferenceOf(Follow(deps, s, i).value) == ReferenceOf(Follow(deps, s, j).value)
    ensures Follow(deps, s, i + 1 + n) == Follow(deps, s, j + 1 + n)
  {
    if n > 0 { Repeats(deps, s, i, j, n - 1); }
  }

  lemma {:induction false} RepeatedIsEndless(deps: Definitions, s: Schema, i: nat, j: nat, n: nat)
    requires i < j && Follow(deps, s, i).Some? && Follow(deps, s, j).Some?
    requires IsReference(Follow(deps, s, i).value) && IsReference(Follow(deps, s, j).value)
    requires ReferenceOf(Follow(deps, s, i).value) == ReferenceOf(Follow(deps, s, j).value)
    ensures Follow(deps, s, n).Some?
  {
    if n <= j {
      if Follow(deps, s, n).None? { NothingAfterTheEnd(deps, s, n, j); }
    } else {
      var k := n - j - 1;
      RepeatedIsEndless(deps, s, i, j, i + 1 + k);
      Repeats(deps, s, i, j, k);
    }
  }

  /** The references met on the way to the `n`th schema of the chain. */
  ghost function Met(deps: Definitions, s: Schema, n: nat): set<string> {
    set i | 0 <= i < n && Follow(deps, s, i).Some? && IsReference(Follow(deps, s, i).value) ::
      ReferenceOf(Follow(deps, s, i).value)
  }

  /** What a result of resolving says about the chain of references from `s`. */
  ghost predicate SaysOf(r: Result<Schema, ResolveError>, deps: Definitions, s: Schema) {
    match r
    case Ok(end) => exists n :: 0 <= n <= |deps| && EndsWith(deps, s, n, end)
    case Err(InvalidReference(reference)) => exists n :: 0 <= n <= |deps| && BreaksAt(deps, s, n, reference)
    case Err(CycleDetected) => Endless(deps, s)
  }

  /** Resolving from the `n`th schema on, with the references before it visited. */
  lemma {:induction false} ResolveFrom(deps: Definitions, s: Schema, n: nat, c: Schema, visited: set<string>)
    requires Follow(deps, s, n) == Some(c) && visited == Met(deps, s, n)
    requires |visited| == n && n + |Unvisited(deps, visited)| == |deps|
    ensures SaysOf(Resolve(deps, c, visited), deps, s)
    decreases Unvisited(deps, visited)
  {
    hide Endless, SaysOf, IsReference, Target, Unvisited;
    if !IsReference(c) {
      EndFound(deps, s, n, c);
    } else if ReferenceOf(c) in visited {
      CycleFound(deps, s, n, c);
    } else if Target(deps, ReferenceOf(c)).None? {
      BreakFound(deps, s, n, c);
    } else {
      VisitingLeavesLess(deps, visited, ReferenceOf(c));
      MetNext(deps, s, n, c);
      VisitingLeavesOneLess(deps, visited, ReferenceOf(c));
      ResolveFrom(deps, s, n + 1, Target(deps, ReferenceOf(c)).value, visited + {ReferenceOf(c)});
    }
  }

  lemma EndFound(deps: Definitions, s: Schema, n: nat, c: Schema)
    requires Follow(deps, s, n) == Some(c) && n <= |deps| && !IsReference(c)
    ensures SaysOf(Ok(c), deps, s)
  {
    assert EndsWith(deps, s, n, c);
  }

  lemma BreakFound(deps: Definitions, s: Schema, n: nat, c: Schema)
    requires Follow(deps, s, n) == Some(c) && n <= |deps| && IsReference(c) && Target(deps, ReferenceOf(c)).None?
    ensures SaysOf(Err(InvalidReference(ReferenceOf(c))), deps, s)
  {
    assert BreaksAt(deps, s, n, ReferenceOf(c));
  }

  lemma CycleFound(deps: Definitions, s: Schema, n: nat, c: Schema)
    requires Follow(deps, s, n) == Some(c) && IsReference(c) && ReferenceOf(c) in Met(deps, s, n)
    ensures SaysOf(Err(CycleDetected), deps, s)
  {
    hide Follow;
    var i :| 0 <= i < n && Follow(deps, s, i).Some? && IsReference(Follow(deps, s, i).value)
      && ReferenceOf(Follow(deps, s, i).value) == ReferenceOf(c);
    forall m: nat ensures Follow(deps, s, m).Some? { RepeatedIsEndless(deps, s, i, n, m); }
  }

  lemma MetNext(deps: Definitions, s: Schema, n: nat, c: Schema)
    requires Follow(deps, s, n) == Some(c) && IsReference(c)
    ensures Met(deps, s, n + 1) == Met(deps, s, n) + {ReferenceOf(c)}
  {
  }

  lemma VisitingLeavesOneLess(deps: Definitions, visited: set<string>, reference: string)
    requires reference !in visited && Target(deps, reference).Some?
    ensures |Unvisited(deps, visited + {reference})| == |Unvisited(deps, visited)| - 1
  {
    var name := JS.NameOf(reference).value;
    assert JS.PREFIX + name == reference;
    forall other | JS.PREFIX + other == reference ensures other == name {
      assert (JS.PREFIX + other)[|JS.PREFIX|..] == other;
    }
    assert Unvisited(deps, visited) == Unvisited(deps, visited + {reference}) + {name};
  }

  /**
    Resolving takes no more steps than there are definitions, and finds out what
    the chain of references does: it ends with the schema returned, or breaks off
    at the reference reported, or -- exactly when a cycle is reported -- never ends.
   */
  lemma ResolveFindsOut(deps: Definitions, s: Schema)
    ensures SaysOf(Resolve(deps, s, {}), deps, s)
    ensures Resolve(deps, s, {}) == Err(CycleDetected) <==> Endless(deps, s)
  {
    assert Met(deps, s, 0) == {};
    assert Unvisited(deps, {}) == deps.Keys;
    ResolveFrom(deps, s, 0, s, {});
    var r := Resolve(deps, s, {});
    if r.Ok? {
      var n :| 0 <= n <= |deps| && EndsWith(deps, s, n, r.value);
      assert Follow(deps, s, n + 1).None?;
    } else if r.error.InvalidReference? {
      var n :| 0 <= n <= |deps| && BreaksAt(deps, s, n, r.error.reference);
      assert Follow(deps, s, n + 1).None?;
    }
  }

  /** A chain has at most one end. */
  lemma EndIsUnique(deps: Definitions, s: Schema, m: nat, a: Schema, n: nat, b: Schema)
    requires EndsWith(deps, s, m, a) && EndsWith(deps, s, n, b)
    ensures a == b && m == n
  {
    if m < n { NothingAfterTheEnd(deps, s, m + 1, n); }
    if n < m { NothingAfterTheEnd(deps, s, n + 1, m); }
  }

  lemma NoEndAndBreak(deps: Definitions, s: Schema, m: nat, end: Schema, n: nat, reference: string)
    requires EndsWith(deps, s, m, end)
    ensures !BreaksAt(deps, s, n, reference) && !Endless(deps, s)
  {
    assert Follow(deps, s, m + 1).None?;
    if BreaksAt(deps, s, n, reference) {
      assert Follow(deps, s, n + 1).None?;
      if m < n { NothingAfterTheEnd(deps, s, m + 1, n); }
      if n < m { NothingAfterTheEnd(deps, s, n + 1, m); }
    }
  }

  /** So the schema returned is the one end of the chain, whenever it has an end. */
  lemma ResolveOkIff(deps: Definitions, s: Schema, end: Schema)
    ensures Resolve(deps, s, {}) == Ok(end) <==> exists n: nat :: EndsWith(deps, s, n, end)
  {
    hide EndsWith, BreaksAt, Endless, Resolve;
    ResolveFindsOut(deps, s);
    var r := Resolve(deps, s, {});
    if n: nat :| EndsWith(deps, s, n, end) {
      if r.Ok? {
        var m :| 0 <= m <= |deps| && EndsWith(deps, s, m, r.value);
        EndIsUnique(deps, s, m, r.value, n, end);
      } else if r.error.InvalidReference? {
        var m :| 0 <= m <= |deps| && BreaksAt(deps, s, m, r.error.reference);
        NoEndAndBreak(deps, s, n, end, m, r.error.reference);
      } else {
        NoEndAndBreak(deps, s, n, end, n, "");
      }
    }
  }

  /** A schema written as a bare reference, whatever its annotations. */
  function ReferenceTo(name: string, metadata: Option<JS.Metadata>, extensions: map<string, JS.Value>): Schema {
    JS.Schema(JS.SchemaObject(metadata, JS.AnyType, None, None, None, None, None, None, None, None,
                              Some("#/components/schemas/" + name), extensions))
  }

  /** A bare reference leads on to the definition of its name, and nowhere if there is none. */
  lemma ReferenceIsFollowed(deps: Definitions, name: string, metadata: Option<JS.Metadata>,
                            extensions: map<string, JS.Value>, n: nat, end: Schema)
    ensures var s := ReferenceTo(name, metadata, extensions);
      && (name in deps ==> (EndsWith(deps, s, n + 1, end) <==> EndsWith(deps, deps[name], n, end)))
      && !EndsWith(deps, s, 0, end)
      && (name !in deps ==> Resolve(deps, s, {}) == Err(InvalidReference("#/components/schemas/" + name)))
  {
    var s := ReferenceTo(name, metadata, extensions);
    assert ReferenceOf(s)[|JS.PREFIX|..] == name;
    if name in deps { FollowFromNext(deps, s, n); }
  }

  /** A schema that says anything itself is its own end. */
  lemma OthersAreTheirOwnEnd(deps: Definitions, s: Schema)
    requires s.Schema? ==> s.obj.reference.None? || !s.obj.instanceType.AnyType? || s.obj.subschemas.Some?
    ensures EndsWith(deps, s, 0, s) && Resolve(deps, s, {}) == Ok(s)
  {
  }

  // --------------------------------------------------------------- scalar types

  datatype Verdict = Accepts | Rejects | Panics | NotDone

  predicate IsScalarType(t: JS.InstanceType) {
    t.BooleanType? || t.NumberType? || t.StringType? || t.IntegerType?
  }

  predicate IsStringType(t: JS.InstanceType) {
    t.StringType?
  }

  /**
    Whether a schema has a type that passes `check`.  The recursion through
    references and subschemas is given `fuel`, as it need not end otherwise.
   */
  function TypeIsScalarCommon(s: Schema, deps: Definitions, check: JS.InstanceType -> bool, fuel: nat): Verdict
    decreases fuel, 2
  {
    if fuel == 0 then NotDone
    else match Resolve(deps, s, {})
      case Err(_) => Panics
      case Ok(Bool(_)) => Rejects
      case Ok(Schema(o)) =>
        if && o.instanceType.OneType? && o.subschemas.None? && o.arrayRules.None? && o.objectRules.None?
           && o.reference.None? && check(o.instanceType.t) then Accepts
        else if && o.instanceType.AnyType? && o.format.None? && o.enumValues.None? && o.constValue.None?
                && o.subschemas.Some? && o.numberRules.None? && o.textRules.None?
                && o.arrayRules.None? && o.objectRules.None? && o.reference.None? then
          TypeIsScalarSubschemas(o.subschemas.value, deps, check, fuel - 1)
        else Rejects
  }

  function TypeIsScalarSubschemas(sv: JS.SubschemaValidation, deps: Definitions, check: JS.InstanceType -> bool,
                                  fuel: nat): Verdict
    decreases fuel, 4
  {
    if sv.not_.Some? || sv.if_.Some? || sv.then_.Some? || sv.else_.Some? then Rejects
    else match (sv.allOf, sv.anyOf, sv.oneOf)
      case (Present(subs), Absent, Absent) =>
        if |subs| == 1 then TypeIsScalarCommon(subs[0], deps, check, fuel) else Rejects
      case (Absent, Present(subs), Absent) =>
        if |subs| == 1 then TypeIsScalarCommon(subs[0], deps, check, fuel) else Rejects
      case (Absent, Absent, Present(subs)) => AllScalar(subs, deps, check, fuel)
      case _ => Rejects
  }

  function AllScalar(subs: seq<Schema>, deps: Definitions, check: JS.InstanceType -> bool, fuel: nat): Verdict
    decreases fuel, 3, |subs|
  {
    if subs == [] then Accepts
    else match TypeIsScalarCommon(subs[0], deps, check, fuel)
      case Accepts => AllScalar(subs[1..], deps, check, fuel)
      case other => other
  }

  lemma {:induction false} EndResolvesToItself(deps: Definitions, s: Schema, visited: set<string>)
    requires Resolve(deps, s, visited).Ok?
    ensures Resolve(deps, Resolve(deps, s, visited).value, {}) == Resolve(deps, s, visited)
    decreases Unvisited(deps, visited)
  {
    if IsReference(s) {
      VisitingLeavesLess(deps, visited, ReferenceOf(s));
      EndResolvesToItself(deps, Target(deps, ReferenceOf(s)).value, visited + {ReferenceOf(s)});
    }
  }

  /** A chain of references is judged as its end is. */
  lemma ReferencesAreTransparent(s: Schema, deps: Definitions, check: JS.InstanceType -> bool, fuel: nat)
    requires Resolve(deps, s, {}).Ok?
    ensures TypeIsScalarCommon(s, deps, check, fuel)
         == TypeIsScalarCommon(Resolve(deps, s, {}).value, deps, check, fuel)
  {
    EndResolvesToItself(deps, s, {});
  }

  lemma {:induction false} AllScalarIff(subs: seq<Schema>, deps: Definitions, check: JS.InstanceType -> bool, fuel: nat)
    ensures AllScalar(subs, deps, check, fuel) == Accepts <==>
      forall i :: 0 <= i < |subs| ==> TypeIsScalarCommon(subs[i], deps, check, fuel) == Accepts
    decreases |subs|
  {
    if subs != [] { AllScalarIff(subs[1..], deps, check, fuel); }
  }

  /** A schema that is nothing but subschemas of one kind, as the generator wraps references. */
  predicate Wraps(s: Schema, sv: JS.SubschemaValidation) {
    && s.Schema? && s.obj.reference.None? && s.obj.subschemas == Some(sv)
    && s.obj.instanceType.AnyType? && s.obj.format.None? && s.obj.enumValues.None? && s.obj.constValue.None?
    && s.obj.numberRules.None? && s.obj.textRules.None? && s.obj.arrayRules.None? && s.obj.objectRules.None?
    && sv.not_.None? && sv.if_.None? && sv.then_.None? && sv.else_.None?
  }

  /** Wrapping one schema, or listing alternatives, is accepted exactly when all that is wrapped is. */
  lemma WrappersAreTransparent(s: Schema, sv: JS.SubschemaValidation, subs: seq<Schema>, deps: Definitions,
                               check: JS.InstanceType -> bool, fuel: nat)
    requires Wraps(s, sv) && fuel > 0
    requires || (sv.allOf == JS.Present(subs) && sv.anyOf.Absent? && sv.oneOf.Absent? && |subs| == 1)
             || (sv.allOf.Absent? && sv.anyOf == JS.Present(subs) && sv.oneOf.Absent? && |subs| == 1)
             || (sv.allOf.Absent? && sv.anyOf.Absent? && sv.oneOf == JS.Present(subs))
    ensures TypeIsScalarCommon(s, deps, check, fuel) == Accepts <==>
      forall i :: 0 <= i < |subs| ==> TypeIsScalarCommon(subs[i], deps, check, fuel - 1) == Accepts
  {
    AllScalarIff(subs, deps, check, fuel - 1);
    assert Resolve(deps, s, {}) == Ok(s);
  }

  /** A schema of one type, without subschemas and without rules for arrays and objects. */
  predicate Typed(s: Schema, t: JS.InstanceType) {
    && s.Schema? && s.obj.instanceType == JS.OneType(t) && s.obj.reference.None?
    && s.obj.subschemas.None? && s.obj.arrayRules.None? && s.obj.objectRules.None?
  }

  /** A schema that only wraps one other in `allOf` or `anyOf`, or lists alternatives in `oneOf`. */
  predicate WrapsJust(s: Schema, subs: seq<Schema>) {
    && s.Schema? && s.obj.subschemas.Some? && Wraps(s, s.obj.subschemas.value)
    && var sv := s.obj.subschemas.value;
      || (sv.allOf == JS.Present(subs) && sv.anyOf.Absent? && sv.oneOf.Absent? && |subs| == 1)
      || (sv.allOf.Absent? && sv.anyOf == JS.Present(subs) && sv.oneOf.Absent? && |subs| == 1)
      || (sv.allOf.Absent? && sv.anyOf.Absent? && sv.oneOf == JS.Present(subs))
  }

  ghost predicate AllAccepted(subs: seq<Schema>, deps: Definitions, check: JS.InstanceType -> bool, fuel: nat) {
    forall i :: 0 <= i < |subs| ==> TypeIsScalarCommon(subs[i], deps, check, fuel) == Accepts
  }

  /** What is accepted at the end of a chain: a schema of one type that passes, or a wrapper of accepted ones. */
  ghost predicate AcceptedEnd(end: Schema, deps: Definitions, check: JS.InstanceType -> bool, fuel: nat) {
    || (exists t :: Typed(end, t) && check(t))
    || (fuel > 0 && exists subs :: WrapsJust(end, subs) && AllAccepted(subs, deps, check, fuel - 1))
  }

  /** The verdict on a schema by what stands at the end of its chain of references; without an end, a panic. */
  lemma JudgedByEnd(s: Schema, deps: Definitions, check: JS.InstanceType -> bool, fuel: nat)
    requires fuel > 0
    ensures TypeIsScalarCommon(s, deps, check, fuel) == Accepts <==>
      exists n: nat, end :: EndsWith(deps, s, n, end) && AcceptedEnd(end, deps, check, fuel)
    ensures (forall n: nat, end :: !EndsWith(deps, s, n, end)) ==> TypeIsScalarCommon(s, deps, check, fuel) == Panics
  {
    hide EndsWith, AcceptedEnd;
    var r := Resolve(deps, s, {});
    if r.Ok? {
      ResolveOkIff(deps, s, r.value);
      var n: nat :| EndsWith(deps, s, n, r.value);
      EndResolvesToItself(deps, s, {});
      ReferencesAreTransparent(s, deps, check, fuel);
      EndIsJudged(r.value, deps, check, fuel);
    }
    forall n: nat, end | EndsWith(deps, s, n, end) ensures r == Ok(end) { ResolveOkIff(deps, s, end); }
  }

  lemma EndIsJudged(end: Schema, deps: Definitions, check: JS.InstanceType -> bool, fuel: nat)
    requires fuel > 0 && Resolve(deps, end, {}) == Ok(end)
    ensures TypeIsScalarCommon(end, deps, check, fuel) == Accepts <==> AcceptedEnd(end, deps, check, fuel)
  {
    if subs :| WrapsJust(end, subs) {
      WrappersAreTransparent(end, end.obj.subschemas.value, subs, deps, check, fuel);
      assert forall others :: WrapsJust(end, others) ==> others == subs;
    } else if TypeIsScalarCommon(end, deps, check, fuel) == Accepts && end.obj.subschemas.Some? {
      NoOtherWrapper(end, deps, check, fuel);
    } else if TypeIsScalarCommon(end, deps, check, fuel) == Accepts {
      assert Typed(end, end.obj.instanceType.t);
    }
  }

  lemma NoOtherWrapper(end: Schema, deps: Definitions, check: JS.InstanceType -> bool, fuel: nat)
    requires fuel > 0 && Resolve(deps, end, {}) == Ok(end) && end.Schema? && end.obj.subschemas.Some?
    requires TypeIsScalarCommon(end, deps, check, fuel) == Accepts
    ensures exists subs :: WrapsJust(end, subs)
  {
    var sv := end.obj.subschemas.value;
    var list := if sv.allOf.Present? then sv.allOf else if sv.anyOf.Present? then sv.anyOf else sv.oneOf;
    assert WrapsJust(end, list.list);
  }

  /**
    A parameter whose schema leads to a typed one is accepted exactly when the type
    is boolean, number, string or integer; an item of a wildcard, when it is string.
   */
  lemma TypedIsJudgedByType(s: Schema, deps: Definitions, n: nat, end: Schema, t: JS.InstanceType, fuel: nat)
    requires fuel > 0 && EndsWith(deps, s, n, end) && Typed(end, t)
    ensures TypeIsScalarCommon(s, deps, IsScalarType, fuel)
         == if t in {JS.BooleanType, JS.NumberType, JS.StringType, JS.IntegerType} then Accepts else Rejects
    ensures TypeIsScalarCommon(s, deps, IsStringType, fuel) == if t == JS.StringType then Accepts else Rejects
  {
    hide EndsWith;
    ResolveOkIff(deps, s, end);
  }

  /** Fuel only decides whether a verdict is reached, not which one. */
  lemma {:induction false} VerdictIsFinal(s: Schema, deps: Definitions, check: JS.InstanceType -> bool, fuel: nat,
                                          more: nat)
    requires fuel <= more && TypeIsScalarCommon(s, deps, check, fuel) != NotDone
    ensures TypeIsScalarCommon(s, deps, check, more) == TypeIsScalarCommon(s, deps, check, fuel)
    decreases fuel, 2
  {
    var r := Resolve(deps, s, {});
    if r.Ok? && r.value.Schema? && r.value.obj.subschemas.Some? {
      var sv := r.value.obj.subschemas.value;
      if TypeIsScalarSubschemas(sv, deps, check, fuel - 1) != NotDone {
        SubschemasVerdictIsFinal(sv, deps, check, fuel - 1, more - 1);
      }
    }
  }

  lemma {:induction false} SubschemasVerdictIsFinal(sv: JS.SubschemaValidation, deps: Definitions,
                                                    check: JS.InstanceType -> bool,
                                                    fuel: nat, more: nat)
    requires fuel <= more && TypeIsScalarSubschemas(sv, deps, check, fuel) != NotDone
    ensures TypeIsScalarSubschemas(sv, deps, check, more) == TypeIsScalarSubschemas(sv, deps, check, fuel)
    decreases fuel, 4
  {
    if sv.not_.None? && sv.if_.None? && sv.then_.None? && sv.else_.None? {
      match (sv.allOf, sv.anyOf, sv.oneOf)
      case (Present(subs), Absent, Absent) => if |subs| == 1 { VerdictIsFinal(subs[0], deps, check, fuel, more); }
      case (Absent, Present(subs), Absent) => if |subs| == 1 { VerdictIsFinal(subs[0], deps, check, fuel, more); }
      case (Absent, Absent, Present(subs)) => AllVerdictIsFinal(subs, deps, check, fuel, more);
      case _ =>
    }
  }

  lemma {:induction false} AllVerdictIsFinal(subs: seq<Schema>, deps: Definitions, check: JS.InstanceType -> bool,
                                             fuel: nat, more: nat)
    requires fuel <= more && AllScalar(subs, deps, check, fuel) != NotDone
    ensures AllScalar(subs, deps, check, more) == AllScalar(subs, deps, check, fuel)
    decreases fuel, 3, |subs|
  {
    if subs != [] {
      VerdictIsFinal(subs[0], deps, check, fuel, more);
      if TypeIsScalarCommon(subs[0], deps, check, fuel) == Accepts {
        AllVerdictIsFinal(subs[1..], deps, check, fuel, more);
      }
    }
  }

  /** What is valid against a chain of references is valid against its end. */
  lemma {:induction false} ValidAtTheEnd(voc: JS.Vocabulary, deps: Definitions, n: nat, s: Schema, v: JS.Value,
                                         visited: set<string>)
    returns (m: nat)
    requires JS.Valid(voc, deps, n, s, v) && !v.Null? && Resolve(deps, s, visited).Ok?
    ensures JS.Valid(voc, deps, m, Resolve(deps, s, visited).value, v)
    decreases n
  {
    if IsReference(s) {
      var reference := ReferenceOf(s);
      m := ValidAtTheEnd(voc, deps, n - 1, Target(deps, reference).value, v, visited + {reference});
    } else {
      m := n;
    }
  }

  /**
    If the check accepts a schema, every value valid against it, other than null,
    is of one of the types that pass -- through all references and subschemas.
   */
  lemma {:induction false} ScalarCheckIsSound(voc: JS.Vocabulary, deps: Definitions, n: nat, s: Schema, v: JS.Value,
                                              check: JS.InstanceType -> bool, fuel: nat) returns (t: JS.InstanceType)
    requires TypeIsScalarCommon(s, deps, check, fuel) == Accepts
    requires JS.Valid(voc, deps, n, s, v) && !v.Null?
    ensures check(t) && JS.HasType(t, v)
    decreases fuel, 2
  {
    var m := ValidAtTheEnd(voc, deps, n, s, v, {});
    var o := Resolve(deps, s, {}).value.obj;
    if o.instanceType.OneType? {
      t := o.instanceType.t;
    } else {
      t := SubschemasCheckIsSound(voc, deps, m, o.subschemas.value, v, check, fuel - 1);
    }
  }

  lemma {:induction false} SubschemasCheckIsSound(voc: JS.Vocabulary, deps: Definitions, n: nat,
                                                  sv: JS.SubschemaValidation, v: JS.Value,
                                                  check: JS.InstanceType -> bool, fuel: nat)
    returns (t: JS.InstanceType)
    requires TypeIsScalarSubschemas(sv, deps, check, fuel) == Accepts
    requires JS.SubschemasAccept(voc, deps, n, sv, v) && !v.Null?
    ensures check(t) && JS.HasType(t, v)
    decreases fuel, 4
  {
    var list := if sv.allOf.Present? then sv.allOf else if sv.anyOf.Present? then sv.anyOf else sv.oneOf;
    var i :| 0 <= i < |list.list| && JS.Verdicts(voc, deps, n, list, v)[i];
    if sv.oneOf.Present? { AllScalarIff(list.list, deps, check, fuel); }
    t := ScalarCheckIsSound(voc, deps, n, list.list[i], v, check, fuel);
  }

  /** A parameter whose schema is accepted as scalar is a boolean, a number or a string. */
  lemma ScalarParametersAreScalar(voc: JS.Vocabulary, deps: Definitions, n: nat, s: Schema, v: JS.Value, fuel: nat)
    requires TypeIsScalarCommon(s, deps, IsScalarType, fuel) == Accepts
    requires JS.Valid(voc, deps, n, s, v) && !v.Null?
    ensures v.Boolean? || v.Number? || v.Text?
  {
    var t := ScalarCheckIsSound(voc, deps, n, s, v, IsScalarType, fuel);
  }

  function TypeIsStringEnum(s: Schema, deps: Definitions, fuel: nat): Verdict {
    match Resolve(deps, s, {})
    case Err(_) => Panics
    case Ok(Bool(_)) => Rejects
    case Ok(Schema(o)) =>
      if && o.instanceType == JS.OneType(JS.ArrayType) && o.format.None? && o.enumValues.None? && o.constValue.None?
         && o.subschemas.None? && o.numberRules.None? && o.textRules.None? && o.arrayRules.Some? && o.objectRules.None?
         && o.reference.None? then
        (match o.arrayRules.value.items
         case EachItem(item) =>
           if o.arrayRules.value.additionalItems.Some? then Panics
           else TypeIsScalarCommon(item, deps, IsStringType, fuel)
         case _ => Panics)
      else Rejects
  }

  /** An array of such items, and nothing more, save rules on how many they are and what one is to be. */
  predicate ArrayOf(s: Schema, item: Schema) {
    && s.Schema? && s.obj.instanceType == JS.OneType(JS.ArrayType) && s.obj.arrayRules.Some?
    && s.obj.arrayRules.value.items == JS.EachItem(item) && s.obj.arrayRules.value.additionalItems.None?
    && s.obj.format.None? && s.obj.enumValues.None? && s.obj.constValue.None? && s.obj.subschemas.None?
    && s.obj.numberRules.None? && s.obj.textRules.None? && s.obj.objectRules.None? && s.obj.reference.None?
  }

  /** A wildcard parameter is accepted exactly when its schema leads to an array of items accepted as strings. */
  lemma StringEnumIff(s: Schema, deps: Definitions, fuel: nat)
    ensures TypeIsStringEnum(s, deps, fuel) == Accepts <==>
      exists n: nat, end, item ::
        EndsWith(deps, s, n, end) && ArrayOf(end, item) && TypeIsScalarCommon(item, deps, IsStringType, fuel) == Accepts
  {
    hide EndsWith, TypeIsScalarCommon;
    var r := Resolve(deps, s, {});
    if r.Ok? {
      ResolveOkIff(deps, s, r.value);
      var n: nat :| EndsWith(deps, s, n, r.value);
      if TypeIsStringEnum(s, deps, fuel) == Accepts {
        assert ArrayOf(r.value, r.value.obj.arrayRules.value.items.item);
      }
    }
    forall n: nat, end | EndsWith(deps, s, n, end) ensures r == Ok(end) { ResolveOkIff(deps, s, end); }
  }

  /** A wildcard parameter whose schema is accepted is an array, and its items are strings. */
  lemma StringEnumsAreStrings(voc: JS.Vocabulary, deps: Definitions, n: nat, s: Schema, v: JS.Value, fuel: nat, i: nat)
    requires TypeIsStringEnum(s, deps, fuel) == Accepts
    requires JS.Valid(voc, deps, n, s, v) && !v.Null?
    ensures v.Array? && (i < |v.items| && !v.items[i].Null? ==> v.items[i].Text?)
  {
    var m := ValidAtTheEnd(voc, deps, n, s, v, {});
    var o := Resolve(deps, s, {}).value.obj;
    if i < |v.items| && !v.items[i].Null? {
      assert JS.ArrayAccepts(voc, deps, m, o.arrayRules.value, v.items);
      assert JS.Valid(voc, deps, m, o.arrayRules.value.items.item, v.items[i]);
      var t := ScalarCheckIsSound(voc, deps, m, o.arrayRules.value.items.item, v.items[i], IsStringType, fuel);
    }
  }
}
