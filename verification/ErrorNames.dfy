/**
  Names of error responses in an OpenAPI document: distinct error types that
  share a base name are told apart by a count appended to it, and the document
  generator asserts in the end that all names differ.
 */
module ErrorNames {
  import opened Wrappers
  import opened RouteTable
  import opened Operations
  import OA = OpenApiSchema

  // ------------------------------------------------------------------ decimals

  function Digit(d: nat): char
    requires d < 10
  {
    '0' + d as char
  }

  function Decimal(n: nat): (s: string)
    ensures s != ""
  {
    if n < 10 then [Digit(n)] else Decimal(n / 10) + [Digit(n % 10)]
  }

  function DigitValue(c: char): int {
    c as int - '0' as int
  }

  function Value(s: string): int {
    if s == "" then 0 else 10 * Value(s[..|s| - 1]) + DigitValue(s[|s| - 1])
  }

  lemma {:induction false} ValueOfDecimal(n: nat)
    ensures Value(Decimal(n)) == n
  {
    var s := Decimal(n);
    if n < 10 {
      assert s[..0] == "" && Value(s[..0]) == 0;
    } else {
      ValueOfDecimal(n / 10);
      assert s[..|s| - 1] == Decimal(n / 10);
    }
  }

  /** Cutting digits off the end of a decimal leaves a smaller decimal. */
  lemma {:induction false} DecimalPrefix(n: nat, len: nat) returns (m: nat)
    requires 0 < len <= |Decimal(n)|
    ensures m <= n && Decimal(n)[..len] == Decimal(m)
    ensures n >= 1 ==> m >= 1
    ensures len < |Decimal(n)| ==> m <= n / 10
  {
    if len == |Decimal(n)| {
      m := n;
      assert Decimal(n)[..len] == Decimal(n);
    } else {
      assert n >= 10;
      assert Decimal(n)[..|Decimal(n)| - 1] == Decimal(n / 10);
      m := DecimalPrefix(n / 10, len);
      assert Decimal(n)[..len] == Decimal(n / 10)[..len];
    }
  }

  // -------------------------------------------------------------------- naming

  function Count(bases: seq<string>, b: string): nat {
    if bases == [] then 0
    else Count(bases[..|bases| - 1], b) + if bases[|bases| - 1] == b then 1 else 0
  }

  /** The name of the `n`-th error type with this base name. */
  function Numbered(base: string, n: nat): string {
    if n <= 1 then base else base + Decimal(n)
  }

  function NameOf(bases: seq<string>, i: nat): string
    requires i < |bases|
  {
    Numbered(bases[i], Count(bases[..i + 1], bases[i]))
  }

  function NamesOf(bases: seq<string>): (r: seq<string>)
    ensures |r| == |bases|
  {
    seq(|bases|, i requires 0 <= i < |bases| => NameOf(bases, i))
  }

  /** The last of the pieces of a type's path, which double colons part. */
  function LastPiece(piece: string, rest: string): string
    decreases |rest|
  {
    if |rest| < 2 then piece + rest
    else if rest[..2] == "::" then LastPiece("", rest[2..])
    else LastPiece(piece + [rest[0]], rest[1..])
  }

  /** The name of the schema if a generator gives it one, and else that of the type. */
  function BaseName(e: ErrorType): string {
    if e.schema.Gen? then e.schema.name else LastPiece("", e.typeName)
  }

  lemma {:induction false} LastPieceIs(piece: string, path: string, name: string)
    requires ':' !in name && (path == "" || path[|path| - 1] != ':')
    ensures LastPiece(piece, path + "::" + name) == name
    decreases |path|
  {
    var rest := path + "::" + name;
    if path == "" {
      assert rest[..2] == "::" && rest[2..] == name;
      WholePiece("", name);
    } else if |path| >= 2 && path[..2] == "::" {
      assert rest[..2] == "::" && rest[2..] == path[2..] + "::" + name;
      LastPieceIs("", path[2..], name);
    } else {
      assert rest[0] == path[0] && rest[1..] == path[1..] + "::" + name;
      assert |path| >= 2 ==> rest[..2] == path[..2];
      LastPieceIs(piece + [rest[0]], path[1..], name);
    }
  }

  lemma {:induction false} WholePiece(piece: string, rest: string)
    requires ':' !in rest
    ensures LastPiece(piece, rest) == piece + rest
    decreases |rest|
  {
    if |rest| >= 2 {
      assert rest[..2][0] != ':';
      WholePiece(piece + [rest[0]], rest[1..]);
      assert piece + [rest[0]] + rest[1..] == piece + rest;
    }
  }

  /** The base name: a generator's own, and else what stands last in the path of the type, or all of a plain name. */
  lemma BaseNameIs(e: ErrorType, path: string, name: string)
    ensures e.schema.Gen? ==> BaseName(e) == e.schema.name
    ensures e.schema.Static? && ':' !in name && e.typeName == name ==> BaseName(e) == name
    ensures && e.schema.Static? && ':' !in name && e.typeName == path + "::" + name
            && (path == "" || path[|path| - 1] != ':') ==>
      BaseName(e) == name
  {
    if ':' !in name {
      WholePiece("", name);
      if path == "" || path[|path| - 1] != ':' { LastPieceIs("", path, name); }
    }
  }

  function TypesOf(uses: seq<ErrorType>): set<string> {
    set u | u in uses :: u.typeName
  }

  lemma TypesOfOneMore(uses: seq<ErrorType>, u: ErrorType)
    ensures TypesOf(uses + [u]) == TypesOf(uses) + {u.typeName}
  {
    assert u in uses + [u];
    assert forall t :: t in TypesOf(uses) ==> exists w :: w in uses + [u] && w.typeName == t;
  }

  /** The first use of each error type: only then is a response made. */
  function FirstUses(uses: seq<ErrorType>): (r: seq<ErrorType>)
    ensures TypesOf(r) == TypesOf(uses)
    ensures forall i, j :: 0 <= i < j < |r| ==> r[i].typeName != r[j].typeName
    ensures forall u :: u in r ==> u in uses
  {
    if uses == [] then []
    else
      var init, last := uses[..|uses| - 1], uses[|uses| - 1];
      assert uses == init + [last];
      TypesOfOneMore(init, last);
      var before := FirstUses(init);
      TypesOfOneMore(before, last);
      assert forall u :: u in before ==> u.typeName in TypesOf(before);
      if last.typeName in TypesOf(init) then before else before + [last]
  }

  function BasesOf(uses: seq<ErrorType>): (r: seq<string>)
    ensures |r| == |uses|
  {
    seq(|uses|, i requires 0 <= i < |uses| => BaseName(uses[i]))
  }

  /** The names of the responses of these uses, in the order in which they are made. */
  function ResponseNames(uses: seq<ErrorType>): (r: seq<string>)
    ensures |r| == |FirstUses(uses)|
  {
    NamesOf(BasesOf(FirstUses(uses)))
  }

  function NameIn(types: seq<ErrorType>, names: seq<string>, typeName: string): (r: Option<string>)
    requires |names| == |types|
    ensures r.Some? <==> typeName in TypesOf(types)
    ensures r.Some? ==> exists i :: 0 <= i < |types| && types[i].typeName == typeName && names[i] == r.value
  {
    if types == [] then None
    else
      var k := |types| - 1;
      assert types == types[..k] + [types[k]];
      TypesOfOneMore(types[..k], types[k]);
      if types[k].typeName == typeName then Some(names[k]) else NameIn(types[..k], names[..k], typeName)
  }

  /** The name of the response that all uses of an error type share. */
  function ResponseName(uses: seq<ErrorType>, typeName: string): Option<string> {
    NameIn(FirstUses(uses), ResponseNames(uses), typeName)
  }

  /** A name once given stays. */
  lemma ResponseNameStays(uses: seq<ErrorType>, u: ErrorType, typeName: string)
    requires typeName in TypesOf(uses)
    ensures ResponseName(uses + [u], typeName) == ResponseName(uses, typeName)
  {
    FirstUsesOneMore(uses, u);
    if u.typeName !in TypesOf(uses) {
      var types := FirstUses(uses);
      BasesAppended(types, u);
      NameAppended(BasesOf(types), BaseName(u));
      assert (types + [u])[..|types|] == types;
      assert ResponseNames(uses + [u])[..|types|] == ResponseNames(uses);
    }
  }

  /** The responses made so far, in order, and how often each base name has been used. */
  datatype ErrorResponses = ErrorResponses(
    types: seq<ErrorType>, names: seq<string>, schemas: seq<OA.ReferenceOr>, counts: map<string, nat>)

  const NO_RESPONSES: ErrorResponses := ErrorResponses([], [], [], map[])

  /** The responses for these uses: one for each type, with its name and its schema. */
  ghost predicate AreFor(responses: ErrorResponses, uses: seq<ErrorType>) {
    && responses.types == FirstUses(uses)
    && responses.names == ResponseNames(uses)
    && SchemasAre(responses.types, responses.schemas)
    && CountsAre(responses.counts, BasesOf(responses.types))
  }

  ghost predicate CountsAre(counts: map<string, nat>, bases: seq<string>) {
    forall b :: (if b in counts then counts[b] else 0) == Count(bases, b)
  }

  ghost predicate SchemasAre(types: seq<ErrorType>, schemas: seq<OA.ReferenceOr>) {
    |schemas| == |types| && forall i :: 0 <= i < |types| ==> Converted(types[i].schema) == Some(schemas[i])
  }

  lemma NothingNamed()
    ensures AreFor(NO_RESPONSES, [])
  {
  }

  /**
    The response of an endpoint's error type: the one made before, or a new one
    under the next name of its base; none if the schema makes the conversion panic.
   */
  method ResponseFor(responses: ErrorResponses, u: ErrorType, ghost uses: seq<ErrorType>)
    returns (r: Option<(ErrorResponses, string)>)
    requires AreFor(responses, uses)
    ensures r.Some? <==> u.typeName in TypesOf(uses) || Converted(u.schema).Some?
    ensures r.Some? ==> AreFor(r.value.0, uses + [u])
    ensures r.Some? ==> ResponseName(uses + [u], u.typeName) == Some(r.value.1)
  {
    hide *;
    Parts(responses, uses);
    FirstUsesOneMore(uses, u);
    var known := NameIn(responses.types, responses.names, u.typeName);
    if known.Some? {
      SeenBefore(responses, uses, u);
      return Some((responses, known.value));
    }
    var schema := Converted(u.schema);
    if schema.None? {
      return None;
    }
    var base := BaseName(u);
    var num := if base in responses.counts then responses.counts[base] + 1 else 1;
    var name := Numbered(base, num);
    NewResponse(responses, uses, u, schema.value, num);
    return Some((ErrorResponses(responses.types + [u], responses.names + [name], responses.schemas + [schema.value],
                                responses.counts[base := num]), name));
  }

  lemma Parts(responses: ErrorResponses, uses: seq<ErrorType>)
    requires AreFor(responses, uses)
    ensures responses.types == FirstUses(uses) && responses.names == ResponseNames(uses)
    ensures |responses.names| == |responses.types| == |responses.schemas|
    ensures TypesOf(responses.types) == TypesOf(uses)
  {
  }

  lemma SeenBefore(responses: ErrorResponses, uses: seq<ErrorType>, u: ErrorType)
    requires AreFor(responses, uses) && u.typeName in TypesOf(uses)
    ensures AreFor(responses, uses + [u])
    ensures ResponseName(uses + [u], u.typeName) == NameIn(responses.types, responses.names, u.typeName)
  {
    FirstUsesOneMore(uses, u);
  }

  lemma NewResponse(responses: ErrorResponses, uses: seq<ErrorType>, u: ErrorType, schema: OA.ReferenceOr, num: nat)
    requires AreFor(responses, uses) && u.typeName !in TypesOf(uses) && Converted(u.schema) == Some(schema)
    requires var counts := responses.counts; var base := BaseName(u);
      num == if base in counts then counts[base] + 1 else 1
    ensures AreFor(ErrorResponses(responses.types + [u], responses.names + [Numbered(BaseName(u), num)],
                                  responses.schemas + [schema], responses.counts[BaseName(u) := num]), uses + [u])
    ensures ResponseName(uses + [u], u.typeName) == Some(Numbered(BaseName(u), num))
  {
    hide FirstUses, BasesOf, BaseName, NamesOf, ResponseNames, Numbered, Count, CountsAre, SchemasAre, NameIn, TypesOf,
      Converted;
    var types, bases, base := responses.types, BasesOf(responses.types), BaseName(u);
    FirstUsesOneMore(uses, u);
    BasesAppended(types, u);
    CountsAppended(responses.counts, bases, base, num);
    SchemasAppended(types, responses.schemas, u, schema);
    ResponseNamesOneMore(uses, u);
    NameInLast(types, responses.names, u, Numbered(base, num));
  }

  lemma ResponseNamesOneMore(uses: seq<ErrorType>, u: ErrorType)
    requires u.typeName !in TypesOf(uses)
    ensures |ResponseNames(uses)| == |FirstUses(uses)|
    ensures ResponseNames(uses + [u])
         == ResponseNames(uses) + [Numbered(BaseName(u), Count(BasesOf(FirstUses(uses)), BaseName(u)) + 1)]
  {
    hide FirstUses, BasesOf, BaseName, NamesOf, Numbered, Count, TypesOf;
    FirstUsesOneMore(uses, u);
    BasesAppended(FirstUses(uses), u);
    NameAppended(BasesOf(FirstUses(uses)), BaseName(u));
  }

  lemma CountsAppended(counts: map<string, nat>, bases: seq<string>, base: string, num: nat)
    requires CountsAre(counts, bases) && num == if base in counts then counts[base] + 1 else 1
    ensures num == Count(bases, base) + 1 && CountsAre(counts[base := num], bases + [base])
  {
    NameAppended(bases, base);
    hide Count, NamesOf;
  }

  lemma SchemasAppended(types: seq<ErrorType>, schemas: seq<OA.ReferenceOr>, u: ErrorType, schema: OA.ReferenceOr)
    requires SchemasAre(types, schemas) && Converted(u.schema) == Some(schema)
    ensures SchemasAre(types + [u], schemas + [schema])
  {
    hide Converted;
  }

  lemma NameInLast(types: seq<ErrorType>, names: seq<string>, u: ErrorType, name: string)
    requires |names| == |types|
    ensures NameIn(types + [u], names + [name], u.typeName) == Some(name)
  {
  }

  lemma FirstUsesOneMore(uses: seq<ErrorType>, u: ErrorType)
    ensures FirstUses(uses + [u]) == FirstUses(uses) + if u.typeName in TypesOf(uses) then [] else [u]
  {
    assert (uses + [u])[..|uses|] == uses;
  }

  lemma BasesAppended(uses: seq<ErrorType>, u: ErrorType)
    ensures BasesOf(uses + [u]) == BasesOf(uses) + [BaseName(u)]
  {
  }

  lemma NameAppended(bases: seq<string>, base: string)
    ensures NamesOf(bases + [base]) == NamesOf(bases) + [Numbered(base, Count(bases, base) + 1)]
    ensures forall b :: Count(bases + [base], b) == Count(bases, b) + if b == base then 1 else 0
  {
    var longer := bases + [base];
    assert longer[..|bases|] == bases && longer[..|longer|] == longer;
    forall i | 0 <= i < |bases| ensures NameOf(longer, i) == NameOf(bases, i) {
      assert longer[..i + 1] == bases[..i + 1];
    }
  }

  /** The responses by their names. */
  function ByName(names: seq<string>, schemas: seq<OA.ReferenceOr>): Schemas
    requires |schemas| == |names|
  {
    if names == [] then map[]
    else
      var k := |names| - 1;
      ByName(names[..k], schemas[..k])[names[k] := schemas[k]]
  }

  lemma ByNameOneMore(names: seq<string>, schemas: seq<OA.ReferenceOr>, i: nat)
    requires |schemas| == |names| && i < |names|
    ensures ByName(names[..i + 1], schemas[..i + 1]) == ByName(names[..i], schemas[..i])[names[i] := schemas[i]]
    ensures Distinct(names[..i + 1]) <==> Distinct(names[..i]) && names[i] !in names[..i]
  {
    assert names[..i + 1][..i] == names[..i] && schemas[..i + 1][..i] == schemas[..i];
    assert names[..i + 1] == names[..i] + [names[i]];
  }

  /** By distinct names each response is found. */
  lemma {:induction false} ByNameHolds(names: seq<string>, schemas: seq<OA.ReferenceOr>)
    requires |schemas| == |names|
    ensures forall n :: n in ByName(names, schemas) <==> n in names
    ensures Distinct(names) ==> forall i :: 0 <= i < |names| ==> ByName(names, schemas)[names[i]] == schemas[i]
  {
    if names != [] {
      var k := |names| - 1;
      ByNameHolds(names[..k], schemas[..k]);
      assert names == names[..k] + [names[k]];
    }
  }

  /** Filling the response map, which must not meet a name twice. */
  method AddResponses(names: seq<string>, schemas: seq<OA.ReferenceOr>) returns (r: Option<Schemas>)
    requires |schemas| == |names|
    ensures r.Some? <==> Distinct(names)
    ensures r.Some? ==> r.value == ByName(names, schemas)
    ensures r.Some? ==> forall n :: n in r.value <==> n in names
    ensures r.Some? ==> forall i :: 0 <= i < |names| ==> r.value[names[i]] == schemas[i]
  {
    hide ByName, Distinct;
    var responses: Schemas := map[];
    NothingByName();
    for i := 0 to |names|
      invariant responses == ByName(names[..i], schemas[..i]) && Distinct(names[..i])
    {
      ByNameHolds(names[..i], schemas[..i]);
      ByNameOneMore(names, schemas, i);
      if names[i] in responses {
        DistinctPrefix(names, i + 1);
        return None;
      }
      responses := responses[names[i] := schemas[i]];
    }
    ByNameHolds(names, schemas);
    assert names[..|names|] == names && schemas[..|schemas|] == schemas;
    return Some(responses);
  }

  lemma NothingByName()
    ensures ByName([], []) == map[] && Distinct([])
  {
  }

  lemma DistinctPrefix(names: seq<string>, i: nat)
    requires i <= |names|
    ensures Distinct(names) ==> Distinct(names[..i])
  {
  }

  predicate Distinct(names: seq<string>) {
    forall i, j :: 0 <= i < j < |names| ==> names[i] != names[j]
  }

  // -------------------------------------------------------------- when unique

  /**
    A base name that looks like the numbered form of another one that is
    numbered that far; or a repeated base name that continues another with the
    digit 1, which the twelfth use of the other one then runs into.
   */
  predicate NamesClash(bases: seq<string>) {
    exists i, j :: 0 <= i < |bases| && 0 <= j < |bases| && Clash(bases, bases[i], bases[j])
  }

  predicate Clash(bases: seq<string>, a: string, b: string) {
    || (exists n: nat :: 2 <= n <= Count(bases, b) && a == b + Decimal(n))
    || (a == b + Decimal(1) && Count(bases, a) >= 2 && Count(bases, b) >= 12)
  }

  lemma {:induction false} CountGrows(bases: seq<string>, i: nat, j: nat, b: string)
    requires i <= j <= |bases|
    ensures Count(bases[..i], b) <= Count(bases[..j], b)
  {
    if i < j {
      CountGrows(bases, i, j - 1, b);
      assert bases[..j][..j - 1] == bases[..j - 1];
    }
  }

  lemma CountAt(bases: seq<string>, i: nat)
    requires i < |bases|
    ensures Count(bases[..i + 1], bases[i]) == Count(bases[..i], bases[i]) + 1
  {
    assert bases[..i + 1][..i] == bases[..i];
  }

  /** Every number up to the count is handed out. */
  lemma {:induction false} NumberIsUsed(bases: seq<string>, b: string, n: nat) returns (i: nat)
    requires 1 <= n <= Count(bases, b)
    ensures i < |bases| && bases[i] == b && Count(bases[..i + 1], b) == n
  {
    var last := |bases| - 1;
    if bases[last] == b && Count(bases[..last], b) + 1 == n {
      i := last;
      assert bases[..last + 1] == bases;
    } else {
      i := NumberIsUsed(bases[..last], b, n);
      assert bases[..last][..i + 1] == bases[..i + 1];
    }
  }

  lemma LongerBaseContinuesShorter(a: string, u: string, b: string, v: string)
    requires a + u == b + v && |a| > |b|
    ensures a == b + a[|b|..] && v == a[|b|..] + u
  {
    assert (a + u)[..|b|] == a[..|b|] && (b + v)[..|b|] == b;
    assert (b + v)[|b|..] == v && (a + u)[|b|..] == a[|b|..] + u;
  }

  /** Two different uses that get the same name are a clash. */
  lemma SameNameIsClash(bases: seq<string>, a: string, j: nat, b: string, k: nat)
    requires 1 <= j <= Count(bases, a) && 1 <= k <= Count(bases, b)
    requires Numbered(a, j) == Numbered(b, k) && |a| > |b|
    ensures Clash(bases, a, b)
  {
    var u, v := if j <= 1 then "" else Decimal(j), if k <= 1 then "" else Decimal(k);
    assert a + u == b + v;
    LongerBaseContinuesShorter(a, u, b, v);
    var s := a[|b|..];
    assert k >= 2;
    if j == 1 {
      assert s == Decimal(k);
    } else {
      assert Decimal(k)[..|s|] == s;
      var n := DecimalPrefix(k, |s|);
      if n == 1 { ContinuedOneIsLarge(j, k); }
    }
  }

  lemma ContinuedOneIsLarge(j: nat, k: nat)
    requires j >= 2 && Decimal(k) == Decimal(1) + Decimal(j)
    ensures k >= 12
  {
    ValueOfDecimal(k);
    ValueOfDecimal(j);
    if |Decimal(j)| == 1 {
      var s := Decimal(k);
      assert |s| == 2 && s[..1] == Decimal(1) && s[1] == Decimal(j)[0];
      assert Value(s) == 10 * Value(s[..1]) + DigitValue(s[1]);
      ValueOfDecimal(1);
      assert Value(Decimal(j)) == DigitValue(Decimal(j)[0]) by { assert Decimal(j)[..0] == ""; }
    } else {
      assert |Decimal(k)| >= 3;
    }
  }

  lemma NamesDifferFromClash(bases: seq<string>, i: nat, j: nat)
    requires i < j < |bases| && NameOf(bases, i) == NameOf(bases, j)
    ensures NamesClash(bases)
  {
    var a, b := bases[i], bases[j];
    var m, n := Count(bases[..i + 1], a), Count(bases[..j + 1], b);
    CountAt(bases, i);
    CountAt(bases, j);
    CountGrows(bases, i + 1, |bases|, a);
    CountGrows(bases, j + 1, |bases|, b);
    assert bases[..|bases|] == bases;
    if |a| > |b| {
      SameNameIsClash(bases, a, m, b, n);
      assert Clash(bases, bases[i], bases[j]);
    } else if |b| > |a| {
      SameNameIsClash(bases, b, n, a, m);
      assert Clash(bases, bases[j], bases[i]);
    } else {
      assert Numbered(a, m)[..|a|] == a && Numbered(b, n)[..|b|] == b;
      CountGrows(bases, i + 1, j, b);
      NumbersDiffer(a, m, n);
    }
  }

  lemma NumbersDiffer(a: string, m: nat, n: nat)
    requires 1 <= m < n
    ensures Numbered(a, m) != Numbered(a, n)
  {
    ValueOfDecimal(m);
    ValueOfDecimal(n);
    assert Numbered(a, n)[|a|..] == Decimal(n);
    assert m > 1 ==> Numbered(a, m)[|a|..] == Decimal(m);
    assert m == 1 ==> Numbered(a, m)[|a|..] == "";
  }

  lemma ClashRepeatsName(bases: seq<string>, a: string, b: string)
    requires a in bases && Clash(bases, a, b)
    ensures !Distinct(NamesOf(bases))
  {
    var names := NamesOf(bases);
    if n: nat :| 2 <= n <= Count(bases, b) && a == b + Decimal(n) {
      AtLeastOnce(bases, a);
      var i := NumberIsUsed(bases, a, 1);
      var j := NumberIsUsed(bases, b, n);
      assert names[i] == a && names[j] == a;
      assert i != j;
    } else {
      var i := NumberIsUsed(bases, a, 2);
      var j := NumberIsUsed(bases, b, 12);
      assert Decimal(12) == Decimal(1) + Decimal(2);
      assert names[i] == a + Decimal(2) && names[j] == b + Decimal(12);
      assert a + Decimal(2) == b + Decimal(12);
      assert i != j;
    }
  }

  lemma {:induction false} AtLeastOnce(bases: seq<string>, a: string)
    requires a in bases
    ensures Count(bases, a) >= 1
  {
    var last := |bases| - 1;
    if bases[last] != a {
      assert a in bases[..last];
      AtLeastOnce(bases[..last], a);
    }
  }

  /** The names are pairwise distinct, so that the final check passes, if and only if no base names clash. */
  lemma NamesUniqueIff(bases: seq<string>)
    ensures Distinct(NamesOf(bases)) <==> !NamesClash(bases)
  {
    if NamesClash(bases) {
      var i, j :| 0 <= i < |bases| && 0 <= j < |bases| && Clash(bases, bases[i], bases[j]);
      ClashRepeatsName(bases, bases[i], bases[j]);
    } else {
      forall i, j | 0 <= i < j < |bases| ensures NamesOf(bases)[i] != NamesOf(bases)[j] {
        if NameOf(bases, i) == NameOf(bases, j) { NamesDifferFromClash(bases, i, j); }
      }
    }
  }

  // ------------------------------------------------------- whatever the order

  /** The name of an error type determines the type. */
  ghost predicate ErrorsAgree(uses: seq<ErrorType>) {
    forall t, u :: t in uses && u in uses && t.typeName == u.typeName ==> t == u
  }

  lemma FirstUsesAreUses(uses: seq<ErrorType>)
    requires ErrorsAgree(uses)
    ensures forall u :: u in FirstUses(uses) <==> u in uses
  {
    forall u | u in uses ensures u in FirstUses(uses) {
      assert u.typeName in TypesOf(uses);
      var t :| t in FirstUses(uses) && t.typeName == u.typeName;
    }
  }

  ghost function Sharing(types: seq<ErrorType>, base: string): set<ErrorType> {
    set u | u in types && BaseName(u) == base
  }

  lemma {:induction false} CountIsSharing(types: seq<ErrorType>, base: string)
    requires forall i, j :: 0 <= i < j < |types| ==> types[i].typeName != types[j].typeName
    ensures Count(BasesOf(types), base) == |Sharing(types, base)|
  {
    hide BaseName;
    if types == [] {
      assert Sharing(types, base) == {};
    } else {
      var init, last := types[..|types| - 1], types[|types| - 1];
      assert types == init + [last];
      CountIsSharing(init, base);
      BasesAppended(init, last);
      NameAppended(BasesOf(init), BaseName(last));
      SharingOneMore(init, last, base);
      hide Count, Sharing, BasesOf, NamesOf;
    }
  }

  lemma SharingOneMore(init: seq<ErrorType>, last: ErrorType, base: string)
    requires forall i :: 0 <= i < |init| ==> init[i].typeName != last.typeName
    ensures |Sharing(init + [last], base)| == |Sharing(init, base)| + if BaseName(last) == base then 1 else 0
  {
    hide BaseName;
    assert last !in init;
    assert Sharing(init + [last], base) == Sharing(init, base) + if BaseName(last) == base then {last} else {};
  }

  /** Whether base names clash does not depend on the order of the endpoints, if type names determine types. */
  lemma NamesClashIsOrderFree(uses: seq<ErrorType>, others: seq<ErrorType>)
    requires ErrorsAgree(uses) && forall u :: u in uses <==> u in others
    ensures NamesClash(BasesOf(FirstUses(uses))) <==> NamesClash(BasesOf(FirstUses(others)))
  {
    FirstUsesAreUses(uses);
    FirstUsesAreUses(others);
    ClashesAlike(FirstUses(uses), FirstUses(others));
    ClashesAlike(FirstUses(others), FirstUses(uses));
  }

  lemma ClashesAlike(types: seq<ErrorType>, others: seq<ErrorType>)
    requires forall i, j :: 0 <= i < j < |types| ==> types[i].typeName != types[j].typeName
    requires forall i, j :: 0 <= i < j < |others| ==> others[i].typeName != others[j].typeName
    requires forall u :: u in types <==> u in others
    ensures NamesClash(BasesOf(types)) ==> NamesClash(BasesOf(others))
  {
    hide BaseName, Decimal, Count;
    if NamesClash(BasesOf(types)) {
      var i, j :| 0 <= i < |types| && 0 <= j < |types| && Clash(BasesOf(types), BasesOf(types)[i], BasesOf(types)[j]);
      assert types[i] in others && types[j] in others;
      var k :| 0 <= k < |others| && others[k] == types[i];
      var l :| 0 <= l < |others| && others[l] == types[j];
      forall b ensures Count(BasesOf(types), b) == Count(BasesOf(others), b) {
        CountIsSharing(types, b);
        CountIsSharing(others, b);
        assert Sharing(types, b) == Sharing(others, b);
      }
      assert Clash(BasesOf(others), BasesOf(others)[k], BasesOf(others)[l]);
    }
  }

  predicate EndsInDigit(s: string) {
    s != "" && '0' <= s[|s| - 1] <= '9'
  }

  lemma NumberedEndsInDigit(b: string, n: nat)
    ensures EndsInDigit(b + Decimal(n))
  {
    assert (b + Decimal(n))[|b + Decimal(n)| - 1] == Decimal(n)[|Decimal(n)| - 1];
  }

  /** In particular the names are distinct when no base name ends in a digit. */
  lemma NamesUniqueWithoutDigits(bases: seq<string>)
    requires forall i :: 0 <= i < |bases| ==> !EndsInDigit(bases[i])
    ensures Distinct(NamesOf(bases))
  {
    if NamesClash(bases) {
      var i, j :| 0 <= i < |bases| && 0 <= j < |bases| && Clash(bases, bases[i], bases[j]);
      var n: nat :| bases[i] == bases[j] + Decimal(n);
      NumberedEndsInDigit(bases[j], n);
    }
    NamesUniqueIff(bases);
  }

  /** The smallest failing input: the second `Error` is named like the first `Error2`. */
  lemma NamesClashExample()
    ensures !Distinct(NamesOf(["Error", "Error", "Error2"]))
  {
    var bases := ["Error", "Error", "Error2"];
    assert bases[..2][..1] == bases[..1] && bases[..3][..2] == bases[..2];
    assert Count(bases[..1], "Error") == 1 && Count(bases[..2], "Error") == 2;
    assert bases[..3] == bases;
    assert Decimal(2) == "2";
    assert Clash(bases, "Error2", "Error");
    assert bases[2] == "Error2" && bases[0] == "Error";
    NamesUniqueIff(bases);
  }
}
