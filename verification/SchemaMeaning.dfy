/**
  The conversion of schemas keeps their meaning: on a stated fragment it does not
  panic, and a value is valid against a schema if and only if it is valid against
  the converted one.
 */
module SchemaMeaning {
  import opened Wrappers
  import JS = JsonSchema
  import OA = OpenApiSchema
  import opened SchemaUtil

  // ------------------------------------------------------------------ fragment

  predicate Readable<T>(values: Option<seq<JS.Value>>, read: JS.Value -> Option<T>) {
    values.Some? ==> forall v :: v in values.value ==> v.Null? || read(v).Some?
  }

  /** Not an inclusive and an exclusive bound on the same side. */
  predicate OneBoundASide(rules: Option<JS.NumberValidation>) {
    rules.Some? ==>
      && (rules.value.minimum.None? || rules.value.exclusiveMinimum.None?)
      && (rules.value.maximum.None? || rules.value.exclusiveMaximum.None?)
  }

  predicate FitsI64(x: real) {
    JS.Integral(x) && I64_MIN as real <= x <= I64_MAX as real
  }

  /** Cutting `b` off to 64 bits leaves the integers from `b` on, and those below, as they are. */
  predicate AtLeastKept(b: real) {
    I64_MIN as real - 1.0 < b <= I64_MAX as real && (JS.Integral(b) || b < 0.0)
  }

  /** Cutting `b` off to 64 bits leaves the integers above `b`, and those up to it, as they are. */
  predicate AboveKept(b: real) {
    I64_MIN as real <= b < I64_MAX as real + 1.0 && (JS.Integral(b) || b > 0.0)
  }

  predicate IntegralRules(rules: Option<JS.NumberValidation>) {
    rules.Some? ==>
      var r := rules.value;
      && (r.multipleOf.Some? ==> FitsI64(r.multipleOf.value))
      && (r.minimum.Some? ==> AtLeastKept(r.minimum.value))
      && (r.exclusiveMinimum.Some? ==> AboveKept(r.exclusiveMinimum.value))
      && (r.maximum.Some? ==> AboveKept(r.maximum.value))
      && (r.exclusiveMaximum.Some? ==> AtLeastKept(r.exclusiveMaximum.value))
  }

  /** The schemas whose conversion is claimed to keep their meaning. */
  predicate InFragment(s: JS.Schema)
    decreases s, 5
  {
    s.Schema? ==> ObjectInFragment(s.obj)
  }

  /**
    Beside a reference nothing counts, and an empty enumeration accepts nothing
    whatever comes with it.  Otherwise: one type that is not null, or none; and no
    keyword that the conversion drops or refuses.
   */
  predicate ObjectInFragment(o: JS.SchemaObject)
    decreases o, 4
  {
    || o.reference.Some?
    || o.enumValues == Some([])
    || match (o.instanceType, o.subschemas)
       case (TypeArray(_), _) => false
       case (OneType(NullType), _) => false
       case (OneType(BooleanType), None) => o.format.None? && o.constValue.None? && Readable(o.enumValues, ReadBool)
       case (OneType(ObjectType), None) =>
         o.format.None? && o.constValue.None? && o.enumValues.None? && ObjectRulesInFragment(o.objectRules)
       case (OneType(ArrayType), None) =>
         && o.format.None? && o.constValue.None? && o.enumValues.None?
         && o.arrayRules.Some? && ArrayRulesInFragment(o.arrayRules)
       case (OneType(NumberType), None) =>
         o.constValue.None? && Readable(o.enumValues, ReadNumber) && OneBoundASide(o.numberRules)
       case (OneType(StringType), None) => o.constValue.None? && Readable(o.enumValues, ReadText)
       case (OneType(IntegerType), None) =>
         && o.constValue.None? && Readable(o.enumValues, ReadInteger)
         && OneBoundASide(o.numberRules) && IntegralRules(o.numberRules)
       case (AnyType, Some(sv)) => NoPlainRules(o) && OneKind(sv) && SubschemasInFragment(sv)
       case (AnyType, None) => NoPlainRules(o)
       case (OneType(_), Some(sv)) =>
         && (o.enumValues.Some? && o.constValue.Some? ==> o.constValue.value in o.enumValues.value)
         && OneBoundASide(o.numberRules) && ObjectRulesInFragment(o.objectRules) && ArrayRulesInFragment(o.arrayRules)
         && SubschemasInFragment(sv) && sv.anyOf != JS.Present([]) && sv.oneOf != JS.Present([])
  }

  predicate NoPlainRules(o: JS.SchemaObject) {
    && o.format.None? && o.enumValues.None? && o.constValue.None?
    && o.numberRules.None? && o.textRules.None? && o.arrayRules.None? && o.objectRules.None?
  }

  predicate OneKind(sv: JS.SubschemaValidation) {
    || (sv.allOf.Present? && sv.anyOf.Absent? && sv.oneOf.Absent? && sv.not_.None?)
    || (sv.allOf.Absent? && sv.anyOf.Present? && sv.oneOf.Absent? && sv.not_.None?)
    || (sv.allOf.Absent? && sv.anyOf.Absent? && sv.oneOf.Present? && sv.not_.None?)
    || (sv.allOf.Absent? && sv.anyOf.Absent? && sv.oneOf.Absent? && sv.not_.Some?)
  }

  predicate SubschemasInFragment(sv: JS.SubschemaValidation)
    decreases sv, 2
  {
    && sv.if_.None?
    && ListInFragment(sv.allOf) && ListInFragment(sv.anyOf) && ListInFragment(sv.oneOf)
    && (sv.not_.Some? ==> InFragment(sv.not_.value))
  }

  predicate ListInFragment(schemas: JS.Schemas)
    decreases schemas, 1
  {
    schemas.Present? ==> forall i :: 0 <= i < |schemas.list| ==> InFragment(schemas.list[i])
  }

  predicate ArrayRulesInFragment(rules: Option<JS.ArrayValidation>)
    decreases rules, 2
  {
    rules.Some? ==>
      && rules.value.contains.None? && !rules.value.items.TupleItems?
      && (rules.value.items.EachItem? ==> InFragment(rules.value.items.item))
  }

  predicate ObjectRulesInFragment(rules: Option<JS.ObjectValidation>)
    decreases rules, 2
  {
    rules.Some? ==>
      && rules.value.patternProperties == map[] && rules.value.propertyNames.None?
      && (forall k :: k in rules.value.properties ==> InFragment(rules.value.properties[k]))
      && (rules.value.additionalProperties.Some? ==> InFragment(rules.value.additionalProperties.value))
  }

  // ----------------------------------------------------------------- no panics

  lemma {:induction false} EnumerationReads<T>(values: seq<JS.Value>, read: JS.Value -> Option<T>)
    requires Readable(Some(values), read)
    ensures Enumeration(values, read).Some? && |Enumeration(values, read).value| == |values|
    ensures forall i :: 0 <= i < |values| ==>
      Enumeration(values, read).value[i] == if values[i].Null? then Some(None).value else read(values[i])
  {
    if values != [] {
      assert values[0] in values;
      EnumerationReads(values[1..], read);
    }
  }

  lemma PlainConverts(o: JS.SchemaObject)
    ensures Readable(o.enumValues, ReadBool) ==> OptionalEnumeration(o.enumValues, ReadBool).Some?
    ensures OneBoundASide(o.numberRules) && Readable(o.enumValues, ReadNumber) ==>
      J2oasNumber(o.format, o.numberRules, o.enumValues).Some?
    ensures OneBoundASide(o.numberRules) && Readable(o.enumValues, ReadInteger) ==>
      J2oasInteger(o.format, o.numberRules, o.enumValues).Some?
    ensures o.enumValues != Some([]) && Readable(o.enumValues, ReadText) ==>
      J2oasString(o.format, o.textRules, o.enumValues).Some?
    ensures OneBoundASide(o.numberRules) ==> J2oasNumber(None, o.numberRules, None).Some?
  {
    if o.enumValues.Some? {
      if Readable(o.enumValues, ReadBool) { EnumerationReads(o.enumValues.value, ReadBool); }
      if Readable(o.enumValues, ReadNumber) { EnumerationReads(o.enumValues.value, ReadNumber); }
      if Readable(o.enumValues, ReadInteger) { EnumerationReads(o.enumValues.value, ReadInteger); }
      if Readable(o.enumValues, ReadText) { EnumerationReads(o.enumValues.value, ReadText); }
    }
  }

  /** No panic is reached on the fragment. */
  lemma {:induction false} Converts(name: Option<string>, s: JS.Schema)
    requires InFragment(s)
    ensures J2oasSchema(name, s).Some?
    decreases s, 5
  {
    if s.Schema? { ObjectConverts(name, s.obj); }
  }

  lemma {:induction false} ObjectConverts(name: Option<string>, o: JS.SchemaObject)
    requires ObjectInFragment(o)
    ensures J2oasSchemaObject(name, o).Some?
    decreases o, 4
  {
    if o.reference.None? && o.enumValues != Some([]) {
      if ArrayRulesInFragment(o.arrayRules) { ArrayConverts(o.arrayRules); }
      if o.objectRules.Some? && ObjectRulesInFragment(o.objectRules) { RulesConvert(o.objectRules.value); }
      if o.subschemas.Some? && SubschemasInFragment(o.subschemas.value) { SubschemasConvert(o.subschemas.value); }
      KindConverts(o);
    }
  }

  lemma KindConverts(o: JS.SchemaObject)
    requires ObjectInFragment(o) && o.reference.None? && o.enumValues != Some([])
    requires ArrayRulesInFragment(o.arrayRules) && o.arrayRules.Some? ==> J2oasArray(o.arrayRules).Some?
    requires ObjectRulesInFragment(o.objectRules) ==> J2oasObject(o.objectRules).Some?
    requires o.subschemas.Some? && SubschemasInFragment(o.subschemas.value) ==>
      && SubschemasOfAny(o.subschemas.value).Some?
      && (OneKind(o.subschemas.value) ==> J2oasSubschemas(o.subschemas.value).Some?)
    ensures J2oasSchemaObjectKind(o).Some?
  {
    hide J2oasNumber, J2oasInteger, J2oasString, Enumeration, Readable, OneBoundASide, ArrayRulesInFragment,
      ObjectRulesInFragment,
      SubschemasInFragment, OneKind, J2oasObject, J2oasArray, SubschemasOfAny, J2oasSubschemas;
    PlainConverts(o);
  }

  lemma {:induction false} ArrayConverts(rules: Option<JS.ArrayValidation>)
    requires ArrayRulesInFragment(rules)
    ensures rules.Some? ==> J2oasArray(rules).Some?
    decreases rules, 2
  {
    if rules.Some? && rules.value.items.EachItem? { Converts(None, rules.value.items.item); }
  }

  lemma {:induction false} RulesConvert(ov: JS.ObjectValidation)
    requires ObjectRulesInFragment(Some(ov))
    ensures J2oasObject(Some(ov)).Some?
    decreases ov, 2
  {
    forall k | k in ov.properties ensures J2oasSchema(None, ov.properties[k]).Some? {
      Converts(None, ov.properties[k]);
    }
    if ov.additionalProperties.Some? { Converts(None, ov.additionalProperties.value); }
  }

  lemma {:induction false} SubschemasConvert(sv: JS.SubschemaValidation)
    requires SubschemasInFragment(sv)
    ensures SubschemasOfAny(sv).Some? && (OneKind(sv) ==> J2oasSubschemas(sv).Some?)
    decreases sv, 2
  {
    ListConverts(sv.allOf);
    ListConverts(sv.anyOf);
    ListConverts(sv.oneOf);
    if sv.not_.Some? { Converts(None, sv.not_.value); }
  }

  lemma {:induction false} ListConverts(schemas: JS.Schemas)
    requires ListInFragment(schemas)
    ensures J2oasSchemaVec(schemas).Some?
    decreases schemas, 1
  {
    if schemas.Present? {
      forall i | 0 <= i < |schemas.list| ensures J2oasSchema(None, schemas.list[i]).Some? {
        Converts(None, schemas.list[i]);
      }
    }
  }

  // ------------------------------------------------------- plain keywords mean the same

  lemma EnumerationMeans<T>(values: seq<JS.Value>, read: JS.Value -> Option<T>, v: JS.Value, x: T)
    requires values != [] && Readable(Some(values), read) && !v.Null?
    requires forall u :: u in values && !u.Null? ==> (read(u) == Some(x) <==> u == v)
    ensures Enumeration(values, read).Some?
    ensures OA.Enumerated(Enumeration(values, read).value, x) <==> v in values
  {
    EnumerationReads(values, read);
    var e := Enumeration(values, read).value;
    if v in values {
      var i :| 0 <= i < |values| && values[i] == v;
      assert e[i] == Some(x);
    }
    if Some(x) in e {
      var i :| 0 <= i < |e| && e[i] == Some(x);
      assert values[i] in values;
    }
  }

  lemma BooleanMeans(voc: JS.Vocabulary, defs: JS.Definitions, fuel: nat, o: JS.SchemaObject, v: JS.Value)
    requires ObjectInFragment(o) && o.reference.None? && o.enumValues != Some([])
    requires o.instanceType == JS.OneType(JS.BooleanType) && o.subschemas.None?
    ensures OptionalEnumeration(o.enumValues, ReadBool).Some?
    ensures (v.Boolean? && OA.Enumerated(OptionalEnumeration(o.enumValues, ReadBool).value, v.b))
       <==> JS.ObjectAccepts(voc, defs, fuel, o, v)
  {
    if o.enumValues.Some? {
      EnumerationReads(o.enumValues.value, ReadBool);
      if v.Boolean? { EnumerationMeans(o.enumValues.value, ReadBool, v, v.b); }
    }
  }

  lemma StringMeans(voc: JS.Vocabulary, defs: JS.Definitions, fuel: nat, o: JS.SchemaObject, v: JS.Value)
    requires ObjectInFragment(o) && o.reference.None? && o.enumValues != Some([])
    requires o.instanceType == JS.OneType(JS.StringType) && o.subschemas.None?
    ensures var t := J2oasString(o.format, o.textRules, o.enumValues);
      t.Some? && (OA.TextAccepts(voc, t.value, v) <==> JS.ObjectAccepts(voc, defs, fuel, o, v))
  {
    if o.enumValues.Some? {
      EnumerationReads(o.enumValues.value, ReadText);
      if v.Text? { EnumerationMeans(o.enumValues.value, ReadText, v, v.s); }
    }
  }

  /** The two bounds of a side, as one bound with a flag. */
  lemma BoundsMean(rules: JS.NumberValidation, n: real)
    requires OneBoundASide(Some(rules))
    ensures var min, max := Bound(rules.minimum, rules.exclusiveMinimum), Bound(rules.maximum, rules.exclusiveMaximum);
      && min.Some? && max.Some?
      && (OA.BoundsAccept(rules.multipleOf, min.value.0, min.value.1, max.value.0, max.value.1, n)
          <==> JS.NumberAccepts(rules, n))
  {
    hide JS.MultipleOf;
  }

  lemma NumberMeans(voc: JS.Vocabulary, defs: JS.Definitions, fuel: nat, o: JS.SchemaObject, v: JS.Value)
    requires ObjectInFragment(o) && o.reference.None? && o.enumValues != Some([])
    requires o.instanceType == JS.OneType(JS.NumberType) && o.subschemas.None?
    ensures var t := J2oasNumber(o.format, o.numberRules, o.enumValues);
      t.Some? && (OA.NumberAccepts(voc, t.value, v) <==> JS.ObjectAccepts(voc, defs, fuel, o, v))
  {
    hide OA.BoundsAccept, JS.NumberAccepts, Bound, Enumeration;
    if o.enumValues.Some? {
      EnumerationReads(o.enumValues.value, ReadNumber);
      if v.Number? { EnumerationMeans(o.enumValues.value, ReadNumber, v, v.n); }
    }
    if v.Number? { NumberRulesMean(o.numberRules, v.n); } else { NumberRulesMean(o.numberRules, 0.0); }
  }

  lemma NumberRulesMean(rules: Option<JS.NumberValidation>, n: real)
    requires OneBoundASide(rules)
    ensures var r := if rules.Some? then rules.value else JS.NumberValidation(None, None, None, None, None);
      var min, max := Bound(r.minimum, r.exclusiveMinimum), Bound(r.maximum, r.exclusiveMaximum);
      && min.Some? && max.Some?
      && (OA.BoundsAccept(r.multipleOf, min.value.0, min.value.1, max.value.0, max.value.1, n)
          <==> (rules.Some? ==> JS.NumberAccepts(rules.value, n)))
  {
    if rules.Some? { BoundsMean(rules.value, n); }
  }

  predicate AtLeast(n: int, b: real) { n as real >= b }

  predicate Above(n: int, b: real) { n as real > b }

  /**
    A minimum, or exclusive maximum, cut off to 64 bits means the same for all integers if and only if it is of this
    form.
   */
  lemma AtLeastKeptIff(b: real)
    ensures (forall n: int :: AtLeast(n, b) <==> n >= AsI64(b)) <==> AtLeastKept(b)
  {
    if !AtLeastKept(b) {
      var n := if b > I64_MAX as real then I64_MAX else if b <= I64_MIN as real - 1.0 then I64_MIN - 1 else b.Floor;
      assert AtLeast(n, b) != (n >= AsI64(b));
    }
  }

  /** The same for a maximum, or exclusive minimum. */
  lemma AboveKeptIff(b: real)
    ensures (forall n: int :: Above(n, b) <==> n > AsI64(b)) <==> AboveKept(b)
  {
    if !AboveKept(b) {
      var n := if b >= I64_MAX as real + 1.0 then I64_MAX + 1 else if b < I64_MIN as real then I64_MIN else b.Floor + 1;
      assert Above(n, b) != (n > AsI64(b));
    }
  }

  /** On integers, the cut-off rules say the same. */
  lemma CutOffRulesMean(r: JS.NumberValidation, n: real)
    requires OneBoundASide(Some(r)) && IntegralRules(Some(r)) && JS.Integral(n)
    ensures var min, max := Bound(r.minimum, r.exclusiveMinimum), Bound(r.maximum, r.exclusiveMaximum);
      && min.Some? && max.Some?
      && (OA.BoundsAccept(OA.AsReal(Map(r.multipleOf, AsI64)), OA.AsReal(Map(min.value.0, AsI64)), min.value.1,
                          OA.AsReal(Map(max.value.0, AsI64)), max.value.1, n)
          <==> JS.NumberAccepts(r, n))
  {
    hide JS.MultipleOf, AsI64;
    var i := n.Floor;
    if r.minimum.Some? {
      AtLeastKeptIff(r.minimum.value);
      assert AtLeast(i, r.minimum.value) <==> i >= AsI64(r.minimum.value);
    }
    if r.maximum.Some? {
      AboveKeptIff(r.maximum.value);
      assert Above(i, r.maximum.value) <==> i > AsI64(r.maximum.value);
    }
    if r.exclusiveMinimum.Some? {
      AboveKeptIff(r.exclusiveMinimum.value);
      assert Above(i, r.exclusiveMinimum.value) <==> i > AsI64(r.exclusiveMinimum.value);
    }
    if r.exclusiveMaximum.Some? {
      AtLeastKeptIff(r.exclusiveMaximum.value);
      assert AtLeast(i, r.exclusiveMaximum.value) <==> i >= AsI64(r.exclusiveMaximum.value);
    }
    if r.multipleOf.Some? { CutOffIsExact(r.multipleOf.value); }
  }

  lemma CutOffIsExact(x: real)
    requires FitsI64(x)
    ensures AsI64(x) as real == x
  {
    var i := x.Floor;
    assert x == i as real && -x == (-i) as real;
    assert (-x).Floor == -i;
  }

  lemma IntegerRulesMean(format: Option<string>, rules: Option<JS.NumberValidation>, values: Option<seq<JS.Value>>,
                         n: real)
    requires OneBoundASide(rules) && IntegralRules(rules)
    requires OptionalEnumeration(values, ReadInteger).Some? && JS.Integral(n)
    ensures var t := J2oasInteger(format, rules, values);
      && t.Some? && OA.IntegerFormatName(t.value.format) == format
      && t.value.enumeration == OptionalEnumeration(values, ReadInteger).value
      && (OA.BoundsAccept(OA.AsReal(t.value.multipleOf), OA.AsReal(t.value.minimum), t.value.exclusiveMinimum,
                          OA.AsReal(t.value.maximum), t.value.exclusiveMaximum, n)
          <==> (rules.Some? ==> JS.NumberAccepts(rules.value, n)))
  {
    hide JS.NumberAccepts, OptionalEnumeration, AsI64, JS.MultipleOf, JS.Integral;
    if rules.Some? { CutOffRulesMean(rules.value, n); }
  }

  lemma IntegerMeans(voc: JS.Vocabulary, defs: JS.Definitions, fuel: nat, o: JS.SchemaObject, v: JS.Value)
    requires ObjectInFragment(o) && o.reference.None? && o.enumValues != Some([])
    requires o.instanceType == JS.OneType(JS.IntegerType) && o.subschemas.None?
    ensures var t := J2oasInteger(o.format, o.numberRules, o.enumValues);
      t.Some? && (OA.IntegerAccepts(voc, t.value, v) <==> JS.ObjectAccepts(voc, defs, fuel, o, v))
  {
    hide OA.BoundsAccept, JS.NumberAccepts, Bound, Enumeration, J2oasInteger, OA.IntegerFormatName;
    if o.enumValues.Some? {
      EnumerationReads(o.enumValues.value, ReadInteger);
      if v.Number? && JS.Integral(v.n) { EnumerationMeans(o.enumValues.value, ReadInteger, v, v.n.Floor); }
    }
    IntegerRulesMean(o.format, o.numberRules, o.enumValues, if v.Number? && JS.Integral(v.n) then v.n else 0.0);
  }

  lemma EverythingIsAccepted(voc: JS.Vocabulary, components: OA.Components, fuel: nat, v: JS.Value)
    ensures OA.KindAccepts(voc, components, fuel, OA.Any(DEFAULT_ANY), v)
  {
    assert JS.All(OA.Verdicts(voc, components, fuel, DEFAULT_ANY.allOf, v));
  }

  /** The permissive schema accepts every value, and its negation none. */
  lemma EverythingAndNothing(voc: JS.Vocabulary, components: OA.Components, fuel: nat, v: JS.Value)
    ensures OA.KindAccepts(voc, components, fuel, OA.Any(DEFAULT_ANY), v)
    ensures !OA.KindAccepts(voc, components, fuel, NEVER, v)
  {
    EverythingIsAccepted(voc, components, fuel, v);
    assert OA.Valid(voc, components, fuel, OA.Item(OA.Schema(DEFAULT_DATA, OA.Any(DEFAULT_ANY))), v);
  }

  // -------------------------------------------------------- the whole means the same

  function Components(defs: JS.Definitions): OA.Components {
    map name | name in defs && J2oasSchema(None, defs[name]).Some? :: J2oasSchema(None, defs[name]).value
  }

  ghost predicate DefinitionsInFragment(defs: JS.Definitions) {
    forall name :: name in defs ==> InFragment(defs[name])
  }

  /** A schema and its conversion accept the same values. */
  ghost predicate Agree(voc: JS.Vocabulary, defs: JS.Definitions, fuel: nat, s: JS.Schema, r: Option<OA.ReferenceOr>,
                        v: JS.Value) {
    r.Some? && (OA.Valid(voc, Components(defs), fuel, r.value, v) <==> JS.Valid(voc, defs, fuel, s, v))
  }

  /**
    A value is valid against a schema if and only if it is valid against the
    converted schema, where both sides follow references through their own
    definitions, to the same depth.
   */
  lemma {:induction false} ConversionKeepsMeaning(voc: JS.Vocabulary, defs: JS.Definitions, fuel: nat,
                                                  name: Option<string>,
                                                  s: JS.Schema, v: JS.Value)
    requires InFragment(s) && DefinitionsInFragment(defs)
    ensures J2oasSchema(name, s).Some?
    ensures OA.Valid(voc, Components(defs), fuel, J2oasSchema(name, s).value, v) <==> JS.Valid(voc, defs, fuel, s, v)
    decreases fuel, s, 6
  {
    hide OA.KindAccepts, JS.ObjectAccepts, J2oasSchemaObject, ObjectInFragment, Components;
    EverythingAndNothing(voc, Components(defs), fuel, v);
    if s.Schema? { ObjectKeepsMeaning(voc, defs, fuel, name, s.obj, v); }
  }

  lemma {:induction false} ObjectKeepsMeaning(voc: JS.Vocabulary, defs: JS.Definitions, fuel: nat, name: Option<string>,
                                              o: JS.SchemaObject, v: JS.Value)
    requires ObjectInFragment(o) && DefinitionsInFragment(defs)
    ensures Agree(voc, defs, fuel, JS.Schema(o), J2oasSchemaObject(name, o), v)
    decreases fuel, o, 5
  {
    hide J2oasSchemaObjectKind, OA.KindAccepts, JS.ObjectAccepts, ObjectInFragment, Components, JS.Nullable;
    if o.reference.Some? {
      ReferenceKeepsMeaning(voc, defs, fuel, o, v);
    } else {
      KindKeepsMeaning(voc, defs, fuel, o, v);
    }
  }

  lemma {:induction false} ReferenceKeepsMeaning(voc: JS.Vocabulary, defs: JS.Definitions, fuel: nat,
                                                 o: JS.SchemaObject, v: JS.Value)
    requires o.reference.Some? && DefinitionsInFragment(defs)
    ensures var reference := OA.Reference(o.reference.value);
      && (OA.Valid(voc, Components(defs), fuel, reference, v) <==> JS.ObjectAccepts(voc, defs, fuel, o, v))
      && (OA.KindAccepts(voc, Components(defs), fuel, OA.AllOf([reference]), v)
          <==> JS.ObjectAccepts(voc, defs, fuel, o, v))
    decreases fuel, o, 4
  {
    hide J2oasSchema, InFragment;
    var name := JS.NameOf(o.reference.value);
    if name.Some? && fuel > 0 && name.value in defs {
      ConversionKeepsMeaning(voc, defs, fuel - 1, None, defs[name.value], v);
      assert name.value in Components(defs);
    }
    var reference := OA.Reference(o.reference.value);
    assert [reference][0] == reference;
    assert OA.Valid(voc, Components(defs), fuel, reference, v) <==> JS.ObjectAccepts(voc, defs, fuel, o, v);
    AllOfOne(voc, Components(defs), fuel, reference, v);
  }

  lemma AllOfOne(voc: JS.Vocabulary, components: OA.Components, fuel: nat, r: OA.ReferenceOr, v: JS.Value)
    ensures OA.KindAccepts(voc, components, fuel, OA.AllOf([r]), v) <==> OA.Valid(voc, components, fuel, r, v)
  {
    hide OA.Valid;
    assert JS.All(OA.Verdicts(voc, components, fuel, [r], v)) <==> OA.Verdicts(voc, components, fuel, [r], v)[0];
  }

  /** What remains of a schema's meaning in the cases without plain keywords. */
  lemma BareMeans(voc: JS.Vocabulary, defs: JS.Definitions, fuel: nat, o: JS.SchemaObject, v: JS.Value)
    requires ObjectInFragment(o) && o.reference.None?
    ensures o.enumValues == Some([]) ==> !JS.ObjectAccepts(voc, defs, fuel, o, v)
    ensures o.enumValues.None? && o.subschemas.None? && o.instanceType == JS.OneType(JS.ObjectType) ==>
      (JS.ObjectAccepts(voc, defs, fuel, o, v) <==>
        v.Object? && (o.objectRules.Some? ==> JS.FieldsAccept(voc, defs, fuel, o.objectRules.value, v.fields)))
    ensures o.enumValues.None? && o.subschemas.None? && o.instanceType == JS.OneType(JS.ArrayType) ==>
      (JS.ObjectAccepts(voc, defs, fuel, o, v) <==>
        v.Array? && JS.ArrayAccepts(voc, defs, fuel, o.arrayRules.value, v.items))
    ensures o.enumValues.None? && o.instanceType.AnyType? ==>
      (JS.ObjectAccepts(voc, defs, fuel, o, v) <==>
        (o.subschemas.Some? ==> JS.SubschemasAccept(voc, defs, fuel, o.subschemas.value, v)))
  {
    hide JS.FieldsAccept, JS.ArrayAccepts, JS.SubschemasAccept, SubschemasInFragment, ArrayRulesInFragment,
      ObjectRulesInFragment;
  }

  lemma {:induction false} KindKeepsMeaning(voc: JS.Vocabulary, defs: JS.Definitions, fuel: nat, o: JS.SchemaObject,
                                            v: JS.Value)
    requires ObjectInFragment(o) && DefinitionsInFragment(defs) && o.reference.None?
    ensures J2oasSchemaObjectKind(o).Some?
    ensures OA.KindAccepts(voc, Components(defs), fuel, J2oasSchemaObjectKind(o).value, v) <==>
      JS.ObjectAccepts(voc, defs, fuel, o, v)
    decreases fuel, o, 4
  {
    hide Components, J2oasNumber, J2oasInteger, J2oasString, OptionalEnumeration, J2oasObject, J2oasArray,
      J2oasSubschemas, J2oasAny,
      OA.TextAccepts, OA.NumberAccepts, OA.IntegerAccepts, OA.Enumerated, DefinitionsInFragment, JS.ObjectAccepts,
      JS.PlainAccepts,
      SubschemasInFragment, ArrayRulesInFragment, ObjectRulesInFragment, IntegralRules, OneBoundASide, Readable;
    ObjectConverts(None, o);
    BareMeans(voc, defs, fuel, o, v);
    if o.enumValues == Some([]) {
      EverythingAndNothing(voc, Components(defs), fuel, v);
    } else {
      var types := o.instanceType;
      if o.subschemas.Some? {
        if types.AnyType? {
          SubschemasKeepMeaning(voc, defs, fuel, o.subschemas.value, v);
        } else {
          AnyKeepsMeaning(voc, defs, fuel, o, v);
        }
      } else if types == JS.OneType(JS.BooleanType) {
        BooleanMeans(voc, defs, fuel, o, v);
      } else if types == JS.OneType(JS.NumberType) {
        NumberMeans(voc, defs, fuel, o, v);
      } else if types == JS.OneType(JS.StringType) {
        StringMeans(voc, defs, fuel, o, v);
      } else if types == JS.OneType(JS.IntegerType) {
        IntegerMeans(voc, defs, fuel, o, v);
      } else if types == JS.OneType(JS.ObjectType) {
        if v.Object? { FieldsKeepMeaning(voc, defs, fuel, o.objectRules, v.fields); }
      } else if types == JS.OneType(JS.ArrayType) {
        if v.Array? { ArrayKeepsMeaning(voc, defs, fuel, o.arrayRules, v.items); }
      } else {
        EverythingAndNothing(voc, Components(defs), fuel, v);
      }
    }
  }

  lemma FieldsWithoutPatterns(voc: JS.Vocabulary, defs: JS.Definitions, fuel: nat, ov: JS.ObjectValidation,
                              fields: map<string, JS.Value>)
    requires ov.patternProperties == map[] && ov.propertyNames.None?
    ensures JS.FieldsAccept(voc, defs, fuel, ov, fields) <==>
      && JS.SizeAccepts(ov.minProperties, ov.maxProperties, |fields|) && ov.required <= fields.Keys
      && JS.PropertiesAccept(voc, defs, fuel, ov, fields) && JS.AdditionalAccepts(voc, defs, fuel, ov, fields)
  {
    hide JS.PropertiesAccept, JS.AdditionalAccepts, JS.Valid, JS.SizeAccepts;
  }

  lemma ObjectLimitsKept(ov: JS.ObjectValidation, keys: set<string>)
    requires J2oasObject(Some(ov)).Some?
    ensures var t := J2oasObject(Some(ov)).value;
      && t.minProperties == ov.minProperties && t.maxProperties == ov.maxProperties
      && ((forall k :: k in t.required ==> k in keys) <==> ov.required <= keys)
  {
    hide J2oasSchema, J2oasAdditional;
  }

  lemma {:induction false} FieldsKeepMeaning(voc: JS.Vocabulary, defs: JS.Definitions, fuel: nat,
                                             rules: Option<JS.ObjectValidation>, fields: map<string, JS.Value>)
    requires ObjectRulesInFragment(rules) && DefinitionsInFragment(defs)
    ensures J2oasObject(rules).Some?
    ensures OA.FieldsAccept(voc, Components(defs), fuel, J2oasObject(rules).value, fields)
       <==> (rules.Some? ==> JS.FieldsAccept(voc, defs, fuel, rules.value, fields))
    decreases fuel, rules, 3
  {
    if rules.Some? {
      hide Components, InFragment, J2oasObject, OA.PropertiesAccept, OA.AdditionalAccepts, JS.FieldsAccept,
        JS.PropertiesAccept, JS.AdditionalAccepts, JS.SizeAccepts;
      RulesConvert(rules.value);
      PropertiesKeepMeaning(voc, defs, fuel, rules.value, fields);
      AdditionalKeepsMeaning(voc, defs, fuel, rules.value, fields);
      FieldsWithoutPatterns(voc, defs, fuel, rules.value, fields);
      ObjectLimitsKept(rules.value, fields.Keys);
    }
  }

  lemma {:induction false} PropertiesKeepMeaning(voc: JS.Vocabulary, defs: JS.Definitions, fuel: nat,
                                                 ov: JS.ObjectValidation, fields: map<string, JS.Value>)
    requires ObjectRulesInFragment(Some(ov)) && DefinitionsInFragment(defs) && J2oasObject(Some(ov)).Some?
    ensures OA.PropertiesAccept(voc, Components(defs), fuel, J2oasObject(Some(ov)).value, fields)
       <==> JS.PropertiesAccept(voc, defs, fuel, ov, fields)
    decreases fuel, ov, 2
  {
    hide Components, OA.Valid, JS.Valid, J2oasSchema, InFragment, J2oasAdditional;
    forall k | k in ov.properties && k in fields ensures
      OA.Valid(voc, Components(defs), fuel, J2oasObject(Some(ov)).value.properties[k], fields[k])
      <==> JS.Valid(voc, defs, fuel, ov.properties[k], fields[k])
    {
      ConversionKeepsMeaning(voc, defs, fuel, None, ov.properties[k], fields[k]);
    }
  }

  lemma {:induction false} AdditionalKeepsMeaning(voc: JS.Vocabulary, defs: JS.Definitions, fuel: nat,
                                                  ov: JS.ObjectValidation, fields: map<string, JS.Value>)
    requires ObjectRulesInFragment(Some(ov)) && DefinitionsInFragment(defs) && J2oasObject(Some(ov)).Some?
    ensures OA.AdditionalAccepts(voc, Components(defs), fuel, J2oasObject(Some(ov)).value, fields)
       <==> JS.AdditionalAccepts(voc, defs, fuel, ov, fields)
    decreases fuel, ov, 2
  {
    hide Components, OA.Valid, J2oasSchemaObject, J2oasSchema, ObjectInFragment;
    if ov.additionalProperties.Some? && ov.additionalProperties.value.Schema? {
      var additional := J2oasObject(Some(ov)).value.additionalProperties;
      forall k | k in fields ensures
        OA.Valid(voc, Components(defs), fuel, additional.schema, fields[k])
        <==> JS.Valid(voc, defs, fuel, ov.additionalProperties.value, fields[k])
      {
        ObjectKeepsMeaning(voc, defs, fuel, None, ov.additionalProperties.value.obj, fields[k]);
      }
    }
  }

  lemma {:induction false} ArrayKeepsMeaning(voc: JS.Vocabulary, defs: JS.Definitions, fuel: nat,
                                             rules: Option<JS.ArrayValidation>, items: seq<JS.Value>)
    requires rules.Some? && ArrayRulesInFragment(rules) && DefinitionsInFragment(defs)
    ensures J2oasArray(rules).Some?
    ensures var t := J2oasArray(rules).value;
      && (JS.SizeAccepts(t.minItems, t.maxItems, |items|) && (t.uniqueItems ==> JS.AllDistinct(items))
          && OA.ItemsAccept(voc, Components(defs), fuel, t.items, items)
          <==> JS.ArrayAccepts(voc, defs, fuel, rules.value, items))
      && t.minItems == rules.value.minItems && t.maxItems == rules.value.maxItems
      && t.uniqueItems == (rules.value.uniqueItems == Some(true))
    decreases fuel, rules, 3
  {
    hide Components, OA.Valid, JS.Valid, J2oasSchema, InFragment, JS.AllDistinct, JS.SizeAccepts;
    ArrayConverts(rules);
    if rules.value.items.EachItem? {
      forall i | 0 <= i < |items| ensures
        OA.Valid(voc, Components(defs), fuel, J2oasArray(rules).value.items.item, items[i])
        <==> JS.Valid(voc, defs, fuel, rules.value.items.item, items[i])
      {
        ConversionKeepsMeaning(voc, defs, fuel, None, rules.value.items.item, items[i]);
      }
    }
  }

  /** Of a list of schemas, the same ones accept the value after the conversion. */
  lemma {:induction false} ListKeepsMeaning(voc: JS.Vocabulary, defs: JS.Definitions, fuel: nat, schemas: JS.Schemas,
                                            v: JS.Value)
    requires ListInFragment(schemas) && DefinitionsInFragment(defs)
    ensures J2oasSchemaVec(schemas).Some?
    ensures OA.Verdicts(voc, Components(defs), fuel, J2oasSchemaVec(schemas).value, v)
         == if schemas.Present? then JS.Verdicts(voc, defs, fuel, schemas, v) else []
    decreases fuel, schemas, 1
  {
    hide Components, OA.Valid, JS.Valid, J2oasSchema, InFragment;
    ListConverts(schemas);
    if schemas.Present? {
      forall i | 0 <= i < |schemas.list| ensures
        OA.Valid(voc, Components(defs), fuel, J2oasSchemaVec(schemas).value[i], v)
        <==> JS.Valid(voc, defs, fuel, schemas.list[i], v)
      {
        ConversionKeepsMeaning(voc, defs, fuel, None, schemas.list[i], v);
      }
    }
  }

  lemma {:induction false} SubschemasKeepMeaning(voc: JS.Vocabulary, defs: JS.Definitions, fuel: nat,
                                                 sv: JS.SubschemaValidation, v: JS.Value)
    requires SubschemasInFragment(sv) && OneKind(sv) && DefinitionsInFragment(defs)
    ensures J2oasSubschemas(sv).Some?
    ensures OA.KindAccepts(voc, Components(defs), fuel, J2oasSubschemas(sv).value, v) <==>
      JS.SubschemasAccept(voc, defs, fuel, sv, v)
    decreases fuel, sv, 2
  {
    hide Components, OA.Valid, JS.Valid, J2oasSchema, InFragment, ListInFragment, J2oasSchemaVec, OA.Verdicts,
      JS.Verdicts,
      JS.AtLeastOne, JS.ExactlyOne;
    ListKeepsMeaning(voc, defs, fuel, sv.allOf, v);
    ListKeepsMeaning(voc, defs, fuel, sv.anyOf, v);
    ListKeepsMeaning(voc, defs, fuel, sv.oneOf, v);
    if sv.not_.Some? { ConversionKeepsMeaning(voc, defs, fuel, None, sv.not_.value, v); }
  }

  /** The same for the subschemas of a mixed schema. */
  lemma {:induction false} MixedSubschemasKeepMeaning(voc: JS.Vocabulary, defs: JS.Definitions, fuel: nat,
                                                      sv: JS.SubschemaValidation, v: JS.Value)
    requires SubschemasInFragment(sv) && sv.anyOf != JS.Present([])
    requires sv.oneOf != JS.Present([]) && DefinitionsInFragment(defs)
    ensures SubschemasOfAny(sv).Some?
    ensures var components, (allOf, anyOf, oneOf, not_) := Components(defs), SubschemasOfAny(sv).value;
      && JS.All(OA.Verdicts(voc, components, fuel, allOf, v))
      && (anyOf != [] ==> JS.AtLeastOne(OA.Verdicts(voc, components, fuel, anyOf, v)))
      && (oneOf != [] ==> JS.ExactlyOne(OA.Verdicts(voc, components, fuel, oneOf, v)))
      && (not_.Negated? ==> !OA.Valid(voc, components, fuel, not_.not_, v))
      <==> JS.SubschemasAccept(voc, defs, fuel, sv, v)
    decreases fuel, sv, 2
  {
    hide Components, OA.Valid, JS.Valid, J2oasSchema, InFragment, ListInFragment, J2oasSchemaVec, OA.Verdicts,
      JS.Verdicts,
      JS.AtLeastOne, JS.ExactlyOne;
    ListKeepsMeaning(voc, defs, fuel, sv.allOf, v);
    ListKeepsMeaning(voc, defs, fuel, sv.anyOf, v);
    ListKeepsMeaning(voc, defs, fuel, sv.oneOf, v);
    if sv.not_.Some? { ConversionKeepsMeaning(voc, defs, fuel, None, sv.not_.value, v); }
  }

  /** A mixed schema takes its keywords from where they belong. */
  ghost predicate Mixes(o: JS.SchemaObject, a: OA.AnySchema) {
    && o.instanceType.OneType? && o.subschemas.Some?
    && a.typ == Some(TypeName(o.instanceType.t)) && a.format == o.format
    && AnyEnumeration(o) == Some(a.enumeration)
    && (a.pattern, a.minLength, a.maxLength) ==
       (if o.textRules.None? then (None, None, None)
        else (o.textRules.value.pattern, o.textRules.value.minLength, o.textRules.value.maxLength))
    && J2oasObject(o.objectRules) == Some(a.obj)
    && SubschemasOfAny(o.subschemas.value) == Some((a.allOf, a.anyOf, a.oneOf, a.not_))
    && (if o.arrayRules.None? then a.items.NoItems? && a.minItems.None? && a.maxItems.None? && a.uniqueItems.None?
        else
          var t := J2oasArray(o.arrayRules);
          t.Some? && a.items == t.value.items && a.minItems == t.value.minItems && a.maxItems == t.value.maxItems
          && a.uniqueItems == o.arrayRules.value.uniqueItems)
  }

  lemma AnyMixes(o: JS.SchemaObject, n: real)
    requires o.instanceType.OneType? && o.subschemas.Some? && OneBoundASide(o.numberRules)
    requires J2oasAny(o.instanceType.t, o).Some?
    ensures var kind := J2oasAny(o.instanceType.t, o).value;
      && kind.Any? && Mixes(o, kind.any)
      && var a := kind.any;
        OA.BoundsAccept(a.multipleOf, a.minimum, a.exclusiveMinimum == Some(true),
                        a.maximum, a.exclusiveMaximum == Some(true), n)
        <==> (o.numberRules.Some? ==> JS.NumberAccepts(o.numberRules.value, n))
  {
    hide J2oasObject, J2oasArray, SubschemasOfAny, JS.NumberAccepts, AnyEnumeration, JS.MultipleOf;
    NumberRulesMean(o.numberRules, n);
  }

  lemma MixedPlainKeepsMeaning(voc: JS.Vocabulary, o: JS.SchemaObject, a: OA.AnySchema, v: JS.Value)
    requires Mixes(o, a) && o.enumValues != Some([])
    requires v.Number? ==>
      (OA.BoundsAccept(a.multipleOf, a.minimum, a.exclusiveMinimum == Some(true),
                       a.maximum, a.exclusiveMaximum == Some(true), v.n)
       <==> (o.numberRules.Some? ==> JS.NumberAccepts(o.numberRules.value, v.n)))
    ensures OA.PlainAccepts(voc, a, v) <==>
      && JS.PlainAccepts(voc, o, v)
      && (v.Array? ==> JS.SizeAccepts(a.minItems, a.maxItems, |v.items|))
      && (v.Array? && a.uniqueItems == Some(true) ==> JS.AllDistinct(v.items))
  {
    hide J2oasObject, J2oasArray, SubschemasOfAny, JS.NumberAccepts, JS.AllDistinct, OA.BoundsAccept;
  }

  lemma {:induction false} AnyKeepsMeaning(voc: JS.Vocabulary, defs: JS.Definitions, fuel: nat, o: JS.SchemaObject,
                                           v: JS.Value)
    requires ObjectInFragment(o) && DefinitionsInFragment(defs) && o.reference.None? && o.enumValues != Some([])
    requires o.instanceType.OneType? && o.subschemas.Some?
    ensures J2oasAny(o.instanceType.t, o).Some?
    ensures OA.KindAccepts(voc, Components(defs), fuel, J2oasAny(o.instanceType.t, o).value, v) <==>
      JS.ObjectAccepts(voc, defs, fuel, o, v)
    decreases fuel, o, 3
  {
    hide Components, J2oasObject, J2oasArray, J2oasAny, SubschemasOfAny, SubschemasInFragment, ObjectRulesInFragment,
      ArrayRulesInFragment,
      JS.SubschemasAccept, JS.ArrayAccepts, JS.FieldsAccept, JS.PlainAccepts, JS.AllDistinct, JS.SizeAccepts,
      JS.NumberAccepts,
      OA.FieldsAccept, OA.Verdicts, JS.All, JS.AtLeastOne, JS.ExactlyOne, OA.Valid, OA.PlainAccepts, OA.BoundsAccept;
    AnyConverts(o);
    AnyMixes(o, if v.Number? then v.n else 0.0);
    MixedPlainKeepsMeaning(voc, o, J2oasAny(o.instanceType.t, o).value.any, v);
    MixedSubschemasKeepMeaning(voc, defs, fuel, o.subschemas.value, v);
    if v.Object? { FieldsKeepMeaning(voc, defs, fuel, o.objectRules, v.fields); }
    if v.Array? && o.arrayRules.Some? { ArrayKeepsMeaning(voc, defs, fuel, o.arrayRules, v.items); }
    if v.Array? { AnySize(|v.items|); }
  }

  lemma AnySize(size: nat)
    ensures JS.SizeAccepts(None, None, size)
  {
  }

  lemma AnyConverts(o: JS.SchemaObject)
    requires ObjectInFragment(o) && o.reference.None? && o.enumValues != Some([])
    requires o.instanceType.OneType? && o.subschemas.Some?
    ensures J2oasAny(o.instanceType.t, o).Some? && J2oasSchemaObjectKind(o) == J2oasAny(o.instanceType.t, o)
  {
    ObjectConverts(None, o);
    hide ObjectInFragment, J2oasAny;
  }

  // --------------------------------------------------------- outside the fragment

  const PLAIN: JS.SchemaObject :=
    JS.SchemaObject(None, JS.AnyType, None, None, None, None, None, None, None, None, None, map[])

  /** A conversion without a panic that changes whether `v` is accepted. */
  ghost predicate ChangesMeaning(o: JS.SchemaObject, voc: JS.Vocabulary, fuel: nat, v: JS.Value) {
    var r := J2oasSchema(None, JS.Schema(o));
    r.Some? && OA.Valid(voc, map[], fuel, r.value, v) != JS.Valid(voc, map[], fuel, JS.Schema(o), v)
  }

  /** The null type becomes a string type whose only value is null, and so accepts nothing. */
  lemma NullTypeIsLost(voc: JS.Vocabulary, fuel: nat)
    ensures ChangesMeaning(PLAIN.(instanceType := JS.OneType(JS.NullType)), voc, fuel, JS.Null)
  {
  }

  /** Outside mixed schemas a constant is dropped. */
  lemma ConstantIsLost(voc: JS.Vocabulary, fuel: nat)
    ensures
      var o := PLAIN.(instanceType := JS.OneType(JS.StringType), constValue := Some(JS.Text("a")));
      ChangesMeaning(o, voc, fuel, JS.Text("b"))
  {
    var o := PLAIN.(instanceType := JS.OneType(JS.StringType), constValue := Some(JS.Text("a")));
    assert !JS.PlainAccepts(voc, o, JS.Text("b"));
    assert J2oasString(None, None, None) == Some(OA.StringType(OA.Empty, None, [], None, None));
  }

  /** An enumeration without a type is dropped. */
  lemma UntypedEnumerationIsLost(voc: JS.Vocabulary, fuel: nat)
    ensures ChangesMeaning(PLAIN.(enumValues := Some([JS.Text("a")])), voc, fuel, JS.Text("b"))
  {
    EverythingAndNothing(voc, map[], fuel, JS.Text("b"));
    var o := PLAIN.(enumValues := Some([JS.Text("a")]));
    assert J2oasSchema(None, JS.Schema(o)) == Some(OA.Item(OA.Schema(DataOf(None, o), OA.Any(DEFAULT_ANY))));
    assert !JS.PlainAccepts(voc, o, JS.Text("b"));
  }

  /** The converted null type accepts no value at all, unless it is nullable and the value null. */
  lemma NullTypeAcceptsNothing(voc: JS.Vocabulary, components: OA.Components, fuel: nat, name: Option<string>,
                               o: JS.SchemaObject, v: JS.Value)
    requires o.reference.None? && o.enumValues != Some([])
    requires o.instanceType == JS.OneType(JS.NullType) && o.subschemas.None?
    ensures J2oasSchema(name, JS.Schema(o)).Some?
    ensures OA.Valid(voc, components, fuel, J2oasSchema(name, JS.Schema(o)).value, v) <==>
      v.Null? && "nullable" in o.extensions && o.extensions["nullable"] == JS.Boolean(true)
  {
    var kind := OA.Type(OA.StringT(OA.StringType(OA.Empty, None, [None], None, None)));
    assert J2oasSchemaObjectKind(o) == Some(kind);
    assert J2oasSchema(name, JS.Schema(o)) == Some(OA.Item(OA.Schema(DataOf(name, o), kind)));
    assert !OA.KindAccepts(voc, components, fuel, kind, v);
  }

  /** Every schema marked nullable accepts null once it is converted, whatever else it says. */
  lemma NullableAcceptsNull(voc: JS.Vocabulary, components: OA.Components, fuel: nat, name: Option<string>,
                            o: JS.SchemaObject)
    requires "nullable" in o.extensions && o.extensions["nullable"] == JS.Boolean(true)
    requires J2oasSchema(name, JS.Schema(o)).Some?
    ensures OA.Valid(voc, components, fuel, J2oasSchema(name, JS.Schema(o)).value, JS.Null)
  {
    hide J2oasSchemaObjectKind, OA.KindAccepts;
  }

  // -------------------------------------------------------- what is left unread

  /** The subschemas that are read: no conditions. */
  function ReadSubschemas(sv: JS.SubschemaValidation): JS.SubschemaValidation {
    sv.(if_ := None, then_ := None, else_ := None)
  }

  /** The rules that are read: no patterns for names of properties, and no item that must be contained. */
  function ReadObjectRules(rules: Option<JS.ObjectValidation>): Option<JS.ObjectValidation> {
    Map(rules, (ov: JS.ObjectValidation) => ov.(patternProperties := map[], propertyNames := None))
  }

  function ReadArrayRules(rules: Option<JS.ArrayValidation>): Option<JS.ArrayValidation> {
    Map(rules, (av: JS.ArrayValidation) => av.(contains := None, additionalItems := None))
  }

  /** The keywords that the conversion reads of a schema of this type and with or without subschemas. */
  function Read(o: JS.SchemaObject): JS.SchemaObject {
    var bare := PLAIN.(instanceType := o.instanceType);
    match (o.instanceType, o.subschemas)
    case (TypeArray(_), _) => bare
    case (OneType(NullType), None) => bare
    case (OneType(BooleanType), None) => bare.(enumValues := o.enumValues)
    case (OneType(ObjectType), None) => bare.(objectRules := ReadObjectRules(o.objectRules))
    case (OneType(ArrayType), None) => bare.(arrayRules := ReadArrayRules(o.arrayRules))
    case (OneType(NumberType), None) =>
      bare.(format := o.format, numberRules := o.numberRules, enumValues := o.enumValues)
    case (OneType(StringType), None) => bare.(format := o.format, textRules := o.textRules, enumValues := o.enumValues)
    case (OneType(IntegerType), None) =>
      bare.(format := o.format, numberRules := o.numberRules, enumValues := o.enumValues)
    case (AnyType, None) => bare
    case (AnyType, Some(sv)) => bare.(subschemas := Some(ReadSubschemas(sv)))
    case (OneType(_), Some(sv)) =>
      bare.(format := o.format, enumValues := o.enumValues, constValue := o.constValue, numberRules := o.numberRules,
            textRules := o.textRules, objectRules := ReadObjectRules(o.objectRules),
            arrayRules := ReadArrayRules(o.arrayRules), subschemas := Some(ReadSubschemas(sv)))
  }

  /** Every other keyword is dropped: a schema is converted as if it had only those that are read. */
  lemma OthersAreDropped(o: JS.SchemaObject)
    requires o.enumValues != Some([])
    ensures J2oasSchemaObjectKind(o) == J2oasSchemaObjectKind(Read(o))
  {
    hide *;
    match (o.instanceType, o.subschemas)
    case (OneType(_), Some(_)) => MixedIsRead(o);
    case (_, Some(_)) => WrapperIsRead(o);
    case (_, None) => PlainIsRead(o);
  }

  lemma PlainIsRead(o: JS.SchemaObject)
    requires o.enumValues != Some([]) && o.subschemas.None?
    ensures J2oasSchemaObjectKind(o) == J2oasSchemaObjectKind(Read(o))
  {
    ObjectRulesAreRead(o.objectRules);
    ArrayRulesAreRead(o.arrayRules);
    hide J2oasObject, J2oasArray, J2oasNumber, J2oasInteger, J2oasString, J2oasAny, J2oasSubschemas,
      ReadObjectRules, ReadArrayRules, ReadSubschemas, OptionalEnumeration;
  }

  lemma WrapperIsRead(o: JS.SchemaObject)
    requires o.enumValues != Some([]) && o.subschemas.Some? && !o.instanceType.OneType?
    ensures J2oasSchemaObjectKind(o) == J2oasSchemaObjectKind(Read(o))
  {
    SubschemasAreRead(o.subschemas.value);
    hide J2oasObject, J2oasArray, J2oasNumber, J2oasInteger, J2oasString, J2oasAny, J2oasSubschemas,
      ReadObjectRules, ReadArrayRules, ReadSubschemas, OptionalEnumeration;
  }

  lemma MixedIsRead(o: JS.SchemaObject)
    requires o.enumValues != Some([]) && o.subschemas.Some? && o.instanceType.OneType?
    ensures J2oasSchemaObjectKind(o) == J2oasSchemaObjectKind(Read(o))
  {
    hide *;
    AnyIsRead(o.instanceType.t, o);
    ReadOfMixed(o);
    KindOfMixed(o);
    KindOfMixed(Read(o));
  }

  lemma KindOfMixed(o: JS.SchemaObject)
    requires o.enumValues != Some([]) && o.subschemas.Some? && o.instanceType.OneType?
    ensures J2oasSchemaObjectKind(o) == J2oasAny(o.instanceType.t, o)
  {
    hide J2oasAny;
  }

  lemma ReadOfMixed(o: JS.SchemaObject)
    requires o.subschemas.Some? && o.instanceType.OneType?
    ensures var r := Read(o);
      && r.instanceType == o.instanceType && r.enumValues == o.enumValues && r.constValue == o.constValue
      && r.format == o.format && r.numberRules == o.numberRules && r.textRules == o.textRules
      && r.objectRules == ReadObjectRules(o.objectRules) && r.arrayRules == ReadArrayRules(o.arrayRules)
      && r.subschemas == Some(ReadSubschemas(o.subschemas.value))
  {
    hide ReadObjectRules, ReadArrayRules, ReadSubschemas;
  }

  lemma ObjectRulesAreRead(rules: Option<JS.ObjectValidation>)
    ensures J2oasObject(rules) == J2oasObject(ReadObjectRules(rules))
    ensures rules.Some? <==> ReadObjectRules(rules).Some?
  {
    hide J2oasSchema, J2oasSchemaObject;
  }

  lemma ArrayRulesAreRead(rules: Option<JS.ArrayValidation>)
    ensures J2oasArray(rules) == J2oasArray(ReadArrayRules(rules))
    ensures rules.Some? <==> ReadArrayRules(rules).Some?
    ensures rules.Some? ==> ReadArrayRules(rules).value.uniqueItems == rules.value.uniqueItems
  {
    hide J2oasSchema;
  }

  lemma SubschemasAreRead(sv: JS.SubschemaValidation)
    ensures J2oasSubschemas(sv) == J2oasSubschemas(ReadSubschemas(sv))
    ensures SubschemasOfAny(sv) == SubschemasOfAny(ReadSubschemas(sv))
  {
    hide J2oasSchema, J2oasSchemaVec;
  }

  lemma AnyIsRead(t: JS.InstanceType, o: JS.SchemaObject)
    requires o.subschemas.Some? && o.instanceType == JS.OneType(t)
    ensures Read(o).subschemas.Some? && J2oasAny(t, o) == J2oasAny(t, Read(o))
  {
    hide *;
    var r := Read(o);
    ReadOfMixed(o);
    ObjectRulesAreRead(o.objectRules);
    ArrayRulesAreRead(o.arrayRules);
    SubschemasAreRead(o.subschemas.value);
    SameEnumeration(o, r);
    SameMixture(t, o, r);
  }

  lemma SameEnumeration(o: JS.SchemaObject, r: JS.SchemaObject)
    requires r.enumValues == o.enumValues && r.constValue == o.constValue
    ensures AnyEnumeration(r) == AnyEnumeration(o)
  {
  }

  /** What a mixture is converted from. */
  lemma SameMixture(t: JS.InstanceType, o: JS.SchemaObject, r: JS.SchemaObject)
    requires o.subschemas.Some? && r.subschemas.Some?
    requires AnyEnumeration(r) == AnyEnumeration(o) && r.format == o.format
    requires r.numberRules == o.numberRules && r.textRules == o.textRules
    requires J2oasObject(r.objectRules) == J2oasObject(o.objectRules)
    requires J2oasArray(r.arrayRules) == J2oasArray(o.arrayRules) && (r.arrayRules.Some? <==> o.arrayRules.Some?)
    requires r.arrayRules.Some? ==> r.arrayRules.value.uniqueItems == o.arrayRules.value.uniqueItems
    requires SubschemasOfAny(r.subschemas.value) == SubschemasOfAny(o.subschemas.value)
    ensures J2oasAny(t, r) == J2oasAny(t, o)
  {
    hide J2oasObject, J2oasArray, J2oasNumber, J2oasString, SubschemasOfAny, AnyEnumeration;
  }
}
