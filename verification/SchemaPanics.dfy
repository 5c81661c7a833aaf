/**
  When the conversion of a schema panics: exactly when some schema that it comes
  to has a keyword, or a mixture of keywords, that it refuses.
 */
module SchemaPanics {
  import opened Wrappers
  import JS = JsonSchema
  import OA = OpenApiSchema
  import opened SchemaUtil
  import opened SchemaMeaning

  // ------------------------------------------------- what the conversion comes to

  /** References are kept as they are, and an empty enumeration hides all else. */
  predicate LookedInto(o: JS.SchemaObject) {
    o.reference.None? && o.enumValues != Some([])
  }

  /** The conversion of `o` converts `s` directly below it. */
  predicate Below(o: JS.SchemaObject, s: JS.Schema) {
    LookedInto(o) &&
    match (o.instanceType, o.subschemas)
    case (OneType(ObjectType), None) => InFields(o.objectRules, s)
    case (OneType(ArrayType), None) => InItems(o.arrayRules, s)
    case (AnyType, Some(sv)) => InSubschemas(sv, s)
    case (OneType(_), Some(sv)) => InFields(o.objectRules, s) || InItems(o.arrayRules, s) || InSubschemas(sv, s)
    case _ => false
  }

  predicate InFields(rules: Option<JS.ObjectValidation>, s: JS.Schema) {
    rules.Some? &&
    ((exists k :: k in rules.value.properties && rules.value.properties[k] == s) ||
     rules.value.additionalProperties == Some(s))
  }

  predicate InItems(rules: Option<JS.ArrayValidation>, s: JS.Schema) {
    rules.Some? && rules.value.items == JS.EachItem(s)
  }

  predicate InSubschemas(sv: JS.SubschemaValidation, s: JS.Schema) {
    InList(sv.allOf, s) || InList(sv.anyOf, s) || InList(sv.oneOf, s) || sv.not_ == Some(s)
  }

  predicate InList(schemas: JS.Schemas, s: JS.Schema) {
    schemas.Present? && exists i :: 0 <= i < |schemas.list| && schemas.list[i] == s
  }

  /** The conversion of `s` comes to `part`. */
  ghost predicate ComesTo(s: JS.Schema, part: JS.SchemaObject)
    decreases s
  {
    s.Schema? && (s.obj == part || exists t :: Below(s.obj, t) && ComesTo(t, part))
  }

  // ------------------------------------------------------------ what it refuses

  /** A list of types; a value of an enumeration that is not of the type; two bounds on one side; tuples. */
  predicate Refused(o: JS.SchemaObject) {
    LookedInto(o) &&
    match (o.instanceType, o.subschemas)
    case (TypeArray(_), _) => true
    case (OneType(BooleanType), None) => !Readable(o.enumValues, ReadBool)
    case (OneType(ArrayType), None) => o.arrayRules.None? || o.arrayRules.value.items.TupleItems?
    case (OneType(NumberType), None) => !OneBoundASide(o.numberRules) || !Readable(o.enumValues, ReadNumber)
    case (OneType(StringType), None) => !Readable(o.enumValues, ReadText)
    case (OneType(IntegerType), None) => !OneBoundASide(o.numberRules) || !Readable(o.enumValues, ReadInteger)
    case (AnyType, Some(sv)) => !OneKind(sv)
    case (OneType(_), Some(_)) =>
      || (o.enumValues.Some? && o.constValue.Some? && o.constValue.value !in o.enumValues.value)
      || !OneBoundASide(o.numberRules)
      || (o.arrayRules.Some? && o.arrayRules.value.items.TupleItems?)
    case _ => false
  }

  /** Nothing that the conversion of `s` comes to is refused. */
  ghost predicate Convertible(s: JS.Schema) {
    forall part :: ComesTo(s, part) ==> !Refused(part)
  }

  // ------------------------------------------------------------------ one level

  lemma {:induction false} EnumerationReadsIff<T>(values: seq<JS.Value>, read: JS.Value -> Option<T>)
    ensures Enumeration(values, read).Some? <==> Readable(Some(values), read)
  {
    if values != [] {
      EnumerationReadsIff(values[1..], read);
      assert values == [values[0]] + values[1..];
    }
  }

  lemma OptionalReadsIff<T>(values: Option<seq<JS.Value>>, read: JS.Value -> Option<T>)
    ensures OptionalEnumeration(values, read).Some? <==> Readable(values, read)
  {
    if values.Some? { EnumerationReadsIff(values.value, read); }
  }

  lemma BoundsIff(rules: Option<JS.NumberValidation>)
    ensures OneBoundASide(rules) <==>
      rules.Some? ==>
        && Bound(rules.value.minimum, rules.value.exclusiveMinimum).Some?
        && Bound(rules.value.maximum, rules.value.exclusiveMaximum).Some?
  {
  }

  lemma PlainConvertsIff(o: JS.SchemaObject)
    ensures OptionalEnumeration(o.enumValues, ReadBool).Some? <==> Readable(o.enumValues, ReadBool)
    ensures J2oasNumber(o.format, o.numberRules, o.enumValues).Some? <==>
      OneBoundASide(o.numberRules) && Readable(o.enumValues, ReadNumber)
    ensures J2oasInteger(o.format, o.numberRules, o.enumValues).Some? <==>
      OneBoundASide(o.numberRules) && Readable(o.enumValues, ReadInteger)
    ensures o.enumValues != Some([]) ==>
      (J2oasString(o.format, o.textRules, o.enumValues).Some? <==> Readable(o.enumValues, ReadText))
    ensures J2oasNumber(None, o.numberRules, None).Some? <==> OneBoundASide(o.numberRules)
  {
    OptionalReadsIff(o.enumValues, ReadBool);
    OptionalReadsIff(o.enumValues, ReadNumber);
    OptionalReadsIff(o.enumValues, ReadInteger);
    OptionalReadsIff(o.enumValues, ReadText);
    BoundsIff(o.numberRules);
    hide OptionalEnumeration, Readable, OneBoundASide;
    OptionalReadsIff(None, ReadNumber);
    NothingToRead();
  }

  lemma NothingToRead()
    ensures Readable(None, ReadNumber)
  {
  }

  ghost predicate FieldsConvert(rules: Option<JS.ObjectValidation>) {
    forall s :: InFields(rules, s) ==> J2oasSchema(None, s).Some?
  }

  ghost predicate ItemsConvert(rules: Option<JS.ArrayValidation>) {
    forall s :: InItems(rules, s) ==> J2oasSchema(None, s).Some?
  }

  ghost predicate ListConvertible(schemas: JS.Schemas) {
    forall s :: InList(schemas, s) ==> J2oasSchema(None, s).Some?
  }

  ghost predicate SubschemasConvertible(sv: JS.SubschemaValidation) {
    forall s :: InSubschemas(sv, s) ==> J2oasSchema(None, s).Some?
  }

  lemma ObjectConvertsIff(rules: Option<JS.ObjectValidation>)
    ensures J2oasObject(rules).Some? <==> FieldsConvert(rules)
  {
    hide J2oasSchemaObject;
    if rules.Some? {
      var ov := rules.value;
      AdditionalConvertsIff(ov);
      assert forall k :: k in ov.properties ==> InFields(rules, ov.properties[k]);
    }
  }

  lemma AdditionalConvertsIff(ov: JS.ObjectValidation)
    ensures J2oasAdditional(ov).Some? <==>
      (ov.additionalProperties.Some? ==> J2oasSchema(None, ov.additionalProperties.value).Some?)
  {
  }

  lemma ArrayConvertsIff(rules: Option<JS.ArrayValidation>)
    ensures J2oasArray(rules).Some? <==> rules.Some? && !rules.value.items.TupleItems? && ItemsConvert(rules)
  {
    hide J2oasSchema;
    if rules.Some? && rules.value.items.EachItem? {
      assert InItems(rules, rules.value.items.item);
    }
  }

  lemma ListConvertsIff(schemas: JS.Schemas)
    ensures J2oasSchemaVec(schemas).Some? <==> ListConvertible(schemas)
  {
    hide J2oasSchema;
    if schemas.Present? {
      assert forall i :: 0 <= i < |schemas.list| ==> InList(schemas, schemas.list[i]);
    }
  }

  lemma SubschemasConvertIff(sv: JS.SubschemaValidation)
    ensures SubschemasOfAny(sv).Some? <==> SubschemasConvertible(sv)
    ensures J2oasSubschemas(sv).Some? <==> OneKind(sv) && SubschemasConvertible(sv)
  {
    hide J2oasSchema, J2oasSchemaVec, InList;
    ListConvertsIff(sv.allOf);
    ListConvertsIff(sv.anyOf);
    ListConvertsIff(sv.oneOf);
    AbsentIsEmpty();
    assert sv.not_.Some? ==> InSubschemas(sv, sv.not_.value);
  }

  lemma AbsentIsEmpty()
    ensures forall s :: !InList(JS.Absent, s)
  {
  }

  /** What is below converts, and nothing at this level is refused. */
  ghost predicate BelowConverts(o: JS.SchemaObject) {
    forall s :: Below(o, s) ==> J2oasSchema(None, s).Some?
  }

  lemma BelowConvertsBy(o: JS.SchemaObject)
    requires LookedInto(o)
    ensures BelowConverts(o) <==>
      match (o.instanceType, o.subschemas)
      case (OneType(ObjectType), None) => FieldsConvert(o.objectRules)
      case (OneType(ArrayType), None) => ItemsConvert(o.arrayRules)
      case (AnyType, Some(sv)) => SubschemasConvertible(sv)
      case (OneType(_), Some(sv)) =>
        FieldsConvert(o.objectRules) && ItemsConvert(o.arrayRules) && SubschemasConvertible(sv)
      case _ => true
  {
    hide J2oasSchema, InFields, InItems, InSubschemas;
  }

  lemma AnyConvertsIff(t: JS.InstanceType, o: JS.SchemaObject)
    requires o.subschemas.Some?
    ensures J2oasAny(t, o).Some? <==>
      && (o.enumValues.Some? && o.constValue.Some? ==> o.constValue.value in o.enumValues.value)
      && OneBoundASide(o.numberRules)
      && !(o.arrayRules.Some? && o.arrayRules.value.items.TupleItems?)
      && FieldsConvert(o.objectRules) && ItemsConvert(o.arrayRules) && SubschemasConvertible(o.subschemas.value)
  {
    PlainConvertsIff(o);
    ObjectConvertsIff(o.objectRules);
    ArrayConvertsIff(o.arrayRules);
    SubschemasConvertIff(o.subschemas.value);
    NoItems();
    hide J2oasNumber, J2oasString, J2oasObject, J2oasArray, SubschemasOfAny, OneBoundASide, FieldsConvert, ItemsConvert,
      SubschemasConvertible;
  }

  lemma NoItems()
    ensures ItemsConvert(None)
  {
  }

  lemma KindConvertsIff(o: JS.SchemaObject)
    requires LookedInto(o)
    ensures J2oasSchemaObjectKind(o).Some? <==> !Refused(o) && BelowConverts(o)
  {
    PlainConvertsIff(o);
    BelowConvertsBy(o);
    ObjectConvertsIff(o.objectRules);
    ArrayConvertsIff(o.arrayRules);
    if o.subschemas.Some? {
      SubschemasConvertIff(o.subschemas.value);
      if o.instanceType.OneType? { AnyConvertsIff(o.instanceType.t, o); }
    }
    hide J2oasNumber, J2oasInteger, J2oasString, J2oasObject, J2oasArray, J2oasSubschemas, J2oasAny,
      OptionalEnumeration, Readable, OneBoundASide, OneKind, FieldsConvert, ItemsConvert, SubschemasConvertible,
      BelowConverts;
  }

  lemma SchemaConvertsIff(name: Option<string>, s: JS.Schema)
    requires s.Schema?
    ensures J2oasSchema(name, s).Some? <==> !Refused(s.obj) && BelowConverts(s.obj)
  {
    if LookedInto(s.obj) {
      hide Refused, BelowConverts;
      KindConvertsIff(s.obj);
    } else {
      NothingBelow(s.obj);
      assert s.obj.reference.None? ==> J2oasSchemaObjectKind(s.obj).Some?;
    }
  }

  lemma NothingBelow(o: JS.SchemaObject)
    requires !LookedInto(o)
    ensures !Refused(o) && BelowConverts(o)
  {
  }

  // ------------------------------------------------------------- the whole schema

  /** The conversion does without a panic, whatever the name, exactly when nothing that it comes to is refused. */
  lemma {:induction false} ConvertsIff(name: Option<string>, s: JS.Schema)
    ensures J2oasSchema(name, s).Some? <==> Convertible(s)
    decreases s
  {
    if s.Schema? {
      forall t | Below(s.obj, t) ensures J2oasSchema(None, t).Some? <==> Convertible(t) {
        ConvertsIff(None, t);
      }
      SchemaConvertsIff(name, s);
      ConvertibleByLevels(s);
      hide J2oasSchema, Refused, Below, Convertible;
    } else {
      NothingRefused(s);
    }
  }

  lemma NothingRefused(s: JS.Schema)
    requires s.Bool?
    ensures Convertible(s)
  {
  }

  lemma ConvertibleByLevels(s: JS.Schema)
    requires s.Schema?
    ensures Convertible(s) <==> !Refused(s.obj) && forall t :: Below(s.obj, t) ==> Convertible(t)
  {
    hide Refused, Below;
    assert ComesTo(s, s.obj);
    if Convertible(s) {
      forall t, part | Below(s.obj, t) && ComesTo(t, part) ensures !Refused(part) {
        assert ComesTo(s, part);
      }
    }
  }
}
