/**
  Conversion of JSON Schema into the schemas of OpenAPI.  A conversion that
  panics gives `None`.
 */
module SchemaUtil {
  import opened Wrappers
  import Ordering
  import JS = JsonSchema
  import opened OpenApiSchema

  const I64_MIN: int := -0x8000_0000_0000_0000
  const I64_MAX: int := 0x7FFF_FFFF_FFFF_FFFF

  /** A float made an integer: cut off toward zero, and kept within 64 bits. */
  function AsI64(f: real): int {
    var cut := if f >= 0.0 then f.Floor else -((-f).Floor);
    if cut < I64_MIN then I64_MIN else if cut > I64_MAX then I64_MAX else cut
  }

  const DEFAULT_DATA: SchemaData := SchemaData(false, false, false, false, None, None, None, None, map[])

  const DEFAULT_OBJECT: ObjectType := ObjectType(map[], [], Unspecified, None, None)

  const DEFAULT_ANY: AnySchema :=
    AnySchema(None, [], None, None, None, None, None, None, None, None, None,
              DEFAULT_OBJECT, NoItems, None, None, None, [], [], [], NoNot)

  /** The schema that accepts nothing: the negation of the one that accepts everything. */
  const NEVER: SchemaKind := Not(Item(Schema(DEFAULT_DATA, Any(DEFAULT_ANY))))

  // --------------------------------------------------------------- plain parts

  /** An enumeration with its nulls, unless it has a value that cannot be read. */
  function Enumeration<T>(values: seq<Value>, read: Value -> Option<T>): Option<seq<Option<T>>> {
    if values == [] then Some([])
    else
      var first :=
        if values[0].Null? then Some(None)
        else (match read(values[0]) case None => None case Some(x) => Some(Some(x)));
      match (first, Enumeration(values[1..], read))
      case (Some(x), Some(rest)) => Some([x] + rest)
      case _ => None
  }

  function OptionalEnumeration<T>(values: Option<seq<Value>>, read: Value -> Option<T>): Option<seq<Option<T>>> {
    match values
    case None => Some([])
    case Some(vs) => Enumeration(vs, read)
  }

  function ReadBool(v: Value): Option<bool> {
    if v.Boolean? then Some(v.b) else None
  }

  function ReadText(v: Value): Option<string> {
    if v.Text? then Some(v.s) else None
  }

  function ReadNumber(v: Value): Option<real> {
    if v.Number? then Some(v.n) else None
  }

  function ReadInteger(v: Value): Option<int> {
    if v.Number? && JS.Integral(v.n) && I64_MIN <= v.n.Floor <= I64_MAX then Some(v.n.Floor) else None
  }

  function Map<T, U>(o: Option<T>, f: T -> U): Option<U> {
    match o
    case None => None
    case Some(x) => Some(f(x))
  }

  /** A bound and whether it is exclusive; there must not be one of each kind. */
  function Bound(inclusive: Option<real>, exclusive: Option<real>): Option<(Option<real>, bool)> {
    match (inclusive, exclusive)
    case (None, None) => Some((None, false))
    case (Some(_), None) => Some((inclusive, false))
    case (None, Some(_)) => Some((exclusive, true))
    case _ => None
  }

  function J2oasInteger(format: Option<string>, number: Option<JS.NumberValidation>, values: Option<seq<Value>>)
    : Option<IntegerType>
  {
    var format' := match format
      case None => Empty
      case Some(name) =>
        if name == "int32" then Variant(Int32) else if name == "int64" then Variant(Int64) else Unknown(name);
    var rules := if number.Some? then number.value else JS.NumberValidation(None, None, None, None, None);
    match (Bound(rules.minimum, rules.exclusiveMinimum), Bound(rules.maximum, rules.exclusiveMaximum),
           OptionalEnumeration(values, ReadInteger))
    case (Some(min), Some(max), Some(enumeration)) =>
      Some(IntegerType(format', Map(rules.multipleOf, AsI64), min.1, max.1,
                       Map(min.0, AsI64), Map(max.0, AsI64), enumeration))
    case _ => None
  }

  function J2oasNumber(format: Option<string>, number: Option<JS.NumberValidation>, values: Option<seq<Value>>)
    : Option<NumberType>
  {
    var format' := match format
      case None => Empty
      case Some(name) =>
        if name == "float" then Variant(Float) else if name == "double" then Variant(Double) else Unknown(name);
    var rules := if number.Some? then number.value else JS.NumberValidation(None, None, None, None, None);
    match (Bound(rules.minimum, rules.exclusiveMinimum), Bound(rules.maximum, rules.exclusiveMaximum),
           OptionalEnumeration(values, ReadNumber))
    case (Some(min), Some(max), Some(enumeration)) =>
      Some(NumberType(format', rules.multipleOf, min.1, max.1, min.0, max.0, enumeration))
    case _ => None
  }

  function J2oasString(format: Option<string>, text: Option<JS.StringValidation>, values: Option<seq<Value>>)
    : Option<StringType>
  {
    var format' := match format
      case None => Empty
      case Some(name) =>
        if name == "date" then Variant(Date) else if name == "date-time" then Variant(DateTime)
        else if name == "password" then Variant(Password) else if name == "byte" then Variant(Byte)
        else if name == "binary" then Variant(Binary) else Unknown(name);
    var rules := if text.Some? then text.value else JS.StringValidation(None, None, None);
    if values == Some([]) then None
    else match OptionalEnumeration(values, ReadText)
      case None => None
      case Some(enumeration) => Some(StringType(format', rules.pattern, enumeration, rules.minLength, rules.maxLength))
  }

  function TypeName(t: JS.InstanceType): string {
    match t
    case NullType => "null"
    case BooleanType => "boolean"
    case ObjectType => "object"
    case ArrayType => "array"
    case NumberType => "number"
    case StringType => "string"
    case IntegerType => "integer"
  }

  // ------------------------------------------------------------ the conversion

  function J2oasSchema(name: Option<string>, s: JS.Schema): Option<ReferenceOr>
    decreases s, 5
  {
    match s
    case Bool(true) => Some(Item(Schema(DEFAULT_DATA, Any(DEFAULT_ANY))))
    case Bool(false) => Some(Item(Schema(DEFAULT_DATA, NEVER)))
    case Schema(o) => J2oasSchemaObject(name, o)
  }

  function J2oasSchemaObject(name: Option<string>, o: JS.SchemaObject): Option<ReferenceOr>
    decreases o, 4
  {
    if o.reference.Some? then
      var reference := Reference(o.reference.value);
      if JS.Nullable(o) then Some(Item(Schema(DEFAULT_DATA.(nullable := true), AllOf([reference]))))
      else Some(reference)
    else
      match J2oasSchemaObjectKind(o)
      case None => None
      case Some(kind) => Some(Item(Schema(DataOf(name, o), kind)))
  }

  /** The annotations of a schema; its name, if it has one, replaces the title. */
  function DataOf(name: Option<string>, o: JS.SchemaObject): SchemaData {
    var data := DEFAULT_DATA.(
      nullable := JS.Nullable(o),
      extensions := map k | k in o.extensions && "x-" <= k :: o.extensions[k],
      example := if "example" in o.extensions then Some(o.extensions["example"]) else None);
    var described := match o.metadata
      case None => data
      case Some(m) => data.(title := m.title, description := m.description, default_ := m.default_,
                            deprecated := m.deprecated, readOnly := m.readOnly, writeOnly := m.writeOnly);
    if name.Some? then described.(title := name) else described
  }

  function J2oasSchemaObjectKind(o: JS.SchemaObject): Option<SchemaKind>
    decreases o, 3
  {
    if o.enumValues == Some([]) then Some(NEVER)
    else match (o.instanceType, o.subschemas)
      case (TypeArray(_), _) => None
      case (OneType(NullType), None) => Some(Type(StringT(StringType(Empty, None, [None], None, None))))
      case (OneType(BooleanType), None) => Map(OptionalEnumeration(o.enumValues, ReadBool), e => Type(BooleanT(e)))
      case (OneType(ObjectType), None) => Map(J2oasObject(o.objectRules), t => Type(ObjectT(t)))
      case (OneType(ArrayType), None) => Map(J2oasArray(o.arrayRules), t => Type(ArrayT(t)))
      case (OneType(NumberType), None) => Map(J2oasNumber(o.format, o.numberRules, o.enumValues), t => Type(NumberT(t)))
      case (OneType(StringType), None) => Map(J2oasString(o.format, o.textRules, o.enumValues), t => Type(StringT(t)))
      case (OneType(IntegerType), None) =>
        Map(J2oasInteger(o.format, o.numberRules, o.enumValues), t => Type(IntegerT(t)))
      case (AnyType, Some(subschemas)) => J2oasSubschemas(subschemas)
      case (AnyType, None) => Some(Any(DEFAULT_ANY))
      case (OneType(t), Some(_)) => J2oasAny(t, o)
  }

  /** The enumeration of a mixed schema, unless `const` contradicts `enum`. */
  function AnyEnumeration(o: JS.SchemaObject): Option<seq<Value>> {
    match (o.enumValues, o.constValue)
    case (None, None) => Some([])
    case (Some(values), Some(one)) => if one !in values then None else Some([one])
    case (None, Some(one)) => Some([one])
    case (Some(values), None) => Some(values)
  }

  /** A schema with a type and subschemas; every kind of keyword goes in. */
  function J2oasAny(t: JS.InstanceType, o: JS.SchemaObject): Option<SchemaKind>
    requires o.subschemas.Some?
    decreases o, 2
  {
    var text := J2oasString(None, o.textRules, None);
    var number := J2oasNumber(None, o.numberRules, None);
    match (AnyEnumeration(o), number, J2oasObject(o.objectRules), SubschemasOfAny(o.subschemas.value))
    case (Some(enumeration), Some(n), Some(obj), Some(sub)) =>
      var any := DEFAULT_ANY.(typ := Some(TypeName(t)), enumeration := enumeration, format := o.format, obj := obj,
        allOf := sub.0, anyOf := sub.1, oneOf := sub.2, not_ := sub.3);
      var withText :=
        if o.textRules.Some? && text.Some? then
          any.(pattern := text.value.pattern, minLength := text.value.minLength, maxLength := text.value.maxLength)
        else any;
      var withNumber :=
        if o.numberRules.Some? then
          withText.(multipleOf := n.multipleOf, minimum := n.minimum, maximum := n.maximum,
                    exclusiveMinimum := if n.exclusiveMinimum then Some(true) else None,
                    exclusiveMaximum := if n.exclusiveMaximum then Some(true) else None)
        else withText;
      if o.arrayRules.None? then Some(Any(withNumber))
      else Map(J2oasArray(o.arrayRules), (a: ArrayType) =>
        Any(withNumber.(items := a.items, minItems := a.minItems, maxItems := a.maxItems,
                        uniqueItems := if o.arrayRules.Some? then o.arrayRules.value.uniqueItems else None)))
    case _ => None
  }

  function SubschemasOfAny(sv: JS.SubschemaValidation)
    : Option<(seq<ReferenceOr>, seq<ReferenceOr>, seq<ReferenceOr>, MaybeNot)>
    decreases sv, 2
  {
    match (J2oasSchemaVec(sv.allOf), J2oasSchemaVec(sv.anyOf), J2oasSchemaVec(sv.oneOf))
    case (Some(allOf), Some(anyOf), Some(oneOf)) =>
      if sv.not_.None? then Some((allOf, anyOf, oneOf, NoNot))
      else Map(J2oasSchema(None, sv.not_.value), r => (allOf, anyOf, oneOf, Negated(r)))
    case _ => None
  }

  /** Subschemas on their own: one kind of them only. */
  function J2oasSubschemas(sv: JS.SubschemaValidation): Option<SchemaKind>
    decreases sv, 2
  {
    match (sv.allOf, sv.anyOf, sv.oneOf, sv.not_)
    case (Present(_), Absent, Absent, None) => Map(J2oasSchemaVec(sv.allOf), list => AllOf(list))
    case (Absent, Present(_), Absent, None) => Map(J2oasSchemaVec(sv.anyOf), list => AnyOf(list))
    case (Absent, Absent, Present(_), None) => Map(J2oasSchemaVec(sv.oneOf), list => OneOf(list))
    case (Absent, Absent, Absent, Some(s)) => Map(J2oasSchema(None, s), r => Not(r))
    case _ => None
  }

  function J2oasSchemaVec(schemas: JS.Schemas): Option<seq<ReferenceOr>>
    decreases schemas, 1
  {
    match schemas
    case Absent => Some([])
    case Present(list) =>
      if forall i :: 0 <= i < |list| ==> J2oasSchema(None, list[i]).Some? then
        Some(seq(|list|, i requires 0 <= i < |list| && J2oasSchema(None, list[i]).Some? =>
          J2oasSchema(None, list[i]).value))
      else None
  }

  function J2oasArray(rules: Option<JS.ArrayValidation>): Option<ArrayType>
    decreases rules, 2
  {
    match rules
    case None => None
    case Some(av) =>
      var unique := av.uniqueItems == Some(true);
      match av.items
      case AnyItems => Some(ArrayType(NoItems, av.minItems, av.maxItems, unique))
      case EachItem(item) => Map(J2oasSchema(None, item), r => ArrayType(EachItem(r), av.minItems, av.maxItems, unique))
      case TupleItems(_) => None
  }

  function J2oasObject(rules: Option<JS.ObjectValidation>): Option<ObjectType>
    decreases rules, 2
  {
    match rules
    case None => Some(DEFAULT_OBJECT)
    case Some(ov) =>
      match J2oasAdditional(ov)
      case None => None
      case Some(additional) =>
        if forall k :: k in ov.properties ==> J2oasSchema(None, ov.properties[k]).Some? then
          Ordering.BeforeIsStrictTotalOrder();
          Some(ObjectType(map k | k in ov.properties :: J2oasSchema(None, ov.properties[k]).value,
                          Ordering.InOrder(Ordering.Before, ov.required), additional,
                          ov.minProperties, ov.maxProperties))
        else None
  }

  function J2oasAdditional(ov: JS.ObjectValidation): Option<AdditionalProperties>
    decreases ov, 2
  {
    match ov.additionalProperties
    case None => Some(Unspecified)
    case Some(Bool(b)) => Some(Anything(b))
    case Some(Schema(o)) => Map(J2oasSchemaObject(None, o), r => Each(r))
  }
}
