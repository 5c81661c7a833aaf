/** The schemas of an OpenAPI document, with their meaning: which values they accept. */
module OpenApiSchema {
  import opened Wrappers
  import JS = JsonSchema

  type Value = JS.Value

  datatype ReferenceOr = Reference(reference: string) | Item(schema: Schema)

  datatype Schema = Schema(data: SchemaData, kind: SchemaKind)

  datatype SchemaData = SchemaData(
    nullable: bool, readOnly: bool, writeOnly: bool, deprecated: bool,
    example: Option<Value>, title: Option<string>, description: Option<string>, default_: Option<Value>,
    extensions: map<string, Value>)

  datatype SchemaKind =
    | Type(t: Type)
    | OneOf(oneOf: seq<ReferenceOr>)
    | AllOf(allOf: seq<ReferenceOr>)
    | AnyOf(anyOf: seq<ReferenceOr>)
    | Not(not_: ReferenceOr)
    | Any(any: AnySchema)

  datatype Type =
    | StringT(text: StringType)
    | NumberT(number: NumberType)
    | IntegerT(integer: IntegerType)
    | ObjectT(obj: ObjectType)
    | ArrayT(arr: ArrayType)
    | BooleanT(enumeration: seq<Option<bool>>)

  datatype VariantOrUnknownOrEmpty<T> = Variant(item: T) | Unknown(name: string) | Empty

  datatype StringFormat = Date | DateTime | Password | Byte | Binary

  datatype NumberFormat = Float | Double

  datatype IntegerFormat = Int32 | Int64

  datatype StringType = StringType(
    format: VariantOrUnknownOrEmpty<StringFormat>, pattern: Option<string>, enumeration: seq<Option<string>>,
    minLength: Option<nat>, maxLength: Option<nat>)

  datatype NumberType = NumberType(
    format: VariantOrUnknownOrEmpty<NumberFormat>, multipleOf: Option<real>,
    exclusiveMinimum: bool, exclusiveMaximum: bool, minimum: Option<real>, maximum: Option<real>,
    enumeration: seq<Option<real>>)

  datatype IntegerType = IntegerType(
    format: VariantOrUnknownOrEmpty<IntegerFormat>, multipleOf: Option<int>,
    exclusiveMinimum: bool, exclusiveMaximum: bool, minimum: Option<int>, maximum: Option<int>,
    enumeration: seq<Option<int>>)

  datatype AdditionalProperties = Unspecified | Anything(allowed: bool) | Each(schema: ReferenceOr)

  datatype ObjectType = ObjectType(
    properties: map<string, ReferenceOr>, required: seq<string>, additionalProperties: AdditionalProperties,
    minProperties: Option<nat>, maxProperties: Option<nat>)

  datatype MaybeItems = NoItems | EachItem(item: ReferenceOr)

  datatype ArrayType = ArrayType(items: MaybeItems, minItems: Option<nat>, maxItems: Option<nat>, uniqueItems: bool)

  datatype MaybeNot = NoNot | Negated(not_: ReferenceOr)

  /** A schema with any mixture of keywords; an empty list is an absent keyword. */
  datatype AnySchema = AnySchema(
    typ: Option<string>, enumeration: seq<Value>, format: Option<string>,
    pattern: Option<string>, minLength: Option<nat>, maxLength: Option<nat>,
    multipleOf: Option<real>, exclusiveMinimum: Option<bool>, exclusiveMaximum: Option<bool>,
    minimum: Option<real>, maximum: Option<real>,
    obj: ObjectType,
    items: MaybeItems, minItems: Option<nat>, maxItems: Option<nat>, uniqueItems: Option<bool>,
    allOf: seq<ReferenceOr>, anyOf: seq<ReferenceOr>, oneOf: seq<ReferenceOr>, not_: MaybeNot)

  type Components = map<string, ReferenceOr>

  // ------------------------------------------------------------------- meaning

  function StringFormatName(f: VariantOrUnknownOrEmpty<StringFormat>): Option<string> {
    match f
    case Empty => None
    case Unknown(name) => Some(name)
    case Variant(Date) => Some("date")
    case Variant(DateTime) => Some("date-time")
    case Variant(Password) => Some("password")
    case Variant(Byte) => Some("byte")
    case Variant(Binary) => Some("binary")
  }

  function NumberFormatName(f: VariantOrUnknownOrEmpty<NumberFormat>): Option<string> {
    match f
    case Empty => None
    case Unknown(name) => Some(name)
    case Variant(Float) => Some("float")
    case Variant(Double) => Some("double")
  }

  function IntegerFormatName(f: VariantOrUnknownOrEmpty<IntegerFormat>): Option<string> {
    match f
    case Empty => None
    case Unknown(name) => Some(name)
    case Variant(Int32) => Some("int32")
    case Variant(Int64) => Some("int64")
  }

  predicate FormatAccepts(voc: JS.Vocabulary, format: Option<string>, v: Value) {
    format.Some? ==> voc.format(format.value, v)
  }

  /** An empty enumeration is an absent one; its null stands for the value null. */
  predicate Enumerated<T(==)>(enumeration: seq<Option<T>>, x: T) {
    enumeration != [] ==> Some(x) in enumeration
  }

  ghost predicate BoundsAccept(multipleOf: Option<real>, min: Option<real>, exclusiveMin: bool,
                               max: Option<real>, exclusiveMax: bool, n: real)
  {
    && (multipleOf.Some? ==> JS.MultipleOf(n, multipleOf.value))
    && (min.Some? ==> if exclusiveMin then n > min.value else n >= min.value)
    && (max.Some? ==> if exclusiveMax then n < max.value else n <= max.value)
  }

  function AsReal(n: Option<int>): Option<real> {
    match n
    case None => None
    case Some(i) => Some(i as real)
  }

  predicate TextAccepts(voc: JS.Vocabulary, t: StringType, v: Value) {
    && v.Text?
    && FormatAccepts(voc, StringFormatName(t.format), v)
    && JS.SizeAccepts(t.minLength, t.maxLength, |v.s|)
    && (t.pattern.Some? ==> voc.pattern(t.pattern.value, v.s))
    && Enumerated(t.enumeration, v.s)
  }

  ghost predicate NumberAccepts(voc: JS.Vocabulary, t: NumberType, v: Value) {
    && v.Number?
    && FormatAccepts(voc, NumberFormatName(t.format), v)
    && BoundsAccept(t.multipleOf, t.minimum, t.exclusiveMinimum, t.maximum, t.exclusiveMaximum, v.n)
    && Enumerated(t.enumeration, v.n)
  }

  ghost predicate IntegerAccepts(voc: JS.Vocabulary, t: IntegerType, v: Value) {
    && v.Number? && JS.Integral(v.n)
    && FormatAccepts(voc, IntegerFormatName(t.format), v)
    && BoundsAccept(AsReal(t.multipleOf), AsReal(t.minimum), t.exclusiveMinimum, AsReal(t.maximum), t.exclusiveMaximum,
                    v.n)
    && Enumerated(t.enumeration, v.n.Floor)
  }

  predicate TypeNameAccepts(typ: string, v: Value) {
    match typ
    case "null" => v.Null?
    case "boolean" => v.Boolean?
    case "object" => v.Object?
    case "array" => v.Array?
    case "number" => v.Number?
    case "string" => v.Text?
    case "integer" => v.Number? && JS.Integral(v.n)
    case _ => false
  }

  /** The keywords of a mixed schema that do not look into subschemas. */
  ghost predicate PlainAccepts(voc: JS.Vocabulary, a: AnySchema, v: Value) {
    && (a.typ.Some? ==> TypeNameAccepts(a.typ.value, v))
    && (a.enumeration != [] ==> v in a.enumeration)
    && FormatAccepts(voc, a.format, v)
    && (v.Text? ==> JS.SizeAccepts(a.minLength, a.maxLength, |v.s|))
    && (v.Text? && a.pattern.Some? ==> voc.pattern(a.pattern.value, v.s))
    && (v.Number? ==>
         BoundsAccept(a.multipleOf, a.minimum, a.exclusiveMinimum == Some(true),
                      a.maximum, a.exclusiveMaximum == Some(true), v.n))
    && (v.Array? ==> JS.SizeAccepts(a.minItems, a.maxItems, |v.items|))
    && (v.Array? && a.uniqueItems == Some(true) ==> JS.AllDistinct(v.items))
  }

  /**
    Whether `v` is valid against a schema, following at most `fuel` references
    one inside the other.  A nullable schema accepts null besides what it
    otherwise accepts.
   */
  ghost predicate Valid(voc: JS.Vocabulary, components: Components, fuel: nat, r: ReferenceOr, v: Value)
    decreases fuel, r, 4
  {
    match r
    case Reference(reference) =>
      var name := JS.NameOf(reference);
      name.Some? && fuel > 0 && name.value in components && Valid(voc, components, fuel - 1, components[name.value], v)
    case Item(schema) => (schema.data.nullable && v.Null?) || KindAccepts(voc, components, fuel, schema.kind, v)
  }

  ghost predicate KindAccepts(voc: JS.Vocabulary, components: Components, fuel: nat, kind: SchemaKind, v: Value)
    decreases fuel, kind, 3
  {
    match kind
    case Type(StringT(t)) => TextAccepts(voc, t, v)
    case Type(NumberT(t)) => NumberAccepts(voc, t, v)
    case Type(IntegerT(t)) => IntegerAccepts(voc, t, v)
    case Type(ObjectT(t)) => v.Object? && FieldsAccept(voc, components, fuel, t, v.fields)
    case Type(ArrayT(t)) =>
      && v.Array?
      && JS.SizeAccepts(t.minItems, t.maxItems, |v.items|) && (t.uniqueItems ==> JS.AllDistinct(v.items))
      && ItemsAccept(voc, components, fuel, t.items, v.items)
    case Type(BooleanT(enumeration)) => v.Boolean? && Enumerated(enumeration, v.b)
    case OneOf(list) => JS.ExactlyOne(Verdicts(voc, components, fuel, list, v))
    case AllOf(list) => JS.All(Verdicts(voc, components, fuel, list, v))
    case AnyOf(list) => JS.AtLeastOne(Verdicts(voc, components, fuel, list, v))
    case Not(negated) => !Valid(voc, components, fuel, negated, v)
    case Any(a) =>
      && PlainAccepts(voc, a, v)
      && (v.Object? ==> FieldsAccept(voc, components, fuel, a.obj, v.fields))
      && (v.Array? ==> ItemsAccept(voc, components, fuel, a.items, v.items))
      && JS.All(Verdicts(voc, components, fuel, a.allOf, v))
      && (a.anyOf != [] ==> JS.AtLeastOne(Verdicts(voc, components, fuel, a.anyOf, v)))
      && (a.oneOf != [] ==> JS.ExactlyOne(Verdicts(voc, components, fuel, a.oneOf, v)))
      && (a.not_.Negated? ==> !Valid(voc, components, fuel, a.not_.not_, v))
  }

  /** Of each schema of a list, whether it accepts `v`. */
  ghost function Verdicts(voc: JS.Vocabulary, components: Components, fuel: nat, list: seq<ReferenceOr>, v: Value)
    : (verdicts: seq<bool>)
    ensures |verdicts| == |list|
    ensures forall i :: 0 <= i < |verdicts| ==> verdicts[i] == Valid(voc, components, fuel, list[i], v)
    decreases fuel, list, 2
  {
    seq(|list|, i requires 0 <= i < |list| => Valid(voc, components, fuel, list[i], v))
  }

  ghost predicate ItemsAccept(voc: JS.Vocabulary, components: Components, fuel: nat, items: MaybeItems,
                              values: seq<Value>)
    decreases fuel, items, 2
  {
    items.EachItem? ==> forall i :: 0 <= i < |values| ==> Valid(voc, components, fuel, items.item, values[i])
  }

  ghost predicate FieldsAccept(voc: JS.Vocabulary, components: Components, fuel: nat, t: ObjectType,
                               fields: map<string, Value>)
    decreases fuel, t, 2
  {
    && JS.SizeAccepts(t.minProperties, t.maxProperties, |fields|)
    && (forall k :: k in t.required ==> k in fields)
    && PropertiesAccept(voc, components, fuel, t, fields)
    && AdditionalAccepts(voc, components, fuel, t, fields)
  }

  ghost predicate PropertiesAccept(voc: JS.Vocabulary, components: Components, fuel: nat, t: ObjectType,
                                   fields: map<string, Value>)
    decreases fuel, t, 1
  {
    forall k :: k in t.properties && k in fields ==> Valid(voc, components, fuel, t.properties[k], fields[k])
  }

  ghost predicate AdditionalAccepts(voc: JS.Vocabulary, components: Components, fuel: nat, t: ObjectType,
                                    fields: map<string, Value>)
    decreases fuel, t, 1
  {
    match t.additionalProperties
    case Unspecified => true
    case Anything(allowed) => allowed || fields.Keys <= t.properties.Keys
    case Each(schema) =>
      forall k :: k in fields && k !in t.properties ==> Valid(voc, components, fuel, schema, fields[k])
  }
}
