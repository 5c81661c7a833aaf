/**
  JSON values and JSON Schema, as far as the schemas of an API use it, with the
  meaning of a schema: which values it accepts.
 */
module JsonSchema {
  import opened Wrappers

  // -------------------------------------------------------------------- values

  datatype Value =
    | Null
    | Boolean(b: bool)
    | Number(n: real)
    | Text(s: string)
    | Array(items: seq<Value>)
    | Object(fields: map<string, Value>)

  predicate Integral(n: real) {
    n.Floor as real == n
  }

  function Times(m: real, k: int): real {
    m * k as real
  }

  ghost predicate MultipleOf(n: real, m: real) {
    exists k: int :: n == Times(m, k)
  }

  /** What a schema says by name only: string formats and regular expressions. */
  datatype Vocabulary = Vocabulary(format: (string, Value) -> bool, pattern: (string, string) -> bool)

  // ------------------------------------------------------------------- schemas

  datatype InstanceType = NullType | BooleanType | ObjectType | ArrayType | NumberType | StringType | IntegerType

  datatype Types = AnyType | OneType(t: InstanceType) | TypeArray(ts: seq<InstanceType>)

  datatype Schema = Bool(b: bool) | Schema(obj: SchemaObject)

  datatype Schemas = Absent | Present(list: seq<Schema>)

  datatype Items = AnyItems | EachItem(item: Schema) | TupleItems(list: seq<Schema>)

  datatype Metadata = Metadata(
    title: Option<string>, description: Option<string>, default_: Option<Value>,
    deprecated: bool, readOnly: bool, writeOnly: bool)

  datatype NumberValidation = NumberValidation(
    multipleOf: Option<real>,
    maximum: Option<real>, exclusiveMaximum: Option<real>,
    minimum: Option<real>, exclusiveMinimum: Option<real>)

  datatype StringValidation = StringValidation(maxLength: Option<nat>, minLength: Option<nat>, pattern: Option<string>)

  datatype ArrayValidation = ArrayValidation(
    items: Items, additionalItems: Option<Schema>,
    maxItems: Option<nat>, minItems: Option<nat>, uniqueItems: Option<bool>, contains: Option<Schema>)

  datatype ObjectValidation = ObjectValidation(
    maxProperties: Option<nat>, minProperties: Option<nat>,
    required: set<string>, properties: map<string, Schema>, patternProperties: map<string, Schema>,
    additionalProperties: Option<Schema>, propertyNames: Option<Schema>)

  datatype SubschemaValidation = SubschemaValidation(
    allOf: Schemas, anyOf: Schemas, oneOf: Schemas, not_: Option<Schema>,
    if_: Option<Schema>, then_: Option<Schema>, else_: Option<Schema>)

  datatype SchemaObject = SchemaObject(
    metadata: Option<Metadata>,
    instanceType: Types,
    format: Option<string>,
    enumValues: Option<seq<Value>>,
    constValue: Option<Value>,
    subschemas: Option<SubschemaValidation>,
    numberRules: Option<NumberValidation>,
    textRules: Option<StringValidation>,
    arrayRules: Option<ArrayValidation>,
    objectRules: Option<ObjectValidation>,
    reference: Option<string>,
    extensions: map<string, Value>)

  type Definitions = map<string, Schema>

  const PREFIX: string := "#/components/schemas/"

  /** The name in a reference to a definition of this document. */
  function NameOf(reference: string): Option<string> {
    if PREFIX <= reference then Some(reference[|PREFIX|..]) else None
  }

  predicate Nullable(o: SchemaObject) {
    "nullable" in o.extensions && o.extensions["nullable"] == Boolean(true)
  }

  // ------------------------------------------------------------------- meaning

  predicate HasType(t: InstanceType, v: Value) {
    match t
    case NullType => v.Null?
    case BooleanType => v.Boolean?
    case ObjectType => v.Object?
    case ArrayType => v.Array?
    case NumberType => v.Number?
    case StringType => v.Text?
    case IntegerType => v.Number? && Integral(v.n)
  }

  predicate TypesAccept(types: Types, v: Value) {
    match types
    case AnyType => true
    case OneType(t) => HasType(t, v)
    case TypeArray(ts) => exists i :: 0 <= i < |ts| && HasType(ts[i], v)
  }

  ghost predicate NumberAccepts(nv: NumberValidation, n: real) {
    && (nv.multipleOf.Some? ==> MultipleOf(n, nv.multipleOf.value))
    && (nv.maximum.Some? ==> n <= nv.maximum.value)
    && (nv.exclusiveMaximum.Some? ==> n < nv.exclusiveMaximum.value)
    && (nv.minimum.Some? ==> n >= nv.minimum.value)
    && (nv.exclusiveMinimum.Some? ==> n > nv.exclusiveMinimum.value)
  }

  predicate SizeAccepts(min: Option<nat>, max: Option<nat>, size: nat) {
    (min.Some? ==> size >= min.value) && (max.Some? ==> size <= max.value)
  }

  predicate TextAccepts(voc: Vocabulary, sv: StringValidation, s: string) {
    SizeAccepts(sv.minLength, sv.maxLength, |s|) && (sv.pattern.Some? ==> voc.pattern(sv.pattern.value, s))
  }

  predicate All(verdicts: seq<bool>) {
    forall i :: 0 <= i < |verdicts| ==> verdicts[i]
  }

  predicate AtLeastOne(verdicts: seq<bool>) {
    exists i :: 0 <= i < |verdicts| && verdicts[i]
  }

  predicate ExactlyOne(verdicts: seq<bool>) {
    exists i :: 0 <= i < |verdicts| && verdicts[i] && forall j :: 0 <= j < |verdicts| && j != i ==> !verdicts[j]
  }

  predicate AllDistinct(items: seq<Value>) {
    forall i, j :: 0 <= i < j < |items| ==> items[i] != items[j]
  }

  /** The keywords that look at a value without looking into subschemas. */
  ghost predicate PlainAccepts(voc: Vocabulary, o: SchemaObject, v: Value) {
    && TypesAccept(o.instanceType, v)
    && (o.format.Some? ==> voc.format(o.format.value, v))
    && (o.enumValues.Some? ==> v in o.enumValues.value)
    && (o.constValue.Some? ==> v == o.constValue.value)
    && (o.numberRules.Some? && v.Number? ==> NumberAccepts(o.numberRules.value, v.n))
    && (o.textRules.Some? && v.Text? ==> TextAccepts(voc, o.textRules.value, v.s))
  }

  /**
    Whether `v` is valid against a schema, following at most `fuel` references
    one inside the other.  `nullable`, which the schema generator adds beside
    other keywords, adds null to what they accept; beside a reference, no other
    keyword counts.
   */
  ghost predicate Valid(voc: Vocabulary, defs: Definitions, fuel: nat, s: Schema, v: Value)
    decreases fuel, s, 4
  {
    match s
    case Bool(b) => b
    case Schema(o) => (Nullable(o) && v.Null?) || ObjectAccepts(voc, defs, fuel, o, v)
  }

  ghost predicate ObjectAccepts(voc: Vocabulary, defs: Definitions, fuel: nat, o: SchemaObject, v: Value)
    decreases fuel, o, 3
  {
    if o.reference.Some? then
      var name := NameOf(o.reference.value);
      name.Some? && fuel > 0 && name.value in defs && Valid(voc, defs, fuel - 1, defs[name.value], v)
    else
      && PlainAccepts(voc, o, v)
      && (o.arrayRules.Some? && v.Array? ==> ArrayAccepts(voc, defs, fuel, o.arrayRules.value, v.items))
      && (o.objectRules.Some? && v.Object? ==> FieldsAccept(voc, defs, fuel, o.objectRules.value, v.fields))
      && (o.subschemas.Some? ==> SubschemasAccept(voc, defs, fuel, o.subschemas.value, v))
  }

  ghost predicate ArrayAccepts(voc: Vocabulary, defs: Definitions, fuel: nat, av: ArrayValidation, items: seq<Value>)
    decreases fuel, av, 2
  {
    && SizeAccepts(av.minItems, av.maxItems, |items|)
    && (av.uniqueItems == Some(true) ==> AllDistinct(items))
    && (av.contains.Some? ==> exists i :: 0 <= i < |items| && Valid(voc, defs, fuel, av.contains.value, items[i]))
    && match av.items
       case AnyItems => true
       case EachItem(item) => forall i :: 0 <= i < |items| ==> Valid(voc, defs, fuel, item, items[i])
       case TupleItems(list) =>
         && (forall i :: 0 <= i < |items| && i < |list| ==> Valid(voc, defs, fuel, list[i], items[i]))
         && (av.additionalItems.Some? ==>
              forall i :: |list| <= i < |items| ==> Valid(voc, defs, fuel, av.additionalItems.value, items[i]))
  }

  ghost predicate FieldsAccept(voc: Vocabulary, defs: Definitions, fuel: nat, ov: ObjectValidation,
                               fields: map<string, Value>)
    decreases fuel, ov, 2
  {
    && SizeAccepts(ov.minProperties, ov.maxProperties, |fields|)
    && ov.required <= fields.Keys
    && PropertiesAccept(voc, defs, fuel, ov, fields)
    && (forall p, k :: p in ov.patternProperties && k in fields && voc.pattern(p, k) ==>
         Valid(voc, defs, fuel, ov.patternProperties[p], fields[k]))
    && AdditionalAccepts(voc, defs, fuel, ov, fields)
    && (ov.propertyNames.Some? ==> forall k :: k in fields ==> Valid(voc, defs, fuel, ov.propertyNames.value, Text(k)))
  }

  ghost predicate PropertiesAccept(voc: Vocabulary, defs: Definitions, fuel: nat, ov: ObjectValidation,
                                   fields: map<string, Value>)
    decreases fuel, ov, 1
  {
    forall k :: k in ov.properties && k in fields ==> Valid(voc, defs, fuel, ov.properties[k], fields[k])
  }

  /** Fields that neither a property nor a pattern speaks of. */
  ghost predicate AdditionalAccepts(voc: Vocabulary, defs: Definitions, fuel: nat, ov: ObjectValidation,
                                    fields: map<string, Value>)
    decreases fuel, ov, 1
  {
    ov.additionalProperties.Some? ==>
      forall k ::
        k in fields && k !in ov.properties && (forall p :: p in ov.patternProperties ==> !voc.pattern(p, k)) ==>
          Valid(voc, defs, fuel, ov.additionalProperties.value, fields[k])
  }

  /** Of each schema of a list, whether it accepts `v`. */
  ghost function Verdicts(voc: Vocabulary, defs: Definitions, fuel: nat, schemas: Schemas, v: Value)
    : (verdicts: seq<bool>)
    requires schemas.Present?
    ensures |verdicts| == |schemas.list|
    ensures forall i :: 0 <= i < |verdicts| ==> verdicts[i] == Valid(voc, defs, fuel, schemas.list[i], v)
    decreases fuel, schemas, 1
  {
    seq(|schemas.list|, i requires 0 <= i < |schemas.list| => Valid(voc, defs, fuel, schemas.list[i], v))
  }

  ghost predicate SubschemasAccept(voc: Vocabulary, defs: Definitions, fuel: nat, sv: SubschemaValidation, v: Value)
    decreases fuel, sv, 2
  {
    && (sv.allOf.Present? ==> All(Verdicts(voc, defs, fuel, sv.allOf, v)))
    && (sv.anyOf.Present? ==> AtLeastOne(Verdicts(voc, defs, fuel, sv.anyOf, v)))
    && (sv.oneOf.Present? ==> ExactlyOne(Verdicts(voc, defs, fuel, sv.oneOf, v)))
    && (sv.not_.Some? ==> !Valid(voc, defs, fuel, sv.not_.value, v))
    && (sv.if_.Some? ==>
         if Valid(voc, defs, fuel, sv.if_.value, v)
         then sv.then_.Some? ==> Valid(voc, defs, fuel, sv.then_.value, v)
         else sv.else_.Some? ==> Valid(voc, defs, fuel, sv.else_.value, v))
  }
}
