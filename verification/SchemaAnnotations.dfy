/**
  The conversion of schemas keeps their annotations: wherever a schema survives
  inside a converted one, what it said for readers stands at the same place.
 */
module SchemaAnnotations {
  import opened Wrappers
  import JS = JsonSchema
  import OA = OpenApiSchema
  import opened SchemaUtil

  /** What a schema says for readers, apart from its title. */
  datatype Notes = Notes(
    description: Option<string>, default_: Option<JS.Value>, deprecated: bool, readOnly: bool, writeOnly: bool)

  function NotesOf(o: JS.SchemaObject): Notes {
    match o.metadata
    case None => Notes(None, None, false, false, false)
    case Some(m) => Notes(m.description, m.default_, m.deprecated, m.readOnly, m.writeOnly)
  }

  function NotesIn(data: OA.SchemaData): Notes {
    Notes(data.description, data.default_, data.deprecated, data.readOnly, data.writeOnly)
  }

  /** Notes, title, example and the extensions of the form x-... all stand in the data of the converted schema. */
  ghost predicate Carries(name: Option<string>, o: JS.SchemaObject, data: OA.SchemaData) {
    && NotesIn(data) == NotesOf(o)
    && data.nullable == JS.Nullable(o)
    && data.title == (if name.Some? then name else if o.metadata.Some? then o.metadata.value.title else None)
    && (data.example.Some? <==> "example" in o.extensions)
    && (data.example.Some? ==> data.example.value == o.extensions["example"])
    && (forall k :: k in data.extensions <==> k in o.extensions && "x-" <= k)
    && (forall k :: k in data.extensions ==> data.extensions[k] == o.extensions[k])
  }

  /** The annotations of a schema and of all subschemas stand at the same places of `r`. */
  ghost predicate Mirrors(name: Option<string>, s: JS.Schema, r: OA.ReferenceOr)
    decreases s, 5
  {
    match s
    case Bool(_) => r.Item? && r.schema.data == DEFAULT_DATA
    case Schema(o) => ObjectMirrors(name, o, r)
  }

  /** A reference stands for itself, at most wrapped to be nullable; other schemas carry their annotations. */
  ghost predicate ObjectMirrors(name: Option<string>, o: JS.SchemaObject, r: OA.ReferenceOr)
    decreases o, 4
  {
    if o.reference.Some? then
      if JS.Nullable(o) then
        r == OA.Item(OA.Schema(DEFAULT_DATA.(nullable := true), OA.AllOf([OA.Reference(o.reference.value)])))
      else
        r == OA.Reference(o.reference.value)
    else
      r.Item? && Carries(name, o, r.schema.data) && KindMirrors(o, r.schema.kind)
  }

  ghost predicate KindMirrors(o: JS.SchemaObject, kind: OA.SchemaKind)
    decreases o, 3
  {
    if o.enumValues == Some([]) then kind == NEVER
    else match kind
      case Type(ObjectT(t)) => FieldsMirror(o.objectRules, t)
      case Type(ArrayT(t)) => ItemsMirror(o.arrayRules, t.items)
      case Type(_) => true
      case AllOf(list) => o.subschemas.Some? && ListMirrors(o.subschemas.value.allOf, list)
      case AnyOf(list) => o.subschemas.Some? && ListMirrors(o.subschemas.value.anyOf, list)
      case OneOf(list) => o.subschemas.Some? && ListMirrors(o.subschemas.value.oneOf, list)
      case Not(r) =>
        o.subschemas.Some? && o.subschemas.value.not_.Some? && Mirrors(None, o.subschemas.value.not_.value, r)
      case Any(a) =>
        o.instanceType.OneType? ==>
          && FieldsMirror(o.objectRules, a.obj) && ItemsMirror(o.arrayRules, a.items)
          && o.subschemas.Some? && MixtureMirrors(o.subschemas.value, a)
  }

  ghost predicate MixtureMirrors(sv: JS.SubschemaValidation, a: OA.AnySchema)
    decreases sv, 2
  {
    && ListMirrors(sv.allOf, a.allOf) && ListMirrors(sv.anyOf, a.anyOf) && ListMirrors(sv.oneOf, a.oneOf)
    && (sv.not_.Some? <==> a.not_.Negated?)
    && (sv.not_.Some? ==> Mirrors(None, sv.not_.value, a.not_.not_))
  }

  ghost predicate ListMirrors(schemas: JS.Schemas, list: seq<OA.ReferenceOr>)
    decreases schemas, 1
  {
    match schemas
    case Absent => list == []
    case Present(ss) => |list| == |ss| && forall i :: 0 <= i < |ss| ==> Mirrors(None, ss[i], list[i])
  }

  ghost predicate ItemsMirror(rules: Option<JS.ArrayValidation>, items: OA.MaybeItems)
    decreases rules, 2
  {
    match rules
    case None => items.NoItems?
    case Some(av) =>
      && (av.items.EachItem? <==> items.EachItem?)
      && (av.items.EachItem? ==> Mirrors(None, av.items.item, items.item))
  }

  ghost predicate FieldsMirror(rules: Option<JS.ObjectValidation>, t: OA.ObjectType)
    decreases rules, 2
  {
    match rules
    case None => t == DEFAULT_OBJECT
    case Some(ov) =>
      && t.properties.Keys == ov.properties.Keys
      && (forall k :: k in ov.properties ==> Mirrors(None, ov.properties[k], t.properties[k]))
      && (ov.additionalProperties.Some? && ov.additionalProperties.value.Schema? ==>
           t.additionalProperties.Each? && Mirrors(None, ov.additionalProperties.value, t.additionalProperties.schema))
  }

  lemma DataCarries(name: Option<string>, o: JS.SchemaObject)
    ensures Carries(name, o, DataOf(name, o))
  {
  }

  /** Every schema that is converted at all keeps the annotations of all its parts where they were. */
  lemma {:induction false} AnnotationsSurvive(name: Option<string>, s: JS.Schema)
    requires J2oasSchema(name, s).Some?
    ensures Mirrors(name, s, J2oasSchema(name, s).value)
    decreases s, 5
  {
    if s.Schema? { ObjectAnnotationsSurvive(name, s.obj); }
  }

  lemma {:induction false} ObjectAnnotationsSurvive(name: Option<string>, o: JS.SchemaObject)
    requires J2oasSchemaObject(name, o).Some?
    ensures ObjectMirrors(name, o, J2oasSchemaObject(name, o).value)
    decreases o, 4
  {
    hide J2oasSchemaObjectKind, KindMirrors, Carries, DataOf;
    if o.reference.None? {
      DataCarries(name, o);
      KindAnnotationsSurvive(o);
    }
  }

  lemma {:induction false} KindAnnotationsSurvive(o: JS.SchemaObject)
    requires J2oasSchemaObjectKind(o).Some?
    ensures KindMirrors(o, J2oasSchemaObjectKind(o).value)
    decreases o, 3
  {
    hide J2oasNumber, J2oasString, J2oasInteger, J2oasObject, J2oasArray, J2oasSubschemas, J2oasAny,
      OptionalEnumeration,
      FieldsMirror, ItemsMirror, ListMirrors, MixtureMirrors;
    if o.enumValues != Some([]) {
      if o.subschemas.Some? {
        if o.instanceType.OneType? { AnyAnnotationsSurvive(o); } else { SubschemaAnnotationsSurvive(o); }
      } else if o.instanceType == JS.OneType(JS.ObjectType) {
        FieldAnnotationsSurvive(o.objectRules);
      } else if o.instanceType == JS.OneType(JS.ArrayType) {
        ItemAnnotationsSurvive(o.arrayRules);
      }
    }
  }

  lemma {:induction false} SubschemaAnnotationsSurvive(o: JS.SchemaObject)
    requires o.enumValues != Some([]) && o.subschemas.Some? && J2oasSubschemas(o.subschemas.value).Some?
    ensures KindMirrors(o, J2oasSubschemas(o.subschemas.value).value)
    decreases o, 2
  {
    hide J2oasSchemaVec, J2oasSchema, ListMirrors, Mirrors;
    var sv := o.subschemas.value;
    if J2oasSchemaVec(sv.allOf).Some? { ListAnnotationsSurvive(sv.allOf); }
    if J2oasSchemaVec(sv.anyOf).Some? { ListAnnotationsSurvive(sv.anyOf); }
    if J2oasSchemaVec(sv.oneOf).Some? { ListAnnotationsSurvive(sv.oneOf); }
    if sv.not_.Some? && J2oasSchema(None, sv.not_.value).Some? { AnnotationsSurvive(None, sv.not_.value); }
  }

  lemma {:induction false} AnyAnnotationsSurvive(o: JS.SchemaObject)
    requires o.enumValues != Some([]) && o.instanceType.OneType?
    requires o.subschemas.Some? && J2oasAny(o.instanceType.t, o).Some?
    ensures KindMirrors(o, J2oasAny(o.instanceType.t, o).value)
    decreases o, 2
  {
    hide J2oasNumber, J2oasString, J2oasObject, J2oasArray, SubschemasOfAny, AnyEnumeration, FieldsMirror,
      ItemsMirror, MixtureMirrors;
    FieldAnnotationsSurvive(o.objectRules);
    if o.arrayRules.Some? { ItemAnnotationsSurvive(o.arrayRules); } else { NoItemsMirror(); }
    MixtureAnnotationsSurvive(o.subschemas.value, J2oasAny(o.instanceType.t, o).value.any);
  }

  lemma NoItemsMirror()
    ensures ItemsMirror(None, OA.NoItems)
  {
  }

  lemma {:induction false} MixtureAnnotationsSurvive(sv: JS.SubschemaValidation, a: OA.AnySchema)
    requires SubschemasOfAny(sv) == Some((a.allOf, a.anyOf, a.oneOf, a.not_))
    ensures MixtureMirrors(sv, a)
    decreases sv, 2
  {
    hide J2oasSchemaVec, J2oasSchema, ListMirrors, Mirrors;
    ListAnnotationsSurvive(sv.allOf);
    ListAnnotationsSurvive(sv.anyOf);
    ListAnnotationsSurvive(sv.oneOf);
    if sv.not_.Some? { AnnotationsSurvive(None, sv.not_.value); }
  }

  lemma {:induction false} ListAnnotationsSurvive(schemas: JS.Schemas)
    requires J2oasSchemaVec(schemas).Some?
    ensures ListMirrors(schemas, J2oasSchemaVec(schemas).value)
    decreases schemas, 1
  {
    hide J2oasSchema, Mirrors;
    if schemas.Present? {
      forall i | 0 <= i < |schemas.list| ensures Mirrors(None, schemas.list[i], J2oasSchemaVec(schemas).value[i]) {
        AnnotationsSurvive(None, schemas.list[i]);
      }
    }
  }

  lemma {:induction false} ItemAnnotationsSurvive(rules: Option<JS.ArrayValidation>)
    requires J2oasArray(rules).Some?
    ensures ItemsMirror(rules, J2oasArray(rules).value.items)
    decreases rules, 2
  {
    hide J2oasSchema, Mirrors;
    if rules.value.items.EachItem? { AnnotationsSurvive(None, rules.value.items.item); }
  }

  lemma {:induction false} FieldAnnotationsSurvive(rules: Option<JS.ObjectValidation>)
    requires J2oasObject(rules).Some?
    ensures FieldsMirror(rules, J2oasObject(rules).value)
    decreases rules, 2
  {
    hide J2oasSchema, J2oasSchemaObject, Mirrors;
    if rules.Some? {
      var ov, t := rules.value, J2oasObject(rules).value;
      forall k | k in ov.properties ensures Mirrors(None, ov.properties[k], t.properties[k]) {
        AnnotationsSurvive(None, ov.properties[k]);
      }
      if ov.additionalProperties.Some? && ov.additionalProperties.value.Schema? {
        AdditionalAnnotationsSurvive(ov.additionalProperties.value);
      }
    }
  }

  lemma {:induction false} AdditionalAnnotationsSurvive(s: JS.Schema)
    requires s.Schema? && J2oasSchemaObject(None, s.obj).Some?
    ensures Mirrors(None, s, J2oasSchemaObject(None, s.obj).value)
    decreases s, 6
  {
    ObjectAnnotationsSurvive(None, s.obj);
  }
}
