/** Loading types from JSON and storing them there. */
module TypeJson {
  import opened FieldNames
  import opened Types

  datatype Json =
    | JNull
    | JBool(b: bool)
    | JNumber(n: U64)
    | JString(s: string)
    | JArray(items: seq<Json>)
    | JObject(members: map<string, Json>)

  // ---- Names of tags

  function TypeName(tag: TypeId): string {
    match tag
    case TVoid => "void"
    case TBool => "bool"
    case TChar => "char"
    case TInt => "int"
    case TFloat => "float"
    case TAsciiString => "string"
    case TWideString => "wstring"
    case TArray => "array"
    case TFunction => "function"
    case TAlias => "alias"
    case TStructure => "structure"
    case TUnion => "union"
    case TEnum => "enum"
    case TNone => ""
  }

  function IdOf(s: string): TypeId {
    if s == "void" then TVoid else if s == "bool" then TBool else if s == "char" then TChar
    else if s == "int" then TInt else if s == "float" then TFloat
    else if s == "string" then TAsciiString else if s == "wstring" then TWideString
    else if s == "array" then TArray else if s == "function" then TFunction else if s == "alias" then TAlias
    else if s == "structure" then TStructure else if s == "union" then TUnion else if s == "enum" then TEnum
    else TNone
  }

  lemma NamesAreDistinct(tag: TypeId)
    ensures IdOf(TypeName(tag)) == tag
  {
    match tag
    case TVoid => case TBool => case TChar => case TInt => case TFloat => case TAsciiString => case TWideString =>
    case TArray => case TFunction => case TAlias => case TStructure => case TUnion => case TEnum => case TNone =>
  }

  lemma TypeNames()
    ensures [TypeName(TVoid), TypeName(TBool), TypeName(TChar), TypeName(TInt), TypeName(TFloat)] ==
            ["void", "bool", "char", "int", "float"]
    ensures [TypeName(TAsciiString), TypeName(TWideString), TypeName(TArray), TypeName(TFunction)] ==
            ["string", "wstring", "array", "function"]
    ensures [TypeName(TAlias), TypeName(TStructure), TypeName(TUnion), TypeName(TEnum), TypeName(TNone)] ==
            ["alias", "structure", "union", "enum", ""]
  {
  }

  // ---- Storing

  /** Every array has an item type; toJson goes to it without a check. */
  predicate Printable(t: Type)
    decreases t, 0
  {
    match t.body
    case ArrayBody(_, item) => item.Item? && Printable(item.t)
    case StructBody(fields) => PrintableFields(fields)
    case _ => true
  }

  predicate PrintableFields(fields: seq<Field>)
    decreases fields
  {
    fields == [] || (PrintableFields(fields[..|fields| - 1]) && Printable(fields[|fields| - 1].t))
  }

  function ToJson(t: Type): Json
    requires Printable(t)
    decreases t, 0
  {
    var obj := map["type" := JString(TypeName(t.tag)), "size" := JNumber(SizeOf(t)), "name" := JString(t.name)];
    match t.body
    case IntBody(size, signed) => JObject(obj["size" := JNumber(size)]["signed" := JBool(signed)])
    case FloatBody(size, signed) => JObject(obj["size" := JNumber(size)]["signed" := JBool(signed)])
    case AsciiBody(size) => JObject(obj["size" := JNumber(size)])
    case WideBody(size) => JObject(obj["size" := JNumber(size)])
    case ArrayBody(count, item) => JObject(obj["size" := JNumber(count)]["itemtype" := ToJson(item.t)])
    case StructBody(fields) => JObject(obj["fields" := JArray(FieldsToJson(fields))])
  }

  function FieldsToJson(fields: seq<Field>): (items: seq<Json>)
    requires PrintableFields(fields)
    ensures |items| == |fields|
    decreases fields
  {
    if fields == [] then []
    else
      var last := fields[|fields| - 1];
      FieldsToJson(fields[..|fields| - 1]) + [JObject(map["name" := JString(last.name), "type" := ToJson(last.t)])]
  }

  // ---- Fields of a structure

  function Names(fields: seq<Field>): set<string> {
    if fields == [] then {} else Names(fields[..|fields| - 1]) + {fields[|fields| - 1].name}
  }

  /** A type without size or name is dropped, any other one gets an unused name. */
  function Appended(fields: seq<Field>, t: Type, name: string): seq<Field> {
    if SizeOf(t) == 0 || name == "" then fields
    else
      var ns := Uncollided(Names(fields), name);
      fields + [Field(ns, t.(name := ns))]
  }

  // ---- Loading

  datatype Outcome = Loaded(t: Type) | Nothing | Throws

  datatype FieldsOutcome = Fields(fields: seq<Field>) | FieldsThrow

  function Load(v: Json): Outcome
    decreases v, 0
  {
    if !v.JObject? then Throws
    else
      var m := v.members;
      if "type" !in m then Nothing
      else if !m["type"].JString? then Throws
      else
        var tag := IdOf(m["type"].s);
        if tag !in {TInt, TFloat, TArray, TStructure, TAsciiString, TWideString} then Nothing
        else if "name" in m && !m["name"].JString? then Throws
        else
          var name := if "name" in m then m["name"].s else "";
          if tag.TStructure? then
            if "fields" !in m || !m["fields"].JArray? then Nothing
            else
              (match LoadFields(m["fields"].items)
               case FieldsThrow => Throws
               case Fields(fields) => Loaded(Type(tag, name, StructBody(fields))))
          else if "size" !in m then Nothing
          else if !m["size"].JNumber? then Throws
          else
            var size := m["size"].n;
            if tag.TArray? then
              if "itemtype" !in m then Nothing
              else
                (match Load(m["itemtype"])
                 case Throws => Throws
                 case Nothing => Loaded(Type(tag, name, ArrayBody(size, NoItem)))
                 case Loaded(item) => Loaded(Type(tag, name, ArrayBody(size, Item(item)))))
            else if tag.TAsciiString? then Loaded(Type(tag, name, AsciiBody(size)))
            else if tag.TWideString? then Loaded(Type(tag, name, WideBody(size)))
            else if "signed" !in m then Nothing
            else if !m["signed"].JBool? then Throws
            else
              var signed := m["signed"].b;
              Loaded(Type(tag, name, if tag.TInt? then IntBody(size, signed) else FloatBody(size, signed)))
  }

  function LoadFields(items: seq<Json>): FieldsOutcome
    decreases items
  {
    if items == [] then Fields([])
    else
      var before := LoadFields(items[..|items| - 1]);
      if before.FieldsThrow? then FieldsThrow else LoadField(before.fields, items[|items| - 1])
  }

  function LoadField(fields: seq<Field>, item: Json): FieldsOutcome
    decreases item, 1
  {
    if !item.JObject? then FieldsThrow
    else
      var m := item.members;
      if "type" !in m || !m["type"].JObject? || "name" !in m || !m["name"].JString? then FieldsThrow
      else match Load(m["type"])
        case Throws => FieldsThrow
        case Nothing => Fields(fields)
        case Loaded(t) => Fields(Appended(fields, t, m["name"].s))
  }

  // ---- What survives

  /** The tag is that of the class, and so on inside; fields have their own non-empty name, and a size. */
  predicate Sound(t: Type)
    decreases t, 0
  {
    && t.tag == TagOf(t.body)
    && match t.body
       case ArrayBody(_, item) => item.Item? ==> Sound(item.t)
       case StructBody(fields) => SoundFields(fields)
       case _ => true
  }

  function TagOf(body: Body): TypeId {
    match body
    case IntBody(_, _) => TInt
    case FloatBody(_, _) => TFloat
    case AsciiBody(_) => TAsciiString
    case WideBody(_) => TWideString
    case ArrayBody(_, _) => TArray
    case StructBody(_) => TStructure
  }

  predicate SoundFields(fields: seq<Field>)
    decreases fields
  {
    fields == [] ||
    (var init, last := fields[..|fields| - 1], fields[|fields| - 1];
     && SoundFields(init)
     && last.name != "" && last.name !in Names(init)
     && last.t.name == last.name && SizeOf(last.t) != 0 && Sound(last.t))
  }

  lemma SizeIgnoresName(t: Type, name: string)
    ensures SizeOf(t.(name := name)) == SizeOf(t) && Sound(t.(name := name)) == Sound(t)
  {
  }

  /** Appending keeps a structure's fields sound. */
  lemma AppendedIsSound(fields: seq<Field>, t: Type, name: string)
    requires SoundFields(fields) && Sound(t)
    ensures SoundFields(Appended(fields, t, name))
  {
    if SizeOf(t) != 0 && name != "" {
      var k := UncollidedIsFree(Names(fields), name);
      var ns := Uncollided(Names(fields), name);
      SizeIgnoresName(t, ns);
      var fields' := fields + [Field(ns, t.(name := ns))];
      assert fields'[..|fields'| - 1] == fields;
    }
  }

  /** Whatever is loaded is sound. */
  lemma {:induction false} LoadedIsSound(v: Json)
    requires Load(v).Loaded?
    ensures Sound(Load(v).t)
    decreases v, 0
  {
    var tag := IdOf(v.members["type"].s);
    if tag.TStructure? {
      LoadedFieldsAreSound(v.members["fields"].items);
    } else if tag.TArray? && Load(v.members["itemtype"]).Loaded? {
      LoadedIsSound(v.members["itemtype"]);
    }
  }

  lemma {:induction false} LoadedFieldsAreSound(items: seq<Json>)
    requires LoadFields(items).Fields?
    ensures SoundFields(LoadFields(items).fields)
    decreases items
  {
    if items != [] {
      var init, item := items[..|items| - 1], items[|items| - 1];
      LoadedFieldsAreSound(init);
      if Load(item.members["type"]).Loaded? {
        LoadedIsSound(item.members["type"]);
        AppendedIsSound(LoadFields(init).fields, Load(item.members["type"]).t, item.members["name"].s);
      }
    }
  }

  lemma {:induction false} SoundComesBack(t: Type)
    requires Printable(t) && Sound(t)
    ensures Load(ToJson(t)) == Loaded(t)
    decreases t, 0
  {
    NamesAreDistinct(t.tag);
    match t.body
    case ArrayBody(_, item) =>
      SoundComesBack(item.t);
    case StructBody(fields) =>
      SoundFieldsComeBack(fields);
    case _ =>
  }

  lemma {:induction false} SoundFieldsComeBack(fields: seq<Field>)
    requires PrintableFields(fields) && SoundFields(fields)
    ensures LoadFields(FieldsToJson(fields)) == Fields(fields)
    decreases fields
  {
    hide Load, ToJson, Sound, SizeOf, Printable;
    if fields != [] {
      var init, last := fields[..|fields| - 1], fields[|fields| - 1];
      SoundFieldsComeBack(init);
      SoundComesBack(last.t);
      ToJsonIsObject(last.t);
      AppendedAgain(init, last);
      var items := FieldsToJson(fields);
      assert items[..|items| - 1] == FieldsToJson(init);
    }
  }

  lemma ToJsonIsObject(t: Type)
    requires Printable(t)
    ensures ToJson(t).JObject?
  {
  }

  lemma AppendedAgain(init: seq<Field>, last: Field)
    requires last.name != "" && last.name !in Names(init) && last.t.name == last.name && SizeOf(last.t) != 0
    ensures Appended(init, last.t, last.name) == init + [last]
  {
    var k := UncollidedIsFree(Names(init), last.name);
    assert last.t.(name := last.name) == last.t;
  }

  /** A type comes back from its JSON form as it was exactly when it is sound. */
  lemma RoundTrip(t: Type)
    requires Printable(t)
    ensures Load(ToJson(t)) == Loaded(t) <==> Sound(t)
  {
    if Sound(t) {
      SoundComesBack(t);
    }
    if Load(ToJson(t)) == Loaded(t) {
      LoadedIsSound(ToJson(t));
    }
  }

  // ---- The documents of the classes, member by member

  lemma NumberDocuments(name: string, size: U64, signed: bool)
    ensures ToJson(Type(TInt, name, IntBody(size, signed))) == JObject(map[
              "type" := JString("int"), "name" := JString(name), "size" := JNumber(size), "signed" := JBool(signed)])
    ensures ToJson(Type(TFloat, name, FloatBody(size, signed))) == JObject(map[
              "type" := JString("float"), "name" := JString(name), "size" := JNumber(size), "signed" := JBool(signed)])
  {
  }

  lemma StringDocuments(name: string, size: U64)
    ensures ToJson(Type(TAsciiString, name, AsciiBody(size))) == JObject(map[
              "type" := JString("string"), "name" := JString(name), "size" := JNumber(size)])
    ensures ToJson(Type(TWideString, name, WideBody(size))) == JObject(map[
              "type" := JString("wstring"), "name" := JString(name), "size" := JNumber(size)])
  {
  }

  /** Of an array the size is the number of items, of a structure the number of bytes. */
  lemma CompoundDocuments(name: string, count: U64, t: Type, field: string)
    requires Printable(t)
    ensures ToJson(Type(TArray, name, ArrayBody(count, Item(t)))) == JObject(map[
              "type" := JString("array"), "name" := JString(name), "size" := JNumber(count), "itemtype" := ToJson(t)])
    ensures var fields := [Field(field, t)];
            PrintableFields(fields) &&
            ToJson(Type(TStructure, name, StructBody(fields))) == JObject(map[
              "type" := JString("structure"), "name" := JString(name), "size" := JNumber(Truncated(SizeOf(t))),
              "fields" := JArray([JObject(map["name" := JString(field), "type" := ToJson(t)])])])
  {
    var fields := [Field(field, t)];
    assert fields[..0] == [] && PrintableFields(fields[..0]) && FieldsToJson([]) == [];
    hide ToJson;
    assert FieldsToJson(fields) == [JObject(map["name" := JString(field), "type" := ToJson(t)])];
    assert SumOf([]) == 0 && SumOf(fields) == SizeOf(t);
    StructDocument(name, fields);
    ArrayDocument(name, count, t);
  }

  lemma ArrayDocument(name: string, count: U64, t: Type)
    requires Printable(t)
    ensures ToJson(Type(TArray, name, ArrayBody(count, Item(t)))) == JObject(map[
              "type" := JString("array"), "name" := JString(name), "size" := JNumber(count), "itemtype" := ToJson(t)])
  {
  }

  lemma StructDocument(name: string, fields: seq<Field>)
    requires PrintableFields(fields)
    ensures ToJson(Type(TStructure, name, StructBody(fields))) == JObject(map[
              "type" := JString("structure"), "name" := JString(name), "size" := JNumber(Truncated(SumOf(fields))),
              "fields" := JArray(FieldsToJson(fields))])
  {
  }
}
