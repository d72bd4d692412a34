/** Loading as the classes do it: objects are made empty and then filled from JSON, structures field by field. */
module TypeLoading {
  import FieldNames
  import opened Types
  import opened TypeJson

  /** The fields by name. */
  function ByName(fields: seq<Field>): map<string, Type> {
    if fields == [] then map[]
    else ByName(fields[..|fields| - 1])[fields[|fields| - 1].name := fields[|fields| - 1].t]
  }

  lemma {:induction false} ByNameHasNames(fields: seq<Field>)
    ensures ByName(fields).Keys == Names(fields)
  {
    if fields != [] {
      ByNameHasNames(fields[..|fields| - 1]);
    }
  }

  /** With distinct names the index finds each field's type. */
  lemma {:induction false} ByNameFinds(fields: seq<Field>, i: nat)
    requires i < |fields| && forall j, k :: 0 <= j < k < |fields| ==> fields[j].name != fields[k].name
    ensures fields[i].name in ByName(fields) && ByName(fields)[fields[i].name] == fields[i].t
  {
    if i < |fields| - 1 {
      ByNameFinds(fields[..|fields| - 1], i);
    }
  }

  class StructureType {
    var tag: TypeId
    var name: string
    var fields: seq<Field>
    var byName: map<string, Type>

    ghost predicate Valid()
      reads this
    {
      byName == ByName(fields)
    }

    function Value(): Type
      reads this
    {
      Type(tag, name, StructBody(fields))
    }

    constructor (name: string)
      ensures Valid() && Value() == Type(TStructure, name, StructBody([]))
    {
      this.tag, this.name, fields, byName := TStructure, name, [], map[];
    }

    /** The name itself, or else the name with the lowest suffix that no field has; the search ends. */
    method Uncollided(s: string) returns (r: string)
      requires Valid()
      ensures r == FieldNames.Uncollided(Names(fields), s)
      ensures r !in Names(fields)
    {
      ByNameHasNames(fields);
      ghost var names := byName.Keys;
      r := s;
      var i := 0;
      while r in byName
        invariant r == FieldNames.Candidate(s, i) && FieldNames.AllTaken(names, s, i)
        invariant FieldNames.FirstFree(names, s, i) == FieldNames.Uncollided(names, s)
        decreases |names| - i
      {
        FieldNames.Pigeonhole(names, s, i + 1);
        r := s + "_" + FieldNames.Digits(i);
        i := i + 1;
      }
    }

    method Append(t: Item, name: string)
      requires Valid()
      modifies `fields, `byName
      ensures Valid() && fields == if t.NoItem? then old(fields) else Appended(old(fields), t.t, name)
    {
      if t.NoItem? || SizeOf(t.t) == 0 || name == "" { return; }
      var ns := Uncollided(name);
      var named := t.t.(name := ns);
      byName := byName[ns := named];
      fields := fields + [Field(ns, named)];
      assert fields[..|fields| - 1] == old(fields);
    }

    /** Fills an empty structure. */
    method FromJson(v: Json) returns (ok: bool, thrown: bool)
      requires Valid() && fields == [] && name == ""
      requires v.JObject? && "type" in v.members && v.members["type"].JString?
      requires IdOf(v.members["type"].s) == TStructure
      modifies this
      ensures Valid()
      ensures Load(v) == if thrown then Throws else if ok then Loaded(Value()) else Nothing
      decreases v, 0
    {
      var m := v.members;
      ok, thrown := false, false;
      if "name" in m {
        if !m["name"].JString? { return false, true; }
        name := m["name"].s;
      }
      tag := TStructure;
      if "fields" !in m || !m["fields"].JArray? { return; }
      var items := m["fields"].items;
      for i := 0 to |items|
        invariant Valid() && tag == TStructure && name == if "name" in m then m["name"].s else ""
        invariant LoadFields(items[..i]) == Fields(fields)
      {
        assert items[..i + 1][..i] == items[..i];
        if !items[i].JObject? { ThrowsOn(items, i); return false, true; }
        var f := items[i].members;
        if "type" !in f || !f["type"].JObject? || "name" !in f || !f["name"].JString? {
          ThrowsOn(items, i);
          return false, true;
        }
        var o := LoadType(f["type"]);
        match o {
          case Throws => ThrowsOn(items, i); return false, true;
          case Nothing => Append(NoItem, f["name"].s);
          case Loaded(t) => Append(Item(t), f["name"].s);
        }
      }
      assert items[..|items|] == items;
      return true, false;
    }
  }

  /** A throw at one field is a throw of the whole. */
  lemma {:induction false} ThrowsOn(items: seq<Json>, i: nat)
    requires i < |items| && LoadFields(items[..i + 1]).FieldsThrow?
    ensures LoadFields(items).FieldsThrow?
    decreases |items|
  {
    if i + 1 < |items| {
      var init := items[..|items| - 1];
      assert init[..i + 1] == items[..i + 1];
      ThrowsOn(init, i);
    } else {
      assert items[..i + 1] == items;
    }
  }

  method LoadType(v: Json) returns (o: Outcome)
    ensures o == Load(v)
    decreases v, 1
  {
    if !v.JObject? { return Throws; }
    var m := v.members;
    if "type" !in m { return Nothing; }
    if !m["type"].JString? { return Throws; }
    var tag := IdOf(m["type"].s);
    if tag !in {TInt, TFloat, TArray, TStructure, TAsciiString, TWideString} { return Nothing; }
    if tag.TStructure? {
      var s := new StructureType("");
      var ok, thrown := s.FromJson(v);
      if thrown { return Throws; }
      return if ok then Loaded(s.Value()) else Nothing;
    }
    var name := "";
    if "name" in m {
      if !m["name"].JString? { return Throws; }
      name := m["name"].s;
    }
    if "size" !in m { return Nothing; }
    if !m["size"].JNumber? { return Throws; }
    var size := m["size"].n;
    if tag.TArray? {
      if "itemtype" !in m { return Nothing; }
      var item := LoadType(m["itemtype"]);
      match item {
        case Throws => return Throws;
        case Nothing => return Loaded(Type(tag, name, ArrayBody(size, NoItem)));
        case Loaded(t) => return Loaded(Type(tag, name, ArrayBody(size, Item(t))));
      }
    }
    if tag.TAsciiString? { return Loaded(Type(tag, name, AsciiBody(size))); }
    if tag.TWideString? { return Loaded(Type(tag, name, WideBody(size))); }
    if "signed" !in m { return Nothing; }
    if !m["signed"].JBool? { return Throws; }
    var signed := m["signed"].b;
    return Loaded(Type(tag, name, if tag.TInt? then IntBody(size, signed) else FloatBody(size, signed)));
  }

  // ---- Copies

  /** A copy is made by the constructors that take a name; a structure gets copies of its fields one by one. */
  function Clone(t: Type): Type
    requires Printable(t)
    decreases t, 0
  {
    match t.body
    case IntBody(size, signed) => Type(TInt, t.name, t.body)
    case FloatBody(size, signed) => Type(TFloat, t.name, t.body)
    case AsciiBody(size) => Type(TAsciiString, t.name, AsciiBody(StringSize(size)))
    case WideBody(size) => Type(TStructure, t.name, WideBody(StringSize(size)))
    case ArrayBody(count, item) => Type(TArray, t.name, ArrayBody(count, Item(Clone(item.t))))
    case StructBody(fields) => Type(TStructure, t.name, StructBody(CloneFields(fields)))
  }

  function CloneFields(fields: seq<Field>): seq<Field>
    requires PrintableFields(fields)
    decreases fields
  {
    if fields == [] then []
    else
      var last := fields[|fields| - 1];
      Appended(CloneFields(fields[..|fields| - 1]), Clone(last.t), last.name)
  }

  /** No size given means 1. */
  function StringSize(size: U64): U64 {
    if size == RD_NVAL then 1 else size
  }

  /** No wide string in it, and no string of the size that stands for none. */
  predicate Copyable(t: Type)
    decreases t, 0
  {
    match t.body
    case AsciiBody(size) => size != RD_NVAL
    case WideBody(_) => false
    case ArrayBody(_, item) => item.Item? ==> Copyable(item.t)
    case StructBody(fields) => CopyableFields(fields)
    case _ => true
  }

  predicate CopyableFields(fields: seq<Field>)
    decreases fields
  {
    fields == [] || (CopyableFields(fields[..|fields| - 1]) && Copyable(fields[|fields| - 1].t))
  }

  /** A sound type is copied faithfully exactly when it holds no wide string and no string without a size. */
  lemma {:induction false} CloneIsFaithful(t: Type)
    requires Printable(t) && Sound(t)
    ensures Clone(t) == t <==> Copyable(t)
    decreases t, 0
  {
    match t.body
    case ArrayBody(_, item) => CloneIsFaithful(item.t);
    case StructBody(fields) => FieldsCloneFaithfully(fields);
    case _ =>
  }

  lemma {:induction false} FieldsCloneFaithfully(fields: seq<Field>)
    requires PrintableFields(fields) && SoundFields(fields)
    ensures CloneFields(fields) == fields <==> CopyableFields(fields)
    ensures |CloneFields(fields)| <= |fields|
    decreases fields
  {
    if fields != [] {
      var init, last := fields[..|fields| - 1], fields[|fields| - 1];
      FieldsCloneFaithfully(init);
      CloneIsFaithful(last.t);
      assert fields == init + [last];
    }
  }

  /** The copy of a wide string is tagged as a structure, and is not loaded again. */
  lemma WideCopyIsLost(t: Type)
    requires t.body.WideBody?
    ensures Printable(t) && Printable(Clone(t))
    ensures Load(ToJson(Clone(t))) == Nothing
  {
    NamesAreDistinct(TStructure);
  }
}
