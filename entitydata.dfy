/** What an Entity computes from its field store alone: construction from a
    decoded object, `__get`, `__isset`, `parseId`, `map`, the body and
    target of `save`, and property access on nested values. */
module EntityData {
  import opened Common
  import opened Values
  import opened FieldWalk
  import opened Links

  /** A field of the `meta` reference. A `meta` object never carries a
      `meta` of its own, so it stays a plain object; an Entity there is read
      by its stored fields. */
  function MetaField(fs: seq<Field>, k: string): Value
  {
    match Read(fs, "meta")
    case Obj(m) => Read(m, k)
    case Ent(m) => Read(m, k)
    case _ => NULL
  }

  /** A scalar as a string, null as absent. */
  function ScalarText(v: Value): Option<string>
  {
    match v
    case Sc(Null) => None
    case Sc(s) => Some(Text(s))
    case _ => None
  }

  /** `$this->data['meta']->type ?? null` */
  function MetaType(fs: seq<Field>): Option<string>
  {
    ScalarText(MetaField(fs, "type"))
  }

  /** `$this->data['meta']->href`, null when unset. */
  function MetaHref(fs: seq<Field>): Option<string>
  {
    ScalarText(MetaField(fs, "href"))
  }

  function OrEmpty(s: Option<string>): string
  {
    match s
    case Some(t) => t
    case None => ""
  }

  /** `parseId`: the last `/`-separated segment of `meta.href` (of the empty
      string when there is none). */
  function ParseId(fs: seq<Field>): (id: string)
    ensures '/' !in id
  {
    Last(Explode(OrEmpty(MetaHref(fs)), '/'))
  }

  /** The id is exactly the text after the last `/` of the href. */
  lemma ParseIdIsLastSegment(fs: seq<Field>) returns (k: nat)
    ensures var href := OrEmpty(MetaHref(fs));
      k <= |href| && href[k..] == ParseId(fs) && (k == 0 || href[k - 1] == '/')
      && '/' !in ParseId(fs)
  {
    k := LastPieceIsSuffix(OrEmpty(MetaHref(fs)), '/');
  }

  /** The state the constructor leaves behind. */
  datatype Built = Built(data: seq<Field>, etype: Option<string>)

  /** The constructor. An object must have `meta` set; its fields are walked
      by `updateField` and stored in turn, and the type is `meta.type`. An
      Entity given in place of an object passes the `meta` test through
      `__isset`; the loop that follows, running inside the Entity class,
      would copy the argument's protected properties, which this model does
      not represent, so here it gives an empty, untyped entity. A string is
      the type of a new, empty entity; anything else gives an empty,
      untyped entity. */
  function Build(input: Value): (r: Result<Built>)
    ensures r.Err? <==> (input.Obj? && !HasMeta(input.fields)) || (input.Ent? && !HasMeta(input.data))
    ensures r.Err? ==> r.error == MissingMeta
    ensures input.Sc? && input.scalar.Str? ==> r == Ok(Built([], Some(input.scalar.s)))
    ensures !input.Obj? && r.Ok? ==> r.value.data == []
  {
    match input
    case Obj(fs) =>
      if !HasMeta(fs) then Err(MissingMeta)
      else
        var data := FromObject(fs);
        Ok(Built(data, MetaType(data)))
    case Ent(fs) =>
      if !HasMeta(fs) then Err(MissingMeta) else Ok(Built([], None))
    case Sc(Str(t)) => Ok(Built([], Some(t)))
    case _ => Ok(Built([], None))
  }

  /** From a decoded object (whose keys are distinct) the constructor keeps
      every field, walked, in order, and takes `meta.type` as the type. */
  lemma BuildFromObject(fs: seq<Field>)
    requires HasMeta(fs) && UniqueNames(fs)
    ensures Build(Obj(fs)) == Ok(Built(MaterializeFields(fs), MetaType(fs)))
    ensures Names(Build(Obj(fs)).value.data) == Names(fs)
  {
    FromObjectOfUniqueFields(fs);
    MaterializeKeepsNames(fs);
    MetaFieldMaterialized(fs, "type");
  }

  /** Walking the fields walks the `meta` reference's fields too, and keeps
      scalars as they are. */
  lemma MetaFieldMaterialized(fs: seq<Field>, k: string)
    ensures MetaField(MaterializeFields(fs), k) == Materialize(MetaField(fs, k))
    ensures ScalarText(MetaField(MaterializeFields(fs), k)) == ScalarText(MetaField(fs, k))
  {
    ReadMaterialized(fs, "meta");
    match Read(fs, "meta")
    case Obj(m) => ReadMaterialized(m, k);
    case Ent(m) => ReadMaterialized(m, k);
    case _ =>
  }

  /** `updateField` wraps an object by calling the constructor on the object
      it has already walked. Walking is idempotent, so the new Entity's data
      is that walked object: `Ent(walked)` is exactly the constructed Entity. */
  lemma WrappedObjectIsBuilt(fs: seq<Field>)
    requires UniqueNames(fs)
    requires Materialize(Obj(fs)).Ent?
    ensures Build(Obj(MaterializeFields(fs))) == Ok(Built(Materialize(Obj(fs)).data, MetaType(MaterializeFields(fs))))
  {
    var walked := MaterializeFields(fs);
    MaterializeKeepsNames(fs);
    FromObjectOfUniqueFields(walked);
    MaterializeFieldsIdempotent(fs);
  }

  /** The Entities a page of rows becomes, one per row in order, or the
      error of the first row the constructor rejects. */
  function Hydrate(rows: seq<Value>): (r: Result<seq<Value>>)
    ensures r.Ok? ==> |r.value| == |rows|
    decreases |rows|, 1
  {
    if |rows| == 0 then Ok([]) else HydrateFirst(rows[0], rows[1..])
  }

  /** The constructor on one row, then hydration of the rows after it. */
  function HydrateFirst(row: Value, rest: seq<Value>): (r: Result<seq<Value>>)
    ensures r.Ok? ==> |r.value| == 1 + |rest|
    decreases |rest| + 1, 0
  {
    match Build(row)
    case Err(e) => Err(e)
    case Ok(b) =>
      match Hydrate(rest)
      case Err(e) => Err(e)
      case Ok(tail) => Ok([Ent(b.data)] + tail)
  }

  /** Hydration succeeds exactly when the constructor accepts every row;
      then there is one Entity per row, holding that row's constructed data,
      and otherwise the error is that of the first rejected row. */
  lemma {:induction false} HydrateMeaning(rows: seq<Value>)
    ensures Hydrate(rows).Ok? <==> forall i :: 0 <= i < |rows| ==> Build(rows[i]).Ok?
    ensures Hydrate(rows).Ok? ==> |Hydrate(rows).value| == |rows|
    ensures Hydrate(rows).Ok? ==>
      forall i :: 0 <= i < |rows| ==> Hydrate(rows).value[i] == Ent(Build(rows[i]).value.data)
    ensures Hydrate(rows).Err? ==>
      exists i :: 0 <= i < |rows| && Build(rows[i]).Err? && Hydrate(rows).error == Build(rows[i]).error
                  && forall j :: 0 <= j < i ==> Build(rows[j]).Ok?
    decreases |rows|
  {
    if |rows| > 0 {
      var tail := rows[1..];
      HydrateMeaning(tail);
      assert forall i :: 1 <= i < |rows| ==> rows[i] == tail[i - 1];
      if Build(rows[0]).Ok? && Hydrate(tail).Err? {
        var i :| 0 <= i < |tail| && Build(tail[i]).Err? && Hydrate(tail).error == Build(tail[i]).error
                 && forall j :: 0 <= j < i ==> Build(tail[j]).Ok?;
        assert rows[i + 1] == tail[i];
        assert forall j :: 1 <= j < i + 1 ==> Build(rows[j]).Ok? by {
          forall j | 1 <= j < i + 1 ensures Build(rows[j]).Ok? { assert rows[j] == tail[j - 1]; }
        }
      }
    }
  }

  /** One more row hydrated: a row the constructor accepts extends the
      prefix by its Entity. */
  lemma HydrateNext(rows: seq<Value>, i: nat)
    requires i < |rows| && Hydrate(rows[..i]).Ok? && Build(rows[i]).Ok?
    ensures Hydrate(rows[..i + 1]) == Ok(Hydrate(rows[..i]).value + [Ent(Build(rows[i]).value.data)])
  {
    var one := [rows[i]];
    var e := Ent(Build(rows[i]).value.data);
    assert one[1..] == [];
    assert Hydrate(one) == Ok([e] + []);
    assert [e] + [] == [e];
    assert rows[..i + 1] == rows[..i] + one;
    HydrateAppend(rows[..i], one);
  }

  /** A row the constructor refuses makes the whole list fail. */
  lemma HydrateStops(rows: seq<Value>, i: nat)
    requires i < |rows| && Hydrate(rows[..i]).Ok? && Build(rows[i]).Err?
    ensures Hydrate(rows) == Err(Build(rows[i]).error)
  {
    var tail := rows[i..];
    assert tail[0] == rows[i];
    assert Hydrate(tail) == Err(Build(rows[i]).error);
    assert rows == rows[..i] + tail;
    HydrateAppend(rows[..i], tail);
  }

  /** Hydrating two lists of rows one after the other is hydrating the
      whole list, when the first list is accepted. */
  lemma {:induction false} HydrateAppend(a: seq<Value>, b: seq<Value>)
    requires Hydrate(a).Ok?
    ensures Hydrate(a + b) == (match Hydrate(b)
                               case Ok(hb) => Ok(Hydrate(a).value + hb)
                               case Err(e) => Err(e))
    decreases |a|
  {
    if |a| == 0 {
      assert a + b == b;
      assert Hydrate(a).value == [];
      if Hydrate(b).Ok? {
        assert [] + Hydrate(b).value == Hydrate(b).value;
      }
    } else {
      var e0 := Build(a[0]).value;
      var ta := Hydrate(a[1..]).value;
      assert Hydrate(a).value == [Ent(e0.data)] + ta;
      assert (a + b)[0] == a[0];
      assert (a + b)[1..] == a[1..] + b;
      HydrateAppend(a[1..], b);
      if Hydrate(b).Ok? {
        assert [Ent(e0.data)] + (ta + Hydrate(b).value) == ([Ent(e0.data)] + ta) + Hydrate(b).value;
      }
    }
  }

  /** When a whole list is accepted, so is each of its two parts, and the
      Entities are those of the parts, in order. */
  lemma {:induction false} HydrateSplit(a: seq<Value>, b: seq<Value>)
    requires Hydrate(a + b).Ok?
    ensures Hydrate(a).Ok? && Hydrate(b).Ok?
    ensures Hydrate(a + b).value == Hydrate(a).value + Hydrate(b).value
    decreases |a|
  {
    if |a| == 0 {
      assert a + b == b;
    } else {
      assert (a + b)[0] == a[0];
      assert (a + b)[1..] == a[1..] + b;
      HydrateSplit(a[1..], b);
      HydrateAppend(a, b);
    }
  }

  /** Hydrating a slice of accepted rows gives the same slice of Entities. */
  lemma HydrateSlice(rows: seq<Value>, i: int, j: int)
    requires Hydrate(rows).Ok? && 0 <= i <= j <= |rows|
    ensures Hydrate(rows[i..j]) == Ok(Hydrate(rows).value[i..j])
  {
    HydrateSplitAt(rows, j);
    HydrateSplitAt(rows[..j], i);
    assert rows[..j][i..] == rows[i..j];
    assert Hydrate(rows).value[..j][i..] == Hydrate(rows).value[i..j];
  }

  /** Hydration of an accepted list, cut in two at `j`. */
  lemma HydrateSplitAt(rows: seq<Value>, j: int)
    requires Hydrate(rows).Ok? && 0 <= j <= |rows|
    ensures Hydrate(rows[..j]) == Ok(Hydrate(rows).value[..j])
    ensures Hydrate(rows[j..]) == Ok(Hydrate(rows).value[j..])
  {
    assert rows == rows[..j] + rows[j..];
    HydrateSplit(rows[..j], rows[j..]);
  }

  /** `isset($record->name) && $record->name === $name` for a record of the
      attributes list; an Entity record answers from its stored fields. */
  predicate NamedAs(record: Value, name: string)
  {
    match record
    case Obj(f) => Read(f, "name") == StrV(name)
    case Ent(f) => Read(f, "name") == StrV(name)
    case _ => false
  }

  /** `attributes`, when it is set and is a list. */
  function Attributes(fs: seq<Field>): seq<Value>
  {
    if IsSet(fs, "attributes") && Read(fs, "attributes").Arr? then Read(fs, "attributes").items else []
  }

  /** Index of the first record named `name`, or |records|. */
  function FirstNamed(records: seq<Value>, name: string): (i: nat)
    ensures i <= |records|
    ensures i < |records| ==> NamedAs(records[i], name)
    ensures forall j :: 0 <= j < i ==> !NamedAs(records[j], name)
  {
    if |records| == 0 then 0
    else if NamedAs(records[0], name) then 0
    else 1 + FirstNamed(records[1..], name)
  }

  /** `__get`: a stored field first, then the id parsed from `meta.href`,
      then the first custom attribute of that name; otherwise an error. */
  function Get(fs: seq<Field>, name: string): (r: Result<Value>)
    ensures r.Ok? <==> (Has(fs, name) || name == "id"
                        || exists j :: 0 <= j < |Attributes(fs)| && NamedAs(Attributes(fs)[j], name))
    ensures r.Err? ==> r.error == FieldNotFound(name)
    ensures Has(fs, name) ==> r == Ok(Read(fs, name))
    ensures !Has(fs, name) && name == "id" ==> r == Ok(StrV(ParseId(fs)))
    ensures !Has(fs, name) && name != "id" && r.Ok? ==>
              var j := FirstNamed(Attributes(fs), name);
              j < |Attributes(fs)| && r.value == Attributes(fs)[j]
  {
    match Lookup(fs, name)
    case Some(v) => Ok(v)
    case None =>
      if name == "id" then Ok(StrV(ParseId(fs)))
      else
        var records := Attributes(fs);
        var j := FirstNamed(records, name);
        if j < |records| then Ok(records[j]) else Err(FieldNotFound(name))
  }

  /** Reading `$value->$key` from outside the Entity class (in `filter`, the
      webhook and audit selections): a plain object answers with the field
      or null, an Entity through `__get` (which may fail), anything else
      with null. */
  function Property(v: Value, key: string): (r: Result<Value>)
    ensures v.Obj? ==> r == Ok(Read(v.fields, key))
    ensures v.Ent? ==> r == Get(v.data, key)
    ensures v.Sc? || v.Arr? ==> r == Ok(NULL)
  {
    match v
    case Obj(fs) => Ok(Read(fs, key))
    case Ent(fs) => Get(fs, key)
    case _ => Ok(NULL)
  }

  /** `$record->type ?? null` read inside the Entity class: an Entity's
      protected `type` (its `meta.type`), a plain object's `type` field. */
  function TypeProperty(v: Value): Option<string>
  {
    match v
    case Ent(fs) => MetaType(fs)
    case Obj(fs) =>
      (match Read(fs, "type") case Sc(Str(t)) => Some(t) case _ => None)
    case _ => None
  }

  /** `map`: a new object holding the listed fields that are set, each
      under its own name, once. */
  function Map(fs: seq<Field>, names: seq<string>): (out: seq<Field>)
    ensures forall n :: Lookup(out, n) == if n in names && IsSet(fs, n) then Some(Read(fs, n)) else None
    ensures UniqueNames(out)
    decreases |names|
  {
    if |names| == 0 then []
    else
      var init := names[..|names| - 1];
      var n := names[|names| - 1];
      assert names == init + [n];
      var out := Map(fs, init);
      if IsSet(fs, n) then Store(out, n, Read(fs, n)) else out
  }

  /** The names `save` sends: every required field, then every changed field
      not required, in order (a name changed twice is sent once). */
  function SaveNames(required: seq<string>, changed: seq<string>): (ns: seq<string>)
    ensures forall n :: n in ns <==> n in required || n in changed
    decreases |changed|
  {
    if |changed| == 0 then required
    else
      var init := changed[..|changed| - 1];
      var n := changed[|changed| - 1];
      assert changed == init + [n];
      var ns := SaveNames(required, init);
      if n in required then ns else ns + [n]
  }

  /** Stores each named field, flattened by `getFieldData`, into `acc`. An
      absent field reads as null. */
  function BodyFrom(fs: seq<Field>, acc: seq<Field>, names: seq<string>): (body: seq<Field>)
    ensures forall n :: Lookup(body, n) == if n in names then Some(Flatten(Read(fs, n))) else Lookup(acc, n)
    decreases |names|
  {
    if |names| == 0 then acc
    else
      var init := names[..|names| - 1];
      var n := names[|names| - 1];
      assert names == init + [n];
      Store(BodyFrom(fs, acc, init), n, Flatten(Read(fs, n)))
  }

  datatype Verb = GET | POST | PUT | DELETE

  /** A request the library sends: verb, href and JSON body. */
  datatype Request = Request(verb: Verb, href: string, body: seq<Field>)

  /** The request `save` sends, or None when the body is empty (no request,
      `save` returns false). With `meta` set the body carries `meta` and is
      PUT to `meta.href`; otherwise it is POSTed to the type's collection. */
  function SaveRequest(fs: seq<Field>, etype: Option<string>, required: seq<string>, changed: seq<string>): (r: Option<Request>)
    ensures r.None? <==> required == [] && changed == []
    ensures r.Some? ==> forall n :: n != "meta" ==>
      Lookup(r.value.body, n) == if n in required || n in changed then Some(Flatten(Read(fs, n))) else None
    ensures r.Some? && IsSet(fs, "meta") ==>
      r.value.verb == PUT && r.value.href == OrEmpty(MetaHref(fs)) && Lookup(r.value.body, "meta") == Some(Read(fs, "meta"))
    ensures r.Some? && !IsSet(fs, "meta") ==>
      r.value.verb == POST && r.value.href == BASE_URI + ENTITY_URI + "/" + OrEmpty(etype)
  {
    var body := BodyFrom(fs, [], SaveNames(required, changed));
    SaveBodyEmpty(fs, required, changed);
    if |body| == 0 then None
    else if IsSet(fs, "meta") then
      Some(Request(PUT, OrEmpty(MetaHref(fs)), Store(body, "meta", Read(fs, "meta"))))
    else
      Some(Request(POST, BASE_URI + ENTITY_URI + "/" + OrEmpty(etype), body))
  }

  /** The body is empty exactly when nothing is required and nothing changed. */
  lemma SaveBodyEmpty(fs: seq<Field>, required: seq<string>, changed: seq<string>)
    ensures |BodyFrom(fs, [], SaveNames(required, changed))| == 0 <==> required == [] && changed == []
  {
    var names := SaveNames(required, changed);
    var body := BodyFrom(fs, [], names);
    if |names| > 0 {
      assert Lookup(body, names[0]).Some?;
    }
    if required != [] {
      assert required[0] in names;
    } else if changed != [] {
      assert changed[0] in names;
    } else {
      assert names == [];
    }
  }

  /** An entity built from `createLink(type, id)` with an id free of `/`
      reads back that id and has that type. */
  lemma LinkReadsBackId(entityType: string, id: string, metadata: bool)
    requires '/' !in id
    ensures Build(CreateLink(entityType, id, metadata)).Ok?
    ensures Get(Build(CreateLink(entityType, id, metadata)).value.data, "id") == Ok(StrV(id))
    ensures Build(CreateLink(entityType, id, metadata)).value.etype == Some(entityType)
  {
    var link := CreateLink(entityType, id, metadata);
    var fs := link.fields;
    assert Find(fs, "meta") == 0;
    assert UniqueNames(fs);
    BuildFromObject(fs);
    var data := Build(link).value.data;
    assert Names(data) == ["meta"];
    assert !Has(data, "id") by {
      assert forall j :: 0 <= j < |data| ==> data[j].name == Names(data)[j];
    }
    var prefix := BASE_URI + ENTITY_URI + "/" + entityType;
    assert BASE_URI + ENTITY_URI + "/" + entityType + "/" + id == prefix + ['/'] + id;
    assert MetaHref(fs) == Some(prefix + ['/'] + id);
    LastPieceAfterSeparator(prefix, '/', id);
    ExplodeWithoutSeparator(id, '/');
    ReadMaterialized(fs, "meta");
    ReadMaterialized(link.fields[0].value.fields, "href");
  }

  /** `getEntityById` followed by `parseId` gives back the id (when it is
      free of `/`). */
  lemma EntityByIdHrefParses(entityType: string, id: string)
    requires '/' !in id
    ensures Last(Explode(EntityByIdHref(entityType, id), '/')) == id
  {
    var prefix := BASE_URI + ENTITY_URI + "/" + entityType;
    assert EntityByIdHref(entityType, id) == prefix + ['/'] + id;
    LastPieceAfterSeparator(prefix, '/', id);
    ExplodeWithoutSeparator(id, '/');
  }
}
