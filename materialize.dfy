/** Field materialisation (`Entity::updateField`) and its inverse
    (`Entity::getFieldData`).

    `updateField` walks a decoded value and turns every object that carries a
    `meta` reference into an Entity; an object that already is an Entity is
    walked but not wrapped again. `getFieldData` walks back and replaces every
    Entity by a plain object holding its data. */
module FieldWalk {
  import opened Common
  import opened Values

  /** `isset($object->meta)` */
  predicate HasMeta(fs: seq<Field>)
  {
    IsSet(fs, "meta")
  }

  /** `updateField`: lists and objects are walked element by element; an
      object whose (walked) fields include a non-null `meta` becomes an Entity. */
  function Materialize(v: Value): (r: Value)
    decreases v, 1
  {
    match v
    case Sc(_) => v
    case Arr(items) => Arr(MaterializeList(items))
    case Obj(fs) =>
      var walked := MaterializeFields(fs);
      if HasMeta(walked) then Ent(walked) else Obj(walked)
    case Ent(fs) => Ent(MaterializeFields(fs))
  }

  function MaterializeList(vs: seq<Value>): (r: seq<Value>)
    decreases vs, 0
  {
    seq(|vs|, i requires 0 <= i < |vs| => Materialize(vs[i]))
  }

  function MaterializeFields(fs: seq<Field>): (r: seq<Field>)
    decreases fs, 0
  {
    seq(|fs|, i requires 0 <= i < |fs| => Field(fs[i].name, Materialize(fs[i].value)))
  }

  /** `getFieldData`: lists and objects are walked; an Entity is replaced by
      its data as a plain object, walked in turn. */
  function Flatten(v: Value): (r: Value)
    decreases v, 1
  {
    match v
    case Sc(_) => v
    case Arr(items) => Arr(FlattenList(items))
    case Obj(fs) => Obj(FlattenFields(fs))
    case Ent(fs) => Obj(FlattenFields(fs))
  }

  function FlattenList(vs: seq<Value>): (r: seq<Value>)
    decreases vs, 0
  {
    seq(|vs|, i requires 0 <= i < |vs| => Flatten(vs[i]))
  }

  function FlattenFields(fs: seq<Field>): (r: seq<Field>)
    decreases fs, 0
  {
    seq(|fs|, i requires 0 <= i < |fs| => Field(fs[i].name, Flatten(fs[i].value)))
  }

  /** The entity data the constructor (and `updateData`) builds from an
      object: each field, materialised, is assigned in turn into an initially
      empty store. */
  function FromObject(fs: seq<Field>): seq<Field>
  {
    StoreAll([], fs)
  }

  function StoreAll(acc: seq<Field>, fs: seq<Field>): seq<Field>
    decreases |fs|
  {
    if |fs| == 0 then acc
    else StoreAll(Store(acc, fs[0].name, Materialize(fs[0].value)), fs[1..])
  }

  /** Decoded JSON: no Entity anywhere inside. */
  predicate Raw(v: Value)
    decreases v
  {
    match v
    case Sc(_) => true
    case Arr(items) => forall i :: 0 <= i < |items| ==> Raw(items[i])
    case Obj(fs) => forall i :: 0 <= i < |fs| ==> Raw(fs[i].value)
    case Ent(_) => false
  }

  /** No object carrying `meta` is left unwrapped. */
  predicate Wrapped(v: Value)
    decreases v
  {
    match v
    case Sc(_) => true
    case Arr(items) => forall i :: 0 <= i < |items| ==> Wrapped(items[i])
    case Obj(fs) => !HasMeta(fs) && forall i :: 0 <= i < |fs| ==> Wrapped(fs[i].value)
    case Ent(fs) => forall i :: 0 <= i < |fs| ==> Wrapped(fs[i].value)
  }

  /** Wrapped, and every Entity carries `meta`: what materialising decoded
      JSON produces. */
  predicate Materialized(v: Value)
    decreases v
  {
    match v
    case Sc(_) => true
    case Arr(items) => forall i :: 0 <= i < |items| ==> Materialized(items[i])
    case Obj(fs) => !HasMeta(fs) && forall i :: 0 <= i < |fs| ==> Materialized(fs[i].value)
    case Ent(fs) => HasMeta(fs) && forall i :: 0 <= i < |fs| ==> Materialized(fs[i].value)
  }

  /** Materialising keeps null exactly null, so whether `meta` is set does
      not change. */
  lemma MaterializeKeepsMeta(fs: seq<Field>)
    ensures HasMeta(MaterializeFields(fs)) == HasMeta(fs)
  {
    var m := MaterializeFields(fs);
    assert forall j :: 0 <= j < |fs| ==> m[j].name == fs[j].name;
    var i := Find(fs, "meta");
    assert Find(m, "meta") == i by { FindSameNames(fs, m, "meta"); }
    if i < |fs| {
      assert m[i].value == Materialize(fs[i].value);
    }
  }

  lemma {:induction false} FindSameNames(a: seq<Field>, b: seq<Field>, k: string)
    requires |a| == |b|
    requires forall j :: 0 <= j < |a| ==> a[j].name == b[j].name
    ensures Find(a, k) == Find(b, k)
    decreases |a|
  {
    if |a| > 0 && a[0].name != k {
      FindSameNames(a[1..], b[1..], k);
    }
  }

  /** Reading a field of walked fields reads the walked field. */
  lemma ReadMaterialized(fs: seq<Field>, k: string)
    ensures Read(MaterializeFields(fs), k) == Materialize(Read(fs, k))
  {
    var m := MaterializeFields(fs);
    assert forall j :: 0 <= j < |fs| ==> m[j].name == fs[j].name;
    FindSameNames(fs, m, k);
  }

  /** Walking keeps the field names, so it keeps them distinct. */
  lemma MaterializeKeepsNames(fs: seq<Field>)
    ensures Names(MaterializeFields(fs)) == Names(fs)
    ensures UniqueNames(fs) ==> UniqueNames(MaterializeFields(fs))
  {
  }

  /** After `updateField` no object with `meta` remains unwrapped. */
  lemma {:induction false} MaterializeWraps(v: Value)
    ensures Wrapped(Materialize(v))
    decreases v
  {
    match v
    case Sc(_) =>
    case Arr(items) =>
      forall i | 0 <= i < |items| ensures Wrapped(MaterializeList(items)[i]) {
        MaterializeWraps(items[i]);
      }
    case Obj(fs) =>
      forall i | 0 <= i < |fs| ensures Wrapped(MaterializeFields(fs)[i].value) {
        MaterializeWraps(fs[i].value);
      }
    case Ent(fs) =>
      forall i | 0 <= i < |fs| ensures Wrapped(MaterializeFields(fs)[i].value) {
        MaterializeWraps(fs[i].value);
      }
  }

  /** Materialising decoded JSON gives a value whose every Entity has `meta`
      and whose every plain object lacks it. */
  lemma {:induction false} MaterializeRawIsMaterialized(v: Value)
    requires Raw(v)
    ensures Materialized(Materialize(v))
    decreases v
  {
    match v
    case Sc(_) =>
    case Arr(items) =>
      forall i | 0 <= i < |items| ensures Materialized(MaterializeList(items)[i]) {
        MaterializeRawIsMaterialized(items[i]);
      }
    case Obj(fs) =>
      forall i | 0 <= i < |fs| ensures Materialized(MaterializeFields(fs)[i].value) {
        MaterializeRawIsMaterialized(fs[i].value);
      }
    case Ent(fs) =>
  }

  /** An already wrapped value is not wrapped again: `updateField` is
      idempotent. */
  lemma {:induction false} MaterializeIdempotent(v: Value)
    ensures Materialize(Materialize(v)) == Materialize(v)
    decreases v
  {
    match v
    case Sc(_) =>
    case Arr(items) =>
      MaterializeListIdempotent(items);
    case Obj(fs) =>
      MaterializeFieldsIdempotent(fs);
      var walked := MaterializeFields(fs);
      MaterializeKeepsMeta(walked);
    case Ent(fs) =>
      MaterializeFieldsIdempotent(fs);
  }

  lemma {:induction false} MaterializeListIdempotent(vs: seq<Value>)
    ensures MaterializeList(MaterializeList(vs)) == MaterializeList(vs)
    decreases vs, 0
  {
    forall i | 0 <= i < |vs| ensures MaterializeList(MaterializeList(vs))[i] == MaterializeList(vs)[i] {
      MaterializeIdempotent(vs[i]);
    }
  }

  lemma {:induction false} MaterializeFieldsIdempotent(fs: seq<Field>)
    ensures MaterializeFields(MaterializeFields(fs)) == MaterializeFields(fs)
    decreases fs, 0
  {
    forall i | 0 <= i < |fs| ensures MaterializeFields(MaterializeFields(fs))[i] == MaterializeFields(fs)[i] {
      MaterializeIdempotent(fs[i].value);
    }
  }

  /** `getFieldData` leaves no Entity behind. */
  lemma {:induction false} FlattenIsRaw(v: Value)
    ensures Raw(Flatten(v))
    decreases v
  {
    match v
    case Sc(_) =>
    case Arr(items) =>
      forall i | 0 <= i < |items| ensures Raw(FlattenList(items)[i]) {
        FlattenIsRaw(items[i]);
      }
    case Obj(fs) =>
      forall i | 0 <= i < |fs| ensures Raw(FlattenFields(fs)[i].value) {
        FlattenIsRaw(fs[i].value);
      }
    case Ent(fs) =>
      forall i | 0 <= i < |fs| ensures Raw(FlattenFields(fs)[i].value) {
        FlattenIsRaw(fs[i].value);
      }
  }

  /** Flattening undoes materialisation of decoded JSON. */
  lemma {:induction false} FlattenMaterialize(v: Value)
    requires Raw(v)
    ensures Flatten(Materialize(v)) == v
    decreases v
  {
    match v
    case Sc(_) =>
    case Arr(items) =>
      forall i | 0 <= i < |items| ensures FlattenList(MaterializeList(items))[i] == items[i] {
        FlattenMaterialize(items[i]);
      }
    case Obj(fs) =>
      FlattenMaterializeFields(fs);
  }

  lemma {:induction false} FlattenMaterializeFields(fs: seq<Field>)
    requires forall i :: 0 <= i < |fs| ==> Raw(fs[i].value)
    ensures FlattenFields(MaterializeFields(fs)) == fs
    decreases fs, 0
  {
    forall i | 0 <= i < |fs| ensures FlattenFields(MaterializeFields(fs))[i] == fs[i] {
      FlattenMaterialize(fs[i].value);
    }
  }

  /** Materialisation undoes flattening of a materialised value. */
  lemma {:induction false} MaterializeFlatten(v: Value)
    requires Materialized(v)
    ensures Materialize(Flatten(v)) == v
    decreases v
  {
    match v
    case Sc(_) =>
    case Arr(items) =>
      forall i | 0 <= i < |items| ensures MaterializeList(FlattenList(items))[i] == items[i] {
        MaterializeFlatten(items[i]);
      }
    case Obj(fs) =>
      MaterializeFlattenFields(fs);
    case Ent(fs) =>
      MaterializeFlattenFields(fs);
  }

  lemma {:induction false} MaterializeFlattenFields(fs: seq<Field>)
    requires forall i :: 0 <= i < |fs| ==> Materialized(fs[i].value)
    ensures MaterializeFields(FlattenFields(fs)) == fs
    decreases fs, 0
  {
    forall i | 0 <= i < |fs| ensures MaterializeFields(FlattenFields(fs))[i] == fs[i] {
      MaterializeFlatten(fs[i].value);
    }
  }

  /** For an object with distinct keys (every decoded JSON object), the
      constructor's field-by-field assignment is the walk of its fields. */
  lemma {:induction false} FromObjectOfUniqueFields(fs: seq<Field>)
    requires UniqueNames(fs)
    ensures FromObject(fs) == MaterializeFields(fs)
  {
    StoreAllAppends([], fs);
    assert [] + MaterializeFields(fs) == MaterializeFields(fs);
  }

  lemma {:induction false} StoreAllAppends(acc: seq<Field>, fs: seq<Field>)
    requires UniqueNames(acc) && UniqueNames(fs)
    requires forall i, j :: 0 <= i < |acc| && 0 <= j < |fs| ==> acc[i].name != fs[j].name
    ensures StoreAll(acc, fs) == acc + MaterializeFields(fs)
    decreases |fs|
  {
    if |fs| > 0 {
      var f := Field(fs[0].name, Materialize(fs[0].value));
      StoreFresh(acc, f);
      FreshStep(acc, fs, f);
      StoreAllAppends(acc + [f], fs[1..]);
      StoreAllStep(acc, fs, f);
    }
  }

  /** Storing the first field by appending it, then the rest by appending
      them, appends them all. */
  lemma StoreAllStep(acc: seq<Field>, fs: seq<Field>, f: Field)
    requires |fs| > 0 && f == Field(fs[0].name, Materialize(fs[0].value))
    requires Store(acc, f.name, f.value) == acc + [f]
    requires StoreAll(acc + [f], fs[1..]) == (acc + [f]) + MaterializeFields(fs[1..])
    ensures StoreAll(acc, fs) == acc + MaterializeFields(fs)
  {
    StoreAllUnfold(acc, fs);
    MaterializeFieldsCons(fs);
    ConcatAssoc(acc, [f], MaterializeFields(fs[1..]));
  }

  lemma StoreAllUnfold(acc: seq<Field>, fs: seq<Field>)
    requires |fs| > 0
    ensures StoreAll(acc, fs) == StoreAll(Store(acc, fs[0].name, Materialize(fs[0].value)), fs[1..])
  {
  }

  /** After the first field is stored, the rest still has unique names, none
      of them already stored. */
  lemma FreshStep(acc: seq<Field>, fs: seq<Field>, f: Field)
    requires |fs| > 0 && f.name == fs[0].name
    requires UniqueNames(acc) && UniqueNames(fs)
    requires forall i, j :: 0 <= i < |acc| && 0 <= j < |fs| ==> acc[i].name != fs[j].name
    ensures UniqueNames(acc + [f]) && UniqueNames(fs[1..])
    ensures forall i, j :: 0 <= i < |acc + [f]| && 0 <= j < |fs[1..]| ==> (acc + [f])[i].name != fs[1..][j].name
  {
    assert forall j :: 0 <= j < |fs[1..]| ==> fs[1..][j] == fs[j + 1];
  }

  lemma MaterializeFieldsCons(fs: seq<Field>)
    requires |fs| > 0
    ensures MaterializeFields(fs) == [Field(fs[0].name, Materialize(fs[0].value))] + MaterializeFields(fs[1..])
  {
  }

  /** Assigning a key not yet present appends it. */
  lemma StoreFresh(acc: seq<Field>, f: Field)
    requires forall i :: 0 <= i < |acc| ==> acc[i].name != f.name
    ensures Store(acc, f.name, f.value) == acc + [f]
  {
    FindAbsent(acc, f.name);
  }
}
