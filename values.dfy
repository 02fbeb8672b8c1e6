/** Decoded JSON as the library sees it, and PHP's ordered field store.

    A response from the service is decoded into nested PHP arrays and
    `stdClass` objects; the Entity class replaces every object that carries a
    `meta` reference by an Entity. `Value` keeps those four shapes apart:
    scalars, lists, plain objects and wrapped entities (given by their field
    data). Field lists are ordered, as PHP arrays and objects are. */
module Values {
  import opened Common

  datatype Scalar = Null | Bool(b: bool) | Int(i: int) | Str(s: string)

  datatype Value =
    | Sc(scalar: Scalar)
    | Arr(items: seq<Value>)
    | Obj(fields: seq<Field>)   // a decoded JSON object (stdClass)
    | Ent(data: seq<Field>)     // an Entity, by its `data` field store

  datatype Field = Field(name: string, value: Value)

  const NULL: Value := Sc(Null)

  function StrV(s: string): Value { Sc(Str(s)) }

  /** Index of the first field called `k`, or |fs| when there is none. */
  function Find(fs: seq<Field>, k: string): (i: nat)
    ensures i <= |fs|
    ensures i < |fs| ==> fs[i].name == k
    ensures forall j :: 0 <= j < i ==> fs[j].name != k
  {
    if |fs| == 0 then 0
    else if fs[0].name == k then 0
    else 1 + Find(fs[1..], k)
  }

  predicate Has(fs: seq<Field>, k: string)
  {
    exists j :: 0 <= j < |fs| && fs[j].name == k
  }

  /** `$fs[$k]` for a key that may be absent (`array_key_exists`). */
  function Lookup(fs: seq<Field>, k: string): (r: Option<Value>)
    ensures r.Some? <==> Has(fs, k)
  {
    var i := Find(fs, k);
    if i < |fs| then Some(fs[i].value) else None
  }

  /** Reading an absent key yields null, as PHP does (with a warning). */
  function Read(fs: seq<Field>, k: string): Value
  {
    match Lookup(fs, k)
    case Some(v) => v
    case None => NULL
  }

  /** `isset($fs[$k])`: present and not null. */
  predicate IsSet(fs: seq<Field>, k: string)
  {
    Lookup(fs, k).Some? && Lookup(fs, k).value != NULL
  }

  function Names(fs: seq<Field>): (ns: seq<string>)
    ensures |ns| == |fs|
    ensures forall i :: 0 <= i < |fs| ==> ns[i] == fs[i].name
  {
    seq(|fs|, i requires 0 <= i < |fs| => fs[i].name)
  }

  /** Keys of a PHP array are unique. */
  predicate UniqueNames(fs: seq<Field>)
  {
    forall i, j :: 0 <= i < j < |fs| ==> fs[i].name != fs[j].name
  }

  /** `$fs[$k] = $v`: an existing key keeps its position, a new key goes last. */
  function Store(fs: seq<Field>, k: string, v: Value): (r: seq<Field>)
    ensures Lookup(r, k) == Some(v)
    ensures forall k' :: k' != k ==> Lookup(r, k') == Lookup(fs, k')
    ensures |r| == if Has(fs, k) then |fs| else |fs| + 1
    ensures forall j :: 0 <= j < |fs| ==> r[j].name == fs[j].name
    ensures UniqueNames(fs) ==> UniqueNames(r)
  {
    var i := Find(fs, k);
    var r := if i < |fs| then fs[i := Field(k, v)] else fs + [Field(k, v)];
    StoreFinds(fs, k, v, r);
    StoreKeepsOthers(fs, k, v, r);
    r
  }

  /** The stored field is found where it was put. */
  lemma StoreFinds(fs: seq<Field>, k: string, v: Value, r: seq<Field>)
    requires r == if Find(fs, k) < |fs| then fs[Find(fs, k) := Field(k, v)] else fs + [Field(k, v)]
    ensures Find(r, k) == Find(fs, k) && Lookup(r, k) == Some(v)
  {
    var i := Find(fs, k);
    assert r[i].name == k;
    assert forall j :: 0 <= j < i ==> r[j].name != k;
  }

  /** Every other key reads as before the store. */
  lemma StoreKeepsOthers(fs: seq<Field>, k: string, v: Value, r: seq<Field>)
    requires r == if Find(fs, k) < |fs| then fs[Find(fs, k) := Field(k, v)] else fs + [Field(k, v)]
    ensures forall k' :: k' != k ==> Lookup(r, k') == Lookup(fs, k')
  {
    var i := Find(fs, k);
    forall k' | k' != k ensures Lookup(r, k') == Lookup(fs, k') {
      var a := Find(fs, k');
      assert a < |fs| ==> a != i;
      assert forall j :: 0 <= j < |fs| && j != i ==> r[j] == fs[j];
      if a < |fs| {
        assert r[a] == fs[a];
        assert forall j :: 0 <= j < a ==> r[j].name != k';
        assert Find(r, k') == a by {
          FindFirst(r, k', a);
        }
      } else {
        assert forall j :: 0 <= j < |r| ==> r[j].name != k';
        FindAbsent(r, k');
      }
    }
  }

  lemma FindFirst(fs: seq<Field>, k: string, a: nat)
    requires a < |fs| && fs[a].name == k
    requires forall j :: 0 <= j < a ==> fs[j].name != k
    ensures Find(fs, k) == a
  {
  }

  lemma FindAbsent(fs: seq<Field>, k: string)
    requires forall j :: 0 <= j < |fs| ==> fs[j].name != k
    ensures Find(fs, k) == |fs|
  {
  }

  /** PHP's string conversion of a scalar, as used in string interpolation
      and concatenation. */
  function Text(s: Scalar): string
  {
    match s
    case Null => ""
    case Bool(b) => if b then "1" else ""
    case Int(i) => IntToString(i)
    case Str(t) => t
  }
}
