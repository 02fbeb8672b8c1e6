/** `Lihoy\Moysklad\Entity`: an entity's field store and change list, and
    the operations that update them in place.

    Calls into the client that a method makes are parameters holding the
    client's answer (the attribute definitions, the type's metadata, the
    response to a save); `getEvents` reads the client's events page-size
    cap and takes the service as an oracle. */
module Entities {
  import opened Common
  import opened Values
  import opened FieldWalk
  import opened EntityData
  import opened Filter
  import opened Pagination
  import opened Events
  import opened ApiClient

  /** `$record->value = $v` on an attribute record or a definition: a plain
      object's property is written as given; an Entity's goes through its
      `__set`, so the value is walked by `updateField`. */
  function SetValue(record: Value, v: Value): (r: Value)
    requires record.Obj? || record.Ent?
    ensures record.Obj? ==> r.Obj? && Lookup(r.fields, "value") == Some(v)
    ensures record.Obj? ==> forall k :: k != "value" ==> Lookup(r.fields, k) == Lookup(record.fields, k)
    ensures record.Ent? ==> r.Ent? && Lookup(r.data, "value") == Some(Materialize(v))
    ensures record.Ent? ==> forall k :: k != "value" ==> Lookup(r.data, k) == Lookup(record.data, k)
  {
    match record
    case Obj(fs) => Obj(Store(fs, "value", v))
    case Ent(fs) => Ent(Store(fs, "value", Materialize(v)))
  }

  /** Only an object or an Entity can carry a name. */
  lemma NamedIsObject(record: Value, name: string)
    requires Property(record, "name") == Ok(StrV(name))
    ensures record.Obj? || record.Ent?
  {
  }

  /** `af`'s first loop, from record `i` on: the index of the first record
      whose `name` is `name`, |records| when there is none; reading the
      name of an Entity that has none throws. */
  function FirstCalled(records: seq<Value>, name: string, i: nat): (r: Result<nat>)
    requires i <= |records|
    ensures r.Ok? ==> i <= r.value <= |records|
    ensures r.Ok? && r.value < |records| ==> Property(records[r.value], "name") == Ok(StrV(name))
    ensures r.Ok? ==> forall k :: i <= k < r.value ==>
              Property(records[k], "name").Ok? && Property(records[k], "name") != Ok(StrV(name))
    ensures r.Err? ==> exists k :: i <= k < |records| && Property(records[k], "name") == Err(r.error)
    decreases |records| - i
  {
    if i == |records| then Ok(i)
    else match Property(records[i], "name")
      case Err(e) => Err(e)
      case Ok(v) => if v == StrV(name) then Ok(i) else FirstCalled(records, name, i + 1)
  }

  /** What the second loop of `af` keeps between passes: `found` is the
      last definition before `i` named `name`, if any. */
  ghost predicate LastSoFar(defs: seq<Value>, name: string, i: nat, found: Option<nat>)
  {
    && i <= |defs|
    && (found.Some? ==> found.value < i && Property(defs[found.value], "name") == Ok(StrV(name)))
    && forall k :: 0 <= k < i && (found.None? || found.value < k) ==> Property(defs[k], "name") != Ok(StrV(name))
  }

  /** `af`'s second loop, from definition `i` on with `found` so far: it
      has no `break`, so it reads every definition's name and keeps the
      last one named `name`. */
  function LastCalled(defs: seq<Value>, name: string, i: nat, found: Option<nat>): (r: Result<Option<nat>>)
    requires i <= |defs|
    requires found.Some? ==> found.value < i
    ensures r.Ok? ==> forall k :: i <= k < |defs| ==> Property(defs[k], "name").Ok?
    ensures r.Err? ==> exists k :: i <= k < |defs| && Property(defs[k], "name") == Err(r.error)
    ensures LastSoFar(defs, name, i, found) && r.Ok? ==> LastSoFar(defs, name, |defs|, r.value)
    decreases |defs| - i
  {
    if i == |defs| then Ok(found)
    else match Property(defs[i], "name")
      case Err(e) => Err(e)
      case Ok(v) =>
        LastSoFarStep(defs, name, i, found, v);
        LastCalled(defs, name, i + 1, if v == StrV(name) then Some(i) else found)
  }

  /** Reading one more definition's name keeps `LastSoFar`. */
  lemma LastSoFarStep(defs: seq<Value>, name: string, i: nat, found: Option<nat>, v: Value)
    requires i < |defs| && Property(defs[i], "name") == Ok(v)
    ensures LastSoFar(defs, name, i, found) ==>
      LastSoFar(defs, name, i + 1, if v == StrV(name) then Some(i) else found)
  {
  }

  /** The state `af` reads and writes, and its answer. */
  datatype AfState = AfState(data: seq<Field>, changed: seq<string>, defs: seq<Value>, answer: Result<Value>)

  /** `'attributes'` noted as changed unless it already is. */
  function NoteAttributes(changed: seq<string>): (c: seq<string>)
    ensures "attributes" in c
    ensures "attributes" in changed ==> c == changed
    ensures "attributes" !in changed ==> c == changed + ["attributes"]
    ensures multiset(c)["attributes"] == if "attributes" in changed then multiset(changed)["attributes"] else 1
  {
    if "attributes" in changed then changed else changed + ["attributes"]
  }

  /** `$this->data['attributes'][] = $record`, after an unset `attributes`
      has been set to []: a list grows by the record; `false` becomes a
      list (PHP converts it, with a deprecation notice); any other value
      cannot be appended to. */
  function AppendAttribute(data: seq<Field>, record: Value): (r: Result<seq<Field>>)
    ensures r.Err? <==> IsSet(data, "attributes") && !Read(data, "attributes").Arr? && Read(data, "attributes") != Sc(Bool(false))
    ensures r.Ok? ==> Lookup(r.value, "attributes") == Some(Arr(Attributes(data) + [record]))
    ensures r.Ok? ==> forall k :: k != "attributes" ==> Lookup(r.value, k) == Lookup(data, k)
  {
    var data1 := if IsSet(data, "attributes") then data else Store(data, "attributes", Arr([]));
    assert IsSet(data, "attributes") ==> Read(data1, "attributes") == Read(data, "attributes");
    match Read(data1, "attributes")
    case Arr(items) => Ok(Store(data1, "attributes", Arr(items + [record])))
    case Sc(Bool(false)) =>
      assert Attributes(data) + [record] == [record];
      Ok(Store(data1, "attributes", Arr([record])))
    case _ => Err(TypeMismatch("array"))
  }

  /** `af(name, value)` from field store `data`, change list `changed` and
      definitions memo `defs`; `definitions` is what the client returns
      when the memo is empty and has to be filled.
      - No name: the `attributes` field as it is (or []).
      - A record of that name: with a value, its value is overwritten and
        the answer is true; without, the answer is the record.
      - Otherwise the last definition of that name: its value is cleared;
        with a value it is set, appended to `attributes` and returned;
        without, it is returned as cleared. No definition throws. */
  function AfEffect(data: seq<Field>, changed: seq<string>, defs: seq<Value>, definitions: Result<seq<Value>>,
                    name: Option<string>, value: Value): (s: AfState)
  {
    match name
    case None => AfState(data, changed, defs, Ok(if IsSet(data, "attributes") then Read(data, "attributes") else Arr([])))
    case Some(n) =>
      var records := Attributes(data);
      match FirstCalled(records, n, 0)
      case Err(e) => AfState(data, changed, defs, Err(e))
      case Ok(i) =>
        if i < |records| then
          NamedIsObject(records[i], n);
          if value == NULL then AfState(data, changed, defs, Ok(records[i]))
          else AfState(Store(data, "attributes", Arr(records[i := SetValue(records[i], value)])),
                       NoteAttributes(changed), defs, Ok(Sc(Bool(true))))
        else
          match (if defs == [] then definitions else Ok(defs))
          case Err(e) => AfState(data, changed, defs, Err(e))
          case Ok(ds) => AfDefine(data, changed, ds, n, value)
  }

  /** The end of `af(name, value)` when no record is named `name`, with
      `ds` the definitions: the last one of that name has its value
      cleared; with a value it is then set, appended to `attributes` and
      returned; without, it is returned as cleared. No definition of that
      name throws. */
  function AfDefine(data: seq<Field>, changed: seq<string>, ds: seq<Value>, n: string, value: Value): (s: AfState)
  {
    match LastCalled(ds, n, 0, None)
    case Err(e) => AfState(data, changed, ds, Err(e))
    case Ok(None) => AfState(data, changed, ds, Err(AttributeNotFound(n)))
    case Ok(Some(j)) =>
      assert LastSoFar(ds, n, 0, None);
      NamedIsObject(ds[j], n);
      var cleared := SetValue(ds[j], NULL);
      if value == NULL then AfState(data, changed, ds[j := cleared], Ok(cleared))
      else
        var def := SetValue(cleared, value);
        match AppendAttribute(data, def)
        case Err(e) => AfState(data, changed, ds[j := def], Err(e))
        case Ok(data') => AfState(data', NoteAttributes(changed), ds[j := def], Ok(def))
  }

  /** `'attributes'` enters the change list at most once across `af`
      calls: a call adds it only when it is absent, and adds nothing else. */
  lemma AfNotesAttributesOnce(data: seq<Field>, changed: seq<string>, defs: seq<Value>,
                              definitions: Result<seq<Value>>, name: Option<string>, value: Value)
    ensures var s := AfEffect(data, changed, defs, definitions, name, value);
      && (s.changed == changed || s.changed == NoteAttributes(changed))
      && ("attributes" in changed ==> s.changed == changed)
      && (multiset(changed)["attributes"] <= 1 ==> multiset(s.changed)["attributes"] <= 1)
  {
    var s := AfEffect(data, changed, defs, definitions, name, value);
    if name.Some? {
      var n := name.value;
      var first := FirstCalled(Attributes(data), n, 0);
      var ds := if defs == [] then definitions else Ok(defs);
      if first.Ok? && first.value == |Attributes(data)| && ds.Ok? {
        assert s == AfDefine(data, changed, ds.value, n, value);
        AfDefineNotes(data, changed, ds.value, n, value);
      }
    }
    assert s.changed == changed || s.changed == NoteAttributes(changed);
  }

  lemma AfDefineNotes(data: seq<Field>, changed: seq<string>, ds: seq<Value>, n: string, value: Value)
    ensures var s := AfDefine(data, changed, ds, n, value);
      s.changed == changed || s.changed == NoteAttributes(changed)
  {
  }

  /** `af()` answers the `attributes` field, or [] when it is unset, and
      changes nothing. */
  lemma AfListsAttributes(data: seq<Field>, changed: seq<string>, defs: seq<Value>, definitions: Result<seq<Value>>, value: Value)
    ensures AfEffect(data, changed, defs, definitions, None, value)
         == AfState(data, changed, defs, Ok(if IsSet(data, "attributes") then Read(data, "attributes") else Arr([])))
  {
  }

  /** A present record without a value: the answer is that record, named
      `n`, and nothing changes. */
  lemma AfReadsRecord(data: seq<Field>, changed: seq<string>, defs: seq<Value>, definitions: Result<seq<Value>>,
                      n: string, i: nat)
    requires FirstCalled(Attributes(data), n, 0) == Ok(i) && i < |Attributes(data)|
    ensures AfEffect(data, changed, defs, definitions, Some(n), NULL) == AfState(data, changed, defs, Ok(Attributes(data)[i]))
    ensures Property(Attributes(data)[i], "name") == Ok(StrV(n))
  {
  }

  /** A name without a record, a definition of that name and no value: the
      last such definition, its value cleared, is both the memoized
      definition and the answer; the field store and the change list are
      untouched. */
  lemma AfReturnsClearedDefinition(data: seq<Field>, changed: seq<string>, defs: seq<Value>, definitions: Result<seq<Value>>,
                                   n: string, ds: seq<Value>, j: nat)
    requires FirstCalled(Attributes(data), n, 0) == Ok(|Attributes(data)|)
    requires (if defs == [] then definitions else Ok(defs)) == Ok(ds)
    requires LastCalled(ds, n, 0, None) == Ok(Some(j))
    ensures var s := AfEffect(data, changed, defs, definitions, Some(n), NULL);
      && j < |ds| && |s.defs| == |ds|
      && s.data == data && s.changed == changed
      && s.answer == Ok(s.defs[j])
      && Property(ds[j], "name") == Ok(StrV(n))
      && (ds[j].Obj? ==> s.defs[j].Obj? && Lookup(s.defs[j].fields, "value") == Some(NULL))
      && (forall k :: 0 <= k < |ds| && k != j ==> s.defs[k] == ds[k])
  {
    assert LastSoFar(ds, n, 0, None);
  }

  /** A present record with a value: the record's value is overwritten in
      place in `attributes`, every other field is kept, the definitions are
      not consulted, and the answer is true. */
  lemma AfOverwrites(data: seq<Field>, changed: seq<string>, defs: seq<Value>, definitions: Result<seq<Value>>,
                     n: string, value: Value, i: nat)
    requires value != NULL
    requires FirstCalled(Attributes(data), n, 0) == Ok(i) && i < |Attributes(data)|
    ensures var s := AfEffect(data, changed, defs, definitions, Some(n), value);
      var records := Attributes(data);
      && s.answer == Ok(Sc(Bool(true)))
      && s.defs == defs
      && (records[i].Obj? || records[i].Ent?)
      && Lookup(s.data, "attributes") == Some(Arr(records[i := SetValue(records[i], value)]))
      && (forall k :: k != "attributes" ==> Lookup(s.data, k) == Lookup(data, k))
      && "attributes" in s.changed
  {
    NamedIsObject(Attributes(data)[i], n);
  }

  /** A name without a record, a definition of that name and a value: the
      definition, with its value set, is both the record appended to
      `attributes` and the memoized definition, and is the answer. */
  lemma AfAppendsDefinition(data: seq<Field>, changed: seq<string>, defs: seq<Value>, definitions: Result<seq<Value>>,
                            n: string, value: Value, ds: seq<Value>, j: nat)
    requires value != NULL
    requires FirstCalled(Attributes(data), n, 0) == Ok(|Attributes(data)|)
    requires (if defs == [] then definitions else Ok(defs)) == Ok(ds)
    requires LastCalled(ds, n, 0, None) == Ok(Some(j))
    requires !IsSet(data, "attributes") || Read(data, "attributes").Arr?
    ensures var s := AfEffect(data, changed, defs, definitions, Some(n), value);
      && j < |ds| && |s.defs| == |ds|
      && s.answer == Ok(s.defs[j])
      && Lookup(s.data, "attributes") == Some(Arr(Attributes(data) + [s.defs[j]]))
      && (forall k :: k != "attributes" ==> Lookup(s.data, k) == Lookup(data, k))
      && (forall k :: 0 <= k < |ds| && k != j ==> s.defs[k] == ds[k])
      && Property(ds[j], "name") == Ok(StrV(n))
      && "attributes" in s.changed
  {
    assert LastSoFar(ds, n, 0, None);
  }

  /** The definition chosen is the last one of that name. */
  lemma AfChoosesLastDefinition(ds: seq<Value>, n: string, j: nat)
    requires LastCalled(ds, n, 0, None) == Ok(Some(j))
    ensures j < |ds| && Property(ds[j], "name") == Ok(StrV(n))
    ensures forall k :: j < k < |ds| ==> Property(ds[k], "name") != Ok(StrV(n))
  {
    assert LastSoFar(ds, n, 0, None);
  }

  /** A name with neither a record nor a definition throws, and leaves the
      field store and the change list as they were. */
  lemma AfUnknownName(data: seq<Field>, changed: seq<string>, defs: seq<Value>, definitions: Result<seq<Value>>,
                      n: string, value: Value, ds: seq<Value>)
    requires FirstCalled(Attributes(data), n, 0) == Ok(|Attributes(data)|)
    requires (if defs == [] then definitions else Ok(defs)) == Ok(ds)
    requires forall k :: 0 <= k < |ds| ==> Property(ds[k], "name").Ok? && Property(ds[k], "name") != Ok(StrV(n))
    ensures AfEffect(data, changed, defs, definitions, Some(n), value) == AfState(data, changed, ds, Err(AttributeNotFound(n)))
  {
    LastCalledNone(ds, n, 0);
  }

  lemma {:induction false} LastCalledNone(ds: seq<Value>, n: string, i: nat)
    requires i <= |ds|
    requires forall k :: i <= k < |ds| ==> Property(ds[k], "name").Ok? && Property(ds[k], "name") != Ok(StrV(n))
    ensures LastCalled(ds, n, i, None) == Ok(None)
    decreases |ds| - i
  {
    if i < |ds| {
      LastCalledNone(ds, n, i + 1);
    }
  }

  /** `getStates(filter)`: the `states` of the type's metadata (the
      client's answer), all of them with no filter, else those the filter
      keeps; a non-list cannot be filtered. */
  function States(answer: Result<Value>, filters: seq<Rule>): (r: Result<Value>)
    ensures answer.Err? ==> r == Err(answer.error)
    ensures answer.Ok? && filters == [] ==> r == Property(answer.value, "states")
    ensures r.Ok? && filters != [] ==> r.value.Arr?
  {
    match answer
    case Err(e) => Err(e)
    case Ok(meta) =>
      match Property(meta, "states")
      case Err(e) => Err(e)
      case Ok(list) =>
        if filters == [] then Ok(list)
        else if !list.Arr? then Err(TypeMismatch("array"))
        else
          match Filtered(list.items, filters)
          case Err(e) => Err(e)
          case Ok(kept) => Ok(Arr(kept))
  }

  /** With every state's fields readable, the filtered states are those
      every rule holds for, in their order, each as often as it occurs. */
  lemma StatesMeaning(meta: Value, items: seq<Value>, filters: seq<Rule>)
    requires Property(meta, "states") == Ok(Arr(items)) && filters != []
    requires forall i :: 0 <= i < |items| ==> Check(filters, items[i]).Ok?
    ensures States(Ok(meta), filters).Ok?
    ensures Subsequence(States(Ok(meta), filters).value.items, items)
    ensures forall x :: x in States(Ok(meta), filters).value.items <==>
              x in items && forall j :: 0 <= j < |filters| ==> Holds(filters[j], x)
    ensures forall x :: multiset(States(Ok(meta), filters).value.items)[x] ==
              if forall j :: 0 <= j < |filters| ==> Holds(filters[j], x) then multiset(items)[x] else 0
  {
    FilteredMeaning(items, filters);
  }

  /** `getState(needle, by)`: the first state whose `by` field (`key` here) is `needle`;
      none throws. */
  function StateOf(answer: Result<Value>, needle: string, key: string): (r: Result<Value>)
    ensures answer.Err? ==> r == Err(answer.error)
    ensures r.Ok? ==> Property(r.value, key) == Ok(StrV(needle))
  {
    var rules := [Rule(key, "=", Str(needle))];
    match States(answer, rules)
    case Err(e) => Err(e)
    case Ok(list) =>
      if list.Arr? && |list.items| > 0 then
        FilteredKeepsPassing(Property(answer.value, "states").value.items, rules);
        assert list.items[0] in list.items;
        Ok(list.items[0])
      else Err(StateNotFound(key, needle))
  }

  /** A state is found exactly when one has `key` equal to `needle`, and the
      state found does. */
  lemma StateOfMeaning(meta: Value, items: seq<Value>, needle: string, key: string)
    requires Property(meta, "states") == Ok(Arr(items))
    requires forall i :: 0 <= i < |items| ==> Property(items[i], key).Ok?
    ensures StateOf(Ok(meta), needle, key).Ok? <==> exists i :: 0 <= i < |items| && Property(items[i], key) == Ok(StrV(needle))
    ensures StateOf(Ok(meta), needle, key).Ok? ==>
      StateOf(Ok(meta), needle, key).value in items && Property(StateOf(Ok(meta), needle, key).value, key) == Ok(StrV(needle))
    ensures StateOf(Ok(meta), needle, key).Err? ==> StateOf(Ok(meta), needle, key).error == StateNotFound(key, needle)
    ensures StateOf(Ok(meta), needle, key).Ok? ==>
      exists i :: 0 <= i < |items| && StateOf(Ok(meta), needle, key).value == items[i]
        && Property(items[i], key) == Ok(StrV(needle))
        && forall k :: 0 <= k < i ==> Property(items[k], key) != Ok(StrV(needle))
  {
    var rules := [Rule(key, "=", Str(needle))];
    forall i | 0 <= i < |items| ensures Check(rules, items[i]).Ok? {
      assert rules[1..] == [];
    }
    FilteredMeaning(items, rules);
    var kept := Filtered(items, rules).value;
    forall x | x in items
      ensures Holds(rules[0], x) <==> Property(x, key) == Ok(StrV(needle))
    {
      HoldsMeaning(rules[0], x);
    }
    if exists i :: 0 <= i < |items| && Property(items[i], key) == Ok(StrV(needle)) {
      var i :| 0 <= i < |items| && Property(items[i], key) == Ok(StrV(needle));
      assert items[i] in kept;
    }
    if |kept| > 0 {
      assert kept[0] in kept;
      var i := FilteredFirst(items, rules);
      assert items[i] in items;
      forall k | 0 <= k < i ensures Property(items[k], key) != Ok(StrV(needle)) {
        assert items[k] in items;
        assert !Holds(rules[0], items[k]);
      }
    }
  }

  /** `remove`: a DELETE of `meta.href`; an entity without one was never
      stored and cannot be removed. */
  function RemoveRequest(data: seq<Field>): (r: Result<Request>)
    ensures r.Err? <==> MetaHref(data).None?
    ensures r.Err? ==> r.error == NotPersisted
    ensures r.Ok? ==> r.value == Request(DELETE, MetaHref(data).value, [])
  {
    match MetaHref(data)
    case None => Err(NotPersisted)
    case Some(href) => Ok(Request(DELETE, href, []))
  }

  /** The body of `getEvents`' do-while on the page received at `offset`:
      the limit fixed from the first response, the rows appended, the
      running total and offset advanced by the rows received, the page size
      lowered to the remainder and reset when they overshoot the limit. */
  method EventsPass(page: Page, offset: int, limit: Option<int>, remainder: int, queryLimit: int, events: seq<Value>)
    returns (pass: EventPass)
    ensures pass == EventStep(page, offset, limit, remainder, queryLimit, events)
  {
    var lim := limit;
    if lim.None? {
      lim := Some(page.size - offset);
    }
    var eventList := events + page.rows;
    var totalCount := |events| + |page.rows|;
    var off := offset + |page.rows|;
    var rem := if remainder == 0 then lim.value - |page.rows| else remainder - |page.rows|;
    var q := if queryLimit <= rem then queryLimit else rem;
    if rem + q > lim.value {
      q := lim.value - totalCount;
    }
    if totalCount < lim.value {
      pass := Again(off, lim.value, rem, q, eventList);
    } else {
      pass := Halt(eventList);
    }
  }

  /** `getEvents`' do-while from the start offset, with nothing read: the
      run is that of `EventLoop` with the request's `offest` spelling. */
  method EventsLoop(server: string -> Page, entityHref: string, start: int, limit: Option<int>, queryLimit: int, fuel: nat)
    returns (run: EventsRun)
    ensures run == EventLoop(server, entityHref, WRITTEN_OFFSET_NAME, start, limit, 0, queryLimit, [], fuel)
  {
    var off, lim, remainder, q := start, limit, 0, queryLimit;
    var events: seq<Value> := [];
    var asks: seq<Ask> := [];
    var outcome: Outcome := OutOfFuel;
    var f := fuel;
    var going := true;
    ghost var spec := EventLoop(server, entityHref, WRITTEN_OFFSET_NAME, start, limit, 0, queryLimit, [], fuel);
    while going && f > 0
      invariant going ==>
        var rest := EventLoop(server, entityHref, WRITTEN_OFFSET_NAME, off, lim, remainder, q, events, f);
        spec == EventsRun(asks + rest.asks, rest.outcome)
      invariant !going ==> spec == EventsRun(asks, outcome)
      decreases f
    {
      var href := EventsHref(entityHref, WRITTEN_OFFSET_NAME, Ask(q, off));
      var page := server(href);
      ghost var before := asks;
      asks := asks + [Ask(q, off)];
      var pass := EventsPass(page, off, lim, remainder, q, events);
      if pass.Halt? {
        EventLoopHalt(server, entityHref, WRITTEN_OFFSET_NAME, off, lim, remainder, q, events, f, pass.events);
        outcome := Done(pass.events);
        going := false;
      } else {
        EventLoopAgain(server, entityHref, WRITTEN_OFFSET_NAME, off, lim, remainder, q, events, f, pass);
        ghost var rest := EventLoop(server, entityHref, WRITTEN_OFFSET_NAME, pass.offset, Some(pass.lim), pass.rem,
                                    pass.q, pass.events, f - 1);
        assert before + ([Ask(q, off)] + rest.asks) == asks + rest.asks;
        off, lim, remainder, q, events := pass.offset, Some(pass.lim), pass.rem, pass.q, pass.events;
      }
      f := f - 1;
    }
    if going {
      assert asks + [] == asks;
      run := EventsRun(asks, OutOfFuel);
    } else {
      run := EventsRun(asks, outcome);
    }
  }

  /** `af`'s first loop: the records are searched in order for one named
      `name`. */
  method FindRecord(records: seq<Value>, name: string) returns (r: Result<nat>)
    ensures r == FirstCalled(records, name, 0)
  {
    var i := 0;
    while i < |records|
      invariant 0 <= i <= |records|
      invariant FirstCalled(records, name, 0) == FirstCalled(records, name, i)
    {
      var got := Property(records[i], "name");
      if got.Err? {
        return Err(got.error);
      }
      if got.value == StrV(name) {
        return Ok(i);
      }
      i := i + 1;
    }
    r := Ok(i);
  }

  /** `af`'s second loop: every definition's name is read and the last one
      named `name` kept. */
  method FindDefinition(defs: seq<Value>, name: string) returns (r: Result<Option<nat>>)
    ensures r == LastCalled(defs, name, 0, None)
  {
    var found: Option<nat> := None;
    var j := 0;
    while j < |defs|
      invariant 0 <= j <= |defs|
      invariant found.Some? ==> found.value < j
      invariant LastCalled(defs, name, 0, None) == LastCalled(defs, name, j, found)
    {
      var got := Property(defs[j], "name");
      if got.Err? {
        return Err(got.error);
      }
      if got.value == StrV(name) {
        found := Some(j);
      }
      j := j + 1;
    }
    r := Ok(found);
  }

  /** The end of `af` when no record is named `name`, on the definitions
      `ds`: the last one of that name is found, cleared, then given the
      value and appended to `attributes`. */
  method DefineIn(data: seq<Field>, changed: seq<string>, ds: seq<Value>, n: string, value: Value) returns (s: AfState)
    ensures s == AfDefine(data, changed, ds, n, value)
  {
    var last := FindDefinition(ds, n);
    if last.Err? {
      return AfState(data, changed, ds, Err(last.error));
    }
    if last.value.None? {
      return AfState(data, changed, ds, Err(AttributeNotFound(n)));
    }
    var k := last.value.value;
    assert LastSoFar(ds, n, 0, None);
    NamedIsObject(ds[k], n);
    var definition := SetValue(ds[k], NULL);
    if value == NULL {
      return AfState(data, changed, ds[k := definition], Ok(definition));
    }
    definition := SetValue(definition, value);
    var appended := AppendAttribute(data, definition);
    if appended.Err? {
      return AfState(data, changed, ds[k := definition], Err(appended.error));
    }
    var c := changed;
    if "attributes" !in c {
      c := c + ["attributes"];
    }
    s := AfState(appended.value, c, ds[k := definition], Ok(definition));
  }

  /** `af(name, value)` on the field store, the change list and the
      definitions memo: the record of that name is searched for first, the
      definitions (fetched when the memo is empty) only when there is none. */
  method AfIn(data: seq<Field>, changed: seq<string>, defs: seq<Value>, definitions: Result<seq<Value>>,
              name: Option<string>, value: Value) returns (s: AfState)
    ensures s == AfEffect(data, changed, defs, definitions, name, value)
  {
    if name.None? {
      var list := if IsSet(data, "attributes") then Read(data, "attributes") else Arr([]);
      return AfState(data, changed, defs, Ok(list));
    }
    var n := name.value;
    var records := Attributes(data);
    var first := FindRecord(records, n);
    if first.Err? {
      return AfState(data, changed, defs, Err(first.error));
    }
    var i := first.value;
    if i < |records| {
      NamedIsObject(records[i], n);
      if value == NULL {
        return AfState(data, changed, defs, Ok(records[i]));
      }
      var c := changed;
      if "attributes" !in c {
        c := c + ["attributes"];
      }
      return AfState(Store(data, "attributes", Arr(records[i := SetValue(records[i], value)])), c, defs, Ok(Sc(Bool(true))));
    }
    var ds := defs;
    if ds == [] {
      if definitions.Err? {
        return AfState(data, changed, defs, Err(definitions.error));
      }
      ds := definitions.value;
    }
    s := DefineIn(data, changed, ds, n, value);
  }

  /** `getEvents` as written: each pass reads `$this->client->connection`,
      and `connection` is a protected property of `Client`, which `Entity`
      neither extends nor is extended by; PHP refuses the access, so the
      first pass throws before any request is sent. */
  function GetEventsAsWritten(hasClient: bool): (run: EventsRun)
    ensures run.asks == [] && run.outcome.Failed?
    ensures hasClient ==> run.outcome.error == HiddenMember("connection")
  {
    if hasClient then EventsRun([], Failed(HiddenMember("connection"))) else EventsRun([], Failed(NoClient))
  }

  /** The loop `getEvents` evidently intends requests at least one page,
      where the code as written requests none. */
  lemma EventsNeverRequested(server: string -> Page, entityHref: string, cap: int, limit: Option<int>,
                             offset: Option<int>, fuel: nat)
    requires fuel > 0
    ensures GetEventsAsWritten(true).asks == []
    ensures ReadEvents(server, entityHref, WRITTEN_OFFSET_NAME, cap, limit, offset, fuel).asks != []
  {
  }

  class Entity {
    /** The field store. */
    var data: seq<Field>
    /** The fields set since construction or the last save, in order, with
        repetitions. */
    var changed: seq<string>
    /** The type, from `meta.type` or given as a string. */
    var etype: Option<string>
    /** The memo of the type's attribute definitions; [] until filled. */
    var additionalFields: seq<Value>
    /** The memo of the type's metadata. */
    var metadata: Option<Value>
    var client: Client?
    /** Set by subclasses: fields `__set` refuses, fields `save` always sends. */
    const readonly: seq<string>
    const required: seq<string>

    /** The state the constructor leaves, given what `Build` computed. */
    constructor (b: Built, client: Client?, readonly: seq<string>, required: seq<string>)
      ensures data == b.data && etype == b.etype && changed == []
      ensures additionalFields == [] && metadata == None && this.client == client
      ensures this.readonly == readonly && this.required == required
    {
      data := b.data;
      etype := b.etype;
      changed := [];
      additionalFields := [];
      metadata := None;
      this.client := client;
      this.readonly := readonly;
      this.required := required;
    }

    /** `__isset`: the field is stored and not null; `__get` then answers
        with that stored value. */
    function Isset(name: string): (b: bool)
      reads this
      ensures b ==> Get(data, name) == Ok(Read(data, name)) && Read(data, name) != NULL
      ensures !b ==> Read(data, name) == NULL
    {
      IsSet(data, name)
    }

    /** `__set`: a read-only field is refused with nothing changed;
        otherwise the name is appended to `changed` (every time, so setting
        twice records it twice) and the walked value stored, where `__get`
        then finds it. */
    method Set(name: string, value: Value) returns (failure: Option<Error>)
      modifies this
      ensures name in readonly ==> failure == Some(ReadOnlyField(name)) && data == old(data) && changed == old(changed)
      ensures name !in readonly ==> failure == None && changed == old(changed) + [name]
                                    && data == Store(old(data), name, Materialize(value))
      ensures name !in readonly ==> Get(data, name) == Ok(Materialize(value))
      ensures name !in readonly ==> (Isset(name) <==> Materialize(value) != NULL)
      ensures etype == old(etype) && additionalFields == old(additionalFields) && metadata == old(metadata)
      ensures client == old(client)
    {
      if name in readonly {
        return Some(ReadOnlyField(name));
      }
      changed := changed + [name];
      data := Store(data, name, Materialize(value));
      failure := None;
    }

    /** `updateData`: the field store is rebuilt from the object, each field
        walked and stored in turn. */
    method UpdateData(obj: seq<Field>)
      modifies this
      ensures data == FromObject(obj)
      ensures changed == old(changed) && etype == old(etype) && additionalFields == old(additionalFields)
      ensures metadata == old(metadata) && client == old(client)
    {
      var fields: seq<Field> := [];
      var i := 0;
      assert obj[0..] == obj;
      while i < |obj|
        invariant 0 <= i <= |obj|
        invariant StoreAll(fields, obj[i..]) == FromObject(obj)
      {
        assert obj[i..][1..] == obj[i + 1..];
        fields := Store(fields, obj[i].name, Materialize(obj[i].value));
        i := i + 1;
      }
      data := fields;
    }

    /** `getMetaAdditionalFields`: the definitions memo, filled from the
        client's answer while it is empty. */
    method GetMetaAdditionalFields(definitions: Result<seq<Value>>) returns (r: Result<seq<Value>>)
      modifies this
      ensures old(additionalFields) != [] ==> r == Ok(old(additionalFields)) && additionalFields == old(additionalFields)
      ensures old(additionalFields) == [] ==>
        r == definitions && additionalFields == if definitions.Ok? then definitions.value else []
      ensures data == old(data) && changed == old(changed) && etype == old(etype) && metadata == old(metadata)
      ensures client == old(client)
    {
      if additionalFields == [] {
        if definitions.Err? {
          return definitions;
        }
        additionalFields := definitions.value;
      }
      r := Ok(additionalFields);
    }

    /** `af(name, value)`, with `definitions` the client's answer should
        the definitions memo need filling: the new state and the answer
        are those `AfEffect` describes. */
    method Af(name: Option<string>, value: Value, definitions: Result<seq<Value>>) returns (r: Result<Value>)
      modifies this
      ensures AfState(data, changed, additionalFields, r)
           == AfEffect(old(data), old(changed), old(additionalFields), definitions, name, value)
      ensures etype == old(etype) && metadata == old(metadata) && client == old(client)
    {
      var s := AfIn(data, changed, additionalFields, definitions, name, value);
      data, changed, additionalFields, r := s.data, s.changed, s.defs, s.answer;
    }

    /** `getMetadata`: the type's metadata, asked of the client once. */
    method GetMetadata(answer: Result<Value>) returns (r: Result<Value>)
      modifies this
      ensures old(metadata).Some? ==> r == Ok(old(metadata).value) && metadata == old(metadata)
      ensures old(metadata).None? ==> r == answer && metadata == if answer.Ok? then Some(answer.value) else None
      ensures data == old(data) && changed == old(changed) && etype == old(etype)
      ensures additionalFields == old(additionalFields) && client == old(client)
    {
      if metadata.None? {
        if answer.Err? {
          return answer;
        }
        metadata := Some(answer.value);
      }
      r := Ok(metadata.value);
    }

    /** `setState(needle, key)`: the state `getState` finds, set through
        `__set`. */
    method SetState(needle: string, key: string, answer: Result<Value>) returns (failure: Option<Error>)
      modifies this
      ensures StateOf(answer, needle, key).Err? ==>
        failure == Some(StateOf(answer, needle, key).error) && data == old(data) && changed == old(changed)
      ensures StateOf(answer, needle, key).Ok? && "state" in readonly ==>
        failure == Some(ReadOnlyField("state")) && data == old(data) && changed == old(changed)
      ensures StateOf(answer, needle, key).Ok? && "state" !in readonly ==>
        failure == None && changed == old(changed) + ["state"]
        && data == Store(old(data), "state", Materialize(StateOf(answer, needle, key).value))
      ensures etype == old(etype) && additionalFields == old(additionalFields) && metadata == old(metadata)
      ensures client == old(client)
    {
      var state := StateOf(answer, needle, key);
      if state.Err? {
        return Some(state.error);
      }
      failure := Set("state", state.value);
    }

    /** `save`, with `response` the service's answer: the request is the
        one `SaveRequest` builds; none is sent for an empty body. After a
        request the field store is rebuilt from the response and the change
        list emptied; a response that is not an object is refused. PHP
        returns `false` for an empty body and the Entity itself after a
        request; here `saved` is `Ok(false)` and `Ok(true)` for those, the
        Entity being this object. */
    method Save(response: Value) returns (request: Option<Request>, saved: Result<bool>)
      modifies this
      ensures request == SaveRequest(old(data), etype, required, old(changed))
      ensures request.None? ==> saved == Ok(false) && data == old(data) && changed == old(changed)
      ensures request.Some? && response.Obj? ==> saved == Ok(true) && data == FromObject(response.fields) && changed == []
      ensures request.Some? && !response.Obj? ==>
        saved == Err(TypeMismatch("object")) && data == old(data) && changed == old(changed)
      ensures etype == old(etype) && additionalFields == old(additionalFields) && metadata == old(metadata)
      ensures client == old(client)
    {
      request := SaveRequest(data, etype, required, changed);
      if request.None? {
        return request, Ok(false);
      }
      if !response.Obj? {
        return request, Err(TypeMismatch("object"));
      }
      UpdateData(response.fields);
      changed := [];
      saved := Ok(true);
    }

    /** `getEvents(limit, offset)` with the read of the client's connection
        corrected: the page size is the client's events cap, lowered to a
        truthy smaller limit; a null offset starts at 0; the run is
        `ReadEvents` on this entity's href. Every request goes through the
        client, so at least one page is requested. The request keeps the
        `offest` spelling of the code as written (`GetEventsAsWritten` is
        the code as written, which throws before any request). Without a
        client nothing is requested. */
    method GetEvents(server: string -> Page, limit: Option<int>, offset: Option<int>, fuel: nat) returns (run: EventsRun)
      ensures client == null ==> run == EventsRun([], Failed(NoClient))
      ensures client != null ==>
        run == ReadEvents(server, OrEmpty(MetaHref(data)), WRITTEN_OFFSET_NAME, client.eventsQueryLimitMax, limit, offset, fuel)
      ensures client != null && fuel > 0 ==> run.asks != []
    {
      if client == null {
        return EventsRun([], Failed(NoClient));
      }
      var queryLimit := client.eventsQueryLimitMax;
      if IntTruthy(limit) && limit.value < queryLimit {
        queryLimit := limit.value;
      }
      var start := if offset.None? then 0 else offset.value;
      run := EventsLoop(server, OrEmpty(MetaHref(data)), start, limit, queryLimit, fuel);
    }
  }

  /** `new Entity($input, $client)`: the constructor's state, or the
      exception it throws. */
  method New(input: Value, client: Client?, readonly: seq<string>, required: seq<string>) returns (r: Result<Entity>)
    ensures r.Err? <==> Build(input).Err?
    ensures r.Err? ==> r.error == MissingMeta
    ensures r.Ok? ==> fresh(r.value) && r.value.data == Build(input).value.data && r.value.etype == Build(input).value.etype
    ensures r.Ok? ==> r.value.changed == [] && r.value.client == client
  {
    var b := Build(input);
    if b.Err? {
      return Err(b.error);
    }
    var e := new Entity(b.value, client, readonly, required);
    r := Ok(e);
  }
}
