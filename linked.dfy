/** `Entity::getLinkedEntities`: the entities of a given type referenced
    from an entity's fields, optionally following the references a bounded
    number of levels down.

    Fetching a referenced entity (`Client::getEntitiesByHref`) is a
    parameter: `resolve(url)` is the decoded response for that URL, which
    the Entity constructor then wraps. The model records every URL fetched,
    with the level of the traversal that fetched it. */
module Linked {
  import opened Common
  import opened Values
  import opened EntityData
  import opened Links

  /** Fields never searched. */
  const SKIPPED: seq<string> := ["attributes", "positions", "files"]

  /** The list a field offers: an Entity stands for a list of one, a list
      is itself, anything else offers nothing. */
  function Offered(v: Value): (list: seq<Value>)
    ensures v.Ent? ==> list == [v]
    ensures v.Arr? ==> list == v.items
    ensures !v.Ent? && !v.Arr? ==> list == []
  {
    match v
    case Ent(_) => [v]
    case Arr(items) => items
    case _ => []
  }

  /** The type of a list: its first element's `type`, or null. */
  function ListType(list: seq<Value>): Option<string>
  {
    if |list| == 0 then None else TypeProperty(list[0])
  }

  /** A field is searched when it is not skipped and offers a non-empty
      list whose first element has a type. */
  predicate Searched(f: Field)
  {
    f.name !in SKIPPED && ListType(Offered(f.value)).Some?
  }

  /** `meta.href` of a list element, when set. */
  function LinkHref(v: Value): Option<string>
  {
    match v
    case Ent(fs) => MetaHref(fs)
    case Obj(fs) => MetaHref(fs)
    case _ => None
  }

  /** The hrefs of the elements that have one, in order. */
  function Hrefs(list: seq<Value>): (hs: seq<string>)
    ensures |hs| <= |list|
    ensures forall h :: h in hs ==> exists i :: 0 <= i < |list| && LinkHref(list[i]) == Some(h)
    ensures forall i :: 0 <= i < |list| && LinkHref(list[i]).Some? ==> LinkHref(list[i]).value in hs
  {
    if |list| == 0 then []
    else
      var rest := Hrefs(list[1..]);
      assert forall i :: 1 <= i < |list| ==> list[i] == list[1..][i - 1];
      assert forall h :: h in rest ==> exists i :: 0 <= i < |list| && LinkHref(list[i]) == Some(h) by {
        forall h | h in rest ensures exists i :: 0 <= i < |list| && LinkHref(list[i]) == Some(h) {
          var i :| 0 <= i < |list[1..]| && LinkHref(list[1..][i]) == Some(h);
          assert LinkHref(list[i + 1]) == Some(h);
        }
      }
      match LinkHref(list[0])
      case Some(h) => [h] + rest
      case None => rest
  }

  /** Appending an element appends its href, when it has one: the hrefs
      are taken in the list's order. */
  lemma {:induction false} HrefsSnoc(list: seq<Value>, v: Value)
    ensures Hrefs(list + [v]) == Hrefs(list) + (if LinkHref(v).Some? then [LinkHref(v).value] else [])
    decreases |list|
  {
    if |list| == 0 {
      assert [] + [v] == [v] && [v][1..] == [];
    } else {
      assert (list + [v])[0] == list[0] && (list + [v])[1..] == list[1..] + [v];
      HrefsSnoc(list[1..], v);
      var tail := if LinkHref(v).Some? then [LinkHref(v).value] else [];
      if LinkHref(list[0]).Some? {
        ConcatAssoc([LinkHref(list[0]).value], Hrefs(list[1..]), tail);
      }
    }
  }

  /** A URL fetched, and the level of the traversal that fetched it (1 for
      the entity the call starts from). */
  datatype Fetch = Fetch(url: string, level: nat)

  /** The entities found so far and the URLs fetched so far. */
  datatype Traversal = Traversal(items: seq<Value>, fetched: seq<Fetch>)

  /** The levels a `recursive` argument allows: none unless it is set and
      positive. */
  function Budget(recursive: Option<int>): nat
  {
    if recursive.Some? && recursive.value > 0 then recursive.value else 0
  }

  predicate LevelsWithin(fetched: seq<Fetch>, b: nat)
  {
    forall k :: 0 <= k < |fetched| ==> 1 <= fetched[k].level <= b
  }

  /** A sub-traversal's fetches, seen one level further down. */
  function Deeper(fetched: seq<Fetch>): (d: seq<Fetch>)
    ensures |d| == |fetched|
    ensures forall k :: 0 <= k < |d| ==> d[k] == Fetch(fetched[k].url, fetched[k].level + 1)
  {
    seq(|fetched|, k requires 0 <= k < |fetched| => Fetch(fetched[k].url, fetched[k].level + 1))
  }

  /** `getEntitiesByHref(hrefs, expand)`: every href fetched, with
      `?expand=` for a truthy expand, and wrapped by the constructor; the
      first response the constructor rejects ends the call. */
  function FetchAll(hrefs: seq<string>, expand: Option<string>, resolve: string -> Value): (r: Result<seq<seq<Field>>>)
    ensures r.Ok? ==> |r.value| == |hrefs|
    ensures r.Ok? ==> forall i :: 0 <= i < |hrefs| ==>
      Build(resolve(WithExpand(hrefs[i], expand))).Ok? && r.value[i] == Build(resolve(WithExpand(hrefs[i], expand))).value.data
    ensures r.Err? ==> exists i :: 0 <= i < |hrefs| && Build(resolve(WithExpand(hrefs[i], expand))) == Err(r.error)
  {
    if |hrefs| == 0 then Ok([])
    else
      match Build(resolve(WithExpand(hrefs[0], expand)))
      case Err(e) => Err(e)
      case Ok(b) =>
        match FetchAll(hrefs[1..], expand, resolve)
        case Err(e) => Err(e)
        case Ok(rest) => Ok([b.data] + rest)
  }

  /** The URLs `FetchAll` requests. */
  function FetchUrls(hrefs: seq<string>, expand: Option<string>): (fs: seq<Fetch>)
    ensures |fs| == |hrefs|
    ensures LevelsWithin(fs, 1)
  {
    seq(|hrefs|, i requires 0 <= i < |hrefs| => Fetch(WithExpand(hrefs[i], expand), 1))
  }

  /** The loop over the fields, from `acc`. Skipped fields, fields offering
      nothing and lists without a type are passed over. A list whose type
      is `searchType` is appended whole and its size taken off `limit`; the
      call returns as soon as `limit` is no longer positive. When levels
      remain, the list's referenced entities are fetched and searched one
      level down with the current `limit`, and what they find is appended. */
  function Traverse(fields: seq<Field>, searchType: string, recursive: Option<int>, limit: int,
                    expand: Option<string>, resolve: string -> Value, acc: Traversal): (r: Result<Traversal>)
    ensures r.Ok? ==> acc.items <= r.value.items && acc.fetched <= r.value.fetched
    ensures r.Ok? && LevelsWithin(acc.fetched, Budget(recursive)) ==> LevelsWithin(r.value.fetched, Budget(recursive))
    ensures Budget(recursive) == 0 ==> r.Ok? && r.value.fetched == acc.fetched
    decreases Budget(recursive), 1, |fields|
  {
    if |fields| == 0 then Ok(acc)
    else if !Searched(fields[0]) then Traverse(fields[1..], searchType, recursive, limit, expand, resolve, acc)
    else
      var list := Offered(fields[0].value);
      var matched := ListType(list) == Some(searchType);
      var acc' := if matched then Traversal(acc.items + list, acc.fetched) else acc;
      var limit' := if matched then limit - |list| else limit;
      if matched && limit' <= 0 then Ok(acc')
      else if Budget(recursive) == 0 then Traverse(fields[1..], searchType, recursive, limit', expand, resolve, acc')
      else
        var hrefs := Hrefs(list);
        match FetchAll(hrefs, expand, resolve)
        case Err(e) => Err(e)
        case Ok(datas) =>
          var fetched := Traversal(acc'.items, acc'.fetched + FetchUrls(hrefs, expand));
          assert LevelsWithin(acc'.fetched, Budget(recursive)) ==> LevelsWithin(fetched.fetched, Budget(recursive));
          match Descend(datas, searchType, Budget(recursive), limit', expand, resolve, fetched)
          case Err(e) => Err(e)
          case Ok(acc'') => Traverse(fields[1..], searchType, recursive, limit', expand, resolve, acc'')
  }

  /** The search one level down in each fetched entity, each with `r - 1`
      levels left and the same `limit`, appended in order. */
  function Descend(datas: seq<seq<Field>>, searchType: string, r: nat, limit: int,
                   expand: Option<string>, resolve: string -> Value, acc: Traversal): (res: Result<Traversal>)
    requires r >= 1
    ensures res.Ok? ==> acc.items <= res.value.items && acc.fetched <= res.value.fetched
    ensures res.Ok? && LevelsWithin(acc.fetched, r) ==> LevelsWithin(res.value.fetched, r)
    decreases r, 0, |datas|
  {
    if |datas| == 0 then Ok(acc)
    else
      match Traverse(datas[0], searchType, Some(r - 1), limit, expand, resolve, Traversal([], []))
      case Err(e) => Err(e)
      case Ok(sub) =>
        var acc' := Traversal(acc.items + sub.items, acc.fetched + Deeper(sub.fetched));
        Descend(datas[1..], searchType, r, limit, expand, resolve, acc')
  }

  /** Each fetched entity's own search, with `r - 1` levels left and the
      same `limit`, in order; the first failure fails them all. */
  function SubSearches(datas: seq<seq<Field>>, searchType: string, r: nat, limit: int,
                       expand: Option<string>, resolve: string -> Value): (res: Result<seq<Traversal>>)
    ensures res.Ok? ==> |res.value| == |datas|
    ensures res.Ok? ==> forall i :: 0 <= i < |datas| ==>
      Traverse(datas[i], searchType, Some(r - 1), limit, expand, resolve, Traversal([], [])) == Ok(res.value[i])
    ensures res.Err? ==>
      exists i :: 0 <= i < |datas| && Traverse(datas[i], searchType, Some(r - 1), limit, expand, resolve, Traversal([], [])) == Err(res.error)
    decreases |datas|
  {
    if |datas| == 0 then Ok([])
    else
      match Traverse(datas[0], searchType, Some(r - 1), limit, expand, resolve, Traversal([], []))
      case Err(e) => Err(e)
      case Ok(sub) =>
        match SubSearches(datas[1..], searchType, r, limit, expand, resolve)
        case Err(e) => Err(e)
        case Ok(rest) => Ok([sub] + rest)
  }

  /** The entities the searches found, concatenated in order. */
  function AllItems(subs: seq<Traversal>): seq<Value>
    decreases |subs|
  {
    if |subs| == 0 then [] else subs[0].items + AllItems(subs[1..])
  }

  /** The URLs the searches fetched, one level further down, in order. */
  function AllFetched(subs: seq<Traversal>): seq<Fetch>
    decreases |subs|
  {
    if |subs| == 0 then [] else Deeper(subs[0].fetched) + AllFetched(subs[1..])
  }

  /** The search one level down appends, to what was found so far, what
      each fetched entity's own search finds, in order; none of those
      searches sees the others' finds in its limit. */
  lemma {:induction false} DescendMeaning(datas: seq<seq<Field>>, searchType: string, r: nat, limit: int,
                                          expand: Option<string>, resolve: string -> Value, acc: Traversal)
    requires r >= 1
    ensures SubSearches(datas, searchType, r, limit, expand, resolve).Err? ==>
      Descend(datas, searchType, r, limit, expand, resolve, acc) == Err(SubSearches(datas, searchType, r, limit, expand, resolve).error)
    ensures SubSearches(datas, searchType, r, limit, expand, resolve).Ok? ==>
      Descend(datas, searchType, r, limit, expand, resolve, acc)
        == Ok(Traversal(acc.items + AllItems(SubSearches(datas, searchType, r, limit, expand, resolve).value),
                        acc.fetched + AllFetched(SubSearches(datas, searchType, r, limit, expand, resolve).value)))
    decreases |datas|
  {
    if |datas| == 0 {
      ConcatEmpty(acc.items);
      ConcatEmpty(acc.fetched);
    } else {
      var sub := Traverse(datas[0], searchType, Some(r - 1), limit, expand, resolve, Traversal([], []));
      if sub.Ok? {
        var acc' := Traversal(acc.items + sub.value.items, acc.fetched + Deeper(sub.value.fetched));
        DescendMeaning(datas[1..], searchType, r, limit, expand, resolve, acc');
        var rest := SubSearches(datas[1..], searchType, r, limit, expand, resolve);
        if rest.Ok? {
          ConcatAssoc(acc.items, sub.value.items, AllItems(rest.value));
          ConcatAssoc(acc.fetched, Deeper(sub.value.fetched), AllFetched(rest.value));
          var subs := [sub.value] + rest.value;
          assert subs[0] == sub.value && subs[1..] == rest.value;
        }
      }
    }
  }

  /** A field whose list has the searched type, below the limit, with
      levels left: the list is appended, then what each referenced entity's
      search finds with the limit less this list only, and the remaining
      fields are searched with that same limit, whatever the sub-searches
      found. */
  lemma MatchedFieldDescends(f: Field, fields: seq<Field>, searchType: string, recursive: Option<int>, limit: int,
                             expand: Option<string>, resolve: string -> Value, acc: Traversal,
                             datas: seq<seq<Field>>, subs: seq<Traversal>)
    requires Searched(f) && ListType(Offered(f.value)) == Some(searchType)
    requires limit - |Offered(f.value)| > 0 && Budget(recursive) >= 1
    requires FetchAll(Hrefs(Offered(f.value)), expand, resolve) == Ok(datas)
    requires SubSearches(datas, searchType, Budget(recursive), limit - |Offered(f.value)|, expand, resolve) == Ok(subs)
    ensures var list := Offered(f.value);
      Traverse([f] + fields, searchType, recursive, limit, expand, resolve, acc)
        == Traverse(fields, searchType, recursive, limit - |list|, expand, resolve,
                    Traversal(acc.items + list + AllItems(subs),
                              acc.fetched + FetchUrls(Hrefs(list), expand) + AllFetched(subs)))
  {
    var list := Offered(f.value);
    assert ([f] + fields)[0] == f && ([f] + fields)[1..] == fields;
    DescendMeaning(datas, searchType, Budget(recursive), limit - |list|, expand, resolve,
                   Traversal(acc.items + list, acc.fetched + FetchUrls(Hrefs(list), expand)));
  }

  /** A field whose list has the searched type and takes the limit to 0 or
      below ends the search at once, whatever the levels left: the list is
      appended and nothing is fetched for it. */
  lemma MatchedFieldStops(f: Field, fields: seq<Field>, searchType: string, recursive: Option<int>, limit: int,
                          expand: Option<string>, resolve: string -> Value, acc: Traversal)
    requires Searched(f) && ListType(Offered(f.value)) == Some(searchType)
    requires limit - |Offered(f.value)| <= 0
    ensures Traverse([f] + fields, searchType, recursive, limit, expand, resolve, acc)
         == Ok(Traversal(acc.items + Offered(f.value), acc.fetched))
  {
    assert ([f] + fields)[0] == f;
  }

  /** A searched field whose list has another type, with levels left: its
      list is not appended and the limit is not lowered, but its referenced
      entities are still fetched and searched one level down, and the
      remaining fields are searched with the same limit. */
  lemma UnmatchedFieldDescends(f: Field, fields: seq<Field>, searchType: string, recursive: Option<int>, limit: int,
                               expand: Option<string>, resolve: string -> Value, acc: Traversal,
                               datas: seq<seq<Field>>, subs: seq<Traversal>)
    requires Searched(f) && ListType(Offered(f.value)) != Some(searchType) && Budget(recursive) >= 1
    requires FetchAll(Hrefs(Offered(f.value)), expand, resolve) == Ok(datas)
    requires SubSearches(datas, searchType, Budget(recursive), limit, expand, resolve) == Ok(subs)
    ensures Traverse([f] + fields, searchType, recursive, limit, expand, resolve, acc)
         == Traverse(fields, searchType, recursive, limit, expand, resolve,
                     Traversal(acc.items + AllItems(subs),
                               acc.fetched + FetchUrls(Hrefs(Offered(f.value)), expand) + AllFetched(subs)))
  {
    assert ([f] + fields)[0] == f && ([f] + fields)[1..] == fields;
    DescendMeaning(datas, searchType, Budget(recursive), limit, expand, resolve,
                   Traversal(acc.items, acc.fetched + FetchUrls(Hrefs(Offered(f.value)), expand)));
  }

  /** `getLinkedEntities(searchType, recursive, limit, expand)` on an entity
      with the given data. */
  function LinkedEntities(data: seq<Field>, searchType: string, recursive: Option<int>, limit: int,
                          expand: Option<string>, resolve: string -> Value): (r: Result<Traversal>)
    ensures r.Ok? ==> LevelsWithin(r.value.fetched, Budget(recursive))
    ensures Budget(recursive) == 0 ==> r.Ok? && r.value.fetched == []
  {
    Traverse(data, searchType, recursive, limit, expand, resolve, Traversal([], []))
  }

  // ---- Without recursion: filter the fields, then cut at the limit ----

  /** The lists of the searched fields whose type is `searchType`, in order. */
  function DirectMatches(fields: seq<Field>, searchType: string): seq<seq<Value>>
    decreases |fields|
  {
    if |fields| == 0 then []
    else if Searched(fields[0]) && ListType(Offered(fields[0].value)) == Some(searchType)
    then [Offered(fields[0].value)] + DirectMatches(fields[1..], searchType)
    else DirectMatches(fields[1..], searchType)
  }

  function Concat(lists: seq<seq<Value>>): seq<Value>
    decreases |lists|
  {
    if |lists| == 0 then [] else lists[0] + Concat(lists[1..])
  }

  /** Whole lists, in order, until their total reaches `limit` (the list
      that reaches it included). */
  function Cut(lists: seq<seq<Value>>, limit: int): seq<Value>
    decreases |lists|
  {
    if |lists| == 0 then []
    else if limit - |lists[0]| <= 0 then lists[0]
    else lists[0] + Cut(lists[1..], limit - |lists[0]|)
  }

  /** Without levels to descend, the search is the matching lists of the
      entity's own fields, cut at the limit, and nothing is fetched. */
  lemma {:induction false} FlatSearchIsCut(fields: seq<Field>, searchType: string, recursive: Option<int>, limit: int,
                                           expand: Option<string>, resolve: string -> Value, acc: Traversal)
    requires Budget(recursive) == 0
    ensures Traverse(fields, searchType, recursive, limit, expand, resolve, acc)
         == Ok(Traversal(acc.items + Cut(DirectMatches(fields, searchType), limit), acc.fetched))
    decreases |fields|
  {
    if |fields| == 0 {
      ConcatEmpty(acc.items);
    } else if !Searched(fields[0]) {
      FlatSearchIsCut(fields[1..], searchType, recursive, limit, expand, resolve, acc);
    } else {
      var list := Offered(fields[0].value);
      if ListType(list) == Some(searchType) {
        var acc' := Traversal(acc.items + list, acc.fetched);
        if limit - |list| > 0 {
          FlatSearchIsCut(fields[1..], searchType, recursive, limit - |list|, expand, resolve, acc');
          ConcatAssoc(acc.items, list, Cut(DirectMatches(fields[1..], searchType), limit - |list|));
        }
      } else {
        FlatSearchIsCut(fields[1..], searchType, recursive, limit, expand, resolve, acc);
      }
    }
  }

  /** What `Cut` keeps: the first `k` lists, where `k` is the first count
      whose total reaches `limit`, or all of them. At least one list is
      kept whenever there is one, even for a limit that is not positive. */
  lemma {:induction false} CutMeaning(lists: seq<seq<Value>>, limit: int) returns (k: nat)
    ensures k <= |lists| && Cut(lists, limit) == Concat(lists[..k])
    ensures |lists| > 0 ==> k >= 1
    ensures k == |lists| || |Concat(lists[..k])| >= limit
    ensures forall j :: 0 < j < k ==> |Concat(lists[..j])| < limit
    decreases |lists|
  {
    if |lists| == 0 {
      k := 0;
      assert lists[..0] == [];
    } else if limit - |lists[0]| <= 0 {
      k := 1;
      assert lists[..1] == [lists[0]];
      assert Concat(lists[..1]) == lists[0] + Concat([]);
    } else {
      var k' := CutMeaning(lists[1..], limit - |lists[0]|);
      k := k' + 1;
      ConcatCons(lists, k);
      forall j | 0 < j < k ensures |Concat(lists[..j])| < limit {
        ConcatCons(lists, j);
        if j > 1 {
          assert |Concat(lists[1..][..j - 1])| < limit - |lists[0]|;
        } else {
          assert lists[1..][..0] == [];
        }
      }
    }
  }

  lemma ConcatCons(lists: seq<seq<Value>>, j: nat)
    requires 1 <= j <= |lists|
    ensures Concat(lists[..j]) == lists[0] + Concat(lists[1..][..j - 1])
  {
    assert lists[..j][1..] == lists[1..][..j - 1];
  }

  /** A skipped field, or one that offers no typed list, changes nothing,
      at any depth. */
  lemma PassedOverField(f: Field, fields: seq<Field>, searchType: string, recursive: Option<int>, limit: int,
                        expand: Option<string>, resolve: string -> Value, acc: Traversal)
    requires !Searched(f)
    ensures Traverse([f] + fields, searchType, recursive, limit, expand, resolve, acc)
         == Traverse(fields, searchType, recursive, limit, expand, resolve, acc)
  {
    assert ([f] + fields)[0] == f && ([f] + fields)[1..] == fields;
  }

  /** A list is taken whole on the type of its first element: elements of
      another type after it come along. */
  lemma WholeListTaken(first: seq<Field>, other: seq<Field>, name: string, searchType: string, limit: int,
                       resolve: string -> Value)
    requires name !in SKIPPED
    requires MetaType(first) == Some(searchType)
    ensures var f := Field(name, Arr([Ent(first), Ent(other)]));
      Traverse([f], searchType, None, limit, None, resolve, Traversal([], []))
        == Ok(Traversal([Ent(first), Ent(other)], []))
  {
    var f := Field(name, Arr([Ent(first), Ent(other)]));
    assert Searched(f);
    FlatSearchIsCut([f], searchType, None, limit, None, resolve, Traversal([], []));
    assert DirectMatches([f], searchType) == [[Ent(first), Ent(other)]] + DirectMatches([], searchType);
    var lists := [[Ent(first), Ent(other)]];
    assert Cut(lists, limit) == [Ent(first), Ent(other)] by {
      if limit - 2 > 0 {
        assert Cut(lists, limit) == lists[0] + Cut(lists[1..], limit - 2);
        assert lists[1..] == [];
      }
    }
    assert [] + Cut(lists, limit) == [Ent(first), Ent(other)];
  }
}
