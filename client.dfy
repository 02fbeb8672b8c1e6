/** `Lihoy\Moysklad\Client`: the query-limit fields, the metadata memo, the
    paged `getCollection` read, the webhook add/delete decisions and the
    audit-event selection.

    The HTTP connection is replaced by parameters: the decoded response of
    each GET the method would send is passed in, and the POST and DELETE
    requests it would send are returned. */
module ApiClient {
  import opened Common
  import opened Values
  import opened EntityData
  import opened Filter
  import opened Links
  import opened Pagination

  /** The metadata memo as `getMetadata` fills it from the listing of all
      types: each entry wrapped into an Entity under its own key. The first
      entry the constructor rejects makes the call fail. */
  function MetadataMap(listing: seq<Field>): (r: Result<seq<Field>>)
    ensures r.Ok? <==> forall i :: 0 <= i < |listing| ==> Build(listing[i].value).Ok?
    ensures r.Ok? ==> |r.value| == |listing|
    ensures r.Ok? ==> forall i :: 0 <= i < |listing| ==>
              r.value[i] == Field(listing[i].name, Ent(Build(listing[i].value).value.data))
    ensures r.Err? ==> exists i :: 0 <= i < |listing| && Build(listing[i].value) == Err(r.error)
  {
    var values := seq(|listing|, i requires 0 <= i < |listing| => listing[i].value);
    assert forall i :: 0 <= i < |listing| ==> values[i] == listing[i].value;
    HydrateMeaning(values);
    match Hydrate(values)
    case Err(e) => Err(e)
    case Ok(ents) => Ok(seq(|listing|, i requires 0 <= i < |listing| => Field(listing[i].name, ents[i])))
  }

  /** What `getMetadata` returns once the memo is filled, as written: with a
      null type it returns the memo, an array, from a function declared to
      return an object, which PHP refuses with a TypeError; an unknown type
      throws. */
  function MetadataAnswer(memo: seq<Field>, entityType: Option<string>): (r: Result<Value>)
    ensures entityType.None? ==> r == Err(TypeMismatch("object"))
    ensures entityType.Some? ==> (r.Ok? <==> IsSet(memo, entityType.value))
    ensures entityType.Some? && r.Ok? ==> Lookup(memo, entityType.value) == Some(r.value)
    ensures entityType.Some? && r.Err? ==> r.error == MetadataNotFound(entityType.value)
  {
    match entityType
    case None => Err(TypeMismatch("object"))
    case Some(t) => if IsSet(memo, t) then Ok(Read(memo, t)) else Err(MetadataNotFound(t))
  }

  /** What `getMetadata` evidently means to return: the whole memo, as an
      object, when no type is given. */
  function IntendedMetadataAnswer(memo: seq<Field>, entityType: Option<string>): (r: Result<Value>)
    ensures entityType.None? ==> r == Ok(Obj(memo))
    ensures entityType.None? ==> forall t :: IsSet(memo, t) ==> Property(r.value, t) == Ok(Read(memo, t))
    ensures entityType.Some? ==> r == MetadataAnswer(memo, entityType)
  {
    match entityType
    case None => Ok(Obj(memo))
    case Some(t) => MetadataAnswer(memo, entityType)
  }

  /** Without a type, the call as written fails on every memo, while the
      intended answer carries every type's metadata. */
  lemma WholeMetadataRefused(memo: seq<Field>, t: string)
    requires IsSet(memo, t)
    ensures MetadataAnswer(memo, None).Err?
    ensures MetadataAnswer(memo, Some(t)).Ok?
    ensures IntendedMetadataAnswer(memo, None).Ok?
    ensures Property(IntendedMetadataAnswer(memo, None).value, t) == MetadataAnswer(memo, Some(t))
  {
  }

  /** A webhook subscription `type.action`, split into its two parts. */
  datatype Subscription = Subscription(entityType: string, action: string)

  /** `explode('.', subscription)`: the entity type before the first dot and
      the action after it. A subscription without a dot reads the missing
      piece as null, which upper-cases to the empty string. */
  function SubscriptionParts(subscription: string): (parts: Subscription)
    ensures '.' !in parts.entityType && '.' !in parts.action
    ensures '.' !in subscription ==> parts == Subscription(subscription, "")
  {
    var pieces := Explode(subscription, '.');
    var parts := Subscription(pieces[0], if |pieces| > 1 then pieces[1] else "");
    if '.' !in subscription then ExplodeWithoutSeparator(subscription, '.'); parts else parts
  }

  /** `$object->k` on a decoded object (a hook, an audit event): the field,
      or null. */
  function FieldOf(v: Value, k: string): Value
  {
    match v
    case Obj(fs) => Read(fs, k)
    case _ => NULL
  }

  /** The webhook selection's test: the hook's entity type is the
      subscription's and its action is the subscription's, upper-cased. */
  predicate HookMatches(hook: Value, entityType: string, action: string)
  {
    FieldOf(hook, "entityType") == StrV(entityType) && FieldOf(hook, "action") == StrV(Upper(action))
  }

  /** Some existing hook already serves the subscription. */
  predicate Signed(hooks: seq<Value>, subscription: string)
  {
    var parts := SubscriptionParts(subscription);
    var entityType, action := parts.entityType, parts.action;
    exists j :: 0 <= j < |hooks| && HookMatches(hooks[j], entityType, action)
  }

  /** The hook subscription request `addWebhooks` POSTs. */
  function PostFor(subscription: string, url: string): Request
  {
    var parts := SubscriptionParts(subscription);
    var entityType, action := parts.entityType, parts.action;
    Request(POST, BASE_URI + HOOK_URI,
            [Field("url", StrV(url)), Field("action", StrV(Upper(action))), Field("entityType", StrV(entityType))])
  }

  /** The requests `addWebhooks` sends: one POST per subscription that no
      existing hook serves, in order. */
  function Subscribe(hooks: seq<Value>, subscriptions: seq<string>, url: string): (posts: seq<Request>)
    ensures |posts| <= |subscriptions|
    decreases |subscriptions|
  {
    if |subscriptions| == 0 then []
    else
      var init := subscriptions[..|subscriptions| - 1];
      var s := subscriptions[|subscriptions| - 1];
      Subscribe(hooks, init, url) + (if Signed(hooks, s) then [] else [PostFor(s, url)])
  }

  /** Two subscriptions whose requests coincide are served by the same
      hooks: the test reads the same type and upper-cased action. */
  lemma PostForDeterminesSigned(hooks: seq<Value>, s: string, t: string, url: string)
    requires PostFor(s, url) == PostFor(t, url)
    ensures Signed(hooks, s) <==> Signed(hooks, t)
  {
    var ps, pt := SubscriptionParts(s), SubscriptionParts(t);
    assert PostFor(s, url).body[1] == PostFor(t, url).body[1];
    assert PostFor(s, url).body[2] == PostFor(t, url).body[2];
    assert ps.entityType == pt.entityType && Upper(ps.action) == Upper(pt.action);
  }

  /** A POST goes out for a subscription exactly when no existing hook
      serves it, and every POST is one for a subscription no hook serves. */
  lemma SubscribeMeaning(hooks: seq<Value>, subscriptions: seq<string>, url: string)
    ensures forall i :: 0 <= i < |subscriptions| ==>
              (PostFor(subscriptions[i], url) in Subscribe(hooks, subscriptions, url) <==> !Signed(hooks, subscriptions[i]))
    ensures forall p :: p in Subscribe(hooks, subscriptions, url) ==>
              exists i :: 0 <= i < |subscriptions| && p == PostFor(subscriptions[i], url) && !Signed(hooks, subscriptions[i])
  {
    SubscribeSound(hooks, subscriptions, url);
    forall i | 0 <= i < |subscriptions|
      ensures PostFor(subscriptions[i], url) in Subscribe(hooks, subscriptions, url) <==> !Signed(hooks, subscriptions[i])
    {
      var t := subscriptions[i];
      if PostFor(t, url) in Subscribe(hooks, subscriptions, url) {
        var j :| 0 <= j < |subscriptions| && PostFor(t, url) == PostFor(subscriptions[j], url) && !Signed(hooks, subscriptions[j]);
        PostForDeterminesSigned(hooks, t, subscriptions[j], url);
      }
      if !Signed(hooks, t) {
        SubscribeComplete(hooks, subscriptions, url, i);
      }
    }
  }

  /** Every POST comes from a subscription no hook serves. */
  lemma {:induction false} SubscribeSound(hooks: seq<Value>, subscriptions: seq<string>, url: string)
    ensures forall p :: p in Subscribe(hooks, subscriptions, url) ==>
              exists i :: 0 <= i < |subscriptions| && p == PostFor(subscriptions[i], url) && !Signed(hooks, subscriptions[i])
    decreases |subscriptions|
  {
    if |subscriptions| > 0 {
      var init := subscriptions[..|subscriptions| - 1];
      var s := subscriptions[|subscriptions| - 1];
      SubscribeSound(hooks, init, url);
      var posts := Subscribe(hooks, subscriptions, url);
      assert posts == Subscribe(hooks, init, url) + (if Signed(hooks, s) then [] else [PostFor(s, url)]);
      forall p | p in posts
        ensures exists i :: 0 <= i < |subscriptions| && p == PostFor(subscriptions[i], url) && !Signed(hooks, subscriptions[i])
      {
        if p in Subscribe(hooks, init, url) {
          var i :| 0 <= i < |init| && p == PostFor(init[i], url) && !Signed(hooks, init[i]);
          assert subscriptions[i] == init[i];
        } else {
          assert p == PostFor(s, url) && !Signed(hooks, s);
          assert subscriptions[|subscriptions| - 1] == s;
        }
      }
    }
  }

  /** A subscription no hook serves has its POST sent. */
  lemma {:induction false} SubscribeComplete(hooks: seq<Value>, subscriptions: seq<string>, url: string, i: nat)
    requires i < |subscriptions| && !Signed(hooks, subscriptions[i])
    ensures PostFor(subscriptions[i], url) in Subscribe(hooks, subscriptions, url)
    decreases |subscriptions|
  {
    var init := subscriptions[..|subscriptions| - 1];
    var s := subscriptions[|subscriptions| - 1];
    var last := if Signed(hooks, s) then [] else [PostFor(s, url)];
    var p := PostFor(subscriptions[i], url);
    assert Subscribe(hooks, subscriptions, url) == Subscribe(hooks, init, url) + last;
    if i < |init| {
      assert init[i] == subscriptions[i];
      SubscribeComplete(hooks, init, url, i);
      assert p in Subscribe(hooks, init, url);
    } else {
      assert i == |subscriptions| - 1;
      assert last == [p];
    }
  }

  /** Index of the first hook serving the subscription, or |hooks|. */
  function FirstServing(hooks: seq<Value>, entityType: string, action: string): (j: nat)
    ensures j <= |hooks|
    ensures j < |hooks| ==> HookMatches(hooks[j], entityType, action)
    ensures forall k :: 0 <= k < j ==> !HookMatches(hooks[k], entityType, action)
  {
    if |hooks| == 0 then 0
    else if HookMatches(hooks[0], entityType, action) then 0
    else 1 + FirstServing(hooks[1..], entityType, action)
  }

  /** `array_values(array_filter(...))`: the hooks serving the
      subscription, in order; the first is the first serving hook. */
  function Serving(hooks: seq<Value>, entityType: string, action: string): (s: seq<Value>)
    ensures |s| == 0 <==> FirstServing(hooks, entityType, action) == |hooks|
    ensures |s| > 0 ==> s[0] == hooks[FirstServing(hooks, entityType, action)]
    ensures forall h :: h in s <==> h in hooks && HookMatches(h, entityType, action)
    decreases |hooks|
  {
    if |hooks| == 0 then []
    else
      assert forall h :: h in hooks <==> h == hooks[0] || h in hooks[1..];
      (if HookMatches(hooks[0], entityType, action) then [hooks[0]] else []) + Serving(hooks[1..], entityType, action)
  }

  /** The filter `getWebhooks` applies: hooks for this URL. */
  function UrlRule(url: string): Rule
  {
    Rule("url", "=", Str(url))
  }

  /** The hook deletion request for a served subscription: a DELETE of the
      first serving hook's `meta.href`. */
  function DeleteFor(hooks: seq<Value>, subscription: string): Request
  {
    var parts := SubscriptionParts(subscription);
    var entityType, action := parts.entityType, parts.action;
    var j := FirstServing(hooks, entityType, action);
    if j < |hooks| then DeleteOf(hooks[j]) else Request(DELETE, "", [])
  }

  /** The requests `deleteWebhooks` sends: one DELETE per subscription some
      existing hook serves, in order; the others are skipped. */
  function Unsubscribe(hooks: seq<Value>, subscriptions: seq<string>): (deletes: seq<Request>)
    ensures |deletes| <= |subscriptions|
    decreases |subscriptions|
  {
    if |subscriptions| == 0 then []
    else
      var init := subscriptions[..|subscriptions| - 1];
      var s := subscriptions[|subscriptions| - 1];
      Unsubscribe(hooks, init) + (if Signed(hooks, s) then [DeleteFor(hooks, s)] else [])
  }

  /** How many subscriptions some hook serves. */
  function SignedCount(hooks: seq<Value>, subscriptions: seq<string>): nat
    decreases |subscriptions|
  {
    if |subscriptions| == 0 then 0
    else
      var init := subscriptions[..|subscriptions| - 1];
      SignedCount(hooks, init) + (if Signed(hooks, subscriptions[|subscriptions| - 1]) then 1 else 0)
  }

  lemma UnsubscribeLast(hooks: seq<Value>, subscriptions: seq<string>)
    requires |subscriptions| > 0
    ensures var s := subscriptions[|subscriptions| - 1];
      Unsubscribe(hooks, subscriptions)
      == Unsubscribe(hooks, subscriptions[..|subscriptions| - 1]) + (if Signed(hooks, s) then [DeleteFor(hooks, s)] else [])
  {
  }

  /** One DELETE per served subscription. */
  lemma {:induction false} UnsubscribeCount(hooks: seq<Value>, subscriptions: seq<string>)
    ensures |Unsubscribe(hooks, subscriptions)| == SignedCount(hooks, subscriptions)
    decreases |subscriptions|
  {
    if |subscriptions| > 0 {
      UnsubscribeCount(hooks, subscriptions[..|subscriptions| - 1]);
    }
  }

  /** Every served subscription has its DELETE among the requests. */
  lemma {:induction false} UnsubscribeCovers(hooks: seq<Value>, subscriptions: seq<string>, i: nat)
    requires i < |subscriptions| && Signed(hooks, subscriptions[i])
    ensures DeleteFor(hooks, subscriptions[i]) in Unsubscribe(hooks, subscriptions)
    decreases |subscriptions|
  {
    var init := subscriptions[..|subscriptions| - 1];
    var s := subscriptions[|subscriptions| - 1];
    var last := if Signed(hooks, s) then [DeleteFor(hooks, s)] else [];
    var d := DeleteFor(hooks, subscriptions[i]);
    UnsubscribeLast(hooks, subscriptions);
    assert Unsubscribe(hooks, subscriptions) == Unsubscribe(hooks, init) + last;
    if i < |init| {
      assert init[i] == subscriptions[i];
      UnsubscribeCovers(hooks, init, i);
      assert d in Unsubscribe(hooks, init);
    } else {
      assert i == |subscriptions| - 1;
      assert last == [d];
    }
  }

  /** Every DELETE is that of a served subscription. */
  lemma {:induction false} UnsubscribeOnlyServed(hooks: seq<Value>, subscriptions: seq<string>, d: Request)
    requires d in Unsubscribe(hooks, subscriptions)
    ensures exists i :: 0 <= i < |subscriptions| && Signed(hooks, subscriptions[i]) && d == DeleteFor(hooks, subscriptions[i])
    decreases |subscriptions|
  {
    var init := subscriptions[..|subscriptions| - 1];
    var s := subscriptions[|subscriptions| - 1];
    UnsubscribeLast(hooks, subscriptions);
    if d in Unsubscribe(hooks, init) {
      UnsubscribeOnlyServed(hooks, init, d);
      var i :| 0 <= i < |init| && Signed(hooks, init[i]) && d == DeleteFor(hooks, init[i]);
      assert subscriptions[i] == init[i];
    } else {
      assert Signed(hooks, s) && d == DeleteFor(hooks, s);
      assert subscriptions[|subscriptions| - 1] == s;
    }
  }

  /** A served subscription's DELETE names the `meta.href` of a hook that
      serves it, the first such hook in the list. */
  lemma DeleteForServingHook(hooks: seq<Value>, subscription: string)
    requires Signed(hooks, subscription)
    requires forall j :: 0 <= j < |hooks| ==> hooks[j].Obj?
    ensures var parts := SubscriptionParts(subscription);
      exists j :: 0 <= j < |hooks| && HookMatches(hooks[j], parts.entityType, parts.action)
        && DeleteFor(hooks, subscription) == Request(DELETE, OrEmpty(MetaHref(hooks[j].fields)), [])
        && forall k :: 0 <= k < j ==> !HookMatches(hooks[k], parts.entityType, parts.action)
  {
    var parts := SubscriptionParts(subscription);
    var entityType, action := parts.entityType, parts.action;
    var j := FirstServing(hooks, entityType, action);
    assert j < |hooks|;
  }

  /** `getAuditEvent`'s test: event and entity types equal the lower-cased
      arguments, and the uid equals the given one when one is given. */
  predicate EventMatches(event: Value, entityType: string, eventType: string, uid: Option<string>)
  {
    && FieldOf(event, "eventType") == StrV(Lower(eventType))
    && FieldOf(event, "entityType") == StrV(Lower(entityType))
    && (uid.None? || FieldOf(event, "uid") == StrV(uid.value))
  }

  /** The events passing the test, in order. */
  function MatchingEvents(events: seq<Value>, entityType: string, eventType: string, uid: Option<string>): (m: seq<Value>)
    ensures forall e :: e in m <==> e in events && EventMatches(e, entityType, eventType, uid)
    ensures |m| <= |events|
    decreases |events|
  {
    if |events| == 0 then []
    else
      var rest := MatchingEvents(events[1..], entityType, eventType, uid);
      assert forall e :: e in events <==> e == events[0] || e in events[1..];
      if EventMatches(events[0], entityType, eventType, uid) then [events[0]] + rest else rest
  }

  /** A matching event is kept as many times as it occurs, and no other
      event is kept: the filter tests each position. */
  lemma {:induction false} MatchingEventsCounts(events: seq<Value>, entityType: string, eventType: string, uid: Option<string>)
    ensures forall e :: multiset(MatchingEvents(events, entityType, eventType, uid))[e] ==
              if EventMatches(e, entityType, eventType, uid) then multiset(events)[e] else 0
    decreases |events|
  {
    if |events| > 0 {
      MatchingEventsCounts(events[1..], entityType, eventType, uid);
      var rest := MatchingEvents(events[1..], entityType, eventType, uid);
      assert events == [events[0]] + events[1..];
      assert multiset(events) == multiset([events[0]]) + multiset(events[1..]);
      if EventMatches(events[0], entityType, eventType, uid) {
        assert multiset([events[0]] + rest) == multiset([events[0]]) + multiset(rest);
      }
    }
  }

  /** The address the events are read from. */
  function AuditEventsHref(auditHref: string): string
  {
    auditHref + "/events"
  }

  /** `getAuditEvent` as written: more than one match and no match throw;
      a single match is returned from a function declared to return an
      Entity, so a decoded event object is refused with a TypeError. */
  function AuditEventAsWritten(events: seq<Value>, entityType: string, eventType: string, uid: Option<string>): (r: Result<Value>)
    ensures var m := MatchingEvents(events, entityType, eventType, uid);
      && (|m| > 1 ==> r == Err(AmbiguousEvent))
      && (|m| == 0 ==> r == Err(NoMatchingEvent))
      && (|m| == 1 && m[0].Ent? ==> r == Ok(m[0]))
      && (|m| == 1 && !m[0].Ent? ==> r == Err(TypeMismatch("Entity")))
  {
    var m := MatchingEvents(events, entityType, eventType, uid);
    if |m| > 1 then Err(AmbiguousEvent)
    else if |m| == 0 then Err(NoMatchingEvent)
    else if m[0].Ent? then Ok(m[0])
    else Err(TypeMismatch("Entity"))
  }

  /** The events of the audit are decoded objects, never Entities, so as
      written the call never returns an event. */
  lemma AuditEventNeverReturns(events: seq<Value>, entityType: string, eventType: string, uid: Option<string>)
    requires forall i :: 0 <= i < |events| ==> events[i].Obj?
    ensures AuditEventAsWritten(events, entityType, eventType, uid).Err?
  {
    var m := MatchingEvents(events, entityType, eventType, uid);
    if |m| == 1 {
      assert m[0] in events;
    }
  }

  /** `getAuditEvent` as intended: the single matching event. */
  function AuditEvent(events: seq<Value>, entityType: string, eventType: string, uid: Option<string>): (r: Result<Value>)
    ensures r.Ok? <==> |MatchingEvents(events, entityType, eventType, uid)| == 1
    ensures r.Ok? ==> r.value in events && EventMatches(r.value, entityType, eventType, uid)
    ensures r.Ok? ==> forall e :: e in events && EventMatches(e, entityType, eventType, uid) ==> e == r.value
    ensures r.Err? ==> r.error == if |MatchingEvents(events, entityType, eventType, uid)| == 0 then NoMatchingEvent
                                  else AmbiguousEvent
  {
    var m := MatchingEvents(events, entityType, eventType, uid);
    if |m| > 1 then Err(AmbiguousEvent)
    else if |m| == 0 then Err(NoMatchingEvent)
    else
      assert m[0] in m;
      Ok(m[0])
  }

  /** Two matching positions make the lookup ambiguous, even when they hold
      the same event: matches are counted by position. */
  lemma TwoMatchesAmbiguous(events: seq<Value>, entityType: string, eventType: string, uid: Option<string>, i: nat, j: nat)
    requires i < j < |events|
    requires EventMatches(events[i], entityType, eventType, uid) && EventMatches(events[j], entityType, eventType, uid)
    ensures AuditEvent(events, entityType, eventType, uid) == Err(AmbiguousEvent)
    ensures AuditEventAsWritten(events, entityType, eventType, uid) == Err(AmbiguousEvent)
  {
    var m := MatchingEvents(events, entityType, eventType, uid);
    assert events[i] in events && events[j] in events;
    assert events[i] in m && events[j] in m;
    if events[i] == events[j] {
      assert events == events[..j] + events[j..];
      assert events[i] in events[..j] && events[j] in events[j..];
      assert multiset(events) == multiset(events[..j]) + multiset(events[j..]);
      MatchingEventsCounts(events, entityType, eventType, uid);
      assert multiset(m)[events[i]] >= 2;
      CountWithinLength(m, events[i]);
    } else {
      var p :| 0 <= p < |m| && m[p] == events[i];
      var q :| 0 <= q < |m| && m[q] == events[j];
      assert p != q;
    }
  }

  /** With a single matching decoded event, as written the call fails where
      the intended one returns that event. */
  lemma AuditEventDiffers(event: Value)
    requires event.Obj?
    requires EventMatches(event, "customerorder", "create", None)
    ensures AuditEventAsWritten([event], "customerorder", "create", None) == Err(TypeMismatch("Entity"))
    ensures AuditEvent([event], "customerorder", "create", None) == Ok(event)
  {
    assert MatchingEvents([event], "customerorder", "create", None) == [event];
  }

  /** Turns each row into an Entity and appends it to `list`, as the
      `foreach` of `getCollection` does; a rejected row ends the call. */
  method AppendEntities(list: seq<Value>, rows: seq<Value>) returns (r: Result<seq<Value>>)
    ensures r == Prefixed(list, Hydrate(rows))
  {
    var acc := list;
    var i := 0;
    while i < |rows|
      invariant 0 <= i <= |rows|
      invariant Hydrate(rows[..i]).Ok? && acc == list + Hydrate(rows[..i]).value
    {
      var b := Build(rows[i]);
      if b.Err? {
        HydrateStops(rows, i);
        return Err(b.error);
      }
      HydrateNext(rows, i);
      acc := acc + [Ent(b.value.data)];
      i := i + 1;
    }
    assert rows[..i] == rows;
    r := Ok(acc);
  }

  /** The body of `getCollection`'s do-while on the page received at
      `offset`: the limit fixed from the first response, the remainder
      updated, each row appended as an Entity, the offset advanced by the
      page size and the page size lowered to the remainder; the result is
      the pass `Step` describes. */
  method CollectionPass(page: Page, offset: int, limit: Option<int>, remainder: int, queryLimit: int, list: seq<Value>)
    returns (pass: Pass)
    ensures pass == Step(page, offset, limit, remainder, queryLimit, list)
  {
    var lim := limit;
    if lim.None? {
      lim := Some(page.size - offset);
    }
    var rem := if remainder == 0 then lim.value - |page.rows| else remainder - |page.rows|;
    var appended := AppendEntities(list, page.rows);
    if appended.Err? {
      return Stop(Failed(appended.error));
    }
    var q := queryLimit;
    if rem < q {
      q := rem;
    }
    if |appended.value| < lim.value && |appended.value| == q {
      pass := Next(offset + queryLimit, lim.value, rem, q, appended.value);
    } else {
      pass := Stop(Done(appended.value));
    }
  }

  /** `href_base`, built once: the address and first page size, each
      non-null parameter, then the filter. */
  method CollectionHrefBase(endPoint: string, queryLimit: int, params: seq<(string, Option<string>)>, filters: seq<Rule>)
    returns (hrefBase: string)
    ensures hrefBase == HrefBase(endPoint, queryLimit, params, filters)
  {
    hrefBase := BASE_URI + "/" + endPoint + "?limit=" + IntToString(queryLimit) + ParamsText(params);
    if |filters| > 0 {
      var filterUri := RenderFilter(filters);
      hrefBase := hrefBase + "&" + filterUri;
    }
  }

  /** The do-while of `getCollection` from the start offset, with nothing
      read and no remainder: the URLs requested and the run are those of
      `Loop`. */
  method CollectionLoop(server: int -> Page, hrefBase: string, start: int, limit: Option<int>, queryLimit: int, fuel: nat)
    returns (urls: seq<string>, run: Run)
    ensures run == Loop(server, start, limit, 0, queryLimit, [], fuel)
    ensures urls == Urls(hrefBase, run.offsets)
  {
    var off, lim, remainder, q := start, limit, 0, queryLimit;
    var list: seq<Value> := [];
    var offsets: seq<int> := [];
    var outcome: Outcome := OutOfFuel;
    urls := [];
    var f := fuel;
    var going := true;
    ghost var spec := Loop(server, start, limit, 0, queryLimit, [], fuel);
    while going && f > 0
      invariant going ==>
        var rest := Loop(server, off, lim, remainder, q, list, f);
        spec == Run(offsets + rest.offsets, rest.outcome)
      invariant !going ==> spec == Run(offsets, outcome)
      invariant urls == Urls(hrefBase, offsets)
      decreases f
    {
      var page := server(off);
      UrlsAppend(hrefBase, offsets, off);
      urls := urls + [hrefBase + "&offset=" + IntToString(off)];
      ghost var before := offsets;
      offsets := offsets + [off];
      var pass := CollectionPass(page, off, lim, remainder, q, list);
      if pass.Stop? {
        LoopFinish(server, spec, before, off, lim, remainder, q, list, f, pass.outcome);
        outcome := pass.outcome;
        going := false;
      } else {
        LoopAdvance(server, spec, before, off, lim, remainder, q, list, f, pass);
        off, lim, remainder, q, list := pass.offset, Some(pass.lim), pass.rem, pass.q, pass.items;
      }
      f := f - 1;
    }
    if going {
      ConcatEmpty(offsets);
      run := Run(offsets, OutOfFuel);
    } else {
      run := Run(offsets, outcome);
    }
  }

  /** The DELETE for a subscription whose first serving hook is `hook`. A
      hook without `meta.href` gives a DELETE of the empty address, where
      PHP's `delete(string $url)` refuses the null with a TypeError. */
  function DeleteOf(hook: Value): Request
  {
    Request(DELETE, if hook.Obj? then OrEmpty(MetaHref(hook.fields)) else "", [])
  }

  class Client {
    var entitiesQueryLimitMax: int
    var eventsQueryLimitMax: int
    /** The memo of every type's metadata, None until first read. */
    var metadata: Option<seq<Field>>

    constructor ()
      ensures entitiesQueryLimitMax == ENTITIES_QUERY_LIMIT_MAX
      ensures eventsQueryLimitMax == EVENTS_QUERY_LIMIT_MAX
      ensures metadata == None
    {
      entitiesQueryLimitMax := ENTITIES_QUERY_LIMIT_MAX;
      eventsQueryLimitMax := EVENTS_QUERY_LIMIT_MAX;
      metadata := None;
    }

    /** A null value restores the default of 1000. */
    method SetEntitiesQueryLimitMax(newValue: Option<int>)
      modifies this
      ensures entitiesQueryLimitMax == if newValue.None? then ENTITIES_QUERY_LIMIT_MAX else newValue.value
      ensures eventsQueryLimitMax == old(eventsQueryLimitMax) && metadata == old(metadata)
    {
      entitiesQueryLimitMax := if newValue.None? then ENTITIES_QUERY_LIMIT_MAX else newValue.value;
    }

    /** A null value restores the default of 100. */
    method SetEventsQueryLimitMax(newValue: Option<int>)
      modifies this
      ensures eventsQueryLimitMax == if newValue.None? then EVENTS_QUERY_LIMIT_MAX else newValue.value
      ensures entitiesQueryLimitMax == old(entitiesQueryLimitMax) && metadata == old(metadata)
    {
      eventsQueryLimitMax := if newValue.None? then EVENTS_QUERY_LIMIT_MAX else newValue.value;
    }

    /** `getMetadata`: the listing of all types is read and memoized on the
        first call only; later calls answer from the memo whatever the
        listing. A listing the constructor rejects leaves the memo empty. */
    method GetMetadata(entityType: Option<string>, listing: seq<Field>) returns (r: Result<Value>)
      modifies this
      ensures old(metadata).Some? ==> metadata == old(metadata)
      ensures old(metadata).None? ==>
        metadata == match MetadataMap(listing) case Ok(m) => Some(m) case Err(_) => None
      ensures metadata.None? ==> r == Err(MetadataMap(listing).error)
      ensures metadata.Some? ==> r == MetadataAnswer(metadata.value, entityType)
      ensures entitiesQueryLimitMax == old(entitiesQueryLimitMax) && eventsQueryLimitMax == old(eventsQueryLimitMax)
    {
      if metadata.None? {
        var m := MetadataMap(listing);
        if m.Err? {
          return Err(m.error);
        }
        metadata := Some(m.value);
      }
      r := MetadataAnswer(metadata.value, entityType);
    }

    /** `getCollection`: the requests made and the run are those of the
        specification `Collection` with this client's page-size cap; every
        request is the address built once plus its offset. */
    method GetCollection(server: int -> Page, endPoint: string, filters: seq<Rule>, limit: Option<int>, offset: Option<int>, params: seq<(string, Option<string>)>, fuel: nat)
      returns (urls: seq<string>, run: Run)
      ensures run == Collection(server, entitiesQueryLimitMax, limit, offset, fuel)
      ensures urls == Urls(HrefBase(endPoint, InitialPageSize(entitiesQueryLimitMax, limit), params, filters), run.offsets)
    {
      var queryLimit := entitiesQueryLimitMax;
      if IntTruthy(limit) && queryLimit > limit.value {
        queryLimit := limit.value;
      }
      assert queryLimit == InitialPageSize(entitiesQueryLimitMax, limit);
      if queryLimit <= 0 {
        return [], Run([], Done([]));
      }
      var hrefBase := CollectionHrefBase(endPoint, queryLimit, params, filters);
      urls, run := CollectionLoop(server, hrefBase, StartOffset(offset), limit, queryLimit, fuel);
    }

    /** `addWebhooks`: the hooks registered for `url` are those of the
        listing the filter keeps; then one POST per subscription none of
        them serves, in order. */
    method AddWebhooks(subscriptions: seq<string>, url: string, listed: seq<Value>) returns (r: Result<seq<Request>>)
      ensures Filtered(listed, [UrlRule(url)]).Err? ==> r == Err(Filtered(listed, [UrlRule(url)]).error)
      ensures Filtered(listed, [UrlRule(url)]).Ok? ==>
        r == Ok(Subscribe(Filtered(listed, [UrlRule(url)]).value, subscriptions, url))
    {
      var actual := FilterList(listed, [UrlRule(url)]);
      if actual.Err? {
        return Err(actual.error);
      }
      var hooks := actual.value;
      var responses: seq<Request> := [];
      var i := 0;
      while i < |subscriptions|
        invariant 0 <= i <= |subscriptions|
        invariant responses == Subscribe(hooks, subscriptions[..i], url)
      {
        var parts := SubscriptionParts(subscriptions[i]);
        var entityType, action := parts.entityType, parts.action;
        var filtered := Serving(hooks, entityType, action);
        assert subscriptions[..i + 1][..i] == subscriptions[..i];
        if |filtered| == 0 {
          responses := responses + [Request(POST, BASE_URI + HOOK_URI,
            [Field("url", StrV(url)), Field("action", StrV(Upper(action))), Field("entityType", StrV(entityType))])];
        }
        i := i + 1;
      }
      assert subscriptions[..i] == subscriptions;
      r := Ok(responses);
    }

    /** `deleteWebhooks`: one DELETE of the first serving hook's
        `meta.href` per subscription some hook for `url` serves, in order. */
    method DeleteWebhooks(subscriptions: seq<string>, url: string, listed: seq<Value>) returns (r: Result<seq<Request>>)
      ensures Filtered(listed, [UrlRule(url)]).Err? ==> r == Err(Filtered(listed, [UrlRule(url)]).error)
      ensures Filtered(listed, [UrlRule(url)]).Ok? ==>
        r == Ok(Unsubscribe(Filtered(listed, [UrlRule(url)]).value, subscriptions))
    {
      var actual := FilterList(listed, [UrlRule(url)]);
      if actual.Err? {
        return Err(actual.error);
      }
      var hooks := actual.value;
      var responses: seq<Request> := [];
      var i := 0;
      while i < |subscriptions|
        invariant 0 <= i <= |subscriptions|
        invariant responses == Unsubscribe(hooks, subscriptions[..i])
      {
        var parts := SubscriptionParts(subscriptions[i]);
        var entityType, action := parts.entityType, parts.action;
        var filtered := Serving(hooks, entityType, action);
        assert subscriptions[..i + 1][..i] == subscriptions[..i];
        var isSigned := |filtered| > 0;
        if isSigned {
          var hook := filtered[0];
          responses := responses + [DeleteOf(hook)];
        }
        i := i + 1;
      }
      assert subscriptions[..i] == subscriptions;
      r := Ok(responses);
    }
  }
}
