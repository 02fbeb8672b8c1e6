# A Dafny model of the moysklad client core

This project models the core of the `li-hoy/moysklad` PHP client for the
MoySklad REST service and proves properties of that model. It covers two
classes, `Lihoy\Moysklad\Client` and `Lihoy\Moysklad\Entity`, and the
`getEntities` loop of the older `Lihoy\Moysklad\Base\Models\Client`:

- in-memory filtering with `(field, op, value)` rules, and the rendering of
  those rules into the `filter=` query parameter;
- the pagination loops:
  - `Client::getCollection`, which also serves `getEntities` and `getStock`;
  - `Entity::getEvents`;
  - the older client's fixed-page `getEntities`;
- the `Entity` object model:
  - construction, and the wrapping of `meta`-bearing objects into Entities;
  - flattening back (`getFieldData`);
  - `__get` / `__set` / `__isset`, `id` parsing, `map`;
  - the custom-attribute accessor `af` with its memoized definitions;
  - `save` and `remove`;
  - states, and the link traversal `getLinkedEntities`;
- the client's `getMetadata` memo, `createLink` and the href builders, the
  webhook add/delete decisions, `getAuditEvent`'s unique match, and the
  page-size setters.

The service is never called. Every response is a parameter:
- `server(url)` or `server(offset)` for a page (its `rows` and `meta.size`);
- `resolve(url)` for an entity fetched by href;
- the decoded listing or response for every other call.

A loop that the code does not guarantee to end runs on `fuel`. When the fuel
is used up, the loop ends with the outcome `OutOfFuel`.

Modules, in dependency order:

| module | file | models |
|---|---|---|
| `Common` | common.dfy | results, error kinds, `explode`/`implode`, int-to-string, ASCII case mapping |
| `Values` | values.dfy | decoded JSON values and PHP's ordered key/value store |
| `FieldWalk` | materialize.dfy | `updateField` (wrapping) and `getFieldData` (flattening) |
| `Links` | links.dfy | base addresses, `getEntityById`/`getEntityByHref` hrefs, `createLink` |
| `Filter` | filter.dfy | `Client::filter` and the `filter=` parameter |
| `EntityData` | entitydata.dfy | the constructor, `__get`, `parseId`, `map`, the `save` request |
| `Pagination` | pagination.dfy | `getCollection`'s loop as a specification function, and its properties |
| `Events` | events.dfy | `getEvents`' loop as a specification function, and its properties |
| `Linked` | linked.dfy | `getLinkedEntities` |
| `Legacy` | legacy.dfy | `Base\Models\Client::getEntities` |
| `ApiClient` | client.dfy | the `Client` class and its methods |
| `Entities` | entity.dfy | the `Entity` class and its methods |

Decisions the code makes and the model follows, where the library's own
description says otherwise:
- A `limit` of 0 is falsy, so it leaves the page size at the cap
  (src/Client.php:455). It is not null either, so the limit stays 0
  (src/Client.php:486) and the loop stops after the first pass
  (src/Client.php:499). The call returns the first page, at most the cap.
  It does not mean "no entities", nor "everything".
- The page URL is `limit`, then the non-null params, then the filter, then
  `offset` (src/Client.php:461-483).
- `getEvents` does not share `getCollection`'s loop:
  - its offset advances by the rows received (src/Entity.php:284);
  - it stops once the running total reaches the limit (src/Entity.php:292).
- `readonly` is empty unless a subclass fills it (src/Entity.php:17).
- `changed` is `[]` after every construction (src/Entity.php:43). `__set`
  appends the name on every call (src/Entity.php:96).

## Model

| member | source | states |
|---|---|---|
| `Values.Store` | src/Entity.php:98 | `$data[$k] = $v`: `k` reads back `v` and every other key reads as before. An existing key keeps its place; a new key goes last. Distinct keys stay distinct. |
| `Values.Lookup` | src/Entity.php:53 | A key is found exactly when `array_key_exists` holds. |
| `FieldWalk.MaterializeWraps` | src/Entity.php:128-149 | After `updateField`, no object carrying `meta` is left unwrapped, at any depth. |
| `FieldWalk.MaterializeRawIsMaterialized` | src/Entity.php:128-149 | Walking decoded JSON yields a value in which every Entity has `meta`. |
| `FieldWalk.MaterializeIdempotent` | src/Entity.php:141-146 | An Entity is not wrapped again, so walking a walked value changes nothing. |
| `FieldWalk.MaterializeKeepsMeta` | src/Entity.php:141-143 | Walking an object's fields keeps whether `meta` is set. |
| `FieldWalk.ReadMaterialized` | src/Entity.php:35-37 | A field of walked fields reads as the walked field. |
| `FieldWalk.MaterializeKeepsNames` | src/Entity.php:35-37 | Walking keeps the field names, in order, so distinct names stay distinct. |
| `FieldWalk.FlattenIsRaw` | src/Entity.php:464-482 | `getFieldData` leaves no Entity anywhere in its result. |
| `FieldWalk.FlattenMaterialize` | src/Entity.php:464-482 | `getFieldData` undoes `updateField` on decoded JSON. |
| `FieldWalk.MaterializeFlatten` | src/Entity.php:128-149 | `updateField` undoes `getFieldData` on a walked value. |
| `FieldWalk.FromObjectOfUniqueFields` | src/Entity.php:115-122 | For distinct keys, storing the walked fields one by one gives the walked object. |
| `Links.WithExpand` | src/Client.php:83-85 | `?expand=` is appended exactly when `expand` is a truthy string. |
| `Links.LegacyEntityHrefAgrees` | src/Base/Models/Client.php:50 | Both clients build the same href for a type and an id. |
| `Links.CreateLink` | src/Client.php:509-526 | A link is an object holding only `meta`, with the entity's `href`, `type` and the JSON `mediaType`. It has `metadataHref`, the type's metadata address, exactly when asked for. |
| `EntityData.Build` | src/Entity.php:26-44 | Construction fails (with `MissingMeta`) exactly for an object without `meta`. A string gives that type and no data. An object gives its walked fields; an Entity argument is not modelled (see Left out). |
| `EntityData.BuildFromObject` | src/Entity.php:35-38 | From an object with `meta`, the data is the object's walked fields, in order, and the type is `meta.type`. |
| `EntityData.WrappedObjectIsBuilt` | src/Entity.php:145 | The Entity that `updateField` wraps around a nested object is the one the constructor builds from it. |
| `EntityData.MetaFieldMaterialized` | src/Entity.php:38 | Reading `meta.type` after walking gives the same text as before walking. |
| `EntityData.ParseId` | src/Entity.php:235-239 | The id contains no `/`. |
| `EntityData.ParseIdIsLastSegment` | src/Entity.php:237-238 | The id is the suffix of `meta.href` after its last `/` (the whole href when there is none). |
| `EntityData.LinkReadsBackId` | src/Client.php:514-519 | An Entity built from `createLink(type, id)` with a slash-free id reads back `id` and has type `type`. |
| `EntityData.EntityByIdHrefParses` | src/Client.php:70 | The last segment of `getEntityById`'s href is the id. |
| `EntityData.Get` | src/Entity.php:51-77 | `__get` answers, in order: the stored field; for `id`, the parsed id; the first attribute record of that name. Otherwise it fails with `FieldNotFound`. |
| `EntityData.Property` | src/Client.php:286 | `$v->$k`: a plain object's property (null when absent), an Entity's `__get`, null on anything else. |
| `EntityData.Map` | src/Entity.php:246-255 | The result holds exactly the listed names that are set, with their values. |
| `EntityData.SaveNames` | src/Entity.php:425-435 | The body's names are exactly the required and the changed ones. |
| `EntityData.BodyFrom` | src/Entity.php:425-435 | Each named field is sent flattened, and nothing else is added. |
| `EntityData.SaveRequest` | src/Entity.php:422-446 | No request when there is nothing to send. With `meta`: a PUT to `meta.href` that carries `meta`. Otherwise: a POST to `BASE_URI/entity/{type}`. The body holds the required and changed fields, flattened. |
| `EntityData.SaveBodyEmpty` | src/Entity.php:436-438 | The body is empty exactly when nothing is required and nothing has changed. |
| `EntityData.HydrateMeaning` | src/Client.php:492-494 | Every row becomes one Entity, in order. The first row without `meta` makes the whole page fail. |
| `EntityData.HydrateAppend` | src/Client.php:492-494 | Building rows page by page is building the concatenated pages. |
| `Filter.HoldsMeaning` | src/Client.php:282-309 | For each of `=`, `!=`, `<`, `>`, `<=`, `>=`, the rule holds exactly when `value op record.field` holds, with the rule value on the left. Any other operator never rejects. |
| `Filter.CmpAntisymmetric` | src/Client.php:294-309 | The ordering used by the comparisons is antisymmetric. |
| `Filter.CmpTransitive` | src/Client.php:294-309 | The ordering used by the comparisons is transitive. |
| `Filter.CheckMeaning` | src/Client.php:281-310 | A record passes exactly when every rule holds. A failing field read surfaces only if every rule before it held. |
| `Filter.FilteredMeaning` | src/Client.php:279-315 | The result is an order-preserving subsequence of the list. It holds exactly the records for which every rule holds, each as many times as it occurs in the list. |
| `Filter.FilteredCounts` | src/Client.php:279-315 | Rejected records are unset by position: a record every rule holds for keeps all its copies, and any other keeps none. |
| `Filter.FilteredKeepsPassing` | src/Client.php:279-315 | Every record kept passes the rules. |
| `Filter.FilteredFirst` | src/Client.php:279-315 | The first record kept is the first one every rule holds for: no earlier record passes. |
| `Filter.FilteredNoRules` | src/Client.php:279-315 | With no rules, the list comes back unchanged. |
| `Filter.FilterList` | src/Client.php:275-316 | The loop that drops rejected records computes `Filtered`. |
| `Filter.FilterParam` | src/Client.php:468-479 | The parameter starts with `filter=`. |
| `Filter.RenderFilter` | src/Client.php:469-477 | The loop with its `break` before the last `;` computes `FilterParam`. |
| `Filter.FilterParamSplits` | src/Client.php:469-477 | Splitting the parameter on `;` gives back each rule's `field·op·value`, in order, with no trailing piece. |
| `Filter.FilterParamExample` | src/Client.php:437 | The documented rules render as `filter=sum>100;sum<200`. |
| `Pagination.InitialPageSize` | src/Client.php:454-457 | The page size is the cap, lowered to a truthy smaller limit. `limit = 0` leaves the cap. A negative limit gives a size ≤ 0. |
| `Pagination.Step` | src/Client.php:483-499 | One pass appends the page's Entities. It goes on only while the total is below the limit and equals the page size. The next offset is one page size further. |
| `Pagination.Loop` | src/Client.php:482-499 | The first request is at the start offset, and no more requests are made than there is fuel. |
| `Pagination.Collection` | src/Client.php:454-500 | A page size ≤ 0 returns `[]` with no request. Otherwise the first request is at the start offset (0 for null). |
| `Pagination.LoopItems` | src/Client.php:492-494 | The result is the Entities of the pages requested, in order. |
| `Pagination.ZeroLimitOnePage` | src/Client.php:454-499 | A limit of 0 keeps the page size at the cap and makes exactly one request, at the start offset. The result is that page's Entities, or the failure to build one of them. |
| `Pagination.SecondOffset` | src/Client.php:495 | The offset advances by the page size, not by the rows received. |
| `Pagination.OneRequestWithinCap` | src/Client.php:496-499 | With 0 < limit ≤ cap and a first page of at most `limit` rows (and not exactly half of it), there is one request. |
| `Pagination.NullLimitConsistent` | src/Client.php:486-499 | With a null limit, a service of `size` rows serves one page, or two when at least two page sizes remain. What is read is `NullLimitTake`. |
| `Pagination.NullLimitTruncates` | src/Client.php:499 | Cap 1000, 2500 rows and a null limit give requests at 0 and 1000 and 2000 Entities. |
| `Pagination.StuckLoop` | src/Client.php:499 | Once the total equals a page size below the limit, and nothing remains to serve, the loop never ends. |
| `Pagination.ExplicitLimitConsistent` | src/Client.php:454-499 | An explicit positive limit reads at most `limit` Entities, in at most two requests. Otherwise the loop never ends (`ExplicitLimitDiverges`). |
| `Pagination.TwoPageLimitLoop` | src/Client.php:496-499 | With a limit of at least two page sizes, a full first page is followed by exactly one more. If that page is empty, the loop never ends. |
| `Pagination.HalfLimitLoop` | src/Client.php:496-499 | A limit of twice a short first page never ends. |
| `Pagination.LimitThousandOfFiveHundredDiverges` | src/Client.php:496-499 | Cap 1000, limit 1000 and 500 rows never end. |
| `Pagination.FullPageDiverges` | src/Client.php:499 | Cap 1000 and exactly 1000 rows, with a limit ≥ 2000, never end. |
| `Pagination.IntendedCollection` | src/Client.php:482-499 | The loop the code evidently intends, which reads until the limit or an empty or short page, returns `[]` for a page size ≤ 0. |
| `Pagination.IntendedReadsAll` | src/Client.php:482-499 | The intended loop reads `min(limit, size - offset)` Entities, or all `size - offset` with no limit. |
| `Pagination.IntendedLoopItems` | src/Client.php:492-494 | The intended loop returns a prefix of the Entities of the pages it requested. |
| `Pagination.Urls` | src/Client.php:483 | Each request is `href_base&offset=` and its offset. |
| `Pagination.CurrentStockHref` | src/Client.php:193-199 | `getCurrentStock` refuses exactly a stock type other than `stock`, `freeStock` or `quantity`, with `WrongStockType`. |
| `Pagination.CurrentStockHrefShape` | src/Client.php:193-216 | Null means `stock`. The address starts with the report address and the stock type, `&include=zeroLines` follows exactly when asked for, and the filter comes last as `&` plus the same `filter=` parameter as `getCollection`'s. |
| `Events.EventStep` | src/Entity.php:278-292 | A pass appends the page's rows. It goes on exactly while the total is below the limit in force. The offset advances by the rows received. |
| `Events.EventLoop` | src/Entity.php:275-292 | The first request is at the given page size and offset. The loop ends done or runs out of fuel. |
| `Events.ReadEvents` | src/Entity.php:268-272 | The first request uses the capped page size and the start offset (0 for null). |
| `Events.EventLoopItems` | src/Entity.php:282 | The result is the rows of the pages requested, concatenated in order. |
| `Events.EventLoopOffsets` | src/Entity.php:284 | Each request's offset is the start plus every row received before it. |
| `Events.EventLoopReachesLimit` | src/Entity.php:292 | A finished read holds at least `limit` events. |
| `Events.NullLimitReachesTotal` | src/Entity.php:279-281 | With a null limit, a finished read holds at least `meta.size - offset` events. |
| `Events.EmptyPagesDiverge` | src/Entity.php:292 | Empty pages below the limit repeat forever. |
| `Events.EmptyTrailDiverges` | src/Entity.php:292 | An entity whose audit pages are all empty never ends, for a positive limit or a null one over a positive size. |
| `Events.NonEmptyPagesEnd` | src/Entity.php:283-292 | When every page holds a row, the loop ends within `limit` passes. |
| `Events.EventsQueryPieces` | src/Entity.php:276 | The query is exactly the `limit` piece and the offset piece. |
| `Events.WrittenHrefHidesOffset` | src/Entity.php:276 | The URL as written has no `offset` parameter. |
| `Events.IntendedHrefCarriesOffset` | src/Entity.php:276 | Spelt `offset`, the URL carries the offset. |
| `Events.WrittenEventsRepeatFirstPage` | src/Entity.php:276-284 | As written, a second page is the first page again. |
| `Events.IntendedEventsReadOn` | src/Entity.php:276-284 | Spelt `offset`, the second page continues the trail. |
| `Linked.Offered` | src/Entity.php:314-319 | An Entity stands for a list of one, a list for itself, anything else for nothing. |
| `Linked.Hrefs` | src/Entity.php:340-345 | Each href comes from an element's `meta.href`, and every element with a `meta.href` contributes it. |
| `Linked.HrefsSnoc` | src/Entity.php:340-345 | Appending an element appends its href, when it has one, and nothing otherwise: the hrefs come in the list's order. |
| `Linked.FetchAll` | src/Client.php:121-130 | Every href is fetched (with `expand`) and built, in order. The first failing one fails the whole call. |
| `Linked.Traverse` | src/Entity.php:310-361 | The result only grows. The fetches stay within the recursion budget. With no budget, nothing is fetched. What each kind of field does is stated by `PassedOverField`, `MatchedFieldStops`, `MatchedFieldDescends`, `UnmatchedFieldDescends` and `FlatSearchIsCut`. |
| `Linked.Descend` | src/Entity.php:347-355 | The result only grows, and the fetches stay within the levels left. |
| `Linked.SubSearches` | src/Entity.php:347-353 | Element `i` is the search of the `i`-th fetched Entity, one level down with the same limit. The first failing search fails them all. |
| `Linked.DescendMeaning` | src/Entity.php:347-359 | The search one level down appends, in order, what each fetched Entity's own search finds, and their fetches one level deeper. A failing search fails the call. |
| `Linked.MatchedFieldDescends` | src/Entity.php:326-359 | With levels left, a matching field appends its list, then the sub-searches' finds, each searched with the limit less that list only. The remaining fields go on with that same limit, whatever the sub-searches found. |
| `Linked.MatchedFieldStops` | src/Entity.php:327-335 | A matching list that takes the limit to 0 or below is appended and ends the search at once, whatever the levels left. Nothing is fetched for it. |
| `Linked.UnmatchedFieldDescends` | src/Entity.php:326-359 | With levels left, a typed list of another type is not appended and leaves the limit as it is. Its entities are still fetched and searched one level down, and the remaining fields go on with the same limit. |
| `Linked.LinkedEntities` | src/Entity.php:303-363 | Fetches stay within `recursive` levels. A null or non-positive `recursive` fetches nothing. |
| `Linked.FlatSearchIsCut` | src/Entity.php:327-335 | Without recursion, the result is the matching lists, taken whole, in order, up to the one that reaches `limit`. |
| `Linked.CutMeaning` | src/Entity.php:328-335 | The cut ends at the first list whose running total reaches the limit. |
| `Linked.PassedOverField` | src/Entity.php:311-326 | Skipped, non-list, empty and type-less fields contribute nothing. |
| `Linked.WholeListTaken` | src/Entity.php:327-331 | A matching list is appended whole, even past the limit. |
| `Legacy.LegacyHrefBase` | src/Base/Models/Client.php:72-85 | The older client's href base is the address the current client's `getEntities` pages from on `entity/<type>`, with a page size of 1000, no parameters, and the same filter. |
| `Legacy.LegacyHrefBaseOf` | src/Base/Models/Client.php:72-85 | The statements that build `href_base`, with the filter rendered by its loop, compute `LegacyHrefBase`. |
| `Legacy.LegacyLoop` | src/Base/Models/Client.php:86-91 | The first request is at the start offset, and the loop ends done or runs out of fuel. |
| `Legacy.GetEntities` | src/Base/Models/Client.php:66-93 | The do-while loop computes `LegacyRead`. Each URL is the fixed-size href base with the filter and `&offset=`. |
| `Legacy.LegacyLoopShape` | src/Base/Models/Client.php:86-91 | Requests are at 0, 1000, 2000, …. Every page but the last holds 1000 rows. The loop stops at the first page that does not. The result is the pages concatenated. |
| `Legacy.LegacyReadsAll` | src/Base/Models/Client.php:70-92 | From a service holding `all`, the read returns exactly `all` in `⌊|all|/1000⌋ + 1` requests. |
| `ApiClient.MetadataMap` | src/Client.php:326-333 | Every listed type's metadata becomes an Entity under its name. The first one without `meta` fails the call. |
| `ApiClient.MetadataAnswer` | src/Client.php:335-341 | As written: a known type gives its metadata, and an unknown one `MetadataNotFound`. No type returns an array where `object` is declared, a type error. |
| `ApiClient.IntendedMetadataAnswer` | src/Client.php:335-336 | With no type, the whole memo as an object, each type readable as a property. |
| `ApiClient.WholeMetadataRefused` | src/Client.php:322-337 | A type's metadata is available alone but not through the whole map, which the intended answer offers. |
| `ApiClient.SubscriptionParts` | src/Client.php:359-361 | `type.action` splits into two dot-free parts. Without a dot, the action is empty. |
| `ApiClient.Subscribe` | src/Client.php:358-380 | At most one POST per subscription. |
| `ApiClient.SubscribeMeaning` | src/Client.php:358-380 | A subscription's POST is sent exactly when no hook has its entity type and upper-cased action. Every POST comes from such a subscription. |
| `ApiClient.PostForDeterminesSigned` | src/Client.php:372-379 | Two subscriptions with the same POST are both signed or both not. |
| `ApiClient.Serving` | src/Client.php:422-424 | The hooks kept are exactly those matching type and action, and the first is the first match. |
| `ApiClient.Unsubscribe` | src/Client.php:418-430 | At most one DELETE per subscription. `UnsubscribeCount`, `UnsubscribeCovers` and `UnsubscribeOnlyServed` say which. |
| `ApiClient.UnsubscribeCount` | src/Client.php:418-430 | One DELETE per signed subscription, and none for the others. |
| `ApiClient.UnsubscribeCovers` | src/Client.php:425-429 | Every signed subscription's DELETE is sent. |
| `ApiClient.UnsubscribeOnlyServed` | src/Client.php:425-429 | Every DELETE sent is a signed subscription's. |
| `ApiClient.DeleteForServingHook` | src/Client.php:427-428 | The DELETE goes to the `meta.href` of the first matching hook. |
| `ApiClient.MatchingEvents` | src/Client.php:250-258 | The events kept are exactly those with the lower-cased entity and event types (and the uid, when given). |
| `ApiClient.MatchingEventsCounts` | src/Client.php:250-258 | A matching event is kept as many times as it occurs in the list, and no other event is kept. |
| `ApiClient.AuditEventAsWritten` | src/Client.php:259-265 | As written: more than one match is ambiguous, none is missing, and one is returned only if it is an Entity. |
| `ApiClient.AuditEventNeverReturns` | src/Client.php:246-265 | Decoded events are never Entities, so as written no call returns. |
| `ApiClient.AuditEvent` | src/Client.php:259-265 | Intended: an event is returned exactly when one matches. It matches, and no other event does. |
| `ApiClient.TwoMatchesAmbiguous` | src/Client.php:250-261 | Two matching positions make the call ambiguous, as written and as intended, even when they hold the same event. |
| `ApiClient.AuditEventDiffers` | src/Client.php:246-265 | A single matching `customerorder`/`create` event is refused as written and returned as intended. |
| `ApiClient.AppendEntities` | src/Client.php:492-494 | The loop appends the page's Entities to the list. |
| `ApiClient.CollectionPass` | src/Client.php:483-498 | One body of the do-while computes `Step`. |
| `ApiClient.CollectionHrefBase` | src/Client.php:461-479 | The href base is the endpoint, the initial page size, the non-null params in order, and the filter. |
| `ApiClient.CollectionLoop` | src/Client.php:480-499 | The do-while computes `Loop`. The URLs requested are the href base with each offset. |
| `ApiClient.Client.constructor` | src/Client.php:34-37 | The caps start at 1000 and 100, with no metadata memo. |
| `ApiClient.Client.SetEntitiesQueryLimitMax` | src/Client.php:532-538 | A value sets the entities cap, and null restores 1000. Nothing else changes. |
| `ApiClient.Client.SetEventsQueryLimitMax` | src/Client.php:552-558 | A value sets the events cap, and null restores 100. Nothing else changes. |
| `ApiClient.Client.GetMetadata` | src/Client.php:322-342 | The memo is filled once, from the first listing that builds. The answer is `MetadataAnswer` on the memo. |
| `ApiClient.Client.GetCollection` | src/Client.php:447-501 | The run is `Collection` with the current cap. The URLs are the href base with each offset. |
| `ApiClient.Client.AddWebhooks` | src/Client.php:349-382 | The POSTs are `Subscribe` over the hooks registered for the URL. |
| `ApiClient.Client.DeleteWebhooks` | src/Client.php:411-432 | The DELETEs are `Unsubscribe` over the hooks registered for the URL. |
| `Entities.SetValue` | src/Entity.php:171 | The record's `value` is set (walked, for an Entity record), and its other fields are kept. |
| `Entities.FirstCalled` | src/Entity.php:168-179 | The first record of that name (or none), every earlier name having been read. A failing read of a name fails. |
| `Entities.LastCalled` | src/Entity.php:182-186 | Every definition's name is read, and the last one of that name is kept. |
| `Entities.NoteAttributes` | src/Entity.php:172-174 | `attributes` is added to `changed` only when it is absent. |
| `Entities.AppendAttribute` | src/Entity.php:198-201 | The record is appended to `attributes`, which is set to `[]` first when unset. Only a list, or `false`, can be appended to. |
| `Entities.AfNotesAttributesOnce` | src/Entity.php:156-206 | `af` adds at most `attributes` to `changed`, and only when it is absent. So it enters at most once across calls. |
| `Entities.AfListsAttributes` | src/Entity.php:160-166 | `af()` answers the `attributes` field, or `[]` when it is unset, and changes nothing. |
| `Entities.AfReadsRecord` | src/Entity.php:168-179 | A record of that name and no value: the answer is that record, and nothing changes. |
| `Entities.AfReturnsClearedDefinition` | src/Entity.php:180-195 | No record but a definition, and no value: the last definition of that name, its value cleared, is memoized and returned. The data and `changed` are untouched. |
| `Entities.AfOverwrites` | src/Entity.php:168-176 | A record of that name with a value: its value is overwritten in place and the answer is true. The definitions are untouched. |
| `Entities.AfAppendsDefinition` | src/Entity.php:180-205 | No record of that name: the definition, given the value, is appended to `attributes`, kept in the memo and returned as the same record. |
| `Entities.AfChoosesLastDefinition` | src/Entity.php:182-186 | The definition used is the last one of that name. |
| `Entities.AfUnknownName` | src/Entity.php:187-191 | No record and no definition of that name: `AttributeNotFound`, with data and `changed` unchanged. |
| `Entities.FindRecord` | src/Entity.php:168-179 | `af`'s first loop computes `FirstCalled`. |
| `Entities.FindDefinition` | src/Entity.php:182-186 | `af`'s second loop computes `LastCalled`. |
| `Entities.DefineIn` | src/Entity.php:180-205 | The definition branch of `af` computes `AfDefine`. |
| `Entities.AfIn` | src/Entity.php:156-206 | `af` computes `AfEffect`. |
| `Entities.States` | src/Entity.php:381-389 | The type's `states`: all of them with no filter, else those the filter keeps. |
| `Entities.StatesMeaning` | src/Entity.php:384-388 | The filtered states are those every rule holds for, in order, each as many times as it occurs. |
| `Entities.StateOf` | src/Entity.php:396-405 | A failed metadata read is passed on. A state found has `by = needle`. |
| `Entities.StateOfMeaning` | src/Entity.php:396-405 | A state is found exactly when one has `by = needle`. The state found is the first such state in the list. None gives `StateNotFound`. |
| `Entities.RemoveRequest` | src/Entity.php:410-417 | No `meta.href` is refused with `NotPersisted`. Otherwise the request is a DELETE of it. |
| `Entities.EventsPass` | src/Entity.php:276-291 | One body of the do-while computes `EventStep`. |
| `Entities.EventsLoop` | src/Entity.php:275-292 | The do-while computes `EventLoop` with the `offest` spelling. |
| `Entities.GetEventsAsWritten` | src/Entity.php:276-277 | As written, reading the client's protected `connection` throws before any request. |
| `Entities.EventsNeverRequested` | src/Entity.php:275-277 | The intended loop requests a page, while the code as written requests none. |
| `Entities.New` | src/Entity.php:26-44 | Construction fails exactly when `Build` does. Otherwise it gives a fresh Entity with `Build`'s data and type, an empty `changed`, and the client. |
| `Entities.Entity.constructor` | src/Entity.php:26-44 | The state is `Build`'s data and type, with nothing changed and no memo. |
| `Entities.Entity.Isset` | src/Entity.php:106-109 | A field is set exactly when its stored value is not null. Then `__get` answers with that value. |
| `Entities.Entity.Set` | src/Entity.php:85-99 | A read-only name is refused and nothing changes. Otherwise the name is appended to `changed` (every time) and the walked value stored, where `__get` finds it. `__isset` then holds exactly when the walked value is not null. |
| `Entities.Entity.UpdateData` | src/Entity.php:115-122 | The data becomes the response's fields, walked and stored in order. |
| `Entities.Entity.GetMetaAdditionalFields` | src/Entity.php:211-219 | The definitions memo is filled from the client while it is empty. Afterwards it is answered from the memo. |
| `Entities.Entity.Af` | src/Entity.php:156-206 | The new data, `changed`, memo and answer are those `AfEffect` describes. |
| `Entities.Entity.GetMetadata` | src/Entity.php:224-230 | The type's metadata is asked of the client once and remembered. |
| `Entities.Entity.SetState` | src/Entity.php:370-375 | The state `getState` finds is set through `__set`. A lookup failure or a read-only `state` changes nothing. |
| `Entities.Entity.Save` | src/Entity.php:422-450 | The request is `SaveRequest`, and none is sent for an empty body. After a request the data is the response's fields and `changed` is `[]`. A non-object response is refused. |
| `Entities.Entity.GetEvents` | src/Entity.php:264-294 | With line 277's read of the connection corrected, the run is `ReadEvents` on the entity's href with the client's events cap, and at least one page is requested. Line 276's `offest` spelling is kept. Without a client nothing is requested. |
| `Common.Explode` | src/Entity.php:237 | `explode` gives at least one piece, and no piece holds the separator. |
| `Common.ImplodeExplode` | src/Entity.php:237 | Joining the pieces back gives the string. |
| `Common.Upper` | src/Client.php:365 | `mb_strtoupper` on ASCII maps each character to its upper case. |
| `Common.Lower` | src/Client.php:247-248 | `mb_strtolower` on ASCII maps each character to its lower case. |

## Left out

- HTTP transport (`Components\Http\Connection`, `Query`), authentication,
  delays, `json_decode` and `BadResponse`. Each response is a parameter or
  an oracle function, and a transport failure is not modelled.
- Termination: `getCollection`, `getEvents` and the older `getEntities` do
  not always end. Each runs on `fuel`, and `OutOfFuel` stands for a loop
  that goes on. The lemmas that say a loop never ends show that it runs out
  of any fuel.
- PHP loose comparison in `filter`. Rule values are scalars compared
  strictly, with one fixed order: null < booleans < integers < strings,
  integers by value, strings lexicographically. Type juggling between
  strings and numbers is not modelled.
- `mb_strtoupper` / `mb_strtolower` map ASCII letters only.
- PHP integers are unbounded here. 64-bit overflow is not modelled.
- Object identity. Nested Entities and attribute records are values, not
  handles:
  - a record that `af` appends equals the memoized definition at that
    moment, but a later change to one is not seen through the other;
  - a nested Entity's own `changed` list (for example the `value` that `af`
    sets on an attribute Entity) is not kept.
- `af` and `__get` search `attributes` only when it is a list. PHP's
  `foreach` over an object's properties, when `attributes` is an object, is
  not modelled.
- A subscription list given as one string is treated as a list of one. The
  callers pass lists of `type.action` strings.
- `getEntitiesById` passes the type and id to `getEntityByHref` as href and
  expand (src/Client.php:145). It is not modelled.
- `getEntitiesByHref` appears only as the fetch inside
  `getLinkedEntities` (`Linked.FetchAll`).
- `getWebhook`, `getEmployeeByUid`, `createEntity`, `getConnection` and the
  plain getters are not modelled: each is a single call or returns a field.
- `getCurrentStock` is modelled only up to its URL (`CurrentStockHref`); its
  GET is a transport call.
- `Entities.Entity.GetMetaAdditionalFields` and `Entities.Entity.Af`: the
  client's `getEntities` call for the definitions is a parameter holding
  its result. The collection loop that would produce it is not run here.
- `Entities.Entity.GetMetadata` and `Entities.Entity.SetState`: the
  client's `getMetadata($type)` answer is a parameter.
- `remove` is modelled as the request it sends (`Entities.RemoveRequest`).
  The response is ignored by the code.
- The older client's `query`, `getMetadata`, `getWebhook(s)` and webhook
  methods. They only perform I/O, and they call `msleep` and `filter`, which
  that class does not define. `Base\Models\Entity` and `Base.php` are not
  part of this model.
- EntityData.Build: an Entity passed to the constructor. PHP's `foreach`
  then runs inside the Entity class and copies the argument's nine
  protected properties (`data`, `client`, `changed`, ...) into `data`. The
  model has no value for a client or for the property table, and gives no
  data instead. No modelled caller passes an Entity.
- Entities.Entity.GetEvents: models `getEvents` as if line 277's read of
  the client's protected `connection` succeeded, which PHP refuses (see
  Findings), and keeps line 276's `offest` spelling. The code as written
  is `Entities.GetEventsAsWritten`. The corrected spelling is modelled
  separately (`Events.IntendedEventsReadOn`).
- Calls through a missing client (an Entity built without one) are an
  `Error` in PHP. `GetEvents` reports `NoClient`; the other methods take the
  client's answer as a parameter.

## Findings

| source | as written | input that shows it | evidently intended | confidence | as-written member | corrected member |
|---|---|---|---|---|---|---|
| src/Client.php:486-499 | with a null limit, the loop goes on only while the accumulated count equals the page size | cap 1000, a collection of 2500 rows, no limit: requests at 0 and 1000 only, 2000 Entities | every row up to the total is read | not executed | `Pagination.NullLimitTruncates` | `Pagination.IntendedReadsAll` |
| src/Client.php:496-499 | with a limit of at least two page sizes, or twice a short first page, an empty or repeated page never ends the loop | cap 1000, 500 rows, limit 1000: the second page is empty and the loop repeats it forever | the loop stops at an empty or short page | not executed | `Pagination.LimitThousandOfFiveHundredDiverges` | `Pagination.IntendedReadsAll` |
| src/Entity.php:276 | the offset parameter is spelt `offest`, so the service ignores it | 200 events, limit 200, page size 100: the second request returns the first page again | `offset=` carries the position | not executed | `Events.WrittenEventsRepeatFirstPage` | `Events.IntendedEventsReadOn` |
| src/Entity.php:277 | `getEvents` reads `$this->client->connection`, a protected property of `Client`, from `Entity`, which does not inherit from `Client` | any call on an Entity with a client: the access throws before the first request | the events are requested through the client's connection | not executed | `Entities.GetEventsAsWritten` | `Entities.Entity.GetEvents` |
| src/Client.php:246-265 | `getAuditEvent` is declared to return an `Entity` but returns the decoded event, a plain object, so the return type check throws | one matching `customerorder`/`create` event: a type error instead of the event | the matching event is returned | not executed | `ApiClient.AuditEventNeverReturns` | `ApiClient.AuditEvent` |
| src/Client.php:324-336 | `getMetadata()` with no type returns the memo array where `object` is declared, so the return type check throws | `getMetadata(null)` after any listing: a type error | the whole metadata map, as an object | not executed | `ApiClient.WholeMetadataRefused` | `ApiClient.IntendedMetadataAnswer` |
