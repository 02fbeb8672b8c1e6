/** The service's addresses and the hrefs the clients build from them:
    entity by id, entity by href with `expand`, and `createLink`'s reference
    object. */
module Links {
  import opened Common
  import opened Values

  const BASE_URI: string := "https://online.moysklad.ru/api/remap/1.2"
  const ENTITY_URI: string := "/entity"
  const HOOK_URI: string := "/entity/webhook"
  const METADATA_URI: string := "/metadata"
  const ENTITIES_QUERY_LIMIT_MAX: int := 1000
  const EVENTS_QUERY_LIMIT_MAX: int := 100

  /** The older client's absolute addresses. */
  const LEGACY_HREF_BASE: string := "https://online.moysklad.ru/api/remap/1.2"
  const LEGACY_ENTITY_HREF: string := "https://online.moysklad.ru/api/remap/1.2/entity"
  const LEGACY_HOOK_HREF: string := "https://online.moysklad.ru/api/remap/1.2/entity/webhook"

  /** PHP truthiness of a string: everything but "" and "0". */
  predicate Truthy(s: string)
  {
    s != "" && s != "0"
  }

  /** `Client::getEntityById`'s href. */
  function EntityByIdHref(entityType: string, id: string): string
  {
    BASE_URI + ENTITY_URI + "/" + entityType + "/" + id
  }

  /** `Client::getEntityByHref`: `?expand=` is appended only for a truthy
      expand. */
  function WithExpand(href: string, expand: Option<string>): (r: string)
    ensures expand.None? || !Truthy(expand.value) ==> r == href
    ensures expand.Some? && Truthy(expand.value) ==> r == href + "?expand=" + expand.value
  {
    match expand
    case Some(e) => if Truthy(e) then href + "?expand=" + e else href
    case None => href
  }

  /** The older client's `getEntityById` href. */
  function LegacyEntityByIdHref(entityType: string, id: string): string
  {
    LEGACY_ENTITY_HREF + "/" + entityType + "/" + id
  }

  /** Both clients address an entity by id identically. */
  lemma LegacyEntityHrefAgrees(entityType: string, id: string)
    ensures LegacyEntityByIdHref(entityType, id) == EntityByIdHref(entityType, id)
  {
    assert LEGACY_ENTITY_HREF == BASE_URI + ENTITY_URI;
  }

  /** `Client::createLink`: an object holding only `meta`, whose `href` is
      the entity's address, with `metadataHref` added on request. */
  function CreateLink(entityType: string, id: string, metadata: bool): (link: Value)
    ensures link.Obj? && |link.fields| == 1 && link.fields[0].name == "meta"
    ensures link.fields[0].value.Obj?
    ensures Read(link.fields[0].value.fields, "href") == StrV(BASE_URI + ENTITY_URI + "/" + entityType + "/" + id)
    ensures Read(link.fields[0].value.fields, "type") == StrV(entityType)
    ensures Read(link.fields[0].value.fields, "mediaType") == StrV("application/json")
    ensures Has(link.fields[0].value.fields, "metadataHref") <==> metadata
    ensures metadata ==>
      Read(link.fields[0].value.fields, "metadataHref") == StrV(BASE_URI + ENTITY_URI + "/" + entityType + "/metadata")
  {
    var meta := [
      Field("href", StrV(BASE_URI + ENTITY_URI + "/" + entityType + "/" + id)),
      Field("type", StrV(entityType)),
      Field("mediaType", StrV("application/json"))
    ];
    var meta' := if metadata
      then meta + [Field("metadataHref", StrV(BASE_URI + ENTITY_URI + "/" + entityType + "/metadata"))]
      else meta;
    assert meta'[0].name == "href" && meta'[1].name == "type" && meta'[2].name == "mediaType";
    assert !metadata ==> forall j :: 0 <= j < |meta'| ==> meta'[j].name != "metadataHref";
    assert metadata ==> meta'[3].name == "metadataHref";
    Obj([Field("meta", Obj(meta'))])
  }
}
