/** tools/add-services-schema.mjs: the services page `sr-me/usluge/` gets
    one JSON-LD block, `services`, describing the page and, as its parts,
    one `Service` per entry of the service list, each at its own anchor
    of the page. */
module ServicesSchema {
  import opened Js
  import opened Finders
  import opened PageMeta
  import opened ScriptBlock
  import Markup
  import Schema

  /** One entry of `SERVICES`. */
  datatype Service = Service(slug: string, name: string, description: string)

  /** `SERVICES`: the event and production services, then the digital
      ones. */
  const Services: seq<Service> := [
    Service("event-produkcija", "Organizacija i produkcija događaja",
      "Plan i realizacija događaja: koncept, budžet, logistika, koordinacija tima i isporuka na terenu."),
    Service("brand-aktivacije", "Brend aktivacije i promotivne kampanje",
      "Aktivacije na terenu + digitalna podrška: promo tim, brending, sampling, fotke/video i reporting."),
    Service("promo-timovi", "Promo timovi (hostese, promoteri)",
      "Angažman i vođenje promo osoblja: selekcija, obuka, smjene, komunikacija i kontrola kvaliteta."),
    Service("tehnicka-produkcija", "Tehnička produkcija (audio/rasvjeta/tehnika)",
      "Tehnička podrška za event: ozvučenje, rasvjeta, setup, tehničari i koordinacija tokom programa."),
    Service("program-booking", "Program i booking (DJ / sadržaj / tok događaja)",
      "Kreiranje programa i toka večeri: DJ/program, dinamika, vođenje i koordinacija izvođača."),
    Service("meta-oglasi", "Meta oglasi (Facebook & Instagram)",
      "Planiranje i vođenje Meta kampanja: kreativa, targetiranje, optimizacija budžeta i konverzija."),
    Service("google-ads", "Google Ads (Search, Display, YouTube)",
      "Kampanje za upite i prodaju: ključne riječi, oglasi, landing struktura i optimizacija performansi."),
    Service("seo-local-seo", "SEO & Local SEO",
      "On-page SEO, struktura sajta, sadržaj i lokalno rangiranje (Podgorica/Crna Gora)."),
    Service("landing-web", "Landing stranice & Web",
      "Stranice koje konvertuju: jasna ponuda, brza forma, praćenje i optimizacija."),
    Service("sadrzaj-kreativa", "Sadržaj i kreativa (copy + oglasi)",
      "Copy i kreativa za oglase: hook, ponuda, varijacije, A/B testovi i optimizacija na osnovu rezultata."),
    Service("analitika-mjerenje", "Analitika i mjerenje (GTM / GA4)",
      "Postavka praćenja i mjerenja: događaji, konverzije, izvještaji i optimizacija na osnovu podataka.")
  ]

  /** `servicesUrl`. */
  const ServicesUrl := Base + "/sr-me/usluge/"

  /** `AREA_SERVED`. */
  const AreaServed := Arr([Str("Podgorica"), Str("Crna Gora")])

  /** The address of a service: its anchor on the services page. */
  function ServiceUrl(slug: string): (r: string)
  {
    ServicesUrl + "#" + slug
  }

  /** The keys of a `Service` object and their values; a map keeps no key order. */
  function ItemFields(id: Value, name: Value, desc: Value, url: Value, provider: Value, area: Value): (r: map<string, Value>)
  {
    map["@type" := Str("Service"), "@id" := id, "name" := name, "description" := desc,
        "url" := url, "provider" := provider, "areaServed" := area]
  }

  lemma ItemFieldsGet(id: Value, name: Value, desc: Value, url: Value, provider: Value, area: Value)
    ensures var r := Obj(ItemFields(id, name, desc, url, provider, area));
      && Get(r, "@id") == id && Get(r, "name") == name && Get(r, "description") == desc
      && Get(r, "url") == url && Get(r, "provider") == provider && Get(r, "areaServed") == area
  {
  }

  /** The provider of every service: the organization, by `@id`. */
  function Provider(): (r: Value)
  {
    Obj(map["@id" := Str(Schema.OrgId)])
  }

  /** The object `SERVICES.map` makes of one service. */
  function ServiceItem(s: Service): (r: Value)
  {
    var url := ServiceUrl(s.slug);
    Obj(ItemFields(Str(url), Str(s.name), Str(s.description), Str(url), Provider(), AreaServed))
  }

  /** `SERVICES.map(...)`. */
  function ServiceItems(ss: seq<Service>): (r: seq<Value>)
  {
    seq(|ss|, i requires 0 <= i < |ss| => ServiceItem(ss[i]))
  }

  /** The organization the page is about. */
  function AboutOrg(): (r: Value)
  {
    Obj(map[
      "@type" := Str("Organization"),
      "@id" := Str(Schema.OrgId),
      "name" := Str(Schema.BrandName),
      "url" := Str(Schema.BrandUrl),
      "logo" := Schema.Logo()])
  }

  /** The keys of the page object and their values; a map keeps no key order. */
  function PageFields(id: Value, url: Value, about: Value, parts: Value): (r: map<string, Value>)
  {
    map["@context" := Str(Schema.Context), "@type" := Str("WebPage"), "@id" := id, "url" := url,
        "name" := Str("Usluge"), "about" := about, "hasPart" := parts]
  }

  lemma PageFieldsGet(id: Value, url: Value, about: Value, parts: Value)
    ensures var r := Obj(PageFields(id, url, about, parts));
      Get(r, "@id") == id && Get(r, "url") == url && Get(r, "about") == about && Get(r, "hasPart") == parts
  {
  }

  /** `buildServicesSchema()` over a service list. */
  function ServicesSchemaOf(ss: seq<Service>): (r: Value)
  {
    Obj(PageFields(Str(ServicesUrl), Str(ServicesUrl), AboutOrg(), Arr(ServiceItems(ss))))
  }

  /** `buildServicesSchema()`. */
  function BuildServicesSchema(): (r: Value)
  {
    ServicesSchemaOf(Services)
  }

  /** `hasPart` has one item per service, in the list's order; the item for
      a service is at that service's anchor, under its name and
      description, provided by the organization. */
  lemma HasPartFollowsServices(ss: seq<Service>)
    ensures var r := ServicesSchemaOf(ss);
      && Get(r, "@id") == Str(ServicesUrl) && Get(r, "url") == Str(ServicesUrl)
      && Get(r, "hasPart").Arr? && |Get(r, "hasPart").items| == |ss|
      && forall i :: 0 <= i < |ss| ==>
           var item := Get(r, "hasPart").items[i];
           && Get(item, "@id") == Str(ServiceUrl(ss[i].slug))
           && Get(item, "url") == Str(ServiceUrl(ss[i].slug))
           && Get(item, "name") == Str(ss[i].name)
           && Get(item, "description") == Str(ss[i].description)
           && Get(Get(item, "provider"), "@id") == Str(Schema.OrgId)
  {
    PageFieldsGet(Str(ServicesUrl), Str(ServicesUrl), AboutOrg(), Arr(ServiceItems(ss)));
    var items := ServiceItems(ss);
    forall i | 0 <= i < |ss|
      ensures var item := items[i];
        && Get(item, "@id") == Str(ServiceUrl(ss[i].slug))
        && Get(item, "url") == Str(ServiceUrl(ss[i].slug))
        && Get(item, "name") == Str(ss[i].name)
        && Get(item, "description") == Str(ss[i].description)
        && Get(Get(item, "provider"), "@id") == Str(Schema.OrgId)
    {
      var url := ServiceUrl(ss[i].slug);
      ItemFieldsGet(Str(url), Str(ss[i].name), Str(ss[i].description), Str(url), Provider(), AreaServed);
    }
  }

  /** The page is about the same organization the site blocks of
      tools/add-schema.mjs describe. */
  lemma AboutIsOrg()
    ensures Get(Get(BuildServicesSchema(), "about"), "@id") == Get(Schema.OrgSchema(), "@id")
    ensures Get(Get(BuildServicesSchema(), "about"), "logo") == Get(Schema.OrgSchema(), "logo")
  {
    PageFieldsGet(Str(ServicesUrl), Str(ServicesUrl), AboutOrg(), Arr(ServiceItems(Services)));
  }

  /** Distinct slugs are distinct anchors, and back. */
  lemma ServiceUrlInjective(a: string, b: string)
    ensures ServiceUrl(a) == ServiceUrl(b) <==> a == b
  {
    if ServiceUrl(a) == ServiceUrl(b) {
      var n := |ServicesUrl + "#"|;
      assert a == ServiceUrl(a)[n..];
      assert b == ServiceUrl(b)[n..];
    }
  }

  predicate DistinctSlugs(ss: seq<Service>) {
    forall i, j :: 0 <= i < j < |ss| ==> ss[i].slug != ss[j].slug
  }

  /** The items' `@id`s are distinct exactly when the slugs are. */
  lemma ItemIdsDistinct(ss: seq<Service>)
    ensures var items := ServiceItems(ss);
      DistinctSlugs(ss) <==> forall i, j :: 0 <= i < j < |ss| ==> Get(items[i], "@id") != Get(items[j], "@id")
  {
    var items := ServiceItems(ss);
    forall i | 0 <= i < |ss| ensures Get(items[i], "@id") == Str(ServiceUrl(ss[i].slug)) {
      var url := ServiceUrl(ss[i].slug);
      ItemFieldsGet(Str(url), Str(ss[i].name), Str(ss[i].description), Str(url), Provider(), AreaServed);
    }
    forall i, j | 0 <= i < j < |ss| ensures ss[i].slug != ss[j].slug <==> Get(items[i], "@id") != Get(items[j], "@id") {
      ServiceUrlInjective(ss[i].slug, ss[j].slug);
    }
  }

  /** The first letter and the length tell the slugs of `SERVICES` apart. */
  lemma ServicesSlugsDistinct()
    ensures |Services| == 11
    ensures DistinctSlugs(Services)
  {
    forall i, j | 0 <= i < j < |Services| ensures Services[i].slug != Services[j].slug {
      var a := Services[i].slug;
      var b := Services[j].slug;
      assert |a| != |b| || a[0] != b[0];
    }
  }

  /** `hasPart` of the built schema: eleven items with eleven distinct
      `@id`s. */
  lemma BuiltItemsDistinct()
    ensures var items := Get(BuildServicesSchema(), "hasPart").items;
      |items| == 11 && forall i, j :: 0 <= i < j < 11 ==> Get(items[i], "@id") != Get(items[j], "@id")
  {
    ServicesSlugsDistinct();
    ItemIdsDistinct(Services);
    PageFieldsGet(Str(ServicesUrl), Str(ServicesUrl), AboutOrg(), Arr(ServiceItems(Services)));
  }

  // ---- the page ----

  /** `main` over the text of `sr-me/usluge/index.html`: the head gets the
      `services` block. */
  function ServicesPage(html: string, stringify: Value -> string): (r: string)
  {
    WithHead(html, h => UpsertSchemaBlock(h, "services", stringify(BuildServicesSchema())))
  }

  /** The `services` block is whole in the new head where the block finder
      takes it; only the replaced span of the head changes, so blocks with
      other ids before or after it are kept. */
  lemma ServicesHeadWrites(head: string, stringify: Value -> string)
    ensures var json := stringify(BuildServicesSchema());
      BlockAt(UpsertSchemaBlock(head, "services", json), SchemaPos(head, "services"), "services", json)
    ensures var sp := Replaced(head, SchemaF("services"));
      KeepsOutside(head, UpsertSchemaBlock(head, "services", stringify(BuildServicesSchema())), sp.0, sp.1)
  {
    Markup.NameFromChars("services");
    UpsertSchemaWrites(head, "services", stringify(BuildServicesSchema()));
    UpsertKeeps(head, SchemaF("services"), ScriptTag("services", stringify(BuildServicesSchema())));
  }
}
