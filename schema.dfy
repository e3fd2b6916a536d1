/** tools/add-schema.mjs: every page but the templates gets an
    `Organization` and a `LocalBusiness` JSON-LD block in its head, and a
    blog post page (`/sr-me/blog/pNN/`) also gets a `BlogPosting` block
    built from its title, description and `og:image`. The schema objects
    are `Js.Value`s; the text `JSON.stringify(obj, null, 2)` gives them is
    a function parameter, and so is each page's modification time. */
module Schema {
  import opened Text
  import opened Js
  import opened Finders
  import opened PageMeta
  import opened ScriptBlock
  import Markup
  import HeadMeta

  const BrandName := "Sindikat Studio 83"

  /** `BRAND_URL`. */
  const BrandUrl := Base + "/"

  /** `LOGO_URL`. */
  const LogoUrl := Base + "/studio83logo.png"

  /** The `@id` every block uses for the organization. */
  const OrgId := BrandUrl + "#org"

  const Context := "https://schema.org"

  /** `{"@type": "ImageObject", "url": LOGO_URL}`. */
  function Logo(): (r: Value)
  {
    Obj(map["@type" := Str("ImageObject"), "url" := Str(LogoUrl)])
  }

  /** `buildOrgSchema()`. */
  function OrgSchema(): (r: Value)
  {
    Obj(map[
      "@context" := Str(Context),
      "@type" := Str("Organization"),
      "@id" := Str(OrgId),
      "name" := Str(BrandName),
      "url" := Str(BrandUrl),
      "logo" := Logo()])
  }

  /** `buildLocalBusinessSchema()`. */
  function LocalBusinessSchema(): (r: Value)
  {
    Obj(map[
      "@context" := Str(Context),
      "@type" := Str("LocalBusiness"),
      "@id" := Str(BrandUrl + "#localbusiness"),
      "name" := Str(BrandName),
      "url" := Str(BrandUrl),
      "image" := Str(LogoUrl),
      "address" := Obj(map[
        "@type" := Str("PostalAddress"),
        "addressLocality" := Str("Podgorica"),
        "addressRegion" := Str("Crna Gora"),
        "addressCountry" := Str("ME")])])
  }

  /** `normalizeToAbsolute(image) || LOGO_URL`. */
  function PostImage(image: string): (r: string)
  {
    var img := NormalizeToWwwAbsolute(image);
    if img != [] then img else LogoUrl
  }

  /** `title || "Blog"`. */
  function Headline(title: string): (r: string)
  {
    if title != [] then title else "Blog"
  }

  /** The post's author: the organization, by `@id` and name. */
  function Author(): (r: Value)
  {
    Obj(map["@type" := Str("Organization"), "@id" := Str(OrgId), "name" := Str(BrandName)])
  }

  /** The post's publisher: the organization with its logo. */
  function Publisher(): (r: Value)
  {
    Obj(map["@type" := Str("Organization"), "@id" := Str(OrgId), "name" := Str(BrandName), "logo" := Logo()])
  }

  /** The keys of a `BlogPosting` object and their values; a map keeps no key order. */
  function PostFields(context: Value, kind: Value, id: Value, page: Value, headline: Value, desc: Value,
                      image: Value, author: Value, publisher: Value, date: Value): (r: map<string, Value>)
  {
    map[
      "@context" := context,
      "@type" := kind,
      "@id" := id,
      "mainEntityOfPage" := page,
      "headline" := headline,
      "description" := desc,
      "image" := image,
      "author" := author,
      "publisher" := publisher,
      "dateModified" := date]
  }

  /** Each key of a `BlogPosting` object holds its own value. */
  lemma PostFieldsGet(context: Value, kind: Value, id: Value, page: Value, headline: Value, desc: Value,
                      image: Value, author: Value, publisher: Value, date: Value)
    ensures var r := Obj(PostFields(context, kind, id, page, headline, desc, image, author, publisher, date));
      && Get(r, "@id") == id && Get(r, "mainEntityOfPage") == page && Get(r, "headline") == headline
      && Get(r, "description") == desc && Get(r, "image") == image && Get(r, "author") == author
      && Get(r, "publisher") == publisher && Get(r, "dateModified") == date
  {
  }

  /** `buildBlogPostingSchema({canonical, title, desc, image, dateModified})`. */
  function BlogPostingSchema(canonical: string, title: string, desc: string, image: string, dateModified: string): (r: Value)
  {
    Obj(PostFields(
      Str(Context),
      Str("BlogPosting"),
      Str(canonical + "#blogposting"),
      Obj(map["@type" := Str("WebPage"), "@id" := Str(canonical)]),
      Str(Headline(title)),
      Str(desc),
      Arr([Str(PostImage(image))]),
      Author(),
      Publisher(),
      Str(dateModified)))
  }

  /** The post's image is never empty: an image read from the head is made
      absolute on the `www` host, and a missing one becomes the logo. */
  lemma PostImageChoice(image: string)
    ensures PostImage(image) != []
    ensures NormalizeToWwwAbsolute(image) == [] ==> PostImage(image) == LogoUrl
    ensures NormalizeToWwwAbsolute(image) != [] ==> PostImage(image) == NormalizeToWwwAbsolute(image)
    ensures Trim(image) == [] ==> PostImage(image) == LogoUrl
  {
    assert |LogoUrl| > 0 by { assert LogoUrl == Base + "/studio83logo.png"; }
  }

  /** The fields of a blog post block: `"Blog"` for a missing title, the
      image chosen by `PostImage`, the description and date as given; the
      post is `canonical#blogposting`, about the page `canonical`. */
  lemma BlogPostingFields(canonical: string, title: string, desc: string, image: string, date: string)
    ensures var r := BlogPostingSchema(canonical, title, desc, image, date);
      && (title == [] ==> Get(r, "headline") == Str("Blog"))
      && (title != [] ==> Get(r, "headline") == Str(title))
      && Get(r, "image") == Arr([Str(PostImage(image))])
      && Get(r, "description") == Str(desc) && Get(r, "dateModified") == Str(date)
      && Get(r, "@id") == Str(canonical + "#blogposting")
      && Get(Get(r, "mainEntityOfPage"), "@id") == Str(canonical)
  {
    var page := Obj(map["@type" := Str("WebPage"), "@id" := Str(canonical)]);
    PostFieldsGet(Str(Context), Str("BlogPosting"), Str(canonical + "#blogposting"), page, Str(Headline(title)),
      Str(desc), Arr([Str(PostImage(image))]), Author(), Publisher(), Str(date));
  }

  /** The post is written and published by the organization
      `buildOrgSchema` describes, under its logo. */
  lemma BlogPostingByOrg(canonical: string, title: string, desc: string, image: string, date: string)
    ensures var r := BlogPostingSchema(canonical, title, desc, image, date);
      && Get(Get(r, "author"), "@id") == Get(OrgSchema(), "@id")
      && Get(Get(r, "publisher"), "@id") == Get(OrgSchema(), "@id")
      && Get(Get(r, "publisher"), "logo") == Get(OrgSchema(), "logo")
  {
    var page := Obj(map["@type" := Str("WebPage"), "@id" := Str(canonical)]);
    PostFieldsGet(Str(Context), Str("BlogPosting"), Str(canonical + "#blogposting"), page, Str(Headline(title)),
      Str(desc), Arr([Str(PostImage(image))]), Author(), Publisher(), Str(date));
  }

  /** The organization and the local business are two nodes of the same
      site: distinct `@id`s, the same name and URL. */
  lemma SiteBlocksAgree()
    ensures Get(OrgSchema(), "@id") != Get(LocalBusinessSchema(), "@id")
    ensures Get(OrgSchema(), "name") == Get(LocalBusinessSchema(), "name") == Str(BrandName)
    ensures Get(OrgSchema(), "url") == Get(LocalBusinessSchema(), "url") == Str(BrandUrl)
  {
    var a := "#org";
    var b := "#localbusiness";
    assert (BrandUrl + a)[|BrandUrl| + 1] == 'o';
    assert (BrandUrl + b)[|BrandUrl| + 1] == 'l';
  }

  // ---- the blog post gate ----

  predicate IsDigit(c: char) {
    '0' <= c <= '9'
  }

  const BlogPrefix := "/sr-me/blog/p"

  /** `BLOG_POST_PATH_RE.test(p)`, `/^\/sr-me\/blog\/p\d{2}\/$/i`: the
      prefix in any case, two digits and a closing `/`, and nothing
      else. */
  predicate IsBlogPostPath(p: string) {
    |p| == 16 && OccursAtCI(p, BlogPrefix, 0) && IsDigit(p[13]) && IsDigit(p[14]) && p[15] == '/'
  }

  /** The post paths are exactly the prefix, two digits and `/`, with the
      prefix's letters in any case. */
  lemma BlogPostPathShape(p: string)
    ensures IsBlogPostPath(p) <==>
      exists x: string, d1: char, d2: char ::
        |x| == 13 && OccursAtCI(x, BlogPrefix, 0) && IsDigit(d1) && IsDigit(d2) && p == x + [d1, d2, '/']
  {
    if IsBlogPostPath(p) {
      var x := p[..13];
      assert OccursAtCI(x, BlogPrefix, 0) by {
        assert |BlogPrefix| == 13;
        assert x[0..13] == p[0..13];
      }
      assert p == x + [p[13], p[14], '/'];
    }
    if exists x: string, d1: char, d2: char ::
        |x| == 13 && OccursAtCI(x, BlogPrefix, 0) && IsDigit(d1) && IsDigit(d2) && p == x + [d1, d2, '/'] {
      var x: string, d1: char, d2: char :|
        |x| == 13 && OccursAtCI(x, BlogPrefix, 0) && IsDigit(d1) && IsDigit(d2) && p == x + [d1, d2, '/'];
      assert |BlogPrefix| == 13;
      assert p[0..13] == x[0..13];
    }
  }

  /** A path with anything after the slash, or a third digit, is not a
      post path. */
  lemma BlogPostPathExact(p: string, extra: string)
    requires IsBlogPostPath(p) && extra != []
    ensures !IsBlogPostPath(p + extra)
  {
  }

  /** For a folder's `index.html` the path the gate tests is the folder
      with its slashes, so `sr-me/blog/p07/index.html` gets a post block
      and `sr-me/blog/index.html` does not. */
  lemma GatePathOfIndex(x: string, tail: string)
    requires Lower(tail) == "/index.html" && '\\' !in x + tail
    requires NoDoubleSlash("/" + (x + "/"))
    ensures PathOf(HeadMeta.CanonicalOf(x + tail)) == "/" + x + "/"
  {
    CanonicalOfIndex(x, tail);
    var u := Base + "/" + x + "/";
    assert u[..|Base| + 1] == Base + "/";
    assert u[|Base|..] == "/" + x + "/";
  }

  // ---- one page ----

  /** The ids of the three blocks are names the block finder can match. */
  lemma IdsAreNames()
    ensures Markup.IsName("org") && Markup.IsName("localbusiness") && Markup.IsName("blogposting")
  {
    Markup.NameFromChars("org");
    Markup.NameFromChars("localbusiness");
    Markup.NameFromChars("blogposting");
  }

  /** The head with the two site blocks. */
  function SiteHead(head: string, stringify: Value -> string): (r: string)
  {
    UpsertSchemaBlock(UpsertSchemaBlock(head, "org", stringify(OrgSchema())), "localbusiness", stringify(LocalBusinessSchema()))
  }

  /** The blog post block for a head that already has the site blocks. */
  function PostJson(h: string, canonical: string, date: string, stringify: Value -> string): (r: string)
  {
    stringify(BlogPostingSchema(canonical, GetTitle(h), GetDescription(h), GetOgImage(h), date))
  }

  /** The function `main` passes to `withHead`: the two site blocks, then
      the blog post block on a post page. */
  function SchemaHead(head: string, canonical: string, date: string, stringify: Value -> string): (r: string)
  {
    var h := SiteHead(head, stringify);
    if IsBlogPostPath(PathOf(canonical)) then UpsertSchemaBlock(h, "blogposting", PostJson(h, canonical, date, stringify))
    else h
  }

  /** The steps on `h`, in the source's order. */
  method SchemaHeadSteps(head: string, canonical: string, date: string, stringify: Value -> string) returns (h: string)
    ensures h == SchemaHead(head, canonical, date, stringify)
    ensures !IsBlogPostPath(PathOf(canonical)) ==> h == SiteHead(head, stringify)
  {
    h := head;
    h := UpsertSchemaBlock(h, "org", stringify(OrgSchema()));
    h := UpsertSchemaBlock(h, "localbusiness", stringify(LocalBusinessSchema()));
    if IsBlogPostPath(PathOf(canonical)) {
      var title := GetTitle(h);
      var desc := GetDescription(h);
      var ogImg := GetOgImage(h);
      h := UpsertSchemaBlock(h, "blogposting", stringify(BlogPostingSchema(canonical, title, desc, ogImg, date)));
    }
  }

  /** The last block written is whole in the new head and the block finder
      takes it there: the blog post block on a post page, else the local
      business block. A page that is not a post gets no post block
      written. */
  lemma SchemaHeadWrites(head: string, canonical: string, date: string, stringify: Value -> string)
    ensures var h := SiteHead(head, stringify);
      IsBlogPostPath(PathOf(canonical)) ==>
        BlockAt(SchemaHead(head, canonical, date, stringify), SchemaPos(h, "blogposting"), "blogposting", PostJson(h, canonical, date, stringify))
    ensures var h1 := UpsertSchemaBlock(head, "org", stringify(OrgSchema()));
      !IsBlogPostPath(PathOf(canonical)) ==>
        && SchemaHead(head, canonical, date, stringify) == SiteHead(head, stringify)
        && BlockAt(SchemaHead(head, canonical, date, stringify), SchemaPos(h1, "localbusiness"), "localbusiness", stringify(LocalBusinessSchema()))
  {
    IdsAreNames();
    var h := SiteHead(head, stringify);
    if IsBlogPostPath(PathOf(canonical)) {
      UpsertSchemaWrites(h, "blogposting", PostJson(h, canonical, date, stringify));
    } else {
      var h1 := UpsertSchemaBlock(head, "org", stringify(OrgSchema()));
      UpsertSchemaWrites(h1, "localbusiness", stringify(LocalBusinessSchema()));
    }
  }

  /** The org block written first is whole in the head after it, at the
      place `SchemaPos` names. */
  lemma OrgBlockWritten(head: string, stringify: Value -> string)
    ensures BlockAt(UpsertSchemaBlock(head, "org", stringify(OrgSchema())), SchemaPos(head, "org"), "org", stringify(OrgSchema()))
  {
    IdsAreNames();
    UpsertSchemaWrites(head, "org", stringify(OrgSchema()));
  }

  /** One page's new text: the canonical URL with its trailing slash, and
      the blocks written into its head. */
  function SchemaPage(p: Page, dates: string -> string, stringify: Value -> string): (r: Page)
  {
    var canonical := HeadMeta.CanonicalOf(p.rel);
    Page(p.rel, WithHead(p.html, h => SchemaHead(h, canonical, dates(p.rel), stringify)))
  }

  /** Only the head changes: a page with a head element keeps everything
      around it. */
  lemma SchemaPageKeepsBody(p: Page, dates: string -> string, stringify: Value -> string)
    requires First(p.html, HeadF).Some?
    ensures var m := First(p.html, HeadF).value;
      var canonical := HeadMeta.CanonicalOf(p.rel);
      SchemaPage(p, dates, stringify).html ==
        p.html[..m.at] + SchemaHead(MatchText(p.html, m), canonical, dates(p.rel), stringify) + p.html[m.at + m.hit.len..]
  {
    var canonical := HeadMeta.CanonicalOf(p.rel);
    var f := h => SchemaHead(h, canonical, dates(p.rel), stringify);
    assert SchemaPage(p, dates, stringify).html == WithHead(p.html, f);
    var m := First(p.html, HeadF).value;
    WithHeadRegion(p.html, f);
    assert f(MatchText(p.html, m)) == SchemaHead(MatchText(p.html, m), canonical, dates(p.rel), stringify);
  }

  /** `main`: every page but the templates is written with its blocks, in
      order, and counted in `changed`; templates are counted in
      `skipped`. */
  method AddSchema(pages: seq<Page>, dates: string -> string, stringify: Value -> string)
    returns (written: seq<Page>, changed: nat, skipped: nat)
    ensures written == WrittenBy(pages, ShouldSkipFile, p => SchemaPage(p, dates, stringify))
    ensures changed == |written| && skipped == SkippedBy(pages, ShouldSkipFile)
    ensures changed + skipped == |pages|
  {
    written, changed, skipped := RunPages(pages, ShouldSkipFile, p => SchemaPage(p, dates, stringify));
  }
}
