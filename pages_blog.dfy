/** Pages/tools/generate-blog.mjs: the older copy of the blog generator.
    It reads rows only from `api.posts`, keeps the slug as trimmed text,
    maps no status synonyms and has no positional or TSV rows; listing,
    selection, sort and rendering are those of tools/generate-blog.mjs.
    Reading a property of `null` throws a `TypeError` that ends the run,
    so a `null` response or a `null` row is an error outcome here. */
module PagesBlog {
  import opened Text
  import opened Js
  import Blog
  import Slug
  import Sorting

  /** A run that throws, or its result. */
  datatype Outcome<T> = TypeError | Done(value: T)

  /** `Array.isArray(api.posts) ? api.posts : []`. */
  function Rows(api: Value): (r: Outcome<seq<Value>>)
    ensures r.TypeError? <==> api.Null?
  {
    if api.Null? then TypeError
    else if Get(api, "posts").Arr? then Done(Get(api, "posts").items)
    else Done([])
  }

  /** Rows come from `posts` alone: an object response whose `posts` is an
      array gives the rows the newer generator extracts, while a top-level
      array, or rows under `data` or `rows`, give none. */
  lemma RowsVersusBlog(api: Value)
    ensures api.Obj? && Get(api, "posts").Arr? ==> Rows(api) == Done(Blog.ExtractRows(api))
    ensures api.Arr? ==> Rows(api) == Done([]) && Blog.ExtractRows(api) == api.items
    ensures api.Obj? && !Get(api, "posts").Arr? ==> Rows(api) == Done([])
  {
  }

  /** `safeStr(p.status).toLowerCase() || "draft"`. */
  function Status(v: Value): (r: string)
    ensures r != []
    ensures r == "published" <==> Lower(SafeStr(v)) == "published"
    ensures Lower(SafeStr(v)) != [] ==> r == Lower(SafeStr(v))
  {
    var s := Lower(SafeStr(v));
    if s == [] then "draft" else s
  }

  /** The status agrees with the newer generator's unless it is one of the
      three synonyms, which stay as they are and are not published. */
  lemma StatusVersusBlog(v: Value)
    ensures Status(v) == Blog.NormalizeStatus(v)
        <==> (Lower(SafeStr(v)) != "publish" && Lower(SafeStr(v)) != "live" && Lower(SafeStr(v)) != "public")
    ensures Blog.IsPublishedWord(Lower(SafeStr(v))) && Lower(SafeStr(v)) != "published"
        ==> Status(v) != "published" && Blog.NormalizeStatus(v) == "published"
  {
  }

  /** `pickCover`: `safeStr(p.cover_image || "")`. */
  function PickCover(p: Value): (r: string)
    ensures IsTrimmed(r)
    ensures !Truthy(Get(p, "cover_image")) ==> r == []
  {
    assert SafeStr(Str([])) == [];
    SafeStr(Or(Get(p, "cover_image"), Str([])))
  }

  /** `normalizePost`; reading a property of a `null` row throws. */
  function NormalizePost(raw: Value): (r: Outcome<Blog.Post>)
    ensures r.TypeError? <==> raw.Null?
    ensures r.Done? ==> IsTrimmed(r.value.slug) && r.value.status != []
  {
    if raw.Null? then TypeError else Done(PostOf(raw))
  }

  /** The post `normalizePost` builds from a row that is not `null`. */
  function PostOf(raw: Value): (r: Blog.Post)
    ensures IsTrimmed(r.slug) && r.status != []
    ensures r.cover_image == PickCover(raw)
  {
    Blog.MakePost(raw, SafeStr(Get(raw, "slug")), Status(Get(raw, "status")),
      Blog.NormCategory(Get(raw, "category")), Blog.ParseTags(Get(raw, "tags")))
  }

  /** The slug is kept as trimmed text, where the newer generator
      slugifies it; the two agree exactly on slugs. */
  lemma SlugOnlyTrimmed(raw: Value)
    ensures PostOf(raw).slug == Trim(StrOrEmpty(Get(raw, "slug")))
    ensures raw.Obj? && Slug.IsSlug(StrOrEmpty(Get(raw, "slug")))
        ==> PostOf(raw).slug == Blog.NormalizePost(raw).slug
  {
    var s := StrOrEmpty(Get(raw, "slug"));
    if raw.Obj? && Slug.IsSlug(s) {
      Slug.SlugIsLowerTrimmed(s);
      Slug.FinishFixed(s);
    }
  }

  /** A post keeps the fallbacks of the newer generator, read from the
      row itself. */
  lemma NormalizePostFallbacks(raw: Value)
    ensures Blog.Fallbacks(raw, PostOf(raw))
  {
    var slug := SafeStr(Get(raw, "slug"));
    var status := Status(Get(raw, "status"));
    var category := Blog.NormCategory(Get(raw, "category"));
    var tags := Blog.ParseTags(Get(raw, "tags"));
    assert PostOf(raw) == Blog.MakePost(raw, slug, status, category, tags);
    Blog.MakePostFallbacks(raw, slug, status, category, tags);
  }

  /** What `normalizePost` reads from the row without a fallback: the
      trimmed `slug`, the lower-cased `status` (`"draft"` when empty), the
      normalised `category`, the parsed `tags`, and the trimmed `title`,
      `date` and `cover_image`. With `NormalizePostFallbacks` this fixes
      every field of the post. */
  lemma PostOfFields(raw: Value)
    ensures var r := PostOf(raw);
      && r.slug == SafeStr(Get(raw, "slug"))
      && r.status == Status(Get(raw, "status"))
      && r.category == Blog.NormCategory(Get(raw, "category"))
      && r.tags == Blog.ParseTags(Get(raw, "tags"))
      && r.title == SafeStr(Get(raw, "title"))
      && r.date == SafeStr(Get(raw, "date"))
      && r.cover_image == (if Truthy(Get(raw, "cover_image")) then SafeStr(Get(raw, "cover_image")) else [])
  {
    var slug := SafeStr(Get(raw, "slug"));
    var status := Status(Get(raw, "status"));
    var category := Blog.NormCategory(Get(raw, "category"));
    var tags := Blog.ParseTags(Get(raw, "tags"));
    assert PostOf(raw) == Blog.MakePost(raw, slug, status, category, tags);
    Blog.MakePostFields(raw, slug, status, category, tags);
  }

  /** A row that is not an object, such as a positional array row, has no
      properties: every field is empty and the post is a draft. */
  lemma NonObjectRowIsDraft(raw: Value)
    requires !raw.Obj?
    ensures var r := PostOf(raw);
      r.slug == [] && r.title == [] && r.status == "draft" && !Blog.IsPublishable(r)
  {
    assert SafeStr(Null) == [];
    assert Lower([]) == [];
  }

  /** `rows.map(normalizePost)`, which throws at a `null` row. */
  function Normalized(rows: seq<Value>): (r: Outcome<seq<Blog.Post>>)
    ensures r.TypeError? <==> exists i :: 0 <= i < |rows| && rows[i].Null?
    ensures r.Done? ==> |r.value| == |rows|
    ensures r.Done? ==> forall i :: 0 <= i < |rows| ==> NormalizePost(rows[i]) == Done(r.value[i])
  {
    if exists i :: 0 <= i < |rows| && rows[i].Null? then TypeError
    else Done(seq(|rows|, i requires 0 <= i < |rows| => NormalizePost(rows[i]).value))
  }

  /** The normalised posts of a response, or the `TypeError` it throws. */
  function NormalizedPosts(api: Value): (r: Outcome<seq<Blog.Post>>)
  {
    match Rows(api)
    case TypeError => TypeError
    case Done(rows) => Normalized(rows)
  }

  /** The posts `main` writes, in the order it writes them. */
  function PublishedPosts(api: Value): (r: Outcome<seq<Blog.Post>>)
  {
    match NormalizedPosts(api)
    case TypeError => TypeError
    case Done(ps) => Done(Sorting.SortBy(Blog.Published(ps), Blog.DateKey, true))
  }

  /** A run fails exactly on a `null` response or a `null` row; otherwise
      it writes the publishable posts, and only those, newest first, with
      equal dates in the sheet's order. */
  lemma PublishedPostsCorrect(api: Value)
    ensures PublishedPosts(api).TypeError?
        <==> api.Null? || (Get(api, "posts").Arr? && exists i :: 0 <= i < |Get(api, "posts").items| && Get(api, "posts").items[i].Null?)
    ensures PublishedPosts(api).Done? ==>
      var ps := Blog.Published(NormalizedPosts(api).value);
      var out := PublishedPosts(api).value;
      && (forall p :: p in out <==> p in NormalizedPosts(api).value && Blog.IsPublishable(p))
      && Sorting.Sorted(out, Blog.DateKey, true)
      && multiset(out) == multiset(ps)
      && forall k :: Sorting.WithKey(out, Blog.DateKey, k) == Sorting.WithKey(ps, Blog.DateKey, k)
  {
    if PublishedPosts(api).Done? {
      var ps := Blog.Published(NormalizedPosts(api).value);
      var out := PublishedPosts(api).value;
      Sorting.SortByCorrect(ps, Blog.DateKey, true);
      forall p ensures p in out <==> p in ps {
        assert p in out <==> p in multiset(out);
        assert p in ps <==> p in multiset(ps);
      }
    }
  }

  /** `main` after the fetch: the listing and one page per published post,
      unless normalisation throws. */
  method Generate(api: Value, template: string) returns (out: Outcome<(seq<Blog.Listing>, seq<Blog.Page>)>)
    ensures out.TypeError? <==> PublishedPosts(api).TypeError?
    ensures out.Done? ==> out.value.0 == Blog.ToPostsJson(PublishedPosts(api).value)
    ensures out.Done? ==> out.value.1 == Blog.PagesFor(template, PublishedPosts(api).value)
  {
    var normalized := NormalizedPosts(api);
    if normalized.TypeError? {
      return TypeError;
    }
    var sorted := Blog.SortByDate(Blog.Published(normalized.value));
    var listing := Blog.ToPostsJson(sorted);
    var pages := Blog.RenderPages(Blog.Renderer(template), sorted);
    out := Done((listing, pages));
  }
}
