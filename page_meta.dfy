/** What tools/fix-head-meta.mjs and tools/add-schema.mjs both derive from
    a page: whether it is a template to skip, its canonical URL and path,
    an image URL made absolute on the `www` host, and the title,
    description and `og:image` read from the head. The two tools define
    these helpers identically. A page is named by its path relative to the
    pages folder; computing that path from the file system is not part of
    this model. */
module PageMeta {
  import opened Text
  import opened Markup
  import opened Finders
  import Escape

  const Host := "www.sindikatstudio83.me"

  const Scheme := "https:"

  /** `BASE`. */
  const Base := Scheme + "//" + Host

  /** The relative path with `\` turned into `/`. */
  function Slashed(rel: string): (r: string)
    ensures '\\' !in r
  {
    MapChar(rel, '\\', "/")
  }

  // ---- shouldSkipFile ----

  /** `shouldSkipFile(fp)`: the path holds the `<slug>` placeholder or a
      `_templates` part. */
  predicate ShouldSkipFile(rel: string) {
    var p := Slashed(rel);
    Contains(p, "<slug>") || Contains(p, "_templates")
  }

  /** On a path written with `/`, exactly the two markers decide. */
  lemma ShouldSkipFileExactly(rel: string)
    requires '\\' !in rel
    ensures ShouldSkipFile(rel) <==> Contains(rel, "<slug>") || Contains(rel, "_templates")
  {
    Escape.MapCharFree(rel, '\\', "/");
  }

  // ---- toCanonicalFromFile ----

  /** `toCanonicalFromFile(fp)`: the root `index.html` is `BASE/`; a folder's
      `index.html` is the folder URL, with runs of slashes collapsed and the
      scheme's `//` put back; any other file is `BASE/rel`. */
  function ToCanonicalFromFile(rel: string): (r: string)
  {
    var p := Slashed(rel);
    if Lower(p) == "index.html" then Base + "/"
    else if EndsWithCI(p, "/index.html") then
      ReplaceFirst(CollapseSlashes(Base + "/" + (p[..|p| - 11] + "/"), false), Scheme + "/", Scheme + "//")
    else Base + "/" + p
  }

  /** Collapsing passes over text without slashes. */
  lemma {:induction false} CollapsePlain(a: string, b: string, after: bool)
    requires a != [] && '/' !in a
    ensures CollapseSlashes(a + b, after) == a + CollapseSlashes(b, false)
    decreases |a|
  {
    assert (a + b)[0] == a[0] && (a + b)[1..] == a[1..] + b;
    if |a| > 1 {
      assert a[1..][0] in a;
      assert '/' !in a[1..] by {
        forall c | c in a[1..] ensures c != '/' { assert c in a; }
      }
      CollapsePlain(a[1..], b, false);
      assert a == [a[0]] + a[1..];
    } else {
      assert a == [a[0]] && a[1..] + b == b;
    }
  }

  lemma SlashFree()
    ensures '/' !in Scheme && '/' !in Host
  {
  }

  lemma SchemeSlashes(y: string)
    ensures CollapseSlashes("//" + y, false) == "/" + CollapseSlashes(y, true)
  {
    assert ("//" + y)[0] == '/' && ("//" + y)[1..] == "/" + y;
    assert ("/" + y)[0] == '/' && ("/" + y)[1..] == y;
  }

  lemma Assoc5(a: string, b: string, c: string, d: string, e: string)
    ensures a + b + c + d + e == a + (b + (c + (d + e)))
  {
  }

  lemma Assoc4(a: string, b: string, c: string, d: string)
    ensures a + (b + (c + d)) == a + b + (c + d)
    ensures a + (b + (c + d)) == a + b + c + d
  {
  }

  lemma Join3(a: string, s: string, h: string, c: string)
    ensures a + s + (h + c) == a + s + h + c
  {
  }

  lemma Rewrite(b: string, a: string, s: string, h: string, e: string, q: string)
    requires b == a + s + h
    ensures b + e + q == a + s + h + e + q
  {
  }

  /** Collapsing a URL `a//h/q` keeps the scheme's two slashes as one and
      the host, and collapses the path. */
  lemma CollapseAfterScheme(a: string, h: string, q: string)
    requires a != [] && '/' !in a && h != [] && '/' !in h
    ensures CollapseSlashes(a + "//" + h + "/" + q, false) == a + "/" + (h + CollapseSlashes("/" + q, false))
  {
    Assoc5(a, "//", h, "/", q);
    CollapsePlain(a, "//" + (h + ("/" + q)), false);
    SchemeSlashes(h + ("/" + q));
    CollapsePlain(h, "/" + q, true);
    Assoc4(a, "/", h, CollapseSlashes("/" + q, false));
  }

  /** The first `a/` becomes `a//` again. */
  lemma RestoreScheme(a: string, t: string)
    ensures ReplaceFirst(a + "/" + t, a + "/", a + "//") == a + "//" + t
  {
    assert OccursAt(a + "/" + t, a + "/", 0) by {
      assert (a + "/" + t)[..|a| + 1] == a + "/";
    }
    assert (a + "/" + t)[|a| + 1..] == t;
  }

  /** The collapse of the scheme's `//`, and its restoration, leave the
      host alone: the folder branch is `BASE` followed by the collapsed
      path. */
  lemma CanonicalOfFolder(q: string)
    ensures ReplaceFirst(CollapseSlashes(Base + "/" + q, false), Scheme + "/", Scheme + "//")
            == Base + CollapseSlashes("/" + q, false)
  {
    SlashFree();
    Rewrite(Base, Scheme, "//", Host, "/", q);
    CollapseAfterScheme(Scheme, Host, q);
    var c := CollapseSlashes("/" + q, false);
    RestoreScheme(Scheme, Host + c);
    Join3(Scheme, "//", Host, c);
  }

  /** The root `index.html`, in any case, is the site's root URL. */
  lemma CanonicalOfRoot(rel: string)
    requires '\\' !in rel && Lower(rel) == "index.html"
    ensures ToCanonicalFromFile(rel) == Base + "/"
  {
    Escape.MapCharFree(rel, '\\', "/");
  }

  /** `x/index.html`, in any case, is the folder URL `BASE/x/` when `x` is
      written without doubled or surrounding slashes. */
  lemma CanonicalOfIndex(x: string, tail: string)
    requires Lower(tail) == "/index.html" && '\\' !in x + tail
    requires NoDoubleSlash("/" + (x + "/"))
    ensures ToCanonicalFromFile(x + tail) == Base + "/" + x + "/"
  {
    var rel := x + tail;
    Escape.MapCharFree(rel, '\\', "/");
    assert |tail| == 11;
    assert rel[|rel| - 11..] == tail;
    assert rel[..|rel| - 11] == x;
    assert Lower(rel) != "index.html" by {
      assert |Lower(rel)| == |rel| >= 11;
    }
    CanonicalOfFolder(x + "/");
    CollapseFixed("/" + (x + "/"), false);
    Assoc4(Base, "/", x, "/");
  }

  /** Every canonical URL is on the site: it starts with `BASE/`. */
  lemma CanonicalOnSite(rel: string)
    ensures StartsWith(ToCanonicalFromFile(rel), Base + "/")
  {
    var p := Slashed(rel);
    if Lower(p) != "index.html" && EndsWithCI(p, "/index.html") {
      var q := p[..|p| - 11] + "/";
      CanonicalOfFolder(q);
      var c := CollapseSlashes("/" + q, false);
      assert c != [] && c[0] == '/';
      assert (Base + c)[..|Base| + 1] == Base + "/";
    }
  }

  // ---- ensureSlash and the canonical path ----

  /** `ensureSlash(u)` for a URL on the site: a path that neither ends with
      `/` nor has a `.` gets a trailing `/`. Other text is returned as it
      is. */
  function EnsureSlash(u: string): (r: string)
  {
    if StartsWith(u, Base + "/") then
      var p := u[|Base|..];
      if !EndsWith(p, "/") && '.' !in p then u + "/" else u
    else u
  }

  /** `new URL(u).pathname` for a URL on the site. */
  function PathOf(u: string): (r: string)
  {
    if StartsWith(u, Base + "/") then u[|Base|..] else "/"
  }

  /** After `ensureSlash`, a site path ends with `/` or names a file with a
      `.`; a second call changes nothing. */
  lemma EnsureSlashShape(u: string)
    requires StartsWith(u, Base + "/")
    ensures var p := PathOf(EnsureSlash(u)); EndsWith(p, "/") || '.' in p
    ensures EnsureSlash(EnsureSlash(u)) == EnsureSlash(u)
  {
    var p := u[|Base|..];
    var r := EnsureSlash(u);
    if !EndsWith(p, "/") && '.' !in p {
      assert r == u + "/";
      assert (u + "/")[..|Base| + 1] == u[..|Base| + 1];
      assert (u + "/")[|Base|..] == p + "/";
      assert '.' !in p + "/";
    }
  }

  // ---- normalizeToWwwAbsolute / normalizeToAbsolute ----

  const BareHttps := "https://sindikatstudio83.me"
  const BareHttp := "http://sindikatstudio83.me"

  /** `s.replace(/^p/i, rep)`. */
  function SwapPrefixCI(s: string, p: string, rep: string): (r: string)
  {
    if OccursAtCI(s, p, 0) then rep + s[|p|..] else s
  }

  /** The bare domain, over `https` and then over `http`, in any case,
      becomes `BASE`. */
  function Rebase(a: string): (r: string)
  {
    SwapPrefixCI(SwapPrefixCI(a, BareHttps, Base), BareHttp, Base)
  }

  /** `normalizeToWwwAbsolute(u)`: trimmed; empty stays empty; a path from
      the root gets `BASE` in front; then the bare domain is rebased. */
  function NormalizeToWwwAbsolute(u: string): (r: string)
  {
    var url := Trim(u);
    if url == [] then []
    else Rebase(if url[0] == '/' then Base + url else url)
  }

  /** The characters the cases below tell apart. */
  lemma Constants()
    ensures |BareHttps| == 27 && |BareHttp| == 26 && |Base| == 31
    ensures BareHttps[0] == 'h' && BareHttp[0] == 'h' && Base[0] == 'h' && Base[30] == 'e'
    ensures BareHttps[4] == 's' && BareHttp[4] == ':' && Base[4] == 's'
    ensures BareHttps[8] == 's' && Base[8] == 'w'
  {
  }

  /** One character that differs, up to case, rules out an occurrence. */
  lemma MismatchAt(t: string, p: string, k: nat)
    requires k < |p| && k < |t| && LowerChar(t[k]) != p[k]
    ensures !OccursAtCI(t, p, 0)
  {
    if OccursAtCI(t, p, 0) {
      OccursAtCIChar(t, p, 0, k);
    }
  }

  /** A URL on the `www` host starts with neither bare domain. */
  lemma NotBare(x: string)
    ensures !OccursAtCI(Base + x, BareHttps, 0) && !OccursAtCI(Base + x, BareHttp, 0)
  {
    Constants();
    var t := Base + x;
    assert t[8] == 'w' && t[4] == 's';
    MismatchAt(t, BareHttps, 8);
    MismatchAt(t, BareHttp, 4);
  }

  /** The bare `https` domain is not the bare `http` one. */
  lemma BareHttpsNotHttp(x: string)
    requires OccursAtCI(x, BareHttp, 0)
    ensures !OccursAtCI(x, BareHttps, 0)
  {
    Constants();
    OccursAtCIChar(x, BareHttp, 0, 4);
    MismatchAt(x, BareHttps, 4);
  }

  /** A URL on the `www` host is left alone. */
  lemma RebaseWww(x: string)
    ensures Rebase(Base + x) == Base + x
  {
    NotBare(x);
  }

  /** The bare `https` domain is replaced by `BASE`. */
  lemma RebaseHttps(a: string)
    requires OccursAtCI(a, BareHttps, 0)
    ensures Rebase(a) == Base + a[|BareHttps|..]
  {
    assert SwapPrefixCI(a, BareHttps, Base) == Base + a[|BareHttps|..];
    NotBare(a[|BareHttps|..]);
  }

  /** The bare `http` domain is replaced by `BASE`. */
  lemma RebaseHttp(a: string)
    requires OccursAtCI(a, BareHttp, 0)
    ensures Rebase(a) == Base + a[|BareHttp|..]
  {
    BareHttpsNotHttp(a);
    assert SwapPrefixCI(a, BareHttps, Base) == a;
  }

  /** Any other URL is left alone. */
  lemma RebaseOther(a: string)
    requires !OccursAtCI(a, BareHttps, 0) && !OccursAtCI(a, BareHttp, 0)
    ensures Rebase(a) == a
  {
  }

  /** A path from the root is put on the `www` host. */
  lemma NormalizeRooted(u: string)
    requires Trim(u) != [] && Trim(u)[0] == '/'
    ensures NormalizeToWwwAbsolute(u) == Base + Trim(u)
  {
    RebaseWww(Trim(u));
  }

  /** `https://sindikatstudio83.me…`, in any case, moves to the `www`
      host. */
  lemma NormalizeHttps(u: string)
    requires OccursAtCI(Trim(u), BareHttps, 0)
    ensures NormalizeToWwwAbsolute(u) == Base + Trim(u)[|BareHttps|..]
  {
    var url := Trim(u);
    Constants();
    OccursAtCIChar(url, BareHttps, 0, 0);
    RebaseHttps(url);
  }

  /** `http://sindikatstudio83.me…`, in any case, moves to the `www` host
      over `https`. */
  lemma NormalizeHttp(u: string)
    requires OccursAtCI(Trim(u), BareHttp, 0)
    ensures NormalizeToWwwAbsolute(u) == Base + Trim(u)[|BareHttp|..]
  {
    var url := Trim(u);
    Constants();
    OccursAtCIChar(url, BareHttp, 0, 0);
    RebaseHttp(url);
  }

  /** Blank input gives `""`; any other URL comes back trimmed and
      otherwise unchanged. */
  lemma NormalizeOther(u: string)
    requires Trim(u) == [] || (Trim(u)[0] != '/' && !OccursAtCI(Trim(u), BareHttps, 0) && !OccursAtCI(Trim(u), BareHttp, 0))
    ensures NormalizeToWwwAbsolute(u) == Trim(u)
  {
    if Trim(u) != [] {
      RebaseOther(Trim(u));
    }
  }

  /** `BASE` followed by the end of a trimmed text is trimmed. */
  lemma BaseTailTrimmed(url: string, n: nat)
    requires IsTrimmed(url) && n <= |url|
    ensures IsTrimmed(Base + url[n..])
  {
    Constants();
    var x := url[n..];
    var t := Base + x;
    assert t[0] == 'h';
    if x != [] {
      assert t[|t| - 1] == x[|x| - 1] == url[|url| - 1];
    } else {
      assert t[|t| - 1] == 'e';
    }
  }

  /** The result is empty exactly when the trimmed input is, and is
      trimmed. */
  lemma NormalizeTrimmed(u: string)
    ensures NormalizeToWwwAbsolute(u) == [] <==> Trim(u) == []
    ensures IsTrimmed(NormalizeToWwwAbsolute(u))
  {
    var url := Trim(u);
    TrimIsTrimmed(u);
    if url == [] {
    } else if url[0] == '/' {
      NormalizeRooted(u);
      BaseTailTrimmed(url, 0);
    } else if OccursAtCI(url, BareHttps, 0) {
      NormalizeHttps(u);
      BaseTailTrimmed(url, |BareHttps|);
    } else if OccursAtCI(url, BareHttp, 0) {
      NormalizeHttp(u);
      BaseTailTrimmed(url, |BareHttp|);
    } else {
      NormalizeOther(u);
    }
  }

  /** A normalised URL on the `www` host normalises to itself. */
  lemma NormalizeKeepsWww(x: string)
    requires IsTrimmed(Base + x)
    ensures NormalizeToWwwAbsolute(Base + x) == Base + x
  {
    Constants();
    var a := Base + x;
    assert a[0] == 'h';
    NormalizeAbsolute(a);
    RebaseWww(x);
  }

  /** A trimmed URL not from the root is only rebased. */
  lemma NormalizeAbsolute(a: string)
    requires IsTrimmed(a) && a != [] && a[0] != '/'
    ensures NormalizeToWwwAbsolute(a) == Rebase(a)
  {
    TrimmedIsFixed(a);
  }

  /** Normalising twice is normalising once. */
  lemma NormalizeIdempotent(u: string)
    ensures NormalizeToWwwAbsolute(NormalizeToWwwAbsolute(u)) == NormalizeToWwwAbsolute(u)
  {
    var r := NormalizeToWwwAbsolute(u);
    NormalizeTrimmed(u);
    var url := Trim(u);
    if url == [] {
    } else if url[0] == '/' {
      NormalizeRooted(u);
      NormalizeKeepsWww(url);
    } else if OccursAtCI(url, BareHttps, 0) {
      NormalizeHttps(u);
      NormalizeKeepsWww(url[|BareHttps|..]);
    } else if OccursAtCI(url, BareHttp, 0) {
      NormalizeHttp(u);
      NormalizeKeepsWww(url[|BareHttp|..]);
    } else {
      NormalizeOther(u);
      TrimmedIsFixed(r);
      NormalizeOther(r);
    }
  }

  // ---- reading the head ----

  /** The group of the first match of `f`, if any. */
  function FirstGroup(s: string, f: Finder): (r: Option<string>)
  {
    match First(s, f)
    case None => None
    case Some(m) => Some(Group(s, m))
  }

  /** `m[1].trim().replace(/\s+/g, " ")`. */
  function Tidy(s: string): (r: string)
  {
    CollapseSpaces(Trim(s))
  }

  /** `getTitle(head)`: the tidied text of the first `<title>`, or `""`. */
  function GetTitle(head: string): (r: string)
  {
    match FirstGroup(head, TitleF)
    case None => ""
    case Some(g) => Tidy(g)
  }

  const DescKeyFirst := PairF("name", "description", false, true)
  const DescValueFirst := PairF("name", "description", false, false)

  /** `getDescription(head)` / `getMetaDescription(head)`: the content of
      the first description meta with `name` before `content`, else of the
      first with `content` before `name`, tidied; or `""`. */
  function GetDescription(head: string): (r: string)
  {
    match FirstGroup(head, DescKeyFirst)
    case Some(g) => Tidy(g)
    case None =>
      match FirstGroup(head, DescValueFirst)
      case Some(g) => Tidy(g)
      case None => ""
  }

  const OgImageKeyFirst := PairF("property", "og:image", true, true)
  const OgImageValueFirst := PairF("property", "og:image", true, false)

  /** `getOgImage(head)` of tools/add-schema.mjs: the trimmed content of the
      first `og:image` meta in either order, or `""`. */
  function GetOgImage(head: string): (r: string)
  {
    match FirstGroup(head, OgImageKeyFirst)
    case Some(g) => Trim(g)
    case None =>
      match FirstGroup(head, OgImageValueFirst)
      case Some(g) => Trim(g)
      case None => ""
  }

  /** The title read from a head is trimmed and single spaced, so tidying
      it again changes nothing; without a `<title>` it is `""`. */
  lemma TitleIsNormal(head: string)
    ensures IsTrimmed(GetTitle(head)) && SingleSpaced(GetTitle(head))
    ensures Tidy(GetTitle(head)) == GetTitle(head)
    ensures NoMatch(head, TitleF) ==> GetTitle(head) == ""
  {
    FirstNone(head, TitleF);
    var g := FirstGroup(head, TitleF);
    if g.Some? {
      TidyIsNormal(g.value);
    }
  }

  /** The title is the tidied text of the left-most `<title>`. */
  lemma TitleRead(head: string, m: Found)
    requires IsLeftmost(head, TitleF, m)
    ensures GetTitle(head) == Tidy(Group(head, m))
  {
    FirstIsLeftmost(head, TitleF, m);
  }

  /** The description read from a head is trimmed and single spaced, so
      tidying it again changes nothing; without a description meta in
      either attribute order it is `""`. */
  lemma DescriptionIsNormal(head: string)
    ensures IsTrimmed(GetDescription(head)) && SingleSpaced(GetDescription(head))
    ensures Tidy(GetDescription(head)) == GetDescription(head)
    ensures NoMatch(head, DescKeyFirst) && NoMatch(head, DescValueFirst) ==> GetDescription(head) == ""
  {
    FirstNone(head, DescKeyFirst);
    FirstNone(head, DescValueFirst);
    var g1 := FirstGroup(head, DescKeyFirst);
    var g2 := FirstGroup(head, DescValueFirst);
    if g1.Some? {
      TidyIsNormal(g1.value);
    } else if g2.Some? {
      TidyIsNormal(g2.value);
    }
  }

  /** The description is the tidied content of the left-most description
      meta with `name` first; when there is none, of the left-most one with
      `content` first. */
  lemma DescriptionRead(head: string, m: Found)
    requires IsLeftmost(head, DescKeyFirst, m)
      || (NoMatch(head, DescKeyFirst) && IsLeftmost(head, DescValueFirst, m))
    ensures GetDescription(head) == Tidy(Group(head, m))
  {
    FirstIsLeftmost(head, DescKeyFirst, m);
    FirstIsLeftmost(head, DescValueFirst, m);
    FirstNone(head, DescKeyFirst);
  }

  /** The image read from a head is trimmed; without an `og:image` meta in
      either attribute order it is `""`. */
  lemma OgImageTrimmed(head: string)
    ensures IsTrimmed(GetOgImage(head))
    ensures NoMatch(head, OgImageKeyFirst) && NoMatch(head, OgImageValueFirst) ==> GetOgImage(head) == ""
  {
    FirstNone(head, OgImageKeyFirst);
    FirstNone(head, OgImageValueFirst);
    var g1 := FirstGroup(head, OgImageKeyFirst);
    var g2 := FirstGroup(head, OgImageValueFirst);
    if g1.Some? {
      TrimIsTrimmed(g1.value);
    } else if g2.Some? {
      TrimIsTrimmed(g2.value);
    }
  }

  /** The image is the trimmed content of the left-most `og:image` meta
      with `property` first; when there is none, of the left-most one with
      `content` first. */
  lemma OgImageRead(head: string, m: Found)
    requires IsLeftmost(head, OgImageKeyFirst, m)
      || (NoMatch(head, OgImageKeyFirst) && IsLeftmost(head, OgImageValueFirst, m))
    ensures GetOgImage(head) == Trim(Group(head, m))
  {
    FirstIsLeftmost(head, OgImageKeyFirst, m);
    FirstIsLeftmost(head, OgImageValueFirst, m);
    FirstNone(head, OgImageKeyFirst);
  }

  // ---- the loop over the pages ----

  /** A page: its path relative to the pages folder and its text. */
  datatype Page = Page(rel: string, html: string)

  /** The pages a run writes: every page `skip` does not exclude, passed
      through `fix`, in order. */
  function WrittenBy(pages: seq<Page>, skip: string -> bool, fix: Page -> Page): (r: seq<Page>)
  {
    if pages == [] then []
    else (if skip(pages[0].rel) then [] else [fix(pages[0])]) + WrittenBy(pages[1..], skip, fix)
  }

  /** How many pages `skip` excludes. */
  function SkippedBy(pages: seq<Page>, skip: string -> bool): (r: nat)
  {
    if pages == [] then 0
    else (if skip(pages[0].rel) then 1 else 0) + SkippedBy(pages[1..], skip)
  }

  lemma {:induction false} WrittenAppend(a: seq<Page>, b: seq<Page>, skip: string -> bool, fix: Page -> Page)
    ensures WrittenBy(a + b, skip, fix) == WrittenBy(a, skip, fix) + WrittenBy(b, skip, fix)
  {
    if a != [] {
      assert (a + b)[1..] == a[1..] + b;
      WrittenAppend(a[1..], b, skip, fix);
    } else {
      assert a + b == b;
    }
  }

  lemma {:induction false} SkippedAppend(a: seq<Page>, b: seq<Page>, skip: string -> bool)
    ensures SkippedBy(a + b, skip) == SkippedBy(a, skip) + SkippedBy(b, skip)
  {
    if a != [] {
      assert (a + b)[1..] == a[1..] + b;
      SkippedAppend(a[1..], b, skip);
    } else {
      assert a + b == b;
    }
  }

  /** Every page is either written or skipped; no excluded page is
      written, and every written page is a page of the input, fixed. */
  lemma {:induction false} WrittenPages(pages: seq<Page>, skip: string -> bool, fix: Page -> Page)
    ensures |WrittenBy(pages, skip, fix)| + SkippedBy(pages, skip) == |pages|
    ensures forall q :: q in WrittenBy(pages, skip, fix) ==> exists p :: p in pages && !skip(p.rel) && q == fix(p)
  {
    if pages != [] {
      WrittenPages(pages[1..], skip, fix);
      var w := WrittenBy(pages[1..], skip, fix);
      forall q | q in WrittenBy(pages, skip, fix) ensures exists p :: p in pages && !skip(p.rel) && q == fix(p) {
        if q in w {
          var p :| p in pages[1..] && !skip(p.rel) && q == fix(p);
          assert p in pages;
        } else {
          assert q == fix(pages[0]) && !skip(pages[0].rel);
        }
      }
    }
  }

  /** The loop of a tool's `main`: a page `skip` excludes is counted as
      skipped; any other is passed through `fix`, written and counted as
      changed. */
  method RunPages(pages: seq<Page>, skip: string -> bool, fix: Page -> Page)
    returns (written: seq<Page>, changed: nat, skipped: nat)
    ensures written == WrittenBy(pages, skip, fix)
    ensures changed == |written| && skipped == SkippedBy(pages, skip)
    ensures changed + skipped == |pages|
  {
    written := [];
    changed := 0;
    skipped := 0;
    var i := 0;
    while i < |pages|
      invariant i <= |pages|
      invariant written == WrittenBy(pages[..i], skip, fix)
      invariant changed == |written| && skipped == SkippedBy(pages[..i], skip)
    {
      WrittenAppend(pages[..i], [pages[i]], skip, fix);
      SkippedAppend(pages[..i], [pages[i]], skip);
      assert pages[..i + 1] == pages[..i] + [pages[i]];
      if skip(pages[i].rel) {
        skipped := skipped + 1;
      } else {
        written := written + [fix(pages[i])];
        changed := changed + 1;
      }
      i := i + 1;
    }
    assert pages[..i] == pages;
    WrittenPages(pages, skip, fix);
  }
}
