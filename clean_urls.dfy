/** tools/fix-clean-urls-and-canonicals.mjs: every page at the root of
    `sr-me/` gets a copy at its clean URL (`sr-me/<slug>/index.html`)
    whose internal links point at clean URLs and whose canonical link is
    the clean URL; the root pages themselves get their links rewritten
    when that changes them. */
module CleanUrls {
  import opened Text
  import Slug
  import opened Markup
  import HeadMeta
  import opened PageMeta
  import Seqs

  /** `SITE_BASE`. */
  const SiteBase: string := "https://www.sindikatstudio83.me"

  // ---- path.posix ----

  /** Index of the last `/` in `p[..n]`, or -1 when there is none. */
  function LastSlash(p: string, n: nat): (r: int)
    requires n <= |p|
    ensures -1 <= r < n
    ensures r >= 0 ==> p[r] == '/'
    ensures forall k :: r < k < n ==> p[k] != '/'
  {
    if n == 0 then -1 else if p[n - 1] == '/' then n - 1 else LastSlash(p, n - 1)
  }

  /** The end of `p` once trailing `/` are dropped, a leading one kept. */
  function NameEnd(p: string, n: nat): (r: nat)
    requires n <= |p|
    ensures r <= n && (r == n || r >= 1)
    ensures r > 1 ==> p[r - 1] != '/'
    ensures forall k :: r <= k < n ==> p[k] == '/'
  {
    if n > 1 && p[n - 1] == '/' then NameEnd(p, n - 1) else n
  }

  /** `path.posix.dirname(p)`: the text before the last `/` that is not a
      trailing one; `.` without such a `/`, `/` (or `//`) at the root. */
  function Dirname(p: string): (r: string)
  {
    var i := LastSlash(p, NameEnd(p, |p|));
    if i < 0 then "."
    else if i == 0 then "/"
    else if i == 1 && p[0] == '/' then "//"
    else p[..i]
  }

  /** `path.posix.basename(p, ext)` for a path that does not end with `/`:
      the last segment, without `ext` when it ends with it and is longer;
      the empty text when `p` is `ext` itself. */
  function Basename(p: string, ext: string): (r: string)
  {
    if ext != [] && ext == p then "" else DropExt(p[LastSlash(p, |p|) + 1..], ext)
  }

  lemma DirnameOfName(p: string)
    requires '/' !in p
    ensures Dirname(p) == "." && Basename(p, "") == p
  {
    assert p[0..] == p;
  }

  lemma DirnameOfPath(d: string, name: string)
    requires d != "" && d != "/" && '/' !in name && name != ""
    ensures Dirname(d + "/" + name) == d
    ensures Basename(d + "/" + name, "") == name
  {
    var p := d + "/" + name;
    assert p[|p| - 1] == name[|name| - 1];
    assert NameEnd(p, |p|) == |p|;
    assert p[|d|] == '/';
    forall k | |d| < k < |p| ensures p[k] != '/' {
      assert p[k] == name[k - |d| - 1];
    }
    assert LastSlash(p, |p|) == |d|;
    assert p[..|d|] == d;
    assert p[|d| + 1..] == name;
  }

  /** A file name ending with `.html` loses that ending. */
  lemma BasenameHtml(stem: string)
    requires stem != [] && '/' !in stem
    ensures Basename(stem + ".html", ".html") == stem
  {
    var p := stem + ".html";
    assert '/' !in p;
    assert LastSlash(p, |p|) == -1;
    assert p[0..] == p;
    assert p[..|stem|] == stem;
  }

  // ---- cleanUrlForSrHtml ----

  /** `/sr-me/${parts.join("/")}/` for the directory and the slug. */
  function CleanPath(dir: string, slug: string): (r: string)
  {
    "/sr-me/" + (if dir != "" && dir != "." then dir + "/" + slug else slug) + "/"
  }

  /** `cleanUrlForSrHtml(relHtml)`: `/sr-me/<dir>/<slug>/`, the directory
      part only when it is not `.`. */
  function CleanUrl(rel: string): (r: string)
  {
    CleanPath(Dirname(rel), Slug.SlugifyFolded(Basename(rel, ".html")))
  }

  lemma Framed(a: string, m: string, b: string)
    ensures StartsWith(a + m + b, a) && EndsWith(a + m + b, b)
  {
    assert (a + m + b)[..|a|] == a;
    assert (a + m + b)[|a + m|..] == b;
  }

  /** A clean URL lies under `/sr-me/` and ends with `/`. */
  lemma CleanUrlShape(rel: string)
    ensures StartsWith(CleanUrl(rel), "/sr-me/") && EndsWith(CleanUrl(rel), "/")
  {
    var dir := Dirname(rel);
    var slug := Slug.SlugifyFolded(Basename(rel, ".html"));
    CleanPathShape(dir, slug);
  }

  lemma CleanPathShape(dir: string, slug: string)
    ensures StartsWith(CleanPath(dir, slug), "/sr-me/") && EndsWith(CleanPath(dir, slug), "/")
  {
    Framed("/sr-me/", if dir != "" && dir != "." then dir + "/" + slug else slug, "/");
  }

  /** A page at the root of `sr-me/` gets `/sr-me/<slug>/`, where the slug
      is that of its name without `.html`. */
  lemma CleanUrlOfName(stem: string)
    requires stem != [] && '/' !in stem
    ensures CleanUrl(stem + ".html") == "/sr-me/" + Slug.SlugifyFolded(stem) + "/"
    ensures Slug.IsSlug(Slug.SlugifyFolded(stem))
  {
    assert '/' !in stem + ".html";
    DirnameOfName(stem + ".html");
    BasenameHtml(stem);
    Slug.SlugifyFoldedIdempotent(stem);
  }

  /** A page in a folder keeps the folder in front of its slug. */
  lemma CleanUrlOfPath(d: string, name: string)
    requires d != "" && d != "/" && d != "." && '/' !in name && name != "" && name != ".html"
    ensures CleanUrl(d + "/" + name) == "/sr-me/" + d + "/" + Slug.SlugifyFolded(Basename(name, ".html")) + "/"
  {
    DirnameOfPath(d, name);
    BasenameOfPath(d, name, ".html");
    CleanPathDir(d, Slug.SlugifyFolded(Basename(name, ".html")));
  }

  lemma CleanPathDir(d: string, slug: string)
    requires d != "" && d != "."
    ensures CleanPath(d, slug) == "/sr-me/" + d + "/" + slug + "/"
  {
  }

  lemma {:induction false} LastSlashIs(p: string, n: nat, i: int)
    requires -1 <= i < n <= |p| && (i >= 0 ==> p[i] == '/')
    requires forall k :: i < k < n ==> p[k] != '/'
    ensures LastSlash(p, n) == i
    decreases n
  {
    if n - 1 != i {
      LastSlashIs(p, n - 1, i);
    }
  }

  /** The last segment with `ext` dropped, for a path other than `ext`. */
  function DropExt(b: string, ext: string): (r: string)
  {
    if ext != [] && |ext| < |b| && EndsWith(b, ext) then b[..|b| - |ext|] else b
  }

  lemma BasenameIs(p: string, ext: string, b: string)
    requires ext != p && p[LastSlash(p, |p|) + 1..] == b
    ensures Basename(p, ext) == DropExt(b, ext)
  {
    var i := LastSlash(p, |p|);
    assert Basename(p, ext) == DropExt(p[i + 1..], ext);
  }

  lemma BasenameOfPath(d: string, name: string, ext: string)
    requires d != "" && '/' !in name && name != "" && name != ext && '/' !in ext
    ensures Basename(d + "/" + name, ext) == Basename(name, ext)
  {
    var p := d + "/" + name;
    forall k | |d| < k < |p| ensures p[k] != '/' {
      assert p[k] == name[k - |d| - 1];
    }
    LastSlashIs(p, |p|, |d|);
    assert p[|d| + 1..] == name;
    forall k | -1 < k < |name| ensures name[k] != '/' {
      assert name[k] in name;
    }
    LastSlashIs(name, |name|, -1);
    assert name[0..] == name;
    assert p[|d|] in p;
    assert ext != p;
    BasenameIs(p, ext, name);
    BasenameIs(name, ext, name);
  }

  /** The path of a slug holds no `.`, no `>` and no quote. */
  lemma CleanPathPlain(slug: string)
    requires Slug.IsSlug(slug)
    ensures var c := CleanPath(".", slug);
      '.' !in c && '>' !in c && '"' !in c && '\'' !in c
  {
    forall x | x in slug ensures Slug.IsSlugChar(x) {
      var i :| 0 <= i < |slug| && slug[i] == x;
    }
    assert CleanPath(".", slug) == "/sr-me/" + slug + "/";
  }

  /** A clean URL of a page at the root holds no `.`, no `>` and no
      quote. */
  lemma CleanUrlPlain(stem: string)
    requires stem != [] && '/' !in stem
    ensures '.' !in CleanUrl(stem + ".html") && '>' !in CleanUrl(stem + ".html")
    ensures '"' !in CleanUrl(stem + ".html") && '\'' !in CleanUrl(stem + ".html")
  {
    assert '/' !in stem + ".html";
    DirnameOfName(stem + ".html");
    BasenameHtml(stem);
    Slug.SlugifyFoldedIdempotent(stem);
    CleanPathPlain(Slug.SlugifyFolded(stem));
  }

  // ---- canonical ----

  /** `canonicalTag(url)`, the tag the canonical upsert writes. */
  function CanonicalTag(url: string): (r: string)
    ensures r == "<link rel=\"canonical\" href=\"" + url + "\" />"
  {
    HeadMeta.SetTag(HeadMeta.CanonicalPattern(), "href", url)
  }

  // ---- buildMapping ----

  /** A directory entry of `sr-me/`. */
  datatype Entry = Entry(name: string, isFile: bool)

  /** One mapping entry: a root file name and its clean URL. */
  datatype Link = Link(file: string, clean: string)

  /** `name.slice(0, -5)`. */
  function Stem(name: string): (r: string)
  {
    if |name| >= 5 then name[..|name| - 5] else ""
  }

  /** The entries `buildMapping` maps: files whose name ends with `.html`
      in any case, other than `404.html` and `index.html` (the stem in
      any case). */
  predicate Maps(e: Entry)
  {
    e.isFile && EndsWithCI(e.name, ".html") && e.name != "404.html" && Lower(Stem(e.name)) != "index"
  }

  function Keys(m: seq<Link>): (r: set<string>)
  {
    set l | l in m :: l.file
  }

  /** A mapping whose keys are distinct and whose values are the clean
      URLs of their keys. */
  predicate ValidMapping(m: seq<Link>)
  {
    && (forall i, j :: 0 <= i < j < |m| ==> m[i].file != m[j].file)
    && (forall i :: 0 <= i < |m| ==> m[i].clean == CleanUrl(m[i].file))
  }

  /** `Map.set(k, v)`: an existing key keeps its place and takes the new
      value; a new key goes last. */
  function SetLink(m: seq<Link>, k: string, v: string): (r: seq<Link>)
    ensures Keys(r) == Keys(m) + {k}
    ensures forall l :: l in r ==> l in m || l == Link(k, v)
  {
    if m == [] then [Link(k, v)]
    else if m[0].file == k then KeysCons(Link(k, v), m[1..]); KeysCons(m[0], m[1..]); [Link(k, v)] + m[1..]
    else KeysCons(m[0], SetLink(m[1..], k, v)); KeysCons(m[0], m[1..]); [m[0]] + SetLink(m[1..], k, v)
  }

  lemma KeysCons(l: Link, m: seq<Link>)
    ensures Keys([l] + m) == {l.file} + Keys(m)
  {
    forall n | n in Keys([l] + m) ensures n in {l.file} + Keys(m) {
      var x :| x in [l] + m && x.file == n;
      if x != l { assert x in m; }
    }
    forall n | n in Keys(m) ensures n in Keys([l] + m) {
      var x :| x in m && x.file == n;
      assert x in [l] + m;
    }
  }

  /** Setting a key keeps the keys distinct. */
  lemma {:induction false} SetLinkDistinct(m: seq<Link>, k: string, v: string)
    requires forall i, j :: 0 <= i < j < |m| ==> m[i].file != m[j].file
    ensures var r := SetLink(m, k, v);
      forall i, j :: 0 <= i < j < |r| ==> r[i].file != r[j].file
    decreases |m|
  {
    if m != [] && m[0].file != k {
      SetLinkDistinct(m[1..], k, v);
      var r := SetLink(m, k, v);
      forall j | 0 < j < |r| ensures r[0].file != r[j].file {
        assert r[j] in SetLink(m[1..], k, v);
        assert r[j].file in Keys(SetLink(m[1..], k, v));
        assert Keys(SetLink(m[1..], k, v)) == Keys(m[1..]) + {k};
        if r[j].file != k {
          var l :| l in m[1..] && l.file == r[j].file;
          var t :| 0 <= t < |m[1..]| && m[1..][t] == l;
          assert m[t + 1] == l;
        }
      }
    }
  }

  /** One entry's effect on the mapping. */
  function MapStep(m: seq<Link>, e: Entry): (r: seq<Link>)
  {
    if Maps(e) then SetLink(m, e.name, CleanUrl(e.name)) else m
  }

  /** The mapping of the entries, filled in order. */
  function MappingOf(entries: seq<Entry>): (r: seq<Link>)
    decreases |entries|
  {
    if entries == [] then []
    else MapStep(MappingOf(entries[..|entries| - 1]), entries[|entries| - 1])
  }

  /** `buildMapping()` over the entries of `sr-me/`. */
  method BuildMapping(entries: seq<Entry>) returns (mapping: seq<Link>)
    ensures mapping == MappingOf(entries)
  {
    mapping := [];
    var i := 0;
    while i < |entries|
      invariant i <= |entries|
      invariant mapping == MappingOf(entries[..i])
    {
      assert entries[..i + 1][..i] == entries[..i];
      var e := entries[i];
      ghost var before := mapping;
      if Maps(e) {
        mapping := SetLink(mapping, e.name, CleanUrl(e.name));
      }
      assert mapping == MapStep(before, e);
      i := i + 1;
    }
    assert entries[..i] == entries;
  }

  /** Setting a key to its clean URL keeps a mapping valid. */
  lemma SetLinkValid(m: seq<Link>, k: string, v: string)
    requires ValidMapping(m) && v == CleanUrl(k)
    ensures ValidMapping(SetLink(m, k, v))
  {
    SetLinkDistinct(m, k, v);
    var r := SetLink(m, k, v);
    forall i | 0 <= i < |r| ensures r[i].clean == CleanUrl(r[i].file) {
      assert r[i] in r;
      if r[i] in m {
        var j :| 0 <= j < |m| && m[j] == r[i];
      }
    }
  }

  /** Each key once, each key with its clean URL. */
  lemma {:induction false} MappingValid(entries: seq<Entry>)
    ensures ValidMapping(MappingOf(entries))
    decreases |entries|
  {
    if entries != [] {
      MappingValid(entries[..|entries| - 1]);
      var e := entries[|entries| - 1];
      if Maps(e) {
        SetLinkValid(MappingOf(entries[..|entries| - 1]), e.name, CleanUrl(e.name));
      }
    }
  }

  /** The keys are exactly the names of the entries `Maps` accepts. */
  lemma {:induction false} MappingKeys(entries: seq<Entry>)
    ensures forall n :: n in Keys(MappingOf(entries)) <==> exists k :: 0 <= k < |entries| && Maps(entries[k]) && entries[k].name == n
    decreases |entries|
  {
    if entries != [] {
      var init := entries[..|entries| - 1];
      var e := entries[|entries| - 1];
      MappingKeys(init);
      KeysStep(init, e);
      forall n ensures n in Keys(MappingOf(entries)) <==> exists k :: 0 <= k < |entries| && Maps(entries[k]) && entries[k].name == n {
        ExistsStep(entries, init, e, x => Maps(x) && x.name == n);
      }
    }
  }

  /** The last entry adds its own name to the keys, if it maps. */
  lemma KeysStep(init: seq<Entry>, e: Entry)
    ensures Keys(MappingOf(init + [e])) == Keys(MappingOf(init)) + (if Maps(e) then {e.name} else {})
  {
    assert (init + [e])[..|init|] == init;
  }

  /** Some element passes `ok` exactly when one before the last does, or
      the last does. */
  lemma ExistsStep<E>(xs: seq<E>, init: seq<E>, e: E, ok: E -> bool)
    requires xs != [] && init == xs[..|xs| - 1] && e == xs[|xs| - 1]
    ensures (exists k :: 0 <= k < |xs| && ok(xs[k])) <==> (exists k :: 0 <= k < |init| && ok(init[k])) || ok(e)
  {
    if exists k :: 0 <= k < |xs| && ok(xs[k]) {
      var k :| 0 <= k < |xs| && ok(xs[k]);
      if k < |init| {
        assert init[k] == xs[k];
      }
    }
    if exists k :: 0 <= k < |init| && ok(init[k]) {
      var k :| 0 <= k < |init| && ok(init[k]);
      assert xs[k] == init[k];
    }
  }

  /** No key of the mapping is `404.html`, an `index.html`, or a name
      without the `.html` ending. */
  lemma MappingExcludes(entries: seq<Entry>, n: string)
    requires n in Keys(MappingOf(entries))
    ensures EndsWithCI(n, ".html") && n != "404.html" && Lower(Stem(n)) != "index"
  {
    MappingKeys(entries);
  }

  // ---- replaceInternalLinks ----

  /** The five replacements for one mapping entry, in the tool's order. */
  function RewriteLink(out: string, l: Link): (r: string)
  {
    var a := ReplaceAll(out, "/sr-me/" + l.file, l.clean);
    var b := ReplaceAll(a, "\"" + l.file + "\"", "\"" + l.clean + "\"");
    var c := ReplaceAll(b, "'" + l.file + "'", "'" + l.clean + "'");
    var d := ReplaceAll(c, "\"./" + l.file + "\"", "\"" + l.clean + "\"");
    ReplaceAll(d, "'./" + l.file + "'", "'" + l.clean + "'")
  }

  /** `replaceInternalLinks(html, mapping)`: the entries in map order. */
  function LinksReplaced(html: string, m: seq<Link>): (r: string)
    decreases |m|
  {
    if m == [] then html else RewriteLink(LinksReplaced(html, m[..|m| - 1]), m[|m| - 1])
  }

  /** The loop of `replaceInternalLinks`, reassigning `out`. */
  method ReplaceInternalLinks(html: string, mapping: seq<Link>) returns (out: string)
    ensures out == LinksReplaced(html, mapping)
  {
    out := html;
    var i := 0;
    while i < |mapping|
      invariant i <= |mapping|
      invariant out == LinksReplaced(html, mapping[..i])
    {
      assert mapping[..i + 1][..i] == mapping[..i];
      var l := mapping[i];
      out := ReplaceAll(out, "/sr-me/" + l.file, l.clean);
      out := ReplaceAll(out, "\"" + l.file + "\"", "\"" + l.clean + "\"");
      out := ReplaceAll(out, "'" + l.file + "'", "'" + l.clean + "'");
      out := ReplaceAll(out, "\"./" + l.file + "\"", "\"" + l.clean + "\"");
      out := ReplaceAll(out, "'./" + l.file + "'", "'" + l.clean + "'");
      i := i + 1;
    }
    assert mapping[..i] == mapping;
  }

  /** A pattern with a character the text lacks does not occur in it. */
  lemma AbsentByChar(s: string, p: string, c: char)
    requires c in p && c !in s
    ensures !Contains(s, p)
  {
    forall i | 0 <= i <= |s| - |p| ensures !OccursAt(s, p, i) {
      var j :| 0 <= j < |p| && p[j] == c;
      assert i + j < |s| ==> s[i + j] != c;
    }
  }

  /** A text without `x` has no pattern that holds `x`. */
  lemma AbsentPart(s: string, a: string, x: string, b: string)
    requires !Contains(s, x)
    ensures !Contains(s, a + x + b)
  {
    var p := a + x + b;
    forall i | 0 <= i <= |s| - |p| ensures !OccursAt(s, p, i) {
      assert !OccursAt(s, x, i + |a|);
      assert p[|a|..|a| + |x|] == x;
      if i + |p| <= |s| {
        SliceOfSlice(s, i, i + |p|, |a|, |a| + |x|);
      }
    }
  }

  /** Text in which none of the five spellings of an entry occurs is left
      as it is by that entry. */
  lemma RewriteLinkAbsent(out: string, l: Link)
    requires !Contains(out, "/sr-me/" + l.file)
    requires !Contains(out, "\"" + l.file + "\"") && !Contains(out, "'" + l.file + "'")
    requires !Contains(out, "\"./" + l.file + "\"") && !Contains(out, "'./" + l.file + "'")
    ensures RewriteLink(out, l) == out
  {
    ReplaceAllAbsent(out, "/sr-me/" + l.file, l.clean);
    ReplaceAllAbsent(out, "\"" + l.file + "\"", "\"" + l.clean + "\"");
    ReplaceAllAbsent(out, "'" + l.file + "'", "'" + l.clean + "'");
    ReplaceAllAbsent(out, "\"./" + l.file + "\"", "\"" + l.clean + "\"");
    ReplaceAllAbsent(out, "'./" + l.file + "'", "'" + l.clean + "'");
  }

  /** A page that names none of the mapped files keeps its text; with an
      empty mapping every page does. */
  lemma {:induction false} LinksUntouched(html: string, m: seq<Link>)
    requires forall i :: 0 <= i < |m| ==> !Contains(html, m[i].file)
    ensures LinksReplaced(html, m) == html
    decreases |m|
  {
    if m != [] {
      LinksUntouched(html, m[..|m| - 1]);
      var l := m[|m| - 1];
      AbsentPart(html, "/sr-me/", l.file, "");
      assert "/sr-me/" + l.file + "" == "/sr-me/" + l.file;
      AbsentPart(html, "\"", l.file, "\"");
      AbsentPart(html, "'", l.file, "'");
      AbsentPart(html, "\"./", l.file, "\"");
      AbsentPart(html, "'./", l.file, "'");
      RewriteLinkAbsent(html, l);
    }
  }

  /** After the first replacement, a text free of `.` is left alone by
      the other four, whose patterns hold the file name's `.`. */
  lemma RestAbsent(s: string, l: Link)
    requires '.' in l.file && '.' !in s
    ensures ReplaceAll(s, "\"" + l.file + "\"", "\"" + l.clean + "\"") == s
    ensures ReplaceAll(s, "'" + l.file + "'", "'" + l.clean + "'") == s
    ensures ReplaceAll(s, "\"./" + l.file + "\"", "\"" + l.clean + "\"") == s
    ensures ReplaceAll(s, "'./" + l.file + "'", "'" + l.clean + "'") == s
  {
    AbsentByChar(s, "\"" + l.file + "\"", '.');
    AbsentByChar(s, "'" + l.file + "'", '.');
    AbsentByChar(s, "\"./" + l.file + "\"", '.');
    AbsentByChar(s, "'./" + l.file + "'", '.');
    ReplaceAllAbsent(s, "\"" + l.file + "\"", "\"" + l.clean + "\"");
    ReplaceAllAbsent(s, "'" + l.file + "'", "'" + l.clean + "'");
    ReplaceAllAbsent(s, "\"./" + l.file + "\"", "\"" + l.clean + "\"");
    ReplaceAllAbsent(s, "'./" + l.file + "'", "'" + l.clean + "'");
  }

  /** An absolute link `/sr-me/Name.html` becomes the clean URL. */
  lemma AbsoluteLinkRewritten(stem: string)
    requires stem != [] && '/' !in stem
    ensures var l := Link(stem + ".html", CleanUrl(stem + ".html"));
      RewriteLink("/sr-me/" + l.file, l) == l.clean
  {
    var l := Link(stem + ".html", CleanUrl(stem + ".html"));
    HtmlName(stem);
    CleanUrlPlain(stem);
    WholeReplaced("/sr-me/" + l.file, l.clean);
    AbsentByChar(l.clean, "\"" + l.file + "\"", '.');
    ReplaceAllAbsent(l.clean, "\"" + l.file + "\"", "\"" + l.clean + "\"");
    RewriteLinkVia("/sr-me/" + l.file, l, l.clean, l.clean);
  }

  /** A quoted relative link `"Name.html"` becomes the quoted clean URL. */
  lemma QuotedLinkRewritten(stem: string)
    requires stem != [] && '/' !in stem
    ensures var l := Link(stem + ".html", CleanUrl(stem + ".html"));
      RewriteLink("\"" + l.file + "\"", l) == "\"" + l.clean + "\""
  {
    var l := Link(stem + ".html", CleanUrl(stem + ".html"));
    HtmlName(stem);
    CleanUrlPlain(stem);
    QuotedSteps(l);
  }

  /** `QuotedLinkRewritten` for a link whose name has a `.` and no `/`,
      and whose clean URL has neither a `.` nor a `"`. */
  lemma QuotedSteps(l: Link)
    requires '.' in l.file && '/' !in l.file
    requires '.' !in l.clean && '"' !in l.clean
    ensures RewriteLink("\"" + l.file + "\"", l) == "\"" + l.clean + "\""
  {
    var q := "\"" + l.file + "\"";
    var rep := "\"" + l.clean + "\"";
    assert '/' !in q;
    AbsentByChar(q, "/sr-me/" + l.file, '/');
    ReplaceAllAbsent(q, "/sr-me/" + l.file, l.clean);
    WholeReplaced(q, rep);
    assert '.' !in rep;
    RewriteLinkVia(q, l, q, rep);
  }

  /** The name `stem.html` holds a `.`, and a `/` only where `stem` does. */
  lemma HtmlName(stem: string)
    ensures '.' in stem + ".html"
    ensures '/' !in stem ==> '/' !in stem + ".html"
  {
    assert (stem + ".html")[|stem|] == '.';
  }

  /** A text that is the whole pattern is replaced by the replacement. */
  lemma WholeReplaced(p: string, rep: string)
    requires p != []
    ensures ReplaceAll(p, p, rep) == rep
  {
    ReplaceAllFront([], p, rep);
    assert p + [] == p;
    assert ReplaceAll([], p, rep) == [];
    assert rep + [] == rep;
  }

  /** `RewriteLink` through its first two replacements, `a` and then `b`:
      when `b` has no `.`, the last three leave it alone. */
  lemma RewriteLinkVia(out: string, l: Link, a: string, b: string)
    requires '.' in l.file && '.' !in b
    requires ReplaceAll(out, "/sr-me/" + l.file, l.clean) == a
    requires ReplaceAll(a, "\"" + l.file + "\"", "\"" + l.clean + "\"") == b
    ensures RewriteLink(out, l) == b
  {
    RestAbsent(b, l);
  }

  // ---- main ----

  /** `listSrRootHtmlFiles()`: the names of the files whose name ends with
      `.html` in any case, `404.html` excepted, in directory order. */
  function RootHtml(entries: seq<Entry>): (r: seq<string>)
    ensures forall n :: n in r <==> exists k :: 0 <= k < |entries| && entries[k].isFile && EndsWithCI(entries[k].name, ".html") && entries[k].name != "404.html" && entries[k].name == n
  {
    if entries == [] then []
    else
      var e := entries[0];
      var rest := RootHtml(entries[1..]);
      assert forall k :: 1 <= k < |entries| ==> entries[k] == entries[1..][k - 1];
      (if e.isFile && EndsWithCI(e.name, ".html") && e.name != "404.html" then [e.name] else []) + rest
  }

  /** Every mapped name is one of the root pages. */
  lemma MappedAreRoot(entries: seq<Entry>, n: string)
    requires n in Keys(MappingOf(entries))
    ensures n in RootHtml(entries)
  {
    MappingKeys(entries);
  }

  /** The pages the first loop passes over: `404.html` and any
      `index.html`. */
  predicate SkipClean(rel: string)
  {
    var name := Basename(rel, "");
    name == "404.html" || Lower(Stem(name)) == "index"
  }

  /** `cleanPath.replace(/^\/+/, "")`. */
  function DropLeadingSlashes(s: string): (r: string)
    ensures r == [] || r[0] != '/'
    ensures |r| <= |s| && r == s[|s| - |r|..]
  {
    if s != [] && s[0] == '/' then DropLeadingSlashes(s[1..]) else s
  }

  /** Where the clean copy of a root page is written, relative to the
      site folder: `path.join` collapses the doubled slash an empty slug
      leaves. */
  function CleanRel(rel: string): (r: string)
  {
    CollapseSlashes(DropLeadingSlashes(CleanUrl(rel)), false) + "index.html"
  }

  /** The clean copy of a root page: links rewritten, canonical link set
      to `SITE_BASE` + the clean URL, written to `<clean URL>index.html`
      under the site folder. */
  function CleanPage(p: Page, mapping: seq<Link>): (r: Page)
  {
    Page(CleanRel(p.rel), HeadMeta.UpsertCanonical(LinksReplaced(p.html, mapping), SiteBase + CleanUrl(p.rel)))
  }

  /** A string of slashes and a slug loses exactly its leading slash. */
  lemma DropLeadingSlash(slug: string)
    ensures DropLeadingSlashes("/sr-me/" + slug + "/") == "sr-me/" + slug + "/"
  {
    var x := "/sr-me/" + slug + "/";
    var y := "sr-me/" + slug + "/";
    assert x[1..] == y;
    DropOnce(x, y);
  }

  /** One leading slash before a text that does not start with one. */
  lemma DropOnce(x: string, y: string)
    requires x != [] && x[0] == '/' && x[1..] == y
    requires y != [] && y[0] != '/'
    ensures DropLeadingSlashes(x) == y
  {
  }

  /** The clean copy of a root page lives at `sr-me/<slug>/index.html`. */
  lemma CleanPagePath(stem: string, html: string, mapping: seq<Link>)
    requires stem != [] && '/' !in stem
    ensures var slug := Slug.SlugifyFolded(stem);
      CleanRel(stem + ".html") == "sr-me/" + (if slug == [] then [] else slug + "/") + "index.html"
  {
    CleanUrlOfName(stem);
    CleanRelOf(stem + ".html", Slug.SlugifyFolded(stem));
  }

  lemma CleanRelOf(rel: string, slug: string)
    requires Slug.IsSlug(slug) && CleanUrl(rel) == "/sr-me/" + slug + "/"
    ensures CleanRel(rel) == "sr-me/" + (if slug == [] then [] else slug + "/") + "index.html"
  {
    var d := "sr-me/" + slug + "/";
    var c := "sr-me/" + (if slug == [] then [] else slug + "/");
    DropLeadingSlash(slug);
    if slug == [] {
      CollapseEmptySlug(d);
    } else {
      CollapseSlugPath(slug, d);
    }
    CleanRelVia(rel, CleanUrl(rel), d, c);
  }

  lemma CleanRelVia(rel: string, u: string, d: string, c: string)
    requires u == CleanUrl(rel) && d == DropLeadingSlashes(u) && c == CollapseSlashes(d, false)
    ensures CleanRel(rel) == c + "index.html"
  {
  }

  /** An empty slug leaves `sr-me//`, which collapses to `sr-me/`. */
  lemma CollapseEmptySlug(d: string)
    requires d == "sr-me/" + [] + "/"
    ensures CollapseSlashes(d, false) == "sr-me/"
  {
    assert d == "sr-me" + "//";
    CollapsePlain("sr-me", "//", false);
    SchemeSlashes([]);
  }

  lemma CollapseSlugPath(slug: string, d: string)
    requires Slug.IsSlug(slug) && slug != [] && d == "sr-me/" + slug + "/"
    ensures CollapseSlashes(d, false) == "sr-me/" + (slug + "/")
  {
    SlugPathSingle(slug);
    CollapseFixed(d, false);
  }

  /** A folder path around a non-empty slug has no doubled slash. */
  lemma SlugPathSingle(slug: string)
    requires Slug.IsSlug(slug) && slug != []
    ensures NoDoubleSlash("sr-me/" + slug + "/")
  {
    var x := "sr-me/" + slug + "/";
    forall i | 0 <= i < |x| - 1 ensures !(x[i] == '/' && x[i + 1] == '/') {
      if i == 5 {
        assert x[6] == slug[0];
      } else if i > 5 {
        assert x[i] == slug[i - 6];
      }
    }
  }

  lemma SiteBasePlain()
    ensures '>' !in SiteBase
  {
  }

  /** The first canonical link of the clean copy is the tag for its
      address, `SITE_BASE` + the clean URL. */
  lemma CleanPageCanonical(stem: string, html: string, mapping: seq<Link>)
    requires stem != [] && '/' !in stem
    ensures var q := CleanPage(Page(stem + ".html", html), mapping);
      var url := SiteBase + CleanUrl(stem + ".html");
      FirstTagIs(q.html, HeadMeta.CanonicalPattern(), CanonicalTag(url), UpsertPos(LinksReplaced(html, mapping), HeadMeta.CanonicalPattern()))
  {
    CleanUrlPlain(stem);
    SiteBasePlain();
    var url := SiteBase + CleanUrl(stem + ".html");
    assert '>' !in url;
    HeadMeta.UpsertCanonicalFinds(LinksReplaced(html, mapping), url);
  }

  /** The first loop: a clean copy for every root page but `index.html`,
      counted in `created`. */
  method CreateCleanPages(pages: seq<Page>, mapping: seq<Link>) returns (written: seq<Page>, created: nat)
    ensures written == WrittenBy(pages, SkipClean, p => CleanPage(p, mapping))
    ensures created == |written| && created + SkippedBy(pages, SkipClean) == |pages|
  {
    var skipped;
    written, created, skipped := RunPages(pages, SkipClean, p => CleanPage(p, mapping));
  }

  /** The root pages the second loop writes back: those other than
      `404.html` whose links change. */
  predicate RootChanged(p: Page, mapping: seq<Link>)
  {
    Basename(p.rel, "") != "404.html" && LinksReplaced(p.html, mapping) != p.html
  }

  function RootKept(mapping: seq<Link>): Page -> bool {
    (p: Page) => RootChanged(p, mapping)
  }

  /** A root page with its links replaced. */
  function RootFixed(mapping: seq<Link>): Page -> Page {
    (p: Page) => Page(p.rel, LinksReplaced(p.html, mapping))
  }

  /** The pages the second loop writes, with their new text, in order. */
  function RootUpdates(pages: seq<Page>, mapping: seq<Link>): (r: seq<Page>)
  {
    Seqs.FilterMap(pages, RootKept(mapping), RootFixed(mapping))
  }

  /** A root page is written back exactly when its links change: what is
      written is its new text under its own name; every other page is
      left alone. */
  lemma RootUpdatesChanged(pages: seq<Page>, mapping: seq<Link>)
    ensures forall q :: q in RootUpdates(pages, mapping) ==>
      exists p :: p in pages && q.rel == p.rel && q.html == LinksReplaced(p.html, mapping) && q.html != p.html
    ensures forall p :: p in pages && Basename(p.rel, "") != "404.html" && LinksReplaced(p.html, mapping) != p.html ==>
      Page(p.rel, LinksReplaced(p.html, mapping)) in RootUpdates(pages, mapping)
  {
    var keep, fix := RootKept(mapping), RootFixed(mapping);
    forall q | q in RootUpdates(pages, mapping)
      ensures exists p :: p in pages && q.rel == p.rel && q.html == LinksReplaced(p.html, mapping) && q.html != p.html
    {
      Seqs.FilterMapMembers(pages, keep, fix, q);
      var i :| 0 <= i < |pages| && keep(pages[i]) && q == fix(pages[i]);
      assert pages[i] in pages;
    }
    forall p | p in pages && RootChanged(p, mapping)
      ensures Page(p.rel, LinksReplaced(p.html, mapping)) in RootUpdates(pages, mapping)
    {
      var i :| 0 <= i < |pages| && pages[i] == p;
      Seqs.FilterMapMembers(pages, keep, fix, fix(p));
    }
  }

  /** The second loop, counting `updatedRoot`. */
  method UpdateRootPages(pages: seq<Page>, mapping: seq<Link>) returns (written: seq<Page>, updatedRoot: nat)
    ensures written == RootUpdates(pages, mapping) && updatedRoot == |written|
  {
    written := [];
    updatedRoot := 0;
    var i := 0;
    while i < |pages|
      invariant i <= |pages|
      invariant written == RootUpdates(pages[..i], mapping) && updatedRoot == |written|
    {
      assert pages[..i + 1][..i] == pages[..i];
      var p := pages[i];
      var newHtml := ReplaceInternalLinks(p.html, mapping);
      if Basename(p.rel, "") != "404.html" && newHtml != p.html {
        written := written + [Page(p.rel, newHtml)];
        updatedRoot := updatedRoot + 1;
      }
      i := i + 1;
    }
    assert pages[..i] == pages;
  }
}
