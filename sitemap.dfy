/** tools/generate-sitemap.mjs: walk the site's files, map every HTML
    file to its URL, drop the URLs that must not be listed, remove
    duplicates, sort, and write the `<urlset>` document. The directory
    tree is a value (names, kinds and modification dates) instead of the
    file system, and the document is returned instead of written. */
module Sitemap {
  import opened Text
  import opened Escape
  import Seqs
  import Sorting

  const BaseUrl: string := "https://www.sindikatstudio83.me"

  // ---- the walk ----

  /** A directory entry: a file with its modification date (the
      `YYYY-MM-DD` of its mtime), a directory, or anything else. */
  datatype FsEntry =
    | File(name: string, mdate: string)
    | Dir(name: string, children: seq<FsEntry>)
    | Other(name: string)

  /** A collected file: its path below the root, one name per level. */
  datatype Found = Found(path: seq<string>, lastmod: string)

  const SkipDirs: set<string> := {".git", ".github", "node_modules", "tools", "_templates"}

  /** The file names `walk` keeps: `.html` in any case, except `404.html`. */
  predicate Collected(name: string) {
    EndsWithCI(name, ".html") && name != "404.html"
  }

  /** The files found in a directory placed under `name`. */
  function Under(name: string, fs: seq<Found>): (r: seq<Found>)
    ensures |r| == |fs|
    ensures forall i :: 0 <= i < |fs| ==> r[i] == Found([name] + fs[i].path, fs[i].lastmod)
  {
    seq(|fs|, i requires 0 <= i < |fs| => Found([name] + fs[i].path, fs[i].lastmod))
  }

  /** What `walk` collects from a list of entries, in their order. */
  function WalkFiles(es: seq<FsEntry>): (r: seq<Found>)
    decreases es
  {
    if es == [] then []
    else WalkEntry(es[0]) + WalkFiles(es[1..])
  }

  function WalkEntry(e: FsEntry): (r: seq<Found>)
    decreases e
  {
    match e
    case File(n, d) => if Collected(n) then [Found([n], d)] else []
    case Dir(n, cs) => if n in SkipDirs then [] else Under(n, WalkFiles(cs))
    case Other(_) => []
  }

  /** A path `walk` may return: an HTML file that is not `404.html`, in
      no skipped directory at any depth. */
  predicate WalkablePath(p: seq<string>) {
    |p| >= 1 && Collected(p[|p| - 1]) && forall i :: 0 <= i < |p| - 1 ==> p[i] !in SkipDirs
  }

  /** Everything `walk` returns is an HTML file other than `404.html`, and
      no skipped directory is ever entered. */
  lemma {:induction false} WalkSound(es: seq<FsEntry>)
    ensures forall f :: f in WalkFiles(es) ==> WalkablePath(f.path)
    decreases es
  {
    if es != [] {
      WalkEntrySound(es[0]);
      WalkSound(es[1..]);
    }
  }

  lemma {:induction false} WalkEntrySound(e: FsEntry)
    ensures forall f :: f in WalkEntry(e) ==> WalkablePath(f.path)
    decreases e
  {
    if e.Dir? && e.name !in SkipDirs {
      var sub := WalkFiles(e.children);
      WalkSound(e.children);
      forall f | f in WalkEntry(e) ensures WalkablePath(f.path) {
        var i :| 0 <= i < |sub| && f == Under(e.name, sub)[i];
        assert sub[i] in sub;
        var p := sub[i].path;
        assert f.path == [e.name] + p;
        assert f.path[|f.path| - 1] == p[|p| - 1];
        forall k | 0 <= k < |f.path| - 1 ensures f.path[k] !in SkipDirs {
          if k > 0 {
            assert f.path[k] == p[k - 1];
          }
        }
      }
    }
  }

  /** The tree `es` holds a file at `p` (one name per level) dated `d`. */
  predicate InTree(es: seq<FsEntry>, p: seq<string>, d: string)
    decreases es
  {
    es != [] && (InEntry(es[0], p, d) || InTree(es[1..], p, d))
  }

  predicate InEntry(e: FsEntry, p: seq<string>, d: string)
    decreases e
  {
    match e
    case File(n, md) => p == [n] && d == md
    case Dir(n, cs) => |p| >= 2 && p[0] == n && InTree(cs, p[1..], d)
    case Other(_) => false
  }

  /** Every HTML file other than `404.html` outside the skipped
      directories is collected, with its date. */
  lemma {:induction false} WalkComplete(es: seq<FsEntry>, p: seq<string>, d: string)
    requires InTree(es, p, d) && WalkablePath(p)
    ensures Found(p, d) in WalkFiles(es)
    decreases es
  {
    if InEntry(es[0], p, d) {
      WalkEntryComplete(es[0], p, d);
    } else {
      WalkComplete(es[1..], p, d);
    }
  }

  lemma {:induction false} WalkEntryComplete(e: FsEntry, p: seq<string>, d: string)
    requires InEntry(e, p, d) && WalkablePath(p)
    ensures Found(p, d) in WalkEntry(e)
    decreases e
  {
    if e.Dir? {
      var q := p[1..];
      forall i | 0 <= i < |q| - 1 ensures q[i] !in SkipDirs {
        assert q[i] == p[i + 1];
      }
      assert q[|q| - 1] == p[|p| - 1];
      WalkComplete(e.children, q, d);
      var sub := WalkFiles(e.children);
      var i :| 0 <= i < |sub| && sub[i] == Found(q, d);
      assert [e.name] + q == p;
      assert Under(e.name, sub)[i] == Found(p, d);
    }
  }

  /** `walk`: the loop over a directory's entries, recursing into the
      directories that are not skipped. */
  method Walk(es: seq<FsEntry>) returns (files: seq<Found>)
    ensures files == WalkFiles(es)
    decreases es
  {
    files := [];
    var i := 0;
    while i < |es|
      invariant 0 <= i <= |es|
      invariant files + WalkFiles(es[i..]) == WalkFiles(es)
    {
      var e := es[i];
      ghost var before := files;
      ghost var rest := WalkFiles(es[i + 1..]);
      assert es[i..][1..] == es[i + 1..];
      assert WalkFiles(es[i..]) == WalkEntry(e) + rest;
      match e {
        case Dir(n, cs) =>
          if n !in SkipDirs {
            var sub := Walk(cs);
            files := files + Under(n, sub);
          }
        case File(n, d) =>
          if Collected(n) {
            files := files + [Found([n], d)];
          }
        case Other(_) =>
      }
      assert files == before + WalkEntry(e);
      Text.SeqAssoc(before, WalkEntry(e), rest);
      i := i + 1;
    }
    assert es[i..] == [];
  }

  // ---- file to URL ----

  /** The path of a file relative to the root, as `fileToUrl` maps it:
      `x/index.html` to `x/`, the root `index.html` to nothing. */
  function UrlPathOf(rel: string): (r: string)
  {
    if EndsWithCI(rel, "/index.html") then rel[..|rel| - |"/index.html"|] + "/"
    else if Lower(rel) == "index.html" then []
    else rel
  }

  /** `fileToUrl` of a path below the root. */
  function FileToUrl(rel: string): (r: string)
    ensures StartsWith(r, BaseUrl + "/")
    ensures NoDoubleSlash(r[|BaseUrl|..])
  {
    var p := CollapseSlashes("/" + UrlPathOf(MapChar(rel, '\\', "/")), false);
    assert (BaseUrl + p)[|BaseUrl|..] == p;
    BaseUrl + p
  }

  /** `x/index.html`, in any case, is the folder URL `x/`, and the root
      `index.html` is the site's root URL. */
  lemma FileToUrlIndex(x: string, tail: string)
    requires Lower(tail) == "/index.html"
    requires '\\' !in x + tail
    requires NoDoubleSlash("/" + x + "/") && (x == [] || x[0] != '/')
    ensures FileToUrl(x + tail) == BaseUrl + "/" + x + "/"
  {
    var rel := x + tail;
    MapCharFree(rel, '\\', "/");
    UrlPathOfIndex(x, tail);
    var q := "/" + (x + "/");
    assert q == "/" + x + "/";
    CollapseFixed(q, false);
    assert FileToUrl(rel) == BaseUrl + q;
  }

  lemma UrlPathOfIndex(x: string, tail: string)
    requires Lower(tail) == "/index.html"
    ensures UrlPathOf(x + tail) == x + "/"
  {
    var rel := x + tail;
    assert rel[|rel| - |tail|..] == tail;
    assert rel[..|rel| - |"/index.html"|] == x;
  }

  lemma FileToUrlRoot(name: string)
    requires Lower(name) == "index.html" && '\\' !in name
    ensures FileToUrl(name) == BaseUrl + "/"
  {
    MapCharFree(name, '\\', "/");
    assert !EndsWithCI(name, "/index.html");
    assert "/" + [] == "/";
  }

  // ---- URLs left out ----

  /** The index of the last `/` of `s`, or -1. */
  function LastSlash(s: string): (r: int)
    ensures -1 <= r < |s|
    ensures r >= 0 ==> s[r] == '/'
    ensures forall i :: r < i < |s| ==> s[i] != '/'
  {
    if s == [] then -1
    else if s[|s| - 1] == '/' then |s| - 1
    else LastSlash(s[..|s| - 1])
  }

  /** The regular expression `/\/sr-me\/[^\/]+\.html$/i`: the URL ends
      with `/sr-me/`, a non-empty name without `/`, and `.html`. */
  ghost predicate LegacySrMePage(url: string) {
    exists k :: OccursAtCI(url, "/sr-me/", k) && EndsWithCI(url, ".html")
      && k + 7 < |url| - 5 && forall i :: k + 7 <= i < |url| - 5 ==> url[i] != '/'
  }

  /** The matcher `shouldSkipUrl` runs for that expression: the last `/`
      before `.html` must close a `/sr-me/`. */
  predicate LegacySrMeMatch(url: string) {
    EndsWithCI(url, ".html")
    && var u := url[..|url| - 5];
    var j := LastSlash(u);
    j >= 6 && j + 1 < |u| && OccursAtCI(url, "/sr-me/", j - 6)
  }

  lemma LegacySrMeMatchCorrect(url: string)
    ensures LegacySrMeMatch(url) <==> LegacySrMePage(url)
  {
    if LegacySrMeMatch(url) {
      MatchIsPage(url);
    }
    if LegacySrMePage(url) {
      var k :| OccursAtCI(url, "/sr-me/", k) && EndsWithCI(url, ".html")
        && k + 7 < |url| - 5 && forall i :: k + 7 <= i < |url| - 5 ==> url[i] != '/';
      PageIsMatch(url, k);
    }
  }

  lemma MatchIsPage(url: string)
    requires LegacySrMeMatch(url)
    ensures LegacySrMePage(url)
  {
    var u := url[..|url| - 5];
    var j := LastSlash(u);
    assert forall i :: j + 1 <= i < |url| - 5 ==> url[i] == u[i];
    assert OccursAtCI(url, "/sr-me/", j - 6);
  }

  lemma PageIsMatch(url: string, k: int)
    requires OccursAtCI(url, "/sr-me/", k) && EndsWithCI(url, ".html")
    requires k + 7 < |url| - 5 && forall i :: k + 7 <= i < |url| - 5 ==> url[i] != '/'
    ensures LegacySrMeMatch(url)
  {
    var u := url[..|url| - 5];
    OccursAtCIChar(url, "/sr-me/", k, k + 6);
    assert url[k + 6] == '/';
    assert u[k + 6] == '/';
    assert forall i :: k + 6 < i < |u| ==> u[i] != '/';
    assert LastSlash(u) == k + 6;
  }

  /** `shouldSkipUrl`. */
  predicate ShouldSkipUrl(url: string) {
    || Contains(url, "/sr-me/blog/%3Cslug%3E/")
    || Contains(url, "/sr-me/blog/<slug>/")
    || LegacySrMeMatch(url)
    || Contains(url, "/_templates/")
  }

  // ---- the entries ----

  datatype UrlEntry = UrlEntry(loc: string, lastmod: string)

  function EntryOf(f: Found): (r: UrlEntry) {
    UrlEntry(FileToUrl(Join(f.path, "/")), f.lastmod)
  }

  /** The two filters of `main`: no `/test/` and not skipped. */
  predicate Listed(loc: string) {
    !Contains(loc, "/test/") && !ShouldSkipUrl(loc)
  }

  function Keep(): Found -> bool {
    f => Listed(EntryOf(f).loc)
  }

  function ToEntry(): Found -> UrlEntry {
    f => EntryOf(f)
  }

  /** `entries` of `main`. */
  function Entries(fs: seq<Found>): (r: seq<UrlEntry>)
  {
    Seqs.FilterMap(fs, Keep(), ToEntry())
  }

  /** An entry is kept exactly when it is the entry of a found file and its
      URL passes both filters. */
  lemma EntriesMembers(fs: seq<Found>, e: UrlEntry)
    ensures e in Entries(fs) <==> exists i :: 0 <= i < |fs| && Listed(EntryOf(fs[i]).loc) && e == EntryOf(fs[i])
  {
    Seqs.FilterMapMembers(fs, Keep(), ToEntry(), e);
  }

  // ---- de-duplication ----

  function Locs(s: seq<UrlEntry>): (r: set<string>)
  {
    set i | 0 <= i < |s| :: s[i].loc
  }

  /** The first entry of every location not in `seen`, in order. */
  function DedupSeen(s: seq<UrlEntry>, seen: set<string>): (r: seq<UrlEntry>)
    ensures |r| <= |s|
  {
    if s == [] then []
    else if s[0].loc in seen then DedupSeen(s[1..], seen)
    else [s[0]] + DedupSeen(s[1..], seen + {s[0].loc})
  }

  function Dedup(s: seq<UrlEntry>): (r: seq<UrlEntry>) {
    DedupSeen(s, {})
  }

  /** `x` is `s` with some elements left out. */
  predicate IsSubseq<T(==)>(x: seq<T>, s: seq<T>)
    decreases |s|
  {
    if x == [] then true
    else if s == [] then false
    else (x[0] == s[0] && IsSubseq(x[1..], s[1..])) || IsSubseq(x, s[1..])
  }

  lemma {:induction false} DedupSubseq(s: seq<UrlEntry>, seen: set<string>)
    ensures IsSubseq(DedupSeen(s, seen), s)
  {
    if s != [] {
      if s[0].loc in seen {
        DedupSubseq(s[1..], seen);
      } else {
        var rest := DedupSeen(s[1..], seen + {s[0].loc});
        DedupSubseq(s[1..], seen + {s[0].loc});
        assert ([s[0]] + rest)[1..] == rest;
      }
    }
  }

  /** The kept entries come from `s` and their locations are new. */
  lemma {:induction false} DedupSound(s: seq<UrlEntry>, seen: set<string>)
    ensures forall e :: e in DedupSeen(s, seen) ==> e.loc !in seen && e in s
  {
    if s != [] {
      if s[0].loc in seen {
        DedupSound(s[1..], seen);
      } else {
        DedupSound(s[1..], seen + {s[0].loc});
      }
    }
  }

  /** At most one kept entry has a given location, and none has a location
      in `seen`. */
  lemma {:induction false} DedupAtMostOne(s: seq<UrlEntry>, seen: set<string>, k: string)
    ensures |Sorting.WithKey(DedupSeen(s, seen), LocKey, k)| <= if k in seen then 0 else 1
  {
    if s != [] {
      if s[0].loc in seen {
        DedupAtMostOne(s[1..], seen, k);
      } else {
        var rest := DedupSeen(s[1..], seen + {s[0].loc});
        DedupAtMostOne(s[1..], seen + {s[0].loc}, k);
        assert ([s[0]] + rest)[1..] == rest;
      }
    }
  }

  /** An entry's location is among the locations of its list. */
  lemma {:induction false} WithKeyHas(s: seq<UrlEntry>, j: nat)
    requires j < |s|
    ensures |Sorting.WithKey(s, LocKey, s[j].loc)| >= 1
  {
    WithLocCons(s, s[j].loc);
    if j > 0 {
      WithKeyHas(s[1..], j - 1);
    }
  }

  /** One step of counting the entries at location `k`. */
  lemma WithLocCons(s: seq<UrlEntry>, k: string)
    requires s != []
    ensures |Sorting.WithKey(s, LocKey, k)| == (if s[0].loc == k then 1 else 0) + |Sorting.WithKey(s[1..], LocKey, k)|
  {
  }

  /** Two entries with one location make that location occur twice. */
  lemma {:induction false} WithKeyTwice(s: seq<UrlEntry>, i: nat, j: nat)
    requires i < j < |s|
    ensures s[i].loc == s[j].loc ==> |Sorting.WithKey(s, LocKey, s[i].loc)| >= 2
  {
    WithLocCons(s, s[i].loc);
    if i > 0 {
      WithKeyTwice(s[1..], i - 1, j - 1);
    } else {
      WithKeyHas(s[1..], j - 1);
    }
  }

  /** The first entry of every location not in `seen` is kept. */
  lemma {:induction false} DedupKeepsFirst(s: seq<UrlEntry>, seen: set<string>, i: nat)
    requires i < |s| && s[i].loc !in seen
    requires forall j :: 0 <= j < i ==> s[j].loc != s[i].loc
    ensures s[i] in DedupSeen(s, seen)
  {
    if i > 0 {
      var seen' := if s[0].loc in seen then seen else seen + {s[0].loc};
      DedupKeepsFirst(s[1..], seen', i - 1);
    }
  }

  /** Every location of `s` not in `seen` keeps an entry. */
  lemma {:induction false} DedupCovers(s: seq<UrlEntry>, seen: set<string>, e: UrlEntry)
    requires e in s && e.loc !in seen
    ensures e.loc in Locs(DedupSeen(s, seen))
  {
    if s[0].loc in seen {
      assert e in s[1..];
      DedupCovers(s[1..], seen, e);
    } else {
      var rest := DedupSeen(s[1..], seen + {s[0].loc});
      var r := [s[0]] + rest;
      if s[0].loc == e.loc {
        assert r[0].loc == e.loc;
      } else {
        assert e in s[1..];
        DedupCovers(s[1..], seen + {s[0].loc}, e);
        var i :| 0 <= i < |rest| && rest[i].loc == e.loc;
        assert r[i + 1].loc == e.loc;
      }
    }
  }

  /** The loop of `main` with its `seen` set and `unique` array. */
  method Dedupe(s: seq<UrlEntry>) returns (unique: seq<UrlEntry>)
    ensures unique == Dedup(s)
  {
    var seen: set<string> := {};
    unique := [];
    var i := 0;
    while i < |s|
      invariant 0 <= i <= |s|
      invariant unique + DedupSeen(s[i..], seen) == Dedup(s)
    {
      var e := s[i];
      assert s[i..][1..] == s[i + 1..];
      if e.loc in seen {
        i := i + 1;
        continue;
      }
      seen := seen + {e.loc};
      unique := unique + [e];
      i := i + 1;
    }
    assert s[i..] == [];
  }

  // ---- the document ----

  const Header: string := "<?xml version=\"1.0\" encoding=\"UTF-8\"?>\n"
    + "<urlset xmlns=\"http://www.sitemaps.org/schemas/sitemap/0.9\">\n"
  const Footer: string := "</urlset>\n"

  /** One `<url>` block; the `<lastmod>` line only for a date. */
  function UrlBlock(e: UrlEntry): (r: string)
  {
    "  <url>\n    <loc>" + Xml(e.loc) + "</loc>\n"
      + (if e.lastmod != [] then "    <lastmod>" + e.lastmod + "</lastmod>\n" else [])
      + "  </url>\n"
  }

  function Body(es: seq<UrlEntry>): (r: string)
  {
    if es == [] then [] else UrlBlock(es[0]) + Body(es[1..])
  }

  /** `buildSitemap`. */
  function BuildSitemap(es: seq<UrlEntry>): (r: string)
    ensures StartsWith(r, Header) && EndsWith(r, Footer)
  {
    var r := Header + Body(es) + Footer;
    assert r[..|Header|] == Header;
    assert r[|r| - |Footer|..] == Footer;
    r
  }

  /** The document is the header, the entries' blocks, and the footer. */
  lemma BuildSitemapLayout(es: seq<UrlEntry>)
    ensures BuildSitemap(es) == Header + Body(es) + Footer
  {
  }

  /** No entries give no blocks; one entry gives its own block. */
  lemma BodyOne(e: UrlEntry)
    ensures Body([]) == []
    ensures Body([e]) == UrlBlock(e)
  {
    assert [e][1..] == [];
  }

  /** One block per entry, in order: the block of entry `i` is written
      right after the header and the blocks of the entries before it. */
  lemma BlockAt(es: seq<UrlEntry>, i: nat)
    requires i < |es|
    ensures var at := |Header| + |Body(es[..i])|;
      at + |UrlBlock(es[i])| <= |BuildSitemap(es)|
      && BuildSitemap(es)[at..at + |UrlBlock(es[i])|] == UrlBlock(es[i])
  {
    BodySplit(es, i);
    BuildSitemapLayout(es);
    BlockIn(Header, Body(es[..i]), UrlBlock(es[i]), Body(es[i + 1..]), Footer, Body(es), BuildSitemap(es));
  }

  /** The body is the blocks before entry `i`, its block, and the rest. */
  lemma BodySplit(es: seq<UrlEntry>, i: nat)
    requires i < |es|
    ensures Body(es) == Body(es[..i]) + (UrlBlock(es[i]) + Body(es[i + 1..]))
  {
    var tail := es[i..];
    assert es[..i] + tail == es;
    BodyAppend(es[..i], tail);
    assert tail[0] == es[i] && tail[1..] == es[i + 1..];
    BodyCons(tail);
  }

  lemma BodyCons(es: seq<UrlEntry>)
    requires es != []
    ensures Body(es) == UrlBlock(es[0]) + Body(es[1..])
  {
  }

  lemma BlockIn(h: string, f: string, b: string, r: string, z: string, body: string, d: string)
    requires body == f + (b + r) && d == h + body + z
    ensures |h| + |f| + |b| <= |d| && d[|h| + |f|..|h| + |f| + |b|] == b
  {
    assert d == (h + f) + b + (r + z);
  }

  /** The blocks follow the entries' order: the body of two lists is the
      two bodies one after the other. */
  lemma {:induction false} BodyAppend(a: seq<UrlEntry>, b: seq<UrlEntry>)
    ensures Body(a + b) == Body(a) + Body(b)
  {
    if a != [] {
      assert (a + b)[1..] == a[1..] + b;
      BodyAppend(a[1..], b);
    } else {
      assert a + b == b;
    }
  }

  /** The location is written escaped, so it holds no raw `<`, `>`, `"` or
      `'`; the date line is there exactly when there is a date. */
  lemma UrlBlockShape(e: UrlEntry)
    ensures var x := Xml(e.loc);
      '<' !in x && '>' !in x && '"' !in x && '\'' !in x
    ensures e.lastmod != [] ==> Contains(UrlBlock(e), "    <lastmod>" + e.lastmod + "</lastmod>\n")
    ensures e.lastmod != [] ==>
      UrlBlock(e) == "  <url>\n    <loc>" + Xml(e.loc) + "</loc>\n" + "    <lastmod>" + e.lastmod + "</lastmod>\n" + "  </url>\n"
    ensures e.lastmod == [] ==> UrlBlock(e) == "  <url>\n    <loc>" + Xml(e.loc) + "</loc>\n  </url>\n"
  {
    XmlClean(e.loc);
    if e.lastmod != [] {
      var a := "  <url>\n    <loc>" + Xml(e.loc) + "</loc>\n";
      var m := "    <lastmod>" + e.lastmod + "</lastmod>\n";
      UrlBlockSplit(e, a, m);
      InfixContained(UrlBlock(e), a, m, "  </url>\n");
    }
  }

  lemma XmlClean(loc: string)
    ensures var x := Xml(loc);
      '<' !in x && '>' !in x && '"' !in x && '\'' !in x
  {
    EscapesAreCharwise(loc);
  }

  lemma UrlBlockSplit(e: UrlEntry, a: string, m: string)
    requires e.lastmod != []
    requires a == "  <url>\n    <loc>" + Xml(e.loc) + "</loc>\n"
    requires m == "    <lastmod>" + e.lastmod + "</lastmod>\n"
    ensures UrlBlock(e) == a + m + "  </url>\n"
  {
  }

  /** The middle part of a concatenation occurs in it. */
  lemma InfixContained(b: string, a: string, m: string, z: string)
    requires b == a + m + z
    ensures Contains(b, m)
  {
    assert b[|a|..|a| + |m|] == m;
    assert OccursAt(b, m, |a|);
  }

  // ---- main ----

  function LocKey(e: UrlEntry): string {
    e.loc
  }

  /** The entries `main` writes. */
  function SitemapEntries(root: seq<FsEntry>): (r: seq<UrlEntry>)
  {
    Sorting.SortBy(Dedup(Entries(WalkFiles(root))), LocKey, false)
  }

  /** The sitemap is in ascending order of location. */
  lemma SitemapSorted(root: seq<FsEntry>)
    ensures Sorting.Sorted(SitemapEntries(root), LocKey, false)
  {
    Sorting.SortByCorrect(Dedup(Entries(WalkFiles(root))), LocKey, false);
  }

  /** The sitemap lists only entries of found files whose locations pass
      both filters. */
  lemma SitemapSound(root: seq<FsEntry>)
    ensures forall e :: e in SitemapEntries(root) ==> e in Entries(WalkFiles(root)) && Listed(e.loc)
  {
    var fs := WalkFiles(root);
    var d := Dedup(Entries(fs));
    var r := SitemapEntries(root);
    Sorting.SortByCorrect(d, LocKey, false);
    DedupSound(Entries(fs), {});
    forall e | e in r ensures e in Entries(fs) && Listed(e.loc) {
      assert e in multiset(r);
      assert e in d;
      EntriesMembers(fs, e);
    }
  }

  /** The sitemap lists exactly the locations of the kept entries. */
  lemma SitemapLocs(root: seq<FsEntry>)
    ensures Locs(SitemapEntries(root)) == Locs(Entries(WalkFiles(root)))
  {
    var es := Entries(WalkFiles(root));
    var d := Dedup(es);
    var r := SitemapEntries(root);
    Sorting.SortByCorrect(d, LocKey, false);
    DedupSound(es, {});
    forall l | l in Locs(r) ensures l in Locs(es) {
      var i :| 0 <= i < |r| && r[i].loc == l;
      assert r[i] in multiset(r);
      var j :| 0 <= j < |es| && es[j] == r[i];
    }
    forall l | l in Locs(es) ensures l in Locs(r) {
      var i :| 0 <= i < |es| && es[i].loc == l;
      DedupCovers(es, {}, es[i]);
      var j :| 0 <= j < |d| && d[j].loc == l;
      assert d[j] in multiset(d);
      var k :| 0 <= k < |r| && r[k] == d[j];
    }
  }

  /** Every collected file whose URL passes both filters is listed. */
  lemma SitemapComplete(root: seq<FsEntry>, p: seq<string>, d: string)
    requires InTree(root, p, d) && WalkablePath(p) && Listed(FileToUrl(Join(p, "/")))
    ensures FileToUrl(Join(p, "/")) in Locs(SitemapEntries(root))
  {
    var fs := WalkFiles(root);
    WalkComplete(root, p, d);
    var i :| 0 <= i < |fs| && fs[i] == Found(p, d);
    var e := EntryOf(fs[i]);
    EntriesMembers(fs, e);
    var es := Entries(fs);
    var j :| 0 <= j < |es| && es[j] == e;
    SitemapLocs(root);
  }

  /** The sitemap lists each location once. */
  lemma SitemapDistinct(root: seq<FsEntry>)
    ensures var r := SitemapEntries(root);
      forall i, j :: 0 <= i < j < |r| ==> r[i].loc != r[j].loc
  {
    var d := Dedup(Entries(WalkFiles(root)));
    var r := SitemapEntries(root);
    Sorting.SortByCorrect(d, LocKey, false);
    forall i, j | 0 <= i < j < |r| ensures r[i].loc != r[j].loc {
      DedupAtMostOne(Entries(WalkFiles(root)), {}, r[i].loc);
      WithKeyTwice(r, i, j);
    }
  }

  /** `main` after the walk: the entries, the de-duplication, the sort in
      place by location, ascending, and the document. */
  method Generate(root: seq<FsEntry>) returns (xml: string)
    ensures xml == BuildSitemap(SitemapEntries(root))
  {
    var files := Walk(root);
    var entries := Entries(files);
    var unique := Dedupe(entries);
    var a := new UrlEntry[|unique|](i requires 0 <= i < |unique| => unique[i]);
    assert a[..] == unique;
    Sorting.SortInPlace(a, LocKey, false);
    xml := BuildSitemap(a[..]);
  }
}
