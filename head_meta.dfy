/** tools/fix-head-meta.mjs: for every `index.html` page, the `lang` of
    the two key Montenegrin pages is fixed, and inside the head the bare
    domain is moved to the `www` host, the canonical link and the robots,
    `og:` and `twitter:` metas are upserted, and repeated charset and
    viewport metas and runs of blank lines are removed. */
module HeadMeta {
  import opened Text
  import opened Markup
  import opened Finders
  import opened PageMeta
  import Escape

  /** `DEFAULT_OG_IMAGE`. */
  const DefaultOgImage := Base + "/studio83logo.png"

  /** `LANG_FIX_PATHS`. */
  const LangFixPaths: set<string> := {"/sr-me/usluge/", "/sr-me/poslovi/"}

  // ---- the tags written ----

  /** ` key="v" />`, what follows `<elem attr="value"` in a written tag. */
  function AttrTail(key: string, v: string): (r: string)
  {
    " " + key + "=\"" + v + "\" />"
  }

  /** `<elem attr="value" key="v" />`. */
  function SetTag(p: TagPattern, key: string, v: string): (r: string)
  {
    Opening(p) + AttrTail(key, v)
  }

  lemma Cat5Avoids(a: string, b: string, c: string, d: string, e: string, x: char)
    requires x !in a && x !in b && x !in c && x !in d && x !in e
    ensures x !in a + b + c + d + e
  {
  }

  /** The tail ends with its only `>`. */
  lemma AttrTailShape(key: string, v: string)
    requires '>' !in key && '>' !in v
    ensures var t := AttrTail(key, v); t != [] && t[|t| - 1] == '>' && '>' !in t[..|t| - 1]
  {
    var t := AttrTail(key, v);
    var x := " " + key + "=\"" + v + "\" /";
    assert "\" />" == "\" /" + ">";
    assert t == x + ">";
    Cat5Avoids(" ", key, "=\"", v, "\" /", '>');
    assert t[..|t| - 1] == x;
  }

  /** A written tag is, as a whole, a match of its own pattern when its
      value holds no `>`. */
  lemma SetTagMatches(p: TagPattern, key: string, v: string)
    requires WellFormed(p) && '>' !in key && '>' !in v
    ensures TagLen(SetTag(p, key, v), p) == Some(|SetTag(p, key, v)|)
  {
    AttrTailShape(key, v);
    TagMatchesItself(SetTag(p, key, v), p, AttrTail(key, v));
  }

  /** `<meta\s+attr=["']value["'][^>]*>`. */
  function Meta(attr: string, value: string): TagPattern {
    TagPattern("meta", attr, value)
  }

  /** `<link\s+rel=["']canonical["'][^>]*>`. */
  function CanonicalPattern(): TagPattern {
    TagPattern("link", "rel", "canonical")
  }

  /** The meta patterns a name and a value made of name characters give
      are well formed. */
  lemma MetaWellFormed(attr: string, value: string)
    requires attr != [] && 'a' <= attr[0] <= 'z'
    requires forall i :: 0 <= i < |attr| ==> NameChar(attr[i])
    requires forall i :: 0 <= i < |value| ==> NameChar(value[i])
    ensures WellFormed(Meta(attr, value))
  {
    NameFromChars("meta");
    NameFromChars(attr);
    NameFromChars(value);
  }

  lemma CanonicalWellFormed()
    ensures WellFormed(CanonicalPattern())
  {
    NameFromChars("link");
    NameFromChars("rel");
    NameFromChars("canonical");
  }

  // ---- upsertTag and its wrappers ----

  /** `upsertTag(h, /<meta\s+attr=["']value["'][^>]*>/i, <meta attr="value" content="v" />)`. */
  function UpsertMeta(h: string, p: TagPattern, v: string): (r: string)
  {
    UpsertTag(h, p, SetTag(p, "content", v))
  }

  /** After a meta upsert the first match of the pattern is the written
      tag, and upserting again changes nothing, when the value holds no
      `>`. */
  lemma UpsertMetaFinds(h: string, p: TagPattern, v: string)
    requires WellFormed(p) && '>' !in v
    ensures FirstTagIs(UpsertMeta(h, p, v), p, SetTag(p, "content", v), UpsertPos(h, p))
    ensures UpsertMeta(UpsertMeta(h, p, v), p, v) == UpsertMeta(h, p, v)
  {
    SetTagMatches(p, "content", v);
    UpsertTagFinds(h, p, SetTag(p, "content", v));
    UpsertTagIdempotent(h, p, SetTag(p, "content", v));
  }

  /** `UpsertMetaFinds` for a text known to be the upsert's result. */
  lemma UpsertMetaFindsVia(r: string, h: string, p: TagPattern, v: string)
    requires WellFormed(p) && '>' !in v && r == UpsertMeta(h, p, v)
    ensures FirstTagIs(r, p, SetTag(p, "content", v), UpsertPos(h, p))
  {
    UpsertMetaFinds(h, p, v);
  }

  /** `upsertCanonical(h, canonical)`. */
  function UpsertCanonical(h: string, c: string): (r: string)
  {
    UpsertTag(h, CanonicalPattern(), SetTag(CanonicalPattern(), "href", c))
  }

  /** The canonical link written is the first canonical link afterwards,
      and upserting again changes nothing, when the URL holds no `>`. */
  lemma UpsertCanonicalFinds(h: string, c: string)
    requires '>' !in c
    ensures FirstTagIs(UpsertCanonical(h, c), CanonicalPattern(), SetTag(CanonicalPattern(), "href", c), UpsertPos(h, CanonicalPattern()))
    ensures UpsertCanonical(UpsertCanonical(h, c), c) == UpsertCanonical(h, c)
  {
    CanonicalWellFormed();
    var p := CanonicalPattern();
    SetTagMatches(p, "href", c);
    UpsertTagFinds(h, p, SetTag(p, "href", c));
    UpsertTagIdempotent(h, p, SetTag(p, "href", c));
  }

  function RobotsPattern(): TagPattern { Meta("name", "robots") }
  function OgUrlPattern(): TagPattern { Meta("property", "og:url") }
  function TwitterCardPattern(): TagPattern { Meta("name", "twitter:card") }
  function OgTitlePattern(): TagPattern { Meta("property", "og:title") }
  function OgDescriptionPattern(): TagPattern { Meta("property", "og:description") }
  function TwitterTitlePattern(): TagPattern { Meta("name", "twitter:title") }
  function TwitterDescriptionPattern(): TagPattern { Meta("name", "twitter:description") }
  function TwitterImagePattern(): TagPattern { Meta("name", "twitter:image") }
  function OgImagePattern(): TagPattern { Meta("property", "og:image") }

  /** `upsertRobots(h)`. */
  function UpsertRobots(h: string): (r: string)
  {
    UpsertMeta(h, RobotsPattern(), "index,follow")
  }

  /** `upsertOgUrl(h, canonical)`. */
  function UpsertOgUrl(h: string, c: string): (r: string)
  {
    UpsertMeta(h, OgUrlPattern(), c)
  }

  /** `upsertTwitterCard(h)`. */
  function UpsertTwitterCard(h: string): (r: string)
  {
    UpsertMeta(h, TwitterCardPattern(), "summary_large_image")
  }

  /** The robots meta is the first match of its pattern afterwards, and a
      second upsert changes nothing. */
  lemma RobotsFinds(h: string)
    ensures FirstTagIs(UpsertRobots(h), RobotsPattern(), SetTag(RobotsPattern(), "content", "index,follow"), UpsertPos(h, RobotsPattern()))
    ensures UpsertRobots(UpsertRobots(h)) == UpsertRobots(h)
  {
    MetaWellFormed("name", "robots");
    UpsertMetaFinds(h, RobotsPattern(), "index,follow");
  }

  /** The same for the `og:url` meta of a URL without `>`. */
  lemma OgUrlFinds(h: string, c: string)
    requires '>' !in c
    ensures FirstTagIs(UpsertOgUrl(h, c), OgUrlPattern(), SetTag(OgUrlPattern(), "content", c), UpsertPos(h, OgUrlPattern()))
    ensures UpsertOgUrl(UpsertOgUrl(h, c), c) == UpsertOgUrl(h, c)
  {
    MetaWellFormed("property", "og:url");
    UpsertMetaFinds(h, OgUrlPattern(), c);
  }

  /** The same for the Twitter card meta. */
  lemma TwitterCardFinds(h: string)
    ensures FirstTagIs(UpsertTwitterCard(h), TwitterCardPattern(), SetTag(TwitterCardPattern(), "content", "summary_large_image"), UpsertPos(h, TwitterCardPattern()))
    ensures UpsertTwitterCard(UpsertTwitterCard(h)) == UpsertTwitterCard(h)
  {
    MetaWellFormed("name", "twitter:card");
    UpsertMetaFinds(h, TwitterCardPattern(), "summary_large_image");
  }

  /** The four text wrappers: nothing happens for empty text, otherwise
      the escaped text is upserted. */
  function UpsertText(h: string, p: TagPattern, text: string): (r: string)
  {
    if text == "" then h else UpsertMeta(h, p, Escape.HtmlAttr(text))
  }

  /** `upsertOgTitle(h, title)`. */
  function UpsertOgTitle(h: string, title: string): (r: string)
  {
    UpsertText(h, OgTitlePattern(), title)
  }

  /** `upsertOgDescription(h, desc)`. */
  function UpsertOgDescription(h: string, desc: string): (r: string)
  {
    UpsertText(h, OgDescriptionPattern(), desc)
  }

  /** `upsertTwitterTitle(h, title)`. */
  function UpsertTwitterTitle(h: string, title: string): (r: string)
  {
    UpsertText(h, TwitterTitlePattern(), title)
  }

  /** `upsertTwitterDescription(h, desc)`. */
  function UpsertTwitterDescription(h: string, desc: string): (r: string)
  {
    UpsertText(h, TwitterDescriptionPattern(), desc)
  }

  /** Empty text leaves the head as it is; otherwise the tag written holds
      the escaped text, which decodes back to the text, is the first match
      of its pattern afterwards, and a second upsert changes nothing. */
  lemma UpsertTextFacts(h: string, p: TagPattern, text: string)
    requires WellFormed(p)
    ensures text == "" ==> UpsertText(h, p, text) == h
    ensures text != "" ==> FirstTagIs(UpsertText(h, p, text), p, SetTag(p, "content", Escape.HtmlAttr(text)), UpsertPos(h, p))
    ensures UpsertText(UpsertText(h, p, text), p, text) == UpsertText(h, p, text)
    ensures Escape.UnescapeHtml(Escape.HtmlAttr(text)) == text
  {
    Escape.EscapesAreCharwise(text);
    Escape.UnescapeEscape(text);
    if text != "" {
      UpsertMetaFinds(h, p, Escape.HtmlAttr(text));
    }
  }

  /** The patterns of the four text wrappers are well formed. */
  lemma TextPatternsWellFormed()
    ensures WellFormed(OgTitlePattern()) && WellFormed(OgDescriptionPattern())
    ensures WellFormed(TwitterTitlePattern()) && WellFormed(TwitterDescriptionPattern())
  {
    MetaWellFormed("property", "og:title");
    MetaWellFormed("property", "og:description");
    MetaWellFormed("name", "twitter:title");
    MetaWellFormed("name", "twitter:description");
  }

  /** `upsertTwitterImage(h, imgUrl)`: the image, or the default one,
      normalised to the `www` host. */
  function UpsertTwitterImage(h: string, img: string): (r: string)
  {
    UpsertMeta(h, TwitterImagePattern(), NormalizeToWwwAbsolute(if img == "" then DefaultOgImage else img))
  }

  /** The default image is already a normalised `www` URL. */
  lemma DefaultOgImageNormal()
    ensures NormalizeToWwwAbsolute(DefaultOgImage) == DefaultOgImage
  {
    BaseTailTrimmed("/studio83logo.png", 0);
    assert "/studio83logo.png"[0..] == "/studio83logo.png";
    NormalizeKeepsWww("/studio83logo.png");
  }

  lemma Cat4Avoids(a: string, b: string, c: string, d: string, x: char)
    requires x !in a && x !in b && x !in c && x !in d
    ensures x !in a + b + c + d
  {
  }

  /** The default image holds no `>` and is not empty. */
  lemma DefaultOgImageNoGt()
    ensures '>' !in DefaultOgImage && DefaultOgImage != ""
  {
    assert '>' !in Scheme && '>' !in Host && '>' !in "//" && '>' !in "/studio83logo.png";
    Cat4Avoids(Scheme, "//", Host, "/studio83logo.png", '>');
  }

  /** The Twitter image the tool writes is normalised, and without an
      image it is the default one. */
  lemma TwitterImageValue(img: string)
    ensures var v := NormalizeToWwwAbsolute(if img == "" then DefaultOgImage else img);
      && NormalizeToWwwAbsolute(v) == v
      && (img == "" ==> v == DefaultOgImage)
  {
    NormalizeIdempotent(if img == "" then DefaultOgImage else img);
    if img == "" {
      DefaultOgImageNormal();
    }
  }

  /** After the upsert the first `twitter:image` meta is the written tag,
      when the image given holds no `>` once normalised. */
  lemma TwitterImageFinds(h: string, img: string, v: string)
    requires img != "" && v == NormalizeToWwwAbsolute(img) && '>' !in v
    ensures FirstTagIs(UpsertTwitterImage(h, img), TwitterImagePattern(), SetTag(TwitterImagePattern(), "content", v), UpsertPos(h, TwitterImagePattern()))
  {
    TwitterImageWellFormed();
    TwitterImageIs(h, img, v);
    UpsertMetaFindsVia(UpsertTwitterImage(h, img), h, TwitterImagePattern(), v);
  }

  lemma TwitterImageWellFormed()
    ensures WellFormed(TwitterImagePattern())
  {
    MetaWellFormed("name", "twitter:image");
  }

  lemma TwitterImageIs(h: string, img: string, v: string)
    requires img != "" && v == NormalizeToWwwAbsolute(img)
    ensures UpsertTwitterImage(h, img) == UpsertMeta(h, TwitterImagePattern(), v)
  {
  }

  /** Without an image, the default image is written. */
  lemma TwitterImageDefault(h: string)
    ensures UpsertTwitterImage(h, "") == UpsertMeta(h, TwitterImagePattern(), DefaultOgImage)
  {
    DefaultOgImageNormal();
  }

  // ---- fixOrAddOgImage ----

  /** The image `fixOrAddOgImage` writes: the one of the first `og:image`
      meta (property first, then content first), else the default,
      normalised. */
  function OgImageChoice(head: string): (r: string)
  {
    var existing :=
      match FirstGroup(head, OgImageKeyFirst)
      case Some(g) => g
      case None =>
        match FirstGroup(head, OgImageValueFirst)
        case Some(g) => g
        case None => "";
    NormalizeToWwwAbsolute(if existing == "" then DefaultOgImage else existing)
  }

  /** `fixOrAddOgImage(head)`: the first match of the first expression
      that matches gives way to the new tag; without either, the tag is
      upserted over `<meta\s+property=["']og:image["'][^>]*>`. */
  function FixOrAddOgImage(head: string): (r: string)
  {
    var tag := SetTag(OgImagePattern(), "content", OgImageChoice(head));
    if First(head, OgImageKeyFirst).Some? then ReplaceMatch(head, OgImageKeyFirst, tag)
    else if First(head, OgImageValueFirst).Some? then ReplaceMatch(head, OgImageValueFirst, tag)
    else UpsertTag(head, OgImagePattern(), tag)
  }

  /** The image written is already normalised: normalising it again
      changes nothing. */
  lemma OgImageNormal(head: string)
    ensures NormalizeToWwwAbsolute(OgImageChoice(head)) == OgImageChoice(head)
  {
    var existing :=
      match FirstGroup(head, OgImageKeyFirst)
      case Some(g) => g
      case None =>
        match FirstGroup(head, OgImageValueFirst)
        case Some(g) => g
        case None => "";
    NormalizeIdempotent(if existing == "" then DefaultOgImage else existing);
  }

  /** Without any `og:image` meta the default image is upserted. */
  lemma OgImageDefault(head: string)
    requires First(head, OgImageKeyFirst).None? && First(head, OgImageValueFirst).None?
    ensures OgImageChoice(head) == DefaultOgImage
    ensures FixOrAddOgImage(head) == UpsertMeta(head, OgImagePattern(), DefaultOgImage)
  {
    DefaultOgImageNormal();
  }

  /** With an existing `og:image` meta only that tag changes: the text
      before and after the first match stays. */
  lemma OgImageReplaces(head: string, m: Found)
    requires First(head, OgImageKeyFirst) == Some(m)
      || (First(head, OgImageKeyFirst).None? && First(head, OgImageValueFirst) == Some(m))
    ensures FixOrAddOgImage(head) == head[..m.at] + SetTag(OgImagePattern(), "content", OgImageChoice(head)) + head[m.at + m.hit.len..]
  {
    var tag := SetTag(OgImagePattern(), "content", OgImageChoice(head));
    OgImageFixed(head, tag);
    if First(head, OgImageKeyFirst).Some? {
      ReplaceMatchAt(head, OgImageKeyFirst, tag, m);
    } else {
      ReplaceMatchAt(head, OgImageValueFirst, tag, m);
    }
  }

  /** `FixOrAddOgImage` with its tag named. */
  lemma OgImageFixed(head: string, tag: string)
    requires tag == SetTag(OgImagePattern(), "content", OgImageChoice(head))
    ensures FixOrAddOgImage(head) ==
      if First(head, OgImageKeyFirst).Some? then ReplaceMatch(head, OgImageKeyFirst, tag)
      else if First(head, OgImageValueFirst).Some? then ReplaceMatch(head, OgImageValueFirst, tag)
      else UpsertTag(head, OgImagePattern(), tag)
  {
  }

  // ---- fixHtmlLang ----

  /** `<html$1 lang="sr-ME"$2>`: the tag `h` matched at the start of `t`
      with its `lang` value replaced. */
  function LangTag(t: string, h: Hit): (r: string)
    requires 5 <= h.cap.start <= h.cap.end < h.len <= |t|
  {
    "<html" + t[5..h.cap.start] + " lang=\"sr-ME\"" + t[h.cap.end..h.len - 1] + ">"
  }

  /** The tag matched by `LangF` at the start of `t` rewritten, followed by
      the rest of `t`. */
  function FixLangTag(t: string): (r: string)
  {
    match LangAt(t)
    case None => t
    case Some(h) => LangTag(t, h) + t[h.len..]
  }

  /** `fixHtmlLang(html, canonicalPath)`. */
  function FixHtmlLang(html: string, path: string): (r: string)
  {
    if path !in LangFixPaths then html
    else
      match First(html, LangF)
      case None => html
      case Some(m) => html[..m.at] + FixLangTag(html[m.at..])
  }

  /** Pages other than the two listed, and pages without a
      `<html … lang="sr" …>` tag, are left as they are. */
  lemma FixHtmlLangKeeps(html: string, path: string)
    ensures path !in LangFixPaths ==> FixHtmlLang(html, path) == html
    ensures First(html, LangF).None? ==> FixHtmlLang(html, path) == html
  {
  }

  /** On the two listed pages only the first `<html … lang="sr" …>` tag
      changes: its `lang` value becomes `sr-ME`, the attributes before and
      after it stay, and so does the text around the tag. */
  lemma FixHtmlLangRewrites(html: string, path: string)
    requires path in LangFixPaths && First(html, LangF).Some?
    ensures var m := First(html, LangF).value;
      && 5 <= m.hit.cap.start && m.hit.cap.end < m.hit.len
      && FixHtmlLang(html, path) == html[..m.at] + LangTag(html[m.at..], m.hit) + html[m.at + m.hit.len..]
  {
    var m := First(html, LangF).value;
    var t := html[m.at..];
    FirstFound(html, LangF);
    assert At(t, LangF) == LangAt(t);
    assert t[m.hit.len..] == html[m.at + m.hit.len..];
    Assoc3(html[..m.at], LangTag(t, m.hit), t[m.hit.len..]);
  }

  lemma Assoc3(a: string, b: string, c: string)
    ensures a + (b + c) == a + b + c
  {
  }

  // ---- normalizeDomainsInHead ----

  /** `normalizeDomainsInHead(head)`. */
  function NormalizeDomainsInHead(head: string): (r: string)
  {
    ReplaceAll(ReplaceAll(head, BareHttps, Base), BareHttp, Base)
  }

  /** A head that does not name the bare domain is left as it is. */
  lemma NormalizeDomainsAbsent(head: string)
    requires !Contains(head, BareHttps) && !Contains(head, BareHttp)
    ensures NormalizeDomainsInHead(head) == head
  {
    ReplaceAllAbsent(head, BareHttps, Base);
    ReplaceAllAbsent(head, BareHttp, Base);
  }

  /** The bare domains and `BASE` start with `h` and hold it nowhere else. */
  lemma DomainLeads()
    ensures LeadUnique(BareHttps) && LeadUnique(BareHttp)
    ensures Base != [] && Base[0] == 'h' && forall i :: 0 < i < |Base| ==> Base[i] != 'h'
    ensures 8 < |Base| && Base[8] != BareHttps[8] && Base[4] != BareHttp[4]
  {
    BaseLead();
    assert LeadUnique("https://sindikatstudio83.me");
    assert LeadUnique("http://sindikatstudio83.me");
  }

  lemma BaseLead()
    ensures LeadUnique(Base) && |Base| == 31 && Base[4] == 's' && Base[8] == 'w'
  {
    var b := "https://www.sindikatstudio83.me";
    assert Base == b;
    assert LeadUnique(b);
  }

  /** After `normalizeDomainsInHead` the head names neither bare domain:
      every occurrence is replaced by `BASE`, and the replacements create
      no new one. */
  lemma NormalizeDomainsRemoves(head: string)
    ensures !Contains(NormalizeDomainsInHead(head), BareHttps)
    ensures !Contains(NormalizeDomainsInHead(head), BareHttp)
  {
    DomainLeads();
    var h1 := ReplaceAll(head, BareHttps, Base);
    ReplaceAllLeavesNone(head, BareHttps, Base, BareHttps, 8);
    ReplaceAllLeavesNone(h1, BareHttp, Base, BareHttps, 8);
    ReplaceAllLeavesNone(h1, BareHttp, Base, BareHttp, 4);
  }

  /** A bare domain at the front of the head becomes `BASE`. */
  lemma NormalizeDomainsFront(rest: string)
    ensures StartsWith(NormalizeDomainsInHead(BareHttps + rest), Base)
  {
    var x := ReplaceAll(rest, BareHttps, Base);
    ReplaceAllFront(rest, BareHttps, Base);
    DomainLeads();
    assert (Base + x)[..|BareHttp|][4] != BareHttp[4];
    ReplaceAllMiss(Base + x, BareHttp, Base);
    assert (Base + x)[1..] == Base[1..] + x;
    assert BareHttp[0] !in Base[1..];
    ReplaceAllSkip(Base[1..], x, BareHttp, Base);
    assert [Base[0]] + Base[1..] == Base;
  }

  // ---- dedupeHeadMeta ----

  /** Matches that do not overlap and are not empty, left to right,
      between `i` and `n`. */
  predicate Ordered(ms: seq<Found>, i: nat, n: nat)
    decreases |ms|
  {
    ms == [] || (i <= ms[0].at && 0 < ms[0].hit.len && ms[0].at + ms[0].hit.len <= n && Ordered(ms[1..], ms[0].at + ms[0].hit.len, n))
  }

  /** The matches of `f` a global replace visits from `i` on: each search
      resumes at the end of the previous match. */
  function Matches(s: string, f: Finder, i: nat): (r: seq<Found>)
    requires i <= |s|
    decreases |s| - i
    ensures Ordered(r, i, |s|)
  {
    match FirstFrom(s, f, i)
    case None => []
    case Some(m) => [m] + Matches(s, f, m.at + m.hit.len)
  }

  /** A replace over the matches `ms` whose callback keeps a match only
      when none was kept before (`seen`) and deletes it otherwise; the
      text between matches stays. */
  function Splice(s: string, ms: seq<Found>, i: nat, seen: bool): (r: string)
    requires i <= |s| && Ordered(ms, i, |s|)
    decreases |ms|
  {
    if ms == [] then s[i..]
    else
      var e := ms[0].at + ms[0].hit.len;
      s[i..ms[0].at] + (if seen then [] else s[ms[0].at..e]) + Splice(s, ms[1..], e, true)
  }

  /** The first match of `f` stays, later ones go. */
  function KeepFirst(s: string, f: Finder): (r: string)
  {
    Splice(s, Matches(s, f, 0), 0, false)
  }

  /** One step of `Splice`: the text before the first match, the match
      unless one was kept already, then the rest. */
  lemma SpliceAt(s: string, ms: seq<Found>, i: nat, seen: bool, piece: string, rest: string)
    requires i <= |s| && Ordered(ms, i, |s|) && ms != []
    requires piece == s[i..ms[0].at] + (if seen then [] else s[ms[0].at..ms[0].at + ms[0].hit.len])
    requires rest == Splice(s, ms[1..], ms[0].at + ms[0].hit.len, true)
    ensures Splice(s, ms, i, seen) == piece + rest
  {
  }

  /** The replace with its `seen` flag, as the tool runs it: the callback
      is called on each match in turn. */
  method KeepFirstMatch(s: string, f: Finder) returns (r: string)
    ensures r == KeepFirst(s, f)
  {
    var ms := Matches(s, f, 0);
    r := SpliceMatches(s, ms);
  }

  /** The callback loop over the matches `ms`, from the start of `s`. */
  method SpliceMatches(s: string, ms: seq<Found>) returns (r: string)
    requires Ordered(ms, 0, |s|)
    ensures r == Splice(s, ms, 0, false)
  {
    r := [];
    var i: nat := 0;
    var k: nat := 0;
    var seen := false;
    while k < |ms|
      invariant k <= |ms| && i <= |s| && Ordered(ms[k..], i, |s|)
      invariant r + Splice(s, ms[k..], i, seen) == Splice(s, ms, 0, false)
      decreases |ms| - k
    {
      var m := ms[k];
      var e := m.at + m.hit.len;
      var piece := s[i..m.at] + (if seen then [] else s[m.at..e]);
      assert ms[k..][1..] == ms[k + 1..];
      var rest := Splice(s, ms[k + 1..], e, true);
      SpliceAt(s, ms[k..], i, seen, piece, rest);
      Assoc3(r, piece, rest);
      r := r + piece;
      seen := true;
      i := e;
      k := k + 1;
    }
    assert ms[k..] == [];
    r := r + s[i..];
  }

  /** The matches from `i` start with the one `FirstFrom` finds, and the
      rest are the matches after it. */
  lemma MatchesFirst(s: string, f: Finder, i: nat, m: Found)
    requires i <= |s| && FirstFrom(s, f, i) == Some(m)
    ensures Matches(s, f, i) == [m] + Matches(s, f, m.at + m.hit.len)
  {
  }

  /** Without a match there is nothing to visit. */
  lemma MatchesNone(s: string, f: Finder, i: nat)
    requires i <= |s| && FirstFrom(s, f, i).None?
    ensures Matches(s, f, i) == []
  {
  }

  /** Without a match, nothing changes. */
  lemma KeepFirstNone(s: string, f: Finder)
    requires First(s, f).None?
    ensures KeepFirst(s, f) == s
  {
    MatchesNone(s, f, 0);
    assert s[0..] == s;
  }

  /** With a match, the text up to the end of the first one is kept and,
      after it, later matches are deleted and the text between them is
      kept. */
  lemma SpliceFirst(s: string, ms: seq<Found>)
    requires Ordered(ms, 0, |s|) && ms != []
    ensures var e := ms[0].at + ms[0].hit.len;
      Splice(s, ms, 0, false) == s[..e] + Splice(s, ms[1..], e, true)
  {
    var e := ms[0].at + ms[0].hit.len;
    assert s[0..ms[0].at] + s[ms[0].at..e] == s[..e];
    SpliceAt(s, ms, 0, false, s[..e], Splice(s, ms[1..], e, true));
  }

  /** After the first match, matches are deleted: what is left is never
      longer than the rest of the input, shorter when a match is left,
      and the rest itself when none is. */
  lemma {:induction false} SpliceDrops(s: string, ms: seq<Found>, i: nat)
    requires i <= |s| && Ordered(ms, i, |s|)
    ensures |Splice(s, ms, i, true)| <= |s| - i
    ensures ms == [] ==> Splice(s, ms, i, true) == s[i..]
    ensures ms != [] ==> |Splice(s, ms, i, true)| < |s| - i
    decreases |ms|
  {
    if ms != [] {
      SpliceDrops(s, ms[1..], ms[0].at + ms[0].hit.len);
    }
  }

  /** `s.replace(/\n{3,}/g, "\n\n")`. */
  function CollapseNewlines(s: string): (r: string)
    decreases |s|
    ensures (r != [] && r[0] == '\n') <==> (s != [] && s[0] == '\n')
  {
    if s == [] then []
    else if s[0] != '\n' then [s[0]] + CollapseNewlines(s[1..])
    else
      var e := NewlineRun(s, 0);
      (if e >= 3 then "\n\n" else s[..e]) + CollapseNewlines(s[e..])
  }

  /** The end of the run of line breaks that starts at `i`. */
  function NewlineRun(s: string, i: nat): (r: nat)
    requires i <= |s|
    decreases |s| - i
    ensures i <= r <= |s| && (r < |s| ==> s[r] != '\n')
    ensures forall k :: i <= k < r ==> s[k] == '\n'
  {
    if i < |s| && s[i] == '\n' then NewlineRun(s, i + 1) else i
  }

  /** No three line breaks in a row. */
  predicate NoTriple(s: string)
    decreases |s|
  {
    |s| < 3 || (!(s[0] == '\n' && s[1] == '\n' && s[2] == '\n') && NoTriple(s[1..]))
  }

  /** A short run of line breaks followed by text that does not start
      with one keeps the property. */
  lemma {:induction false} NoTripleRun(a: string, b: string)
    requires |a| <= 2 && forall k :: 0 <= k < |a| ==> a[k] == '\n'
    requires NoTriple(b) && (b == [] || b[0] != '\n')
    ensures NoTriple(a + b)
    decreases |a|
  {
    if a != [] {
      NoTripleRun(a[1..], b);
      assert (a + b)[1..] == a[1..] + b;
      if |a + b| >= 3 {
        assert |a| < 3;
        assert !((a + b)[0] == '\n' && (a + b)[1] == '\n' && (a + b)[2] == '\n') by {
          if |a| == 1 { assert (a + b)[1] == b[0]; }
          if |a| == 2 { assert (a + b)[2] == b[0]; }
        }
      }
    } else {
      assert a + b == b;
    }
  }

  /** A character other than a line break in front keeps the property. */
  lemma NoTripleCons(c: char, b: string)
    requires c != '\n' && NoTriple(b)
    ensures NoTriple([c] + b)
  {
    assert ([c] + b)[1..] == b;
  }

  /** After collapsing, no three line breaks are left in a row. */
  lemma {:induction false} CollapseNewlinesNoTriple(s: string)
    ensures NoTriple(CollapseNewlines(s))
    decreases |s|
  {
    if s != [] {
      if s[0] != '\n' {
        CollapseNewlinesNoTriple(s[1..]);
        NoTripleCons(s[0], CollapseNewlines(s[1..]));
      } else {
        var e := NewlineRun(s, 0);
        CollapseNewlinesNoTriple(s[e..]);
        var a: string := if e >= 3 then "\n\n" else s[..e];
        NoTripleRun(a, CollapseNewlines(s[e..]));
      }
    }
  }

  /** Text with no three line breaks in a row is left as it is, so
      collapsing twice is collapsing once. */
  lemma {:induction false} CollapseNewlinesFixed(s: string)
    requires NoTriple(s)
    ensures CollapseNewlines(s) == s
    decreases |s|
  {
    if s != [] {
      if s[0] != '\n' {
        assert NoTriple(s[1..]) by { NoTripleTail(s, 1); }
        CollapseNewlinesFixed(s[1..]);
        assert s == [s[0]] + s[1..];
      } else {
        var e := NewlineRun(s, 0);
        assert |s| >= 3 ==> !(s[0] == '\n' && s[1] == '\n' && s[2] == '\n');
        assert e < 3;
        NoTripleTail(s, e);
        CollapseNewlinesFixed(s[e..]);
        assert s == s[..e] + s[e..];
      }
    }
  }

  /** Every suffix of a text without three line breaks in a row has none
      either. */
  lemma {:induction false} NoTripleTail(s: string, k: nat)
    requires NoTriple(s) && k <= |s|
    ensures NoTriple(s[k..])
    decreases k
  {
    if k > 0 {
      if |s| >= 3 {
        NoTripleTail(s[1..], k - 1);
        assert s[1..][k - 1..] == s[k..];
      }
    } else {
      assert s[0..] == s;
    }
  }

  const Viewport := MetaWithF("name", "viewport")

  /** `dedupeHeadMeta(head)`. */
  function DedupeHeadMeta(head: string): (r: string)
  {
    CollapseNewlines(KeepFirst(KeepFirst(head, CharsetF), Viewport))
  }

  /** The two replaces with their flags, then the collapse. */
  method Dedupe(head: string) returns (r: string)
    ensures r == DedupeHeadMeta(head)
    ensures NoTriple(r)
  {
    var once := KeepFirstMatch(head, CharsetF);
    var twice := KeepFirstMatch(once, Viewport);
    r := CollapseNewlines(twice);
    CollapseNewlinesNoTriple(twice);
  }

  /** The de-duplicated head has no three line breaks in a row, and
      collapsing it again changes nothing. */
  lemma DedupeNoTriple(head: string)
    ensures NoTriple(DedupeHeadMeta(head))
    ensures CollapseNewlines(DedupeHeadMeta(head)) == DedupeHeadMeta(head)
  {
    var t := KeepFirst(KeepFirst(head, CharsetF), Viewport);
    CollapseNewlinesNoTriple(t);
    CollapseNewlinesFixed(CollapseNewlines(t));
  }

  // ---- the head and the page ----

  /** The steps `main` runs over the head, in order. */
  function HeadChain(head: string, canonical: string): (r: string)
  {
    var h1 := NormalizeDomainsInHead(head);
    var h2 := UpsertTwitterCard(UpsertOgUrl(UpsertRobots(UpsertCanonical(h1, canonical)), canonical));
    var h3 := FixOrAddOgImage(h2);
    var title := GetTitle(h3);
    var desc := GetDescription(h3);
    var h4 := UpsertTwitterDescription(UpsertTwitterTitle(UpsertOgDescription(UpsertOgTitle(h3, title), desc), title), desc);
    DedupeHeadMeta(UpsertTwitterImage(h4, DefaultOgImage))
  }

  /** The new head never has three line breaks in a row. */
  lemma HeadChainNoTriple(head: string, canonical: string)
    ensures NoTriple(HeadChain(head, canonical))
  {
    var h1 := NormalizeDomainsInHead(head);
    var h2 := UpsertTwitterCard(UpsertOgUrl(UpsertRobots(UpsertCanonical(h1, canonical)), canonical));
    var h3 := FixOrAddOgImage(h2);
    var h4 := UpsertTwitterDescription(UpsertTwitterTitle(UpsertOgDescription(UpsertOgTitle(h3, GetTitle(h3)), GetDescription(h3)), GetTitle(h3)), GetDescription(h3));
    DedupeNoTriple(UpsertTwitterImage(h4, DefaultOgImage));
  }

  /** The canonical URL of a page, with its trailing slash. */
  function CanonicalOf(rel: string): (r: string)
  {
    EnsureSlash(ToCanonicalFromFile(rel))
  }

  /** One page's new text. */
  function FixPage(p: Page): (r: Page)
  {
    var canonical := CanonicalOf(p.rel);
    var html := FixHtmlLang(p.html, PathOf(canonical));
    Page(p.rel, WithHead(html, h => HeadChain(h, canonical)))
  }

  /** `main`: the loop over the pages with its two counters. Every page
      but the templates is written, fixed, in order. */
  method FixHeads(pages: seq<Page>) returns (written: seq<Page>, changed: nat, skipped: nat)
    ensures written == WrittenBy(pages, ShouldSkipFile, FixPage)
    ensures changed == |written| && skipped == SkippedBy(pages, ShouldSkipFile)
    ensures changed + skipped == |pages|
  {
    written, changed, skipped := RunPages(pages, ShouldSkipFile, FixPage);
  }
}
