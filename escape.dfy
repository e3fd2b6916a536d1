/** Escaping text for HTML attributes and XML: `escapeHtmlAttr` of
    tools/generate-blog.mjs (the same chain as `escapeAttr` of
    tools/fix-head-meta.mjs), `esc` of Pages/scripts/sheet_cms.py and
    `escapeXml` of tools/generate-sitemap.mjs. Each is a chain of
    replace-all calls; because `&` is replaced first, each chain is the
    same as escaping character by character. */
module Escape {
  import opened Text

  /** The HTML attribute escape of one character. */
  function HtmlChar(c: char): (r: string)
  {
    if c == '&' then "&amp;"
    else if c == '"' then "&quot;"
    else if c == '<' then "&lt;"
    else if c == '>' then "&gt;"
    else [c]
  }

  /** The XML escape of one character. */
  function XmlChar(c: char): (r: string)
  {
    if c == '\'' then "&apos;" else HtmlChar(c)
  }

  /** Character-by-character HTML escaping: the reference definition. */
  function EachHtml(s: string): (r: string)
    ensures '"' !in r && '<' !in r && '>' !in r
  {
    if s == [] then [] else HtmlChar(s[0]) + EachHtml(s[1..])
  }

  /** Character-by-character XML escaping. */
  function EachXml(s: string): (r: string)
    ensures '"' !in r && '<' !in r && '>' !in r && '\'' !in r
  {
    if s == [] then [] else XmlChar(s[0]) + EachXml(s[1..])
  }

  /** `escapeHtmlAttr(s)` / `escapeAttr(s)`: `&`, `"`, `<`, `>` in that order. */
  function HtmlAttr(s: string): (r: string)
  {
    ReplaceAll(ReplaceAll(ReplaceAll(ReplaceAll(s, "&", "&amp;"), "\"", "&quot;"), "<", "&lt;"), ">", "&gt;")
  }

  /** `esc(s)`: `&`, `<`, `>`, `"` in that order. */
  function PyEsc(s: string): (r: string)
  {
    ReplaceAll(ReplaceAll(ReplaceAll(ReplaceAll(s, "&", "&amp;"), "<", "&lt;"), ">", "&gt;"), "\"", "&quot;")
  }

  /** `escapeXml(s)`: `&`, `<`, `>`, `"`, `'` in that order. */
  function Xml(s: string): (r: string)
  {
    ReplaceAll(ReplaceAll(ReplaceAll(ReplaceAll(ReplaceAll(s, "&", "&amp;"), "<", "&lt;"), ">", "&gt;"), "\"", "&quot;"), "'", "&apos;")
  }

  // ---- the chains are character-by-character escapes ----

  function HtmlChain(s: string): string {
    MapChar(MapChar(MapChar(MapChar(s, '&', "&amp;"), '"', "&quot;"), '<', "&lt;"), '>', "&gt;")
  }

  function PyChain(s: string): string {
    MapChar(MapChar(MapChar(MapChar(s, '&', "&amp;"), '<', "&lt;"), '>', "&gt;"), '"', "&quot;")
  }

  function XmlChain(s: string): string {
    MapChar(PyChain(s), '\'', "&apos;")
  }

  lemma HtmlChainAppend(a: string, b: string)
    ensures HtmlChain(a + b) == HtmlChain(a) + HtmlChain(b)
  {
    MapCharAppend(a, b, '&', "&amp;");
    var a1, b1 := MapChar(a, '&', "&amp;"), MapChar(b, '&', "&amp;");
    MapCharAppend(a1, b1, '"', "&quot;");
    var a2, b2 := MapChar(a1, '"', "&quot;"), MapChar(b1, '"', "&quot;");
    MapCharAppend(a2, b2, '<', "&lt;");
    var a3, b3 := MapChar(a2, '<', "&lt;"), MapChar(b2, '<', "&lt;");
    MapCharAppend(a3, b3, '>', "&gt;");
  }

  lemma PyChainAppend(a: string, b: string)
    ensures PyChain(a + b) == PyChain(a) + PyChain(b)
  {
    MapCharAppend(a, b, '&', "&amp;");
    var a1, b1 := MapChar(a, '&', "&amp;"), MapChar(b, '&', "&amp;");
    MapCharAppend(a1, b1, '<', "&lt;");
    var a2, b2 := MapChar(a1, '<', "&lt;"), MapChar(b1, '<', "&lt;");
    MapCharAppend(a2, b2, '>', "&gt;");
    var a3, b3 := MapChar(a2, '>', "&gt;"), MapChar(b2, '>', "&gt;");
    MapCharAppend(a3, b3, '"', "&quot;");
  }

  /** A text with none of the four special characters maps to itself. */
  lemma {:induction false} MapCharFree(s: string, c: char, rep: string)
    requires c !in s
    ensures MapChar(s, c, rep) == s
  {
    if s != [] {
      MapCharFree(s[1..], c, rep);
    }
  }

  lemma MapCharSingle(c: char, d: char, rep: string)
    ensures MapChar([c], d, rep) == if c == d then rep else [c]
  {
    assert [c][1..] == [];
  }

  /** One escape after another: `e` is the escape of `c`, and none of the
      later replaced characters occurs in it. */
  lemma ChainStep(x: string, c: char, d: char, rep: string)
    requires x == [c] || (d !in x)
    ensures MapChar(x, d, rep) == if x == [c] && c == d then rep else x
  {
    if x == [c] {
      MapCharSingle(c, d, rep);
    } else {
      MapCharFree(x, d, rep);
    }
  }

  /** After its leading `&`, an entity holds none of the replaced
      characters. */
  predicate CleanEntity(e: string) {
    forall d :: d in e && d != '&' ==> d != '"' && d != '<' && d != '>' && d != '\''
  }

  lemma EntitiesClean()
    ensures CleanEntity("&amp;") && CleanEntity("&quot;") && CleanEntity("&lt;")
    ensures CleanEntity("&gt;") && CleanEntity("&apos;")
  {
  }

  lemma HtmlChainChar(c: char)
    ensures HtmlChain([c]) == HtmlChar(c)
  {
    var amp, quot, lt, gt := "&amp;", "&quot;", "&lt;", "&gt;";
    EntitiesClean();
    var h1 := MapChar([c], '&', amp);
    ChainStep([c], c, '&', amp);
    var h2 := MapChar(h1, '"', quot);
    ChainStep(h1, c, '"', quot);
    var h3 := MapChar(h2, '<', lt);
    ChainStep(h2, c, '<', lt);
    ChainStep(h3, c, '>', gt);
  }

  lemma PyChainChar(c: char)
    ensures PyChain([c]) == HtmlChar(c)
    ensures XmlChain([c]) == XmlChar(c)
  {
    var amp, quot, lt, gt, apos := "&amp;", "&quot;", "&lt;", "&gt;", "&apos;";
    EntitiesClean();
    var h1 := MapChar([c], '&', amp);
    ChainStep([c], c, '&', amp);
    var p2 := MapChar(h1, '<', lt);
    ChainStep(h1, c, '<', lt);
    var p3 := MapChar(p2, '>', gt);
    ChainStep(p2, c, '>', gt);
    var p4 := MapChar(p3, '"', quot);
    ChainStep(p3, c, '"', quot);
    ChainStep(p4, c, '\'', apos);
  }

  lemma XmlChainAppend(a: string, b: string)
    ensures XmlChain(a + b) == XmlChain(a) + XmlChain(b)
  {
    PyChainAppend(a, b);
    MapCharAppend(PyChain(a), PyChain(b), '\'', "&apos;");
  }

  lemma {:induction false} ChainsAreEach(s: string)
    ensures HtmlChain(s) == EachHtml(s)
    ensures PyChain(s) == EachHtml(s)
    ensures XmlChain(s) == EachXml(s)
  {
    if s != [] {
      ChainsAreEach(s[1..]);
      assert s == [s[0]] + s[1..];
      HtmlChainAppend([s[0]], s[1..]);
      PyChainAppend([s[0]], s[1..]);
      XmlChainAppend([s[0]], s[1..]);
      HtmlChainChar(s[0]);
      PyChainChar(s[0]);
    }
  }

  /** The replace-all chains escape character by character, so the two
      orders of tools/generate-blog.mjs and Pages/scripts/sheet_cms.py give
      the same text, and none of `"`, `<`, `>` survives. */
  lemma EscapesAreCharwise(s: string)
    ensures HtmlAttr(s) == EachHtml(s)
    ensures PyEsc(s) == EachHtml(s)
    ensures Xml(s) == EachXml(s)
  {
    var s1 := ReplaceAll(s, "&", "&amp;");
    ReplaceCharIsMap(s, '&', "&amp;");
    ReplaceCharIsMap(s1, '"', "&quot;");
    ReplaceCharIsMap(ReplaceAll(s1, "\"", "&quot;"), '<', "&lt;");
    ReplaceCharIsMap(ReplaceAll(ReplaceAll(s1, "\"", "&quot;"), "<", "&lt;"), '>', "&gt;");
    ReplaceCharIsMap(s1, '<', "&lt;");
    var p2 := ReplaceAll(s1, "<", "&lt;");
    ReplaceCharIsMap(p2, '>', "&gt;");
    var p3 := ReplaceAll(p2, ">", "&gt;");
    ReplaceCharIsMap(p3, '"', "&quot;");
    ReplaceCharIsMap(ReplaceAll(p3, "\"", "&quot;"), '\'', "&apos;");
    ChainsAreEach(s);
  }

  // ---- the inverse ----

  /** Decodes the four entities the HTML escape writes, left to right. */
  function UnescapeHtml(t: string): (r: string)
    decreases |t|
  {
    if t == [] then []
    else if StartsWith(t, "&amp;") then "&" + UnescapeHtml(t[5..])
    else if StartsWith(t, "&quot;") then "\"" + UnescapeHtml(t[6..])
    else if StartsWith(t, "&lt;") then "<" + UnescapeHtml(t[4..])
    else if StartsWith(t, "&gt;") then ">" + UnescapeHtml(t[4..])
    else [t[0]] + UnescapeHtml(t[1..])
  }

  lemma UnescapeAmp(rest: string)
    ensures UnescapeHtml("&amp;" + rest) == "&" + UnescapeHtml(rest)
  {
    var t := "&amp;" + rest;
    assert t[..5] == "&amp;" && t[5..] == rest;
  }

  lemma UnescapeQuot(rest: string)
    ensures UnescapeHtml("&quot;" + rest) == "\"" + UnescapeHtml(rest)
  {
    var t := "&quot;" + rest;
    assert t[1] == 'q';
    assert t[..6] == "&quot;" && t[6..] == rest;
  }

  lemma UnescapeLt(rest: string)
    ensures UnescapeHtml("&lt;" + rest) == "<" + UnescapeHtml(rest)
  {
    var t := "&lt;" + rest;
    assert !StartsWith(t, "&amp;") by { assert t[1] == 'l'; }
    assert !StartsWith(t, "&quot;") by { assert t[1] == 'l'; }
    assert t[..4] == "&lt;" && t[4..] == rest;
  }

  lemma UnescapeGt(rest: string)
    ensures UnescapeHtml("&gt;" + rest) == ">" + UnescapeHtml(rest)
  {
    var t := "&gt;" + rest;
    assert t[1] == 'g';
    assert t[..4] == "&gt;" && t[4..] == rest;
  }

  lemma UnescapePlain(c: char, rest: string)
    requires c != '&'
    ensures UnescapeHtml([c] + rest) == [c] + UnescapeHtml(rest)
  {
    var t := [c] + rest;
    assert t[0] == c && t[1..] == rest;
  }

  lemma UnescapeChar(c: char, rest: string)
    ensures UnescapeHtml(HtmlChar(c) + rest) == [c] + UnescapeHtml(rest)
  {
    if c == '&' {
      UnescapeAmp(rest);
    } else if c == '"' {
      UnescapeQuot(rest);
    } else if c == '<' {
      UnescapeLt(rest);
    } else if c == '>' {
      UnescapeGt(rest);
    } else {
      UnescapePlain(c, rest);
    }
  }

  /** Escaping loses nothing: decoding the entities gives the text back. */
  lemma {:induction false} UnescapeEscape(s: string)
    ensures UnescapeHtml(EachHtml(s)) == s
  {
    if s != [] {
      UnescapeEscape(s[1..]);
      UnescapeChar(s[0], EachHtml(s[1..]));
      assert s == [s[0]] + s[1..];
    }
  }

  /** Escaping adds no `{`. */
  lemma {:induction false} EachHtmlKeepsBrace(s: string)
    requires '{' !in s
    ensures '{' !in EachHtml(s)
  {
    if s != [] {
      EachHtmlKeepsBrace(s[1..]);
    }
  }
}
