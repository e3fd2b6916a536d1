/** Pages/scripts/sheet_cms.py: the CSV-row CMS. Every published row with
    an id becomes a page, filled from a template by a chain of `replace`
    calls, and an entry of the `posts.json` listing; rows keep the sheet's
    order. The CSV download and the file writes are outside the model: the
    rows (as `csv.DictReader` gives them), the template and the
    `SITE_BASE` setting are parameters, and the outputs are returned. */
module SheetCms {
  import opened Text
  import opened Escape
  import opened Template
  import Js
  import Blog
  import Seqs

  /** `SITE_BASE` when the environment does not set it. */
  const DefaultSiteBase: string := "https://sindikatstudio83.me"
  const DefaultExcerpt: string := "Blog \U{2014} Sindikat Studio 83"
  const DefaultBody: string := "<p>(Sadr\U{17E}aj uskoro.)</p>"

  /** A CSV row: column name to cell; a short row lacks its last columns. */
  type Row = map<string, string>

  /** `(row.get(k) or "").strip()`. */
  function Field(row: Row, k: string): (r: string)
    ensures IsTrimmed(r)
    ensures k !in row ==> r == []
    ensures k in row ==> r == Trim(row[k])
  {
    TrimIsTrimmed(if k in row then row[k] else []);
    Trim(if k in row then row[k] else [])
  }

  /** Python's `a or b` on strings. */
  function OrElse(a: string, b: string): (r: string)
    ensures a != [] ==> r == a
    ensures a == [] ==> r == b
  {
    if a != [] then a else b
  }

  /** `s.rstrip("/")`. */
  function StripTrailingSlashes(s: string): (r: string)
    ensures |r| <= |s| && r == s[..|r|]
    ensures r == [] || r[|r| - 1] != '/'
    ensures forall i :: |r| <= i < |s| ==> s[i] == '/'
  {
    if s == [] || s[|s| - 1] != '/' then s else StripTrailingSlashes(s[..|s| - 1])
  }

  /** Stripping the trailing slashes twice is stripping them once. */
  lemma StripTrailingSlashesIdempotent(s: string)
    ensures StripTrailingSlashes(StripTrailingSlashes(s)) == StripTrailingSlashes(s)
  {
  }

  /** `esc`: `&`, `<`, `>` and `"` become entities, `&` first. */
  function Esc(s: string): (r: string)
    ensures r == EachHtml(s)
    ensures forall i :: 0 <= i < |r| ==> r[i] != '<' && r[i] != '>' && r[i] != '"'
  {
    EscapesAreCharwise(s);
    PyEsc(s)
  }

  /** `parse_tags`: the trimmed comma-separated pieces that are not blank. */
  function ParseTags(raw: string): (r: seq<string>)
    ensures forall i :: 0 <= i < |r| ==> r[i] != [] && IsTrimmed(r[i]) && ',' !in r[i]
  {
    var t := Trim(raw);
    if t == [] then [] else Blog.TagsOf(t)
  }

  /** The CMS reads a tag text as the generators read a textual tags cell. */
  lemma ParseTagsAgrees(raw: string)
    ensures ParseTags(raw) == Blog.ParseTags(Js.Str(raw))
  {
  }

  /** Trimming the text first changes nothing. */
  lemma ParseTagsTrimmed(raw: string)
    ensures ParseTags(Trim(raw)) == ParseTags(raw)
  {
    TrimIsTrimmed(raw);
    TrimmedIsFixed(Trim(raw));
    assert Trim(Trim(raw)) == Trim(raw);
  }

  // ---- str.title ----

  predicate IsAsciiLetter(c: char) {
    ('a' <= c <= 'z') || ('A' <= c <= 'Z')
  }

  function UpperChar(c: char): (r: char) {
    if 'a' <= c <= 'z' then (c as int - 32) as char else c
  }

  /** `str.title()` on ASCII: a letter is upper-cased when it begins a run
      of letters and lower-cased otherwise. `afterLetter` says the previous
      character was a letter. */
  function TitleFrom(s: string, afterLetter: bool): (r: string)
    ensures |r| == |s|
    ensures forall i :: 0 <= i < |s| ==> (IsAsciiLetter(s[i]) <==> IsAsciiLetter(r[i]))
    ensures forall i :: 0 <= i < |s| ==> LowerChar(r[i]) == LowerChar(s[i])
    ensures forall i :: 0 <= i < |s| && !IsAsciiLetter(s[i]) ==> r[i] == s[i]
  {
    if s == [] then []
    else
      var c := s[0];
      [if IsAsciiLetter(c) then (if afterLetter then LowerChar(c) else UpperChar(c)) else c]
        + TitleFrom(s[1..], IsAsciiLetter(c))
  }

  function Title(s: string): (r: string)
    ensures |r| == |s|
    ensures forall i :: 0 <= i < |s| ==> LowerChar(r[i]) == LowerChar(s[i])
    ensures forall i :: 0 <= i < |s| && !IsAsciiLetter(s[i]) ==> r[i] == s[i]
  {
    TitleFrom(s, false)
  }

  /** After `str.title()`, the first letter of every word is upper case and
      every other letter lower case. */
  lemma {:induction false} TitleShape(s: string, afterLetter: bool, i: nat)
    requires i < |s| && IsAsciiLetter(s[i])
    ensures var prev := if i == 0 then afterLetter else IsAsciiLetter(s[i - 1]);
      prev ==> 'a' <= TitleFrom(s, afterLetter)[i] <= 'z'
    ensures var prev := if i == 0 then afterLetter else IsAsciiLetter(s[i - 1]);
      !prev ==> 'A' <= TitleFrom(s, afterLetter)[i] <= 'Z'
  {
    if i > 0 {
      TitleShape(s[1..], IsAsciiLetter(s[0]), i - 1);
      if i > 1 {
        assert s[1..][i - 2] == s[i - 1];
      }
    }
  }

  // ---- one row ----

  /** The row is published (its trimmed, lower-cased status) and has an id. */
  predicate Accepts(row: Row) {
    Lower(Field(row, "status")) == "published" && Field(row, "id") != []
  }

  /** One entry of `posts.json`. */
  datatype Entry = Entry(id: string, category: string, badge: string, title: string,
    excerpt: string, tags: seq<string>, img: string, alt: string, popupImg: string,
    popupAlt: string, url: string)

  /** The page path of a post, relative to the site. */
  function UrlFor(id: string): (r: string)
    ensures StartsWith(r, "/sr-me/blog/") && r[|r| - 1] == '/'
  {
    "/sr-me/blog/" + id + "/"
  }

  /** The entry of an accepted row, with every default of the loop body. */
  function EntryFor(row: Row, base: string): (r: Entry)
    ensures r.id == Field(row, "id")
  {
    EntryFrom(FieldsOf(row), base)
  }

  /** The stripped cells of a row, by column name. */
  function FieldsOf(row: Row): string -> string {
    k => Field(row, k)
  }

  /** The entry built from the stripped cells `f` of a row. */
  function EntryFrom(f: string -> string, base: string): (r: Entry)
  {
    var id := f("id");
    var category := OrElse(Lower(f("category")), "blog");
    var title := OrElse(f("title"), id);
    var img := OrElse(f("img"), base + "/sr-me/assets/og-cover.jpg");
    var alt := OrElse(f("alt"), title);
    Entry(
      id := id,
      category := category,
      badge := OrElse(f("badge"), Title(category)),
      title := title,
      excerpt := OrElse(f("excerpt"), DefaultExcerpt),
      tags := ParseTags(f("tags")),
      img := img,
      alt := alt,
      popupImg := OrElse(f("popupImg"), img),
      popupAlt := OrElse(f("popupAlt"), alt),
      url := UrlFor(id))
  }

  /** The default chain, for the cells that are empty: category `blog`,
      badge the title-cased category, title the id, the fixed excerpt,
      image the site's cover image, alt text the title, popup image the
      image, popup alt text the alt text; the url is the post's path. */
  lemma EntryDefaults(row: Row, base: string)
    ensures var e := EntryFor(row, base);
      && (Field(row, "category") == [] ==> e.category == "blog")
      && (Field(row, "badge") == [] ==> e.badge == Title(e.category))
      && (Field(row, "title") == [] ==> e.title == e.id)
      && (Field(row, "excerpt") == [] ==> e.excerpt == DefaultExcerpt)
      && (Field(row, "img") == [] ==> e.img == base + "/sr-me/assets/og-cover.jpg")
      && (Field(row, "alt") == [] ==> e.alt == e.title)
      && (Field(row, "popupImg") == [] ==> e.popupImg == e.img)
      && (Field(row, "popupAlt") == [] ==> e.popupAlt == e.alt)
      && e.url == "/sr-me/blog/" + e.id + "/"
  {
    EntryFromDefaults(FieldsOf(row), base);
  }

  lemma EntryFromDefaults(f: string -> string, base: string)
    ensures var e := EntryFrom(f, base);
      && (f("category") == [] ==> e.category == "blog")
      && (f("badge") == [] ==> e.badge == Title(e.category))
      && (f("title") == [] ==> e.title == e.id)
      && (f("excerpt") == [] ==> e.excerpt == DefaultExcerpt)
      && (f("img") == [] ==> e.img == base + "/sr-me/assets/og-cover.jpg")
      && (f("alt") == [] ==> e.alt == e.title)
      && (f("popupImg") == [] ==> e.popupImg == e.img)
      && (f("popupAlt") == [] ==> e.popupAlt == e.alt)
      && e.url == "/sr-me/blog/" + e.id + "/"
  {
    if f("category") == [] {
      assert Lower([]) == [];
    }
  }

  /** A cell that is not empty is kept, stripped (the category also
      lower-cased); the id is the stripped `id` cell and the tags are its
      `tags` cell split at commas. */
  lemma EntryKept(row: Row, base: string)
    ensures var e := EntryFor(row, base);
      && e.id == Field(row, "id")
      && (Field(row, "category") != [] ==> e.category == Lower(Field(row, "category")))
      && (Field(row, "badge") != [] ==> e.badge == Field(row, "badge"))
      && (Field(row, "title") != [] ==> e.title == Field(row, "title"))
      && (Field(row, "excerpt") != [] ==> e.excerpt == Field(row, "excerpt"))
      && e.tags == ParseTags(Field(row, "tags"))
      && (Field(row, "img") != [] ==> e.img == Field(row, "img"))
      && (Field(row, "alt") != [] ==> e.alt == Field(row, "alt"))
      && (Field(row, "popupImg") != [] ==> e.popupImg == Field(row, "popupImg"))
      && (Field(row, "popupAlt") != [] ==> e.popupAlt == Field(row, "popupAlt"))
  {
    EntryFromKept(FieldsOf(row), base);
  }

  lemma EntryFromKept(f: string -> string, base: string)
    ensures var e := EntryFrom(f, base);
      && e.id == f("id")
      && (f("category") != [] ==> e.category == Lower(f("category")))
      && (f("badge") != [] ==> e.badge == f("badge"))
      && (f("title") != [] ==> e.title == f("title"))
      && (f("excerpt") != [] ==> e.excerpt == f("excerpt"))
      && e.tags == ParseTags(f("tags"))
      && (f("img") != [] ==> e.img == f("img"))
      && (f("alt") != [] ==> e.alt == f("alt"))
      && (f("popupImg") != [] ==> e.popupImg == f("popupImg"))
      && (f("popupAlt") != [] ==> e.popupAlt == f("popupAlt"))
  {
  }

  /** Only the tags can be empty once the row has an id: every other field
      has a default that is not empty. */
  lemma EntryFilled(row: Row, base: string)
    ensures var e := EntryFor(row, base);
      e.category != [] && e.badge != [] && e.excerpt != [] && e.img != [] && e.popupImg != []
    ensures var e := EntryFor(row, base);
      e.id != [] ==> e.title != [] && e.alt != [] && e.popupAlt != []
  {
    EntryFromFilled(FieldsOf(row), base);
  }

  lemma EntryFromFilled(f: string -> string, base: string)
    ensures var e := EntryFrom(f, base);
      e.category != [] && e.badge != [] && e.excerpt != [] && e.img != [] && e.popupImg != []
    ensures var e := EntryFrom(f, base);
      e.id != [] ==> e.title != [] && e.alt != [] && e.popupAlt != []
  {
    var category := OrElse(Lower(f("category")), "blog");
    assert |Title(category)| == |category|;
  }

  /** The badge of the default category. */
  lemma DefaultBadge()
    ensures Title("blog") == "Blog"
  {
    assert TitleFrom([], true) == [];
    assert TitleFrom("g", true) == "g";
    assert TitleFrom("og", true) == "og";
    assert TitleFrom("log", true) == "log";
  }

  /** `body or the placeholder paragraph`: the trimmed body, or a
      placeholder paragraph when it is empty. */
  function BodyFor(row: Row): (r: string)
    ensures r != []
    ensures Field(row, "body") == [] ==> r == DefaultBody
    ensures Field(row, "body") != [] ==> r == Field(row, "body")
  {
    OrElse(Field(row, "body"), DefaultBody)
  }

  /** One tag chip. */
  function Chip(t: string): (r: string) {
    "<span class=\"chip\">" + Esc(t) + "</span>"
  }

  /** `"\n".join(chip(t) for t in tags[:3])`. */
  function Chips(tags: seq<string>): (r: string)
  {
    var n := if |tags| < 3 then |tags| else 3;
    Join(seq(n, i requires 0 <= i < n => Chip(tags[i])), "\n")
  }

  /** Only the first three tags become chips. */
  lemma ChipsFirstThree(tags: seq<string>, more: seq<string>)
    requires |tags| >= 3
    ensures Chips(tags + more) == Chips(tags) == Chips(tags[..3])
  {
    assert seq(3, i requires 0 <= i < 3 => Chip((tags + more)[i])) == seq(3, i requires 0 <= i < 3 => Chip(tags[i]));
    assert seq(3, i requires 0 <= i < 3 => Chip(tags[..3][i])) == seq(3, i requires 0 <= i < 3 => Chip(tags[i]));
  }

  // ---- the page ----

  /** The template placeholders, in the order the loop replaces them. */
  const Names: seq<string> := ["TITLE", "H1", "DESCRIPTION", "CANONICAL", "OG_IMAGE", "HERO_IMAGE",
    "HERO_ALT", "BADGE", "POST_ID", "CONTENT", "TAGS_CHIPS"]

  /** The values a page is filled with, before escaping. */
  datatype PageValues = PageValues(title: string, excerpt: string, canonical: string,
    popupImg: string, popupAlt: string, badge: string, id: string, body: string, chips: string)

  function ValuesFor(row: Row, base: string): (v: PageValues)
    ensures v.canonical == base + UrlFor(Field(row, "id"))
  {
    var e := EntryFor(row, base);
    PageValues(e.title, e.excerpt, base + e.url, e.popupImg, e.popupAlt, e.badge, e.id,
      BodyFor(row), Chips(e.tags))
  }

  /** What a placeholder is replaced with: the escaped value, except the
      body and the chips, which are inserted as they are; the title fills
      both `TITLE` and `H1`, the popup image both `OG_IMAGE` and
      `HERO_IMAGE`. */
  function Filling(v: PageValues, n: string): (r: string)
  {
    if n == "TITLE" || n == "H1" then Esc(v.title)
    else if n == "DESCRIPTION" then Esc(v.excerpt)
    else if n == "CANONICAL" then Esc(v.canonical)
    else if n == "OG_IMAGE" || n == "HERO_IMAGE" then Esc(v.popupImg)
    else if n == "HERO_ALT" then Esc(v.popupAlt)
    else if n == "BADGE" then Esc(v.badge)
    else if n == "POST_ID" then Esc(v.id)
    else if n == "CONTENT" then v.body
    else v.chips
  }

  function FillFor(v: PageValues): string -> string {
    n => Filling(v, n)
  }

  /** The page text of an accepted row. */
  function PageHtml(template: string, row: Row, base: string): (r: string) {
    Substitute(template, FillFor(ValuesFor(row, base)), Names)
  }

  /** A template using none of the placeholders is written unchanged. */
  lemma PageWithoutPlaceholders(template: string, row: Row, base: string)
    requires forall i :: 0 <= i < |Names| ==> !Contains(template, Placeholder(Names[i]))
    ensures PageHtml(template, row, base) == template
  {
    SubstituteAbsent(template, FillFor(ValuesFor(row, base)), Names);
  }

  lemma NamesClean()
    ensures forall n :: n in Names ==> CleanName(n)
  {
  }

  predicate BracelessValues(v: PageValues) {
    && '{' !in v.title && '{' !in v.excerpt && '{' !in v.canonical && '{' !in v.popupImg
    && '{' !in v.popupAlt && '{' !in v.badge && '{' !in v.id && '{' !in v.body && '{' !in v.chips
  }

  lemma FillingBraceless(v: PageValues, n: string)
    requires BracelessValues(v)
    ensures '{' !in Filling(v, n)
  {
    forall s | '{' !in s ensures '{' !in Esc(s) {
      EachHtmlKeepsBrace(s);
    }
  }

  /** When neither the template's literal text nor the values contain `{`,
      the chain of replacements fills every placeholder at once. */
  lemma PageIsFill(ps: seq<Piece>, v: PageValues)
    requires forall i :: 0 <= i < |ps| ==> ps[i].Lit? ==> '{' !in ps[i].text
    requires forall i :: 0 <= i < |ps| ==> ps[i].Hole? ==> ps[i].name in Names
    requires BracelessValues(v)
    ensures Substitute(Concat(ps), FillFor(v), Names) == Filled(ps, FillFor(v))
  {
    var fill := FillFor(v);
    NamesClean();
    forall n ensures '{' !in fill(n) {
      FillingBraceless(v, n);
    }
    SubstituteIsFill(ps, fill, Names);
  }

  // ---- the loop ----

  function Accepted(): Row -> bool {
    row => Accepts(row)
  }

  function EntryMaker(base: string): Row -> Entry {
    row => EntryFor(row, base)
  }

  function PageMaker(template: string, base: string): Row -> Blog.Page {
    row => Blog.Page(Field(row, "id"), PageHtml(template, row, base))
  }

  /** The entries of the accepted rows, in the rows' order. */
  function Listing(rows: seq<Row>, base: string): (r: seq<Entry>)
    ensures |r| <= |rows|
  {
    Seqs.FilterMap(rows, Accepted(), EntryMaker(base))
  }

  /** The pages of the accepted rows: the id and the text. */
  function Pages(rows: seq<Row>, template: string, base: string): (r: seq<Blog.Page>)
  {
    Seqs.FilterMap(rows, Accepted(), PageMaker(template, base))
  }

  /** The listing of two runs of rows is the two listings one after the
      other: the CMS keeps the sheet's order and sorts nothing. */
  lemma ListingAppend(a: seq<Row>, b: seq<Row>, base: string)
    ensures Listing(a + b, base) == Listing(a, base) + Listing(b, base)
  {
    Seqs.FilterMapAppend(a, b, Accepted(), EntryMaker(base));
  }

  /** An entry is listed exactly for each accepted row. */
  lemma ListingMembers(rows: seq<Row>, base: string, e: Entry)
    ensures e in Listing(rows, base) <==> exists i :: 0 <= i < |rows| && Accepts(rows[i]) && e == EntryFor(rows[i], base)
  {
    Seqs.FilterMapMembers(rows, Accepted(), EntryMaker(base), e);
  }

  /** There is one page per entry, and page `i` has the id of entry `i`. */
  lemma PagesMatchListing(rows: seq<Row>, template: string, base: string, i: nat)
    requires i < |Listing(rows, base)|
    ensures |Pages(rows, template, base)| == |Listing(rows, base)|
    ensures Pages(rows, template, base)[i].slug == Listing(rows, base)[i].id
  {
    Seqs.FilterMapSource(rows, Accepted(), EntryMaker(base), PageMaker(template, base), i);
  }

  /** The script's loop over the rows: skip the rows that are not
      published or have no id, write the page of each other row and
      append its entry. */
  method Run(rows: seq<Row>, template: string, siteBase: string) returns (posts: seq<Entry>, pages: seq<Blog.Page>)
    ensures posts == Listing(rows, StripTrailingSlashes(siteBase))
    ensures pages == Pages(rows, template, StripTrailingSlashes(siteBase))
  {
    var base := StripTrailingSlashes(siteBase);
    posts, pages := Seqs.FilterMapLoop(rows, Accepted(), EntryMaker(base), PageMaker(template, base));
  }
}
