/** tools/generate-blog.mjs: the blog generator. It reads the sheet's
    API response (JSON rows, positional rows or TSV/CSV text), normalises
    every row into a post, keeps the published ones newest first, and
    produces the `posts.json` listing and one page per post by filling
    `{{placeholders}}` in a template. Fetching, the file system and the
    console are outside the model: the API response and the template are
    parameters, and the outputs are returned. */
module Blog {
  import opened Text
  import opened Js
  import opened Escape
  import opened Template
  import Slug
  import Sorting

  const SiteBase: string := "https://sindikatstudio83.me"
  const DefaultCover: string := SiteBase + "/sr-me/assets/og-cover.jpg"

  /** The column of each position of an array row. */
  const ColumnOrder: seq<string> := ["slug", "status", "category", "category_label", "title", "excerpt",
    "tags", "cover_image", "cover_alt", "og_image", "og_alt", "content_html"]

  /** A post after normalisation; every text field is trimmed. */
  datatype Post = Post(slug: string, title: string, excerpt: string, description: string,
    status: string, category: string, date: string, cover_image: string, cover_alt: string,
    tags: seq<string>, og_image: string, content_html: string)

  /** One entry of `posts.json`: the post without its content. */
  datatype Listing = Listing(slug: string, title: string, excerpt: string, description: string,
    status: string, category: string, date: string, cover_image: string, cover_alt: string,
    tags: seq<string>, og_image: string)

  /** A generated page: `<slug>/index.html` and its text. */
  datatype Page = Page(slug: string, html: string)

  // ---- field normalisers ----

  /** `normCategory`: the value as trimmed text, lower-cased. */
  function NormCategory(v: Value): (r: string)
    ensures r == Lower(SafeStr(v))
    ensures IsTrimmed(r) && Lower(r) == r
  {
    LowerOfLower(SafeStr(v));
    LowerTrimmed(SafeStr(v));
    Lower(SafeStr(v))
  }

  lemma LowerTrimmed(s: string)
    requires IsTrimmed(s)
    ensures IsTrimmed(Lower(s))
  {
    if s != [] {
      LowerKeepsSpace(s[0]);
      LowerKeepsSpace(s[|s| - 1]);
    }
  }

  predicate IsPublishedWord(s: string) {
    s == "published" || s == "publish" || s == "live" || s == "public"
  }

  /** `normalizeStatus`: empty becomes `draft`, `published` and its three
      synonyms become `published`, anything else is kept lower-cased. */
  function NormalizeStatus(v: Value): (r: string)
    ensures var s := Lower(SafeStr(v));
      && r != []
      && (r == "published" <==> IsPublishedWord(s))
      && (s == [] ==> r == "draft")
      && (s != [] && !IsPublishedWord(s) ==> r == s)
  {
    var s := Lower(SafeStr(v));
    if s == [] then "draft"
    else if IsPublishedWord(s) then "published"
    else s
  }

  // ---- tags ----

  /** Trim every piece and drop the empty ones. */
  function TagPieces(parts: seq<string>): (r: seq<string>)
    ensures |r| <= |parts|
  {
    if parts == [] then []
    else
      var t := Trim(parts[0]);
      var rest := TagPieces(parts[1..]);
      if t == [] then rest else [t] + rest
  }

  /** Every piece is trimmed and not empty. */
  predicate CleanPieces(r: seq<string>) {
    forall i :: 0 <= i < |r| ==> r[i] != [] && IsTrimmed(r[i])
  }

  /** Every piece kept is trimmed and not empty. */
  lemma {:induction false} TagPiecesTrimmed(parts: seq<string>)
    ensures CleanPieces(TagPieces(parts))
  {
    if parts != [] {
      TagPiecesTrimmed(parts[1..]);
      TrimIsTrimmed(parts[0]);
      CleanStep(parts, Trim(parts[0]), TagPieces(parts[1..]));
    }
  }

  /** One step of `TagPiecesTrimmed`: a trimmed, non-empty first piece in
      front of clean pieces keeps them clean. */
  lemma CleanStep(parts: seq<string>, t: string, rest: seq<string>)
    requires parts != [] && t == Trim(parts[0]) && IsTrimmed(t)
    requires rest == TagPieces(parts[1..]) && CleanPieces(rest)
    ensures CleanPieces(TagPieces(parts))
  {
    if t != [] {
      var r := [t] + rest;
      assert TagPieces(parts) == r;
      forall i | 0 <= i < |r| ensures r[i] != [] && IsTrimmed(r[i]) {
        if i > 0 {
          assert r[i] == rest[i - 1];
        }
      }
    }
  }

  lemma {:induction false} TagPiecesAppend(a: seq<string>, b: seq<string>)
    ensures TagPieces(a + b) == TagPieces(a) + TagPieces(b)
  {
    if a != [] {
      var ab := a + b;
      assert ab[0] == a[0] && ab[1..] == a[1..] + b;
      TagPiecesAppend(a[1..], b);
      TagPiecesStep(ab, a, TagPieces(a[1..]), TagPieces(b));
    } else {
      assert a + b == b;
    }
  }

  /** One step of `TagPiecesAppend`: both sides read their first piece
      the same way. */
  lemma TagPiecesStep(ab: seq<string>, a: seq<string>, ra: seq<string>, rb: seq<string>)
    requires a != [] && ab != [] && ab[0] == a[0]
    requires ra == TagPieces(a[1..]) && TagPieces(ab[1..]) == ra + rb
    ensures TagPieces(ab) == TagPieces(a) + rb
  {
    var t := Trim(a[0]);
    if t != [] {
      SeqAssoc([t], ra, rb);
    }
  }

  lemma {:induction false} TagPiecesAvoid(parts: seq<string>, c: char)
    requires forall i :: 0 <= i < |parts| ==> c !in parts[i]
    ensures forall i :: 0 <= i < |TagPieces(parts)| ==> c !in TagPieces(parts)[i]
  {
    if parts != [] {
      TagPiecesAvoid(parts[1..], c);
    }
  }

  /** The comma-separated reading of a tag text. */
  function TagsOf(s: string): (r: seq<string>)
    ensures forall i :: 0 <= i < |r| ==> r[i] != [] && IsTrimmed(r[i]) && ',' !in r[i]
  {
    TagPiecesAvoid(Split(s, ','), ',');
    TagPiecesTrimmed(Split(s, ','));
    TagPieces(Split(s, ','))
  }

  /** Tags before and after a comma are read separately and kept in order. */
  lemma TagsOfComma(a: string, b: string)
    ensures TagsOf(a + "," + b) == TagsOf(a) + TagsOf(b)
  {
    SplitAppend(a, b, ',');
    TagPiecesAppend(Split(a, ','), Split(b, ','));
  }

  /** A text without a comma is one tag, unless it is blank. */
  lemma TagsOfOne(s: string)
    requires ',' !in s
    ensures TagsOf(s) == if Trim(s) == [] then [] else [Trim(s)]
  {
    SplitNoSep(s, ',');
    assert [s][1..] == [];
    assert TagPieces([s]) == (if Trim(s) == [] then [] else [Trim(s)]) + TagPieces([]);
  }

  /** The array elements that are truthy, as strings. */
  function TagItems(items: seq<Value>): (r: seq<string>)
    ensures |r| <= |items|
    ensures forall i :: 0 <= i < |r| ==> IsTrimmed(r[i])
  {
    if items == [] then []
    else (if Truthy(items[0]) then [SafeStr(items[0])] else []) + TagItems(items[1..])
  }

  lemma {:induction false} TagItemsAppend(a: seq<Value>, b: seq<Value>)
    ensures TagItems(a + b) == TagItems(a) + TagItems(b)
  {
    if a == [] {
      assert a + b == b;
    } else {
      assert (a + b)[0] == a[0];
      assert (a + b)[1..] == a[1..] + b;
      TagItemsAppend(a[1..], b);
      var h := if Truthy(a[0]) then [SafeStr(a[0])] else [];
      TagItemsJoin(h, TagItems(a[1..]), TagItems(b), TagItems(a + b), TagItems(a));
    }
  }

  /** The head step of `TagItemsAppend`, on names for the head's tags and
      the tag runs. */
  lemma TagItemsJoin(h: seq<string>, t: seq<string>, u: seq<string>, whole: seq<string>, front: seq<string>)
    requires whole == h + (t + u)
    requires front == h + t
    ensures whole == front + u
  {
  }

  /** `parseTags`: an array keeps its truthy elements; anything else is
      read as comma-separated text. */
  function ParseTags(v: Value): (r: seq<string>)
    ensures forall i :: 0 <= i < |r| ==> IsTrimmed(r[i])
    ensures v.Arr? ==> |r| <= |v.items| && r == TagItems(v.items)
    ensures !v.Arr? ==> forall i :: 0 <= i < |r| ==> r[i] != [] && ',' !in r[i]
  {
    if v.Arr? then TagItems(v.items)
    else
      var s := SafeStr(v);
      if s == [] then [] else TagsOf(s)
  }

  /** The tags of an array are read element by element, in order. */
  lemma ParseTagsArrayAppend(a: seq<Value>, b: seq<Value>)
    ensures ParseTags(Arr(a + b)) == ParseTags(Arr(a)) + ParseTags(Arr(b))
  {
    TagItemsAppend(a, b);
  }

  /** A truthy element becomes its trimmed string; a falsy one is dropped. */
  lemma ParseTagsArrayOne(x: Value)
    ensures ParseTags(Arr([x])) == if Truthy(x) then [SafeStr(x)] else []
  {
    assert [x][1..] == [];
  }

  /** Text tags are never empty, but a blank string inside a tag array is
      kept as an empty tag. */
  lemma BlankArrayTag(s: string)
    requires s != [] && Trim(s) == []
    ensures ParseTags(Str(s)) == []
    ensures ParseTags(Arr([Str(s)])) == [[]]
  {
    assert [Str(s)][1..] == [];
  }

  // ---- row shapes ----

  /** `api` itself when it is an array, else its first array property
      among `posts`, `data` and `rows`, else nothing. */
  function ExtractRows(api: Value): (r: seq<Value>)
    ensures api.Arr? ==> r == api.items
    ensures (api.Obj? && Get(api, "posts").Arr?) ==> r == Get(api, "posts").items
    ensures (api.Obj? && !Get(api, "posts").Arr? && Get(api, "data").Arr?) ==> r == Get(api, "data").items
    ensures (api.Obj? && !Get(api, "posts").Arr? && !Get(api, "data").Arr? && Get(api, "rows").Arr?) ==>
      r == Get(api, "rows").items
    ensures (api.Obj? && !Get(api, "posts").Arr? && !Get(api, "data").Arr? && !Get(api, "rows").Arr?) ==> r == []
    ensures !api.Arr? && !api.Obj? ==> r == []
  {
    if api.Arr? then api.items
    else if api.Obj? && Get(api, "posts").Arr? then Get(api, "posts").items
    else if api.Obj? && Get(api, "data").Arr? then Get(api, "data").items
    else if api.Obj? && Get(api, "rows").Arr? then Get(api, "rows").items
    else []
  }

  /** A line of `split(/\r?\n/)` loses the `\r` before its `\n`. */
  function DropCR(l: string): (r: string)
  {
    if l != [] && l[|l| - 1] == '\r' then l[..|l| - 1] else l
  }

  /** `s.split(/\r?\n/)`. */
  function Lines(s: string): (r: seq<string>)
    ensures |r| == |Split(s, '\n')|
  {
    var ps := Split(s, '\n');
    seq(|ps|, i requires 0 <= i < |ps| => if i < |ps| - 1 then DropCR(ps[i]) else ps[i])
  }

  /** `filter((l) => l.trim().length)`. */
  function NonBlank(ls: seq<string>): (r: seq<string>)
    ensures |r| <= |ls|
    ensures forall i :: 0 <= i < |r| ==> Trim(r[i]) != []
  {
    if ls == [] then []
    else (if Trim(ls[0]) != [] then [ls[0]] else []) + NonBlank(ls[1..])
  }

  /** A line is kept exactly when it is one of the lines and not blank. */
  lemma {:induction false} NonBlankMembers(ls: seq<string>)
    ensures forall l :: l in NonBlank(ls) <==> l in ls && Trim(l) != []
  {
    if ls != [] {
      NonBlankMembers(ls[1..]);
      assert ls == [ls[0]] + ls[1..];
    }
  }

  /** The lines kept from two runs of lines are those of each, in order. */
  lemma {:induction false} NonBlankAppend(a: seq<string>, b: seq<string>)
    ensures NonBlank(a + b) == NonBlank(a) + NonBlank(b)
  {
    if a == [] {
      assert a + b == b;
    } else {
      assert (a + b)[0] == a[0];
      assert (a + b)[1..] == a[1..] + b;
      NonBlankAppend(a[1..], b);
      var h := if Trim(a[0]) != [] then [a[0]] else [];
      NonBlankJoin(h, NonBlank(a[1..]), NonBlank(b), NonBlank(a + b), NonBlank(a));
    }
  }

  /** The head step of `NonBlankAppend`, on names for the kept head and
      the filtered runs. */
  lemma NonBlankJoin(h: seq<string>, x: seq<string>, y: seq<string>, whole: seq<string>, front: seq<string>)
    requires whole == h + (x + y)
    requires front == h + x
    ensures whole == front + y
  {
  }

  /** One line is kept exactly when it is not blank. */
  lemma NonBlankOne(l: string)
    ensures NonBlank([l]) == if Trim(l) != [] then [l] else []
  {
    assert [l][1..] == [];
  }

  /** The non-blank lines of the trimmed text. */
  function TsvLines(txt: string): (r: seq<string>)
  {
    if Trim(txt) == [] then [] else NonBlank(Lines(Trim(txt)))
  }

  /** Tab-separated if the first line has a tab, else comma-separated if
      it has a comma, else tab-separated. */
  function Separator(first: string): (c: char)
    ensures c == '\t' || c == ','
    ensures c == ',' <==> '\t' !in first && ',' in first
  {
    if '\t' in first then '\t' else if ',' in first then ',' else '\t'
  }

  /** The trimmed cells of one line. */
  function Cells(l: string, sep: char): (r: seq<string>)
    ensures |r| == CountChar(l, sep) + 1
    ensures |r| == |Split(l, sep)| && forall j :: 0 <= j < |r| ==> r[j] == Trim(Split(l, sep)[j])
    ensures forall j :: 0 <= j < |r| ==> IsTrimmed(r[j]) && sep !in r[j]
  {
    var ps := Split(l, sep);
    SplitCount(l, sep);
    var r := seq(|ps|, i requires 0 <= i < |ps| => Trim(ps[i]));
    TrimmedCells(ps, r, sep);
    r
  }

  lemma TrimmedCells(ps: seq<string>, r: seq<string>, sep: char)
    requires forall k :: 0 <= k < |ps| ==> sep !in ps[k]
    requires |r| == |ps| && forall j :: 0 <= j < |r| ==> r[j] == Trim(ps[j])
    ensures forall j :: 0 <= j < |r| ==> IsTrimmed(r[j]) && sep !in r[j]
  {
    forall j | 0 <= j < |r| ensures IsTrimmed(r[j]) && sep !in r[j] {
      TrimIsTrimmed(ps[j]);
      TrimAvoids(ps[j], sep);
    }
  }

  /** `tsvToRows`: one row per non-blank line, the header line included,
      every line cut at the separator the first line chose. */
  function TsvToRows(txt: string): (r: seq<seq<string>>)
    ensures |r| == |TsvLines(txt)|
    ensures Trim(txt) == [] ==> r == []
  {
    var ls := TsvLines(txt);
    if ls == [] then []
    else
      var sep := Separator(ls[0]);
      seq(|ls|, i requires 0 <= i < |ls| => Cells(ls[i], sep))
  }

  /** Every TSV row has one cell more than its line has separators, and
      its cells are the trimmed pieces of the line, free of the separator. */
  lemma TsvRowShape(txt: string, i: nat)
    requires i < |TsvToRows(txt)|
    ensures var sep := Separator(TsvLines(txt)[0]);
      && TsvToRows(txt)[i] == Cells(TsvLines(txt)[i], sep)
      && |TsvToRows(txt)[i]| == CountChar(TsvLines(txt)[i], sep) + 1
      && (forall j :: 0 <= j < |TsvToRows(txt)[i]| ==> TsvToRows(txt)[i][j] == Trim(Split(TsvLines(txt)[i], sep)[j]))
      && forall j :: 0 <= j < |TsvToRows(txt)[i]| ==> IsTrimmed(TsvToRows(txt)[i][j]) && sep !in TsvToRows(txt)[i][j]
  {
    var ls := TsvLines(txt);
    assert TsvToRows(txt)[i] == Cells(ls[i], Separator(ls[0]));
  }

  /** The TSV rows as the array rows the normaliser reads. */
  function RowValues(rows: seq<seq<string>>): (r: seq<Value>)
    ensures |r| == |rows|
  {
    seq(|rows|, i requires 0 <= i < |rows| => Arr(seq(|rows[i]|, j requires 0 <= j < |rows[i]| => Str(rows[i][j]))))
  }

  /** `rows` of `main`: the extracted rows, or the TSV rows of a text
      response that has none. */
  function RowsOf(api: Value): (r: seq<Value>)
    ensures api.Str? ==> r == RowValues(TsvToRows(api.s))
    ensures api.Arr? ==> r == api.items
  {
    var rows := ExtractRows(api);
    if |rows| == 0 && api.Str? then RowValues(TsvToRows(api.s)) else rows
  }

  // ---- array rows ----

  /** `arr[i] ?? ""`. */
  function Cell(arr: seq<Value>, i: nat): (r: Value)
    ensures !r.Null?
  {
    if i < |arr| && !arr[i].Null? then arr[i] else Str([])
  }

  /** The object holding the first `n` columns. */
  function FirstColumns(arr: seq<Value>, n: nat): (r: map<string, Value>)
    requires n <= |ColumnOrder|
  {
    if n == 0 then map[] else FirstColumns(arr, n - 1)[ColumnOrder[n - 1] := Cell(arr, n - 1)]
  }

  lemma ColumnOrderDistinct()
    ensures forall i, j :: 0 <= i < j < |ColumnOrder| ==> ColumnOrder[i] != ColumnOrder[j]
  {
  }

  lemma {:induction false} FirstColumnsCells(arr: seq<Value>, n: nat)
    requires n <= |ColumnOrder|
    ensures FirstColumns(arr, n).Keys == set i | 0 <= i < n :: ColumnOrder[i]
    ensures forall i :: 0 <= i < n ==> FirstColumns(arr, n)[ColumnOrder[i]] == Cell(arr, i)
  {
    if n > 0 {
      FirstColumnsCells(arr, n - 1);
      ColumnOrderDistinct();
    }
  }

  /** `arrayRowToObject(arr)` as a value: column `ColumnOrder[i]` holds
      `arr[i]`, or `""` where the row is short or the cell is null. */
  function ColumnObject(arr: seq<Value>): (r: map<string, Value>)
    ensures r.Keys == set i | 0 <= i < |ColumnOrder| :: ColumnOrder[i]
    ensures forall i :: 0 <= i < |ColumnOrder| ==> r[ColumnOrder[i]] == Cell(arr, i)
  {
    FirstColumnsCells(arr, |ColumnOrder|);
    FirstColumns(arr, |ColumnOrder|)
  }

  /** `arrayRowToObject`: the loop over the column names. */
  method ArrayRowToObject(arr: seq<Value>) returns (obj: map<string, Value>)
    ensures obj == ColumnObject(arr)
    ensures forall i :: 0 <= i < |ColumnOrder| ==> obj[ColumnOrder[i]] == Cell(arr, i)
  {
    obj := map[];
    var i := 0;
    while i < |ColumnOrder|
      invariant 0 <= i <= |ColumnOrder|
      invariant obj == FirstColumns(arr, i)
    {
      obj := obj[ColumnOrder[i] := Cell(arr, i)];
      i := i + 1;
    }
  }

  // ---- normalisation ----

  /** The object a raw row is read as: `arrayRowToObject` of an array;
      any other value is read as it is (`raw || {}` only matters for
      falsy rows, which have no properties either way). */
  function RowObject(raw: Value): (r: Value)
  {
    if raw.Arr? then Obj(ColumnObject(raw.items)) else raw
  }

  /** `normalizePost`. */
  function NormalizePost(raw: Value): (r: Post)
    ensures Slug.IsSlug(r.slug)
    ensures r.status != []
  {
    var p := RowObject(raw);
    Slug.SlugifyIdempotent(StrOrEmpty(Get(p, "slug")));
    MakePost(p, Slug.Slugify(StrOrEmpty(Get(p, "slug"))), NormalizeStatus(Get(p, "status")),
      NormCategory(Get(p, "category")), ParseTags(Get(p, "tags")))
  }

  /** The post built from the row object `p`, given its slug, status,
      category and tags; the other fields are the trimmed texts of `p`
      with their fallbacks. */
  function MakePost(p: Value, slug: string, status: string, category: string, tags: seq<string>): (r: Post)
  {
    var title := SafeStr(Get(p, "title"));
    var excerpt := SafeStr(Or(Get(p, "excerpt"), Or(Get(p, "description"), Str([]))));
    var cover := SafeStr(Or(Get(p, "cover_image"), Str([])));
    Post(
      slug := slug,
      title := title,
      excerpt := excerpt,
      description := if excerpt != [] then excerpt else title,
      status := status,
      category := category,
      date := SafeStr(Get(p, "date")),
      cover_image := cover,
      cover_alt := SafeStr(Or(Get(p, "cover_alt"), Str(title))),
      tags := tags,
      og_image := SafeStr(Or(Get(p, "og_image"), Or(Str(cover), Str([])))),
      content_html := SafeStr(Or(Get(p, "content_html"), Or(Get(p, "content"), Str([])))))
  }

  predicate AllTrimmed(p: Post) {
    && IsTrimmed(p.title) && IsTrimmed(p.excerpt) && IsTrimmed(p.description)
    && IsTrimmed(p.category) && IsTrimmed(p.date) && IsTrimmed(p.cover_image)
    && IsTrimmed(p.cover_alt) && IsTrimmed(p.og_image) && IsTrimmed(p.content_html)
  }

  /** `safeStr(a || b || "")`: the first truthy value, trimmed, else `""`. */
  lemma OrText(a: Value, b: Value)
    ensures SafeStr(Or(a, Or(b, Str([])))) ==
      if Truthy(a) then SafeStr(a) else if Truthy(b) then SafeStr(b) else []
  {
    assert SafeStr(Str([])) == [];
  }

  /** `safeStr(a || t)` for a trimmed `t`: `a` trimmed when it is truthy, else `t`. */
  lemma OrTrimmed(a: Value, t: string)
    requires IsTrimmed(t)
    ensures SafeStr(Or(a, Str(t))) == if Truthy(a) then SafeStr(a) else t
  {
    if !Truthy(a) {
      assert Or(a, Str(t)) == Str(t);
      SafeStrTrimmed(t);
    }
  }

  /** `s || ""` is `s` for a string. */
  lemma OrEmptyStr(c: string)
    ensures Or(Str(c), Str([])) == Str(c)
  {
  }

  /** The fallbacks `normalizePost` promises for the post `r` read from
      the row object `p`: every text field is trimmed; the excerpt is the
      row's `excerpt`, else its `description`, else empty; the description
      is the excerpt, else the title; the cover alt text is the row's
      `cover_alt`, else the title; the og:image is the row's `og_image`,
      else the cover image; the content is the row's
      `content_html`, else its `content`, else empty. */
  predicate Fallbacks(p: Value, r: Post) {
    && AllTrimmed(r)
    && r.excerpt == (if Truthy(Get(p, "excerpt")) then SafeStr(Get(p, "excerpt"))
                     else if Truthy(Get(p, "description")) then SafeStr(Get(p, "description")) else [])
    && r.description == (if r.excerpt != [] then r.excerpt else r.title)
    && r.cover_alt == (if Truthy(Get(p, "cover_alt")) then SafeStr(Get(p, "cover_alt")) else r.title)
    && r.og_image == (if Truthy(Get(p, "og_image")) then SafeStr(Get(p, "og_image")) else r.cover_image)
    && r.content_html == (if Truthy(Get(p, "content_html")) then SafeStr(Get(p, "content_html"))
                          else if Truthy(Get(p, "content")) then SafeStr(Get(p, "content")) else [])
  }

  /** A built post keeps the fallbacks. */
  lemma MakePostFallbacks(p: Value, slug: string, status: string, category: string, tags: seq<string>)
    requires IsTrimmed(category)
    ensures Fallbacks(p, MakePost(p, slug, status, category, tags))
  {
    var r := MakePost(p, slug, status, category, tags);
    OrText(Get(p, "excerpt"), Get(p, "description"));
    OrText(Get(p, "content_html"), Get(p, "content"));
    OrTrimmed(Get(p, "cover_alt"), r.title);
    OrEmptyStr(r.cover_image);
    OrTrimmed(Get(p, "og_image"), r.cover_image);
  }

  /** Every normalised post keeps the fallbacks of its row object. */
  lemma NormalizePostFallbacks(raw: Value)
    ensures Fallbacks(RowObject(raw), NormalizePost(raw))
  {
    var p := RowObject(raw);
    var slug := Slug.Slugify(StrOrEmpty(Get(p, "slug")));
    var status := NormalizeStatus(Get(p, "status"));
    var category := NormCategory(Get(p, "category"));
    var tags := ParseTags(Get(p, "tags"));
    assert NormalizePost(raw) == MakePost(p, slug, status, category, tags);
    MakePostFallbacks(p, slug, status, category, tags);
  }

  /** The fields a built post takes without a fallback: the slug, status,
      category and tags it is given, and the row's trimmed `title`, `date`
      and (when truthy) `cover_image`. */
  lemma MakePostFields(p: Value, slug: string, status: string, category: string, tags: seq<string>)
    ensures var r := MakePost(p, slug, status, category, tags);
      && r.slug == slug && r.status == status && r.category == category && r.tags == tags
      && r.title == SafeStr(Get(p, "title"))
      && r.date == SafeStr(Get(p, "date"))
      && r.cover_image == (if Truthy(Get(p, "cover_image")) then SafeStr(Get(p, "cover_image")) else [])
  {
    OrNothing(Get(p, "cover_image"));
  }

  /** `safeStr(a || "")`: `a` trimmed when it is truthy, else `""`. */
  lemma OrNothing(a: Value)
    ensures SafeStr(Or(a, Str([]))) == if Truthy(a) then SafeStr(a) else []
  {
    assert SafeStr(Str([])) == [];
  }

  /** What `normalizePost` reads from the row object without a fallback:
      the slugified `slug`, the normalised `status` and `category`, the
      parsed `tags`, and the trimmed `title`, `date` and `cover_image`.
      With `NormalizePostFallbacks` this fixes every field of the post. */
  lemma NormalizePostFields(raw: Value)
    ensures var p := RowObject(raw); var r := NormalizePost(raw);
      && r.slug == Slug.Slugify(StrOrEmpty(Get(p, "slug")))
      && r.status == NormalizeStatus(Get(p, "status"))
      && r.category == NormCategory(Get(p, "category"))
      && r.tags == ParseTags(Get(p, "tags"))
      && r.title == SafeStr(Get(p, "title"))
      && r.date == SafeStr(Get(p, "date"))
      && r.cover_image == (if Truthy(Get(p, "cover_image")) then SafeStr(Get(p, "cover_image")) else [])
  {
    var p := RowObject(raw);
    var slug := Slug.Slugify(StrOrEmpty(Get(p, "slug")));
    var status := NormalizeStatus(Get(p, "status"));
    var category := NormCategory(Get(p, "category"));
    var tags := ParseTags(Get(p, "tags"));
    assert NormalizePost(raw) == MakePost(p, slug, status, category, tags);
    MakePostFields(p, slug, status, category, tags);
  }

  /** A positional row: the title is the fifth cell, and there is no
      `date` column, so the date is empty. */
  lemma PositionalRow(arr: seq<Value>)
    ensures var r := NormalizePost(Arr(arr));
      && r.date == []
      && r.title == SafeStr(Cell(arr, 4))
      && r.slug == Slug.Slugify(StrOrEmpty(Cell(arr, 0)))
      && r.status == NormalizeStatus(Cell(arr, 1))
      && r.tags == ParseTags(Cell(arr, 6))
  {
    var p := RowObject(Arr(arr));
    PositionalGet(arr, 0, "slug");
    PositionalGet(arr, 1, "status");
    PositionalGet(arr, 4, "title");
    PositionalGet(arr, 6, "tags");
    PositionalNoDate(arr);
    assert SafeStr(Null) == [];
  }

  /** Column `i` of a positional row is read under its name. */
  lemma PositionalGet(arr: seq<Value>, i: nat, k: string)
    requires i < |ColumnOrder| && ColumnOrder[i] == k
    ensures Get(RowObject(Arr(arr)), k) == Cell(arr, i)
  {
  }

  /** The content of a positional row is its twelfth cell: there is no
      `content` column to fall back to. */
  lemma PositionalContent(arr: seq<Value>)
    ensures NormalizePost(Arr(arr)).content_html == (if Truthy(Cell(arr, 11)) then SafeStr(Cell(arr, 11)) else [])
  {
    var p := RowObject(Arr(arr));
    NormalizePostFallbacks(Arr(arr));
    PositionalGet(arr, 11, "content_html");
    ContentNotColumn();
    PositionalAbsent(arr, "content");
    ContentVia(p, Cell(arr, 11), NormalizePost(Arr(arr)));
  }

  /** `content` is not one of the columns of `COLUMN_ORDER`. */
  lemma ContentNotColumn()
    ensures "content" !in ColumnOrder
  {
    forall i | 0 <= i < |ColumnOrder| ensures ColumnOrder[i] != "content" {
      assert ColumnOrder[i][0] != 'c' || |ColumnOrder[i]| != 7;
    }
  }

  /** The content fallback of a row without a `content` key. */
  lemma ContentVia(p: Value, c: Value, r: Post)
    requires Fallbacks(p, r) && Get(p, "content_html") == c && Get(p, "content") == Null
    ensures r.content_html == (if Truthy(c) then SafeStr(c) else [])
  {
  }

  /** A name that is not a column is absent from a positional row. */
  lemma PositionalAbsent(arr: seq<Value>, k: string)
    requires k !in ColumnOrder
    ensures Get(RowObject(Arr(arr)), k) == Null
  {
    var obj := ColumnObject(arr);
    assert k !in obj;
  }

  /** A positional row has no `date` column. */
  lemma PositionalNoDate(arr: seq<Value>)
    ensures Get(RowObject(Arr(arr)), "date") == Null
  {
    var obj := ColumnObject(arr);
    forall i | 0 <= i < |ColumnOrder| ensures ColumnOrder[i] != "date" {
      assert ColumnOrder[i][0] != 'd' || |ColumnOrder[i]| != 4;
    }
    assert "date" !in obj;
  }

  // ---- selection and order ----

  predicate IsPublishable(p: Post) {
    p.slug != [] && p.title != [] && p.status == "published"
  }

  /** `normalized.filter(p => p.slug && p.title && p.status === "published")`. */
  function Published(ps: seq<Post>): (r: seq<Post>)
    ensures |r| <= |ps|
    ensures forall p :: p in r <==> p in ps && IsPublishable(p)
  {
    if ps == [] then []
    else (if IsPublishable(ps[0]) then [ps[0]] else []) + Published(ps[1..])
  }

  /** The posts kept from two runs of posts are those of each, in
      order. */
  lemma {:induction false} PublishedAppend(a: seq<Post>, b: seq<Post>)
    ensures Published(a + b) == Published(a) + Published(b)
  {
    if a == [] {
      assert a + b == b;
    } else {
      assert (a + b)[0] == a[0];
      assert (a + b)[1..] == a[1..] + b;
      PublishedAppend(a[1..], b);
      var h := if IsPublishable(a[0]) then [a[0]] else [];
      PublishedJoin(h, Published(a[1..]), Published(b), Published(a + b), Published(a));
    }
  }

  /** The head step of `PublishedAppend`, on names for the kept head and
      the filtered runs. */
  lemma PublishedJoin(h: seq<Post>, x: seq<Post>, y: seq<Post>, whole: seq<Post>, front: seq<Post>)
    requires whole == h + (x + y)
    requires front == h + x
    ensures whole == front + y
  {
  }

  /** One post is kept exactly when it is publishable. */
  lemma PublishedOne(p: Post)
    ensures Published([p]) == if IsPublishable(p) then [p] else []
  {
    assert [p][1..] == [];
  }

  function DateKey(p: Post): string {
    p.date
  }

  function Normalized(rows: seq<Value>): (r: seq<Post>)
    ensures |r| == |rows| && forall i :: 0 <= i < |rows| ==> r[i] == NormalizePost(rows[i])
  {
    seq(|rows|, i requires 0 <= i < |rows| => NormalizePost(rows[i]))
  }

  /** The posts `main` writes, in the order it writes them. */
  function PublishedPosts(api: Value): seq<Post> {
    Sorting.SortBy(Published(Normalized(RowsOf(api))), DateKey, true)
  }

  /** What `main` publishes: exactly the publishable posts of the
      response, each with a slug, newest date first, posts with equal
      dates in the sheet's order. */
  lemma PublishedPostsCorrect(api: Value)
    ensures var ps := Published(Normalized(RowsOf(api)));
      && multiset(PublishedPosts(api)) == multiset(ps)
      && Sorting.Sorted(PublishedPosts(api), DateKey, true)
      && (forall k :: Sorting.WithKey(PublishedPosts(api), DateKey, k) == Sorting.WithKey(ps, DateKey, k))
      && (forall p :: p in PublishedPosts(api) <==> p in Normalized(RowsOf(api)) && IsPublishable(p))
  {
    var ps := Published(Normalized(RowsOf(api)));
    Sorting.SortByCorrect(ps, DateKey, true);
    forall p ensures p in PublishedPosts(api) <==> p in ps {
      assert p in PublishedPosts(api) <==> p in multiset(PublishedPosts(api));
    }
  }

  // ---- the listing ----

  function ListingOf(p: Post): (r: Listing)
  {
    Listing(p.slug, p.title, p.excerpt, p.description, p.status, p.category, p.date,
      p.cover_image, p.cover_alt, p.tags, p.og_image)
  }

  /** A listing entry and the content give back the post. */
  function WithContent(l: Listing, content_html: string): (r: Post)
  {
    Post(l.slug, l.title, l.excerpt, l.description, l.status, l.category, l.date,
      l.cover_image, l.cover_alt, l.tags, l.og_image, content_html)
  }

  /** `toPostsJson`: one entry per post, in order. */
  function ToPostsJson(ps: seq<Post>): (r: seq<Listing>)
    ensures |r| == |ps|
    ensures forall i :: 0 <= i < |ps| ==> WithContent(r[i], ps[i].content_html) == ps[i]
  {
    seq(|ps|, i requires 0 <= i < |ps| => ListingOf(ps[i]))
  }

  // ---- the page ----

  /** `canonicalForSlug`. */
  function CanonicalForSlug(slug: string): (r: string)
    ensures StartsWith(r, SiteBase + "/sr-me/blog/") && EndsWith(r, "/")
  {
    var pre := SiteBase + "/sr-me/blog/";
    var r := pre + EncodeURIComponent(slug) + "/";
    assert r[..|pre|] == pre;
    r
  }

  /** A slug needs no percent-escapes: its canonical URL contains it as it is. */
  lemma CanonicalOfSlug(slug: string)
    requires Slug.IsSlug(slug)
    ensures CanonicalForSlug(slug) == SiteBase + "/sr-me/blog/" + slug + "/"
  {
    forall i | 0 <= i < |slug| ensures IsUnreserved(slug[i]) {
      assert Slug.IsSlugChar(slug[i]);
    }
    EncodeUnreservedIsIdentity(slug);
  }

  /** The values the template is filled with. */
  datatype RenderData = RenderData(slug: string, title: string, description: string,
    canonical: string, og_image: string, cover_image: string, cover_alt: string,
    date: string, category: string, tags_json: string, content_html: string)

  /** The data `main` renders a post with: the canonical URL of its slug,
      the default cover image for a missing image, the title for a missing
      alt text, and the tags as a JSON array. */
  function RenderDataFor(p: Post): (r: RenderData)
    ensures r.og_image != [] && r.cover_image != []
    ensures p.title != [] ==> r.cover_alt != []
    ensures r.og_image == if p.og_image != [] then p.og_image else DefaultCover
    ensures r.cover_image == if p.cover_image != [] then p.cover_image else DefaultCover
    ensures r.cover_alt == if p.cover_alt != [] then p.cover_alt else p.title
    ensures r.canonical == CanonicalForSlug(p.slug)
    ensures r.tags_json == JsonStringArray(p.tags)
    ensures && r.slug == p.slug && r.title == p.title && r.description == p.description
            && r.date == p.date && r.category == p.category && r.content_html == p.content_html
  {
    RenderData(
      slug := p.slug,
      title := p.title,
      description := p.description,
      canonical := CanonicalForSlug(p.slug),
      og_image := if p.og_image != [] then p.og_image else DefaultCover,
      cover_image := if p.cover_image != [] then p.cover_image else DefaultCover,
      cover_alt := if p.cover_alt != [] then p.cover_alt else p.title,
      date := p.date,
      category := p.category,
      tags_json := JsonStringArray(p.tags),
      content_html := p.content_html)
  }

  /** The placeholders, in the order `renderTemplate` replaces them. */
  const Names: seq<string> := ["title", "description", "canonical", "og_image", "cover_image",
    "cover_alt", "date", "category", "slug", "tags_json", "content_html"]

  /** What a placeholder is replaced with: the attribute-escaped field,
      except the JSON tags and the content, which are inserted raw. */
  function Filling(d: RenderData, n: string): (r: string)
  {
    if n == "title" then HtmlAttr(d.title)
    else if n == "description" then HtmlAttr(d.description)
    else if n == "canonical" then HtmlAttr(d.canonical)
    else if n == "og_image" then HtmlAttr(d.og_image)
    else if n == "cover_image" then HtmlAttr(d.cover_image)
    else if n == "cover_alt" then HtmlAttr(d.cover_alt)
    else if n == "date" then HtmlAttr(d.date)
    else if n == "category" then HtmlAttr(d.category)
    else if n == "slug" then HtmlAttr(d.slug)
    else if n == "tags_json" then d.tags_json
    else d.content_html
  }

  function FillFor(d: RenderData): string -> string {
    n => Filling(d, n)
  }

  /** `renderTemplate`: the chain of eleven `replaceAll` calls, one per
      entry of `Names`, in that order. */
  function RenderTemplate(template: string, d: RenderData): (r: string)
  {
    Substitute(template, FillFor(d), Names)
  }

  /** The page `main` writes for a post. */
  function PageFor(template: string, p: Post): (r: Page)
    ensures r.slug == p.slug
  {
    Page(p.slug, RenderTemplate(template, RenderDataFor(p)))
  }

  /** A template without any of the placeholders is written unchanged. */
  lemma RenderWithoutPlaceholders(template: string, d: RenderData)
    requires forall i :: 0 <= i < |Names| ==> !Contains(template, Placeholder(Names[i]))
    ensures RenderTemplate(template, d) == template
  {
    SubstituteAbsent(template, FillFor(d), Names);
  }

  lemma NamesClean()
    ensures forall n :: n in Names ==> CleanName(n)
  {
  }

  /** No field of the data contains `{`. */
  predicate BracelessData(d: RenderData) {
    && '{' !in d.slug && '{' !in d.title && '{' !in d.description && '{' !in d.canonical
    && '{' !in d.og_image && '{' !in d.cover_image && '{' !in d.cover_alt && '{' !in d.date
    && '{' !in d.category && '{' !in d.tags_json && '{' !in d.content_html
  }

  lemma FillingBraceless(d: RenderData, n: string)
    requires BracelessData(d)
    ensures '{' !in Filling(d, n)
  {
    HtmlAttrBraceless(d.title);
    HtmlAttrBraceless(d.description);
    HtmlAttrBraceless(d.canonical);
    HtmlAttrBraceless(d.og_image);
    HtmlAttrBraceless(d.cover_image);
    HtmlAttrBraceless(d.cover_alt);
    HtmlAttrBraceless(d.date);
    HtmlAttrBraceless(d.category);
    HtmlAttrBraceless(d.slug);
  }

  lemma HtmlAttrBraceless(s: string)
    requires '{' !in s
    ensures '{' !in HtmlAttr(s)
  {
    EscapesAreCharwise(s);
    EachHtmlKeepsBrace(s);
  }

  /** When neither the template's literal text nor the data contain `{`,
      the chain of replacements fills every placeholder with its value at
      once: a value is never scanned for a later placeholder. */
  lemma RenderIsFill(ps: seq<Piece>, d: RenderData)
    requires forall i :: 0 <= i < |ps| ==> ps[i].Lit? ==> '{' !in ps[i].text
    requires forall i :: 0 <= i < |ps| ==> ps[i].Hole? ==> ps[i].name in Names
    requires BracelessData(d)
    ensures RenderTemplate(Concat(ps), d) == Filled(ps, FillFor(d))
  {
    var fill := FillFor(d);
    NamesClean();
    forall n ensures '{' !in fill(n) {
      FillingBraceless(d, n);
    }
    SubstituteIsFill(ps, fill, Names);
  }

  // ---- main ----

  /** The renderer `main` applies to each published post. */
  function Renderer(template: string): Post -> Page {
    p => PageFor(template, p)
  }

  /** `render` applied to each post, in order. */
  function MapPages(render: Post -> Page, ps: seq<Post>): (r: seq<Page>)
    ensures |r| == |ps|
  {
    if ps == [] then [] else MapPages(render, ps[..|ps| - 1]) + [render(ps[|ps| - 1])]
  }

  /** The pages of `ps`, in order. */
  function PagesFor(template: string, ps: seq<Post>): (r: seq<Page>)
    ensures |r| == |ps|
  {
    MapPages(Renderer(template), ps)
  }

  lemma {:induction false} MapPagesAt(render: Post -> Page, ps: seq<Post>, i: nat)
    requires i < |ps|
    ensures MapPages(render, ps)[i] == render(ps[i])
  {
    if i < |ps| - 1 {
      MapPagesAt(render, ps[..|ps| - 1], i);
    }
  }

  /** Page `i` is the rendering of post `i`. */
  lemma PagesForAt(template: string, ps: seq<Post>, i: nat)
    requires i < |ps|
    ensures PagesFor(template, ps)[i] == PageFor(template, ps[i])
  {
    MapPagesAt(Renderer(template), ps, i);
  }

  /** The loop of `main` that renders one page per post. */
  method RenderPages(render: Post -> Page, ps: seq<Post>) returns (pages: seq<Page>)
    ensures pages == MapPages(render, ps)
  {
    pages := [];
    var i := 0;
    while i < |ps|
      invariant 0 <= i <= |ps|
      invariant pages == MapPages(render, ps[..i])
    {
      assert ps[..i + 1][..i] == ps[..i];
      pages := pages + [render(ps[i])];
      i := i + 1;
    }
    assert ps[..i] == ps;
  }

  /** The sort of `main`, newest first, run in place on an array. */
  method SortByDate(ps: seq<Post>) returns (sorted: seq<Post>)
    ensures sorted == Sorting.SortBy(ps, DateKey, true)
  {
    var a := new Post[|ps|](i requires 0 <= i < |ps| => ps[i]);
    assert a[..] == ps;
    Sorting.SortInPlace(a, DateKey, true);
    sorted := a[..];
  }

  /** `main` from the response to the sorted published posts: the rows
      (the text fallback included), normalisation, selection and the sort. */
  method SelectPosts(api: Value) returns (sorted: seq<Post>)
    ensures sorted == PublishedPosts(api)
  {
    var rows := ExtractRows(api);
    if |rows| == 0 && api.Str? {
      rows := RowValues(TsvToRows(api.s));
    }
    assert rows == RowsOf(api);
    sorted := SortByDate(Published(Normalized(rows)));
  }

  /** `main` after the fetch: the sorted published posts, the listing and
      one page per post. */
  method Generate(api: Value, template: string) returns (listing: seq<Listing>, pages: seq<Page>)
    ensures listing == ToPostsJson(PublishedPosts(api))
    ensures pages == PagesFor(template, PublishedPosts(api))
  {
    var sorted := SelectPosts(api);
    listing := ToPostsJson(sorted);
    pages := RenderPages(Renderer(template), sorted);
  }
}
