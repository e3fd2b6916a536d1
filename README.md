# Sindikat Studio 83 site tooling in Dafny

This project models the build tools of the Sindikat Studio 83 web site and
proves properties of them. The tools are:

- **the blog generators**:
  - `tools/generate-blog.mjs`, and its older copy
    `Pages/tools/generate-blog.mjs`;
  - each reads rows from a spreadsheet API;
  - each normalises every row into a post and keeps the published posts,
    newest first;
  - each writes the `posts.json` listing and one page per post, filled
    from a `{{name}}` template.
- **the CSV CMS**, `Pages/scripts/sheet_cms.py`:
  - every published row with an id becomes a page, built by a chain of
    `replace` calls;
  - every such row also becomes an entry of `posts.json`.
- **the sitemap**, `tools/generate-sitemap.mjs`:
  - walks the site;
  - maps every HTML file to its URL;
  - drops templates, legacy stubs and `/test/` pages;
  - removes duplicates, sorts, and writes `<urlset>`.
- **the page rewriters**:
  - `tools/fix-clean-urls-and-canonicals.mjs` gives every root page of
    `sr-me/` a copy at its clean URL, and rewrites internal links;
  - `tools/fix-head-meta.mjs` fixes the canonical, robots, Open Graph and
    Twitter metas, fixes `lang`, and removes duplicate metas;
  - `tools/add-schema.mjs` writes the Organization, LocalBusiness and
    BlogPosting JSON-LD blocks;
  - `tools/add-services-schema.mjs` writes the services JSON-LD block.

## Modules

The model has one module per tool, plus shared modules:

| module | file | what |
|---|---|---|
| `Text` | text.dfy | trim, lower case, literal search, `replaceAll`, `split`, code-point order, slash collapsing |
| `Js` | js.dfy | JavaScript values and `String(v)`, `a \|\| b`, property access, `encodeURIComponent`, `JSON.stringify` of strings |
| `Slug` | slug.dfy | the two `slugify` functions |
| `Escape` | escape.dfy | the HTML-attribute and XML escapes, with a decoder |
| `Sorting` | sorting.dfy | the stable comparator sort: a functional specification and an in-place array method |
| `Seqs` | seqs.dfy | one-pass filter-and-map loops |
| `Template` | template.dfy | `{{name}}` placeholders and replacement chains |
| `Markup` | markup.dfy | the tag patterns (`<elem\s+attr=["']value["'][^>]*>`) and `upsertTag` |
| `Finders` | finders.dfy | the other regular expressions, each modelled as its own matcher, plus `withHead` |
| `PageMeta` | page_meta.dfy | what fix-head-meta and add-schema share: skipping, canonical URLs, image URLs, title and description, the page loop |
| `HeadMeta` | head_meta.dfy | tools/fix-head-meta.mjs |
| `ScriptBlock` | script_block.dfy | `escapeForClosingScript`, `escapeRegExp`, `upsertSchemaBlock` |
| `Schema` | schema.dfy | tools/add-schema.mjs |
| `ServicesSchema` | services_schema.dfy | tools/add-services-schema.mjs |
| `Blog` | blog.dfy | tools/generate-blog.mjs |
| `PagesBlog` | pages_blog.dfy | Pages/tools/generate-blog.mjs |
| `SheetCms` | sheet_cms.dfy | Pages/scripts/sheet_cms.py |
| `Sitemap` | sitemap.dfy | tools/generate-sitemap.mjs |
| `CleanUrls` | clean_urls.dfy | tools/fix-clean-urls-and-canonicals.mjs |

### How the code is modelled

- **Pure helpers** (string functions, regular-expression replaces, schema
  builders) are functions. Lemmas relate them to reference definitions,
  to inverses, or to the invariants they keep.
- **Loops of the source** are methods with loop invariants, and each is
  proved equal to a specification function. This covers:
  - `arrayRowToObject`;
  - the page loops of every `main`;
  - `walk`;
  - the `seen` loop of the sitemap;
  - `buildMapping`;
  - `replaceInternalLinks`;
  - the flag-driven `dedupeHeadMeta` replaces;
  - the row loop of the CMS.
- **The in-place `Array.prototype.sort`** is an array method with a
  stable insertion sort.
- **File-system input** is a parameter:
  - a list of pages (relative path and text);
  - for `walk`, a tree of directory entries.
  A page loop's output is the list of pages it writes.
- **`JSON.stringify` and `json.dumps` of objects** are a `stringify`
  parameter: the JSON values are modelled, their layout is not.
- **File modification dates** are a `dates` parameter of the page loops.

### Where the two blog generators differ

The two copies differ, and the model follows the code of each.

| | older copy (`Pages/tools/generate-blog.mjs`) | newer copy (`tools/generate-blog.mjs`) |
|---|---|---|
| where rows come from | only `api.posts` | `posts`, `data` or `rows`, or TSV text |
| slug | kept as trimmed text | slugified |
| status synonyms | none | `published` and its three synonyms become `published` |
| a `null` row | throws a `TypeError` | read as an empty object |

The model states each difference as a lemma:
- `PagesBlog.RowsVersusBlog`;
- `PagesBlog.StatusVersusBlog`;
- `PagesBlog.SlugOnlyTrimmed`;
- `PagesBlog.NormalizePost`.

## Model

| member | source | states |
|---|---|---|
| Text.Trim | tools/generate-blog.mjs:45-47 | `trim()` gives the input with its leading and trailing white space cut off: a slice of the input with only white space before and after it, and no white space at either end |
| Text.TrimUnique | tools/generate-blog.mjs:45-47 | whatever lies between a white-space prefix and a white-space suffix of the input, and starts and ends with other characters, is its trim |
| Text.TrimWitness | tools/generate-blog.mjs:45-47 | cutting the leading white space, then the trailing white space, leaves a slice with only white space around it |
| Text.TrimIsTrimmed | tools/generate-blog.mjs:45-47 | the result of `trim()` is trimmed, and trimming again changes nothing |
| Text.CollapseSpaces | tools/fix-head-meta.mjs:113-116 | `replace(/\s+/g, " ")` leaves only single blanks, keeps leading and trailing white space as blanks, and is empty only for empty input |
| Text.CollapseKeeps | tools/fix-head-meta.mjs:113-116 | a character that is not white space is kept as it is |
| Text.CollapseRun | tools/fix-head-meta.mjs:113-116 | a whole run of white space becomes one blank |
| Text.CollapseAppend | tools/fix-head-meta.mjs:113-116 | text that ends in a character other than white space collapses on its own, so with the two laws above every run becomes one blank and every other character is kept, in order |
| Text.TrimStartRun | tools/fix-head-meta.mjs:113-116 | trimming the front removes exactly a leading run of white space |
| Text.TrimStartAppend | tools/fix-head-meta.mjs:113-116 | trimming the front of text that ends in another character does not reach what follows it |
| Text.TrimStartInner | tools/fix-head-meta.mjs:113-116 | leading white space of text that ends in another character leaves something shorter that still ends in it |
| Text.CollapseLead | tools/fix-head-meta.mjs:113-116 | at leading white space, a blank is written and collapsing goes on after the run |
| Text.CollapseStep | tools/fix-head-meta.mjs:113-116 | at a character that is not white space, it is written and collapsing goes on after it |
| Text.CollapseCharJoin | tools/fix-head-meta.mjs:113-116 | the step of `CollapseAppend` at a kept character |
| Text.CollapseRunJoin | tools/fix-head-meta.mjs:113-116 | the step of `CollapseAppend` at a run of white space |
| Text.CollapseSpacesFixed | tools/fix-head-meta.mjs:113-116 | single-spaced text has nothing to collapse |
| Text.TidyIsNormal | tools/fix-head-meta.mjs:113-123 | the title and description readers give trimmed, single-spaced text; reading it again changes nothing |
| PageMeta.Tidy | tools/fix-head-meta.mjs:115 | `trim()` then `replace(/\s+/g, " ")`; no contract of its own, see `Text.TidyIsNormal` |
| Text.Lower | tools/generate-blog.mjs:82-84 | `toLowerCase()` maps each character on its own and keeps the length |
| Text.LowerOfLower | tools/generate-blog.mjs:82-84 | lower-casing twice is lower-casing once |
| Text.FindCI | tools/fix-head-meta.mjs:61 | the first case-insensitive occurrence at or after a position, with none before it; -1 when there is none |
| Text.Find | tools/fix-clean-urls-and-canonicals.mjs:113-123 | the first literal occurrence at or after a position, with none before it; -1 when there is none |
| Text.ReplaceAllAbsent | tools/generate-blog.mjs:243-256 | `replaceAll` of a pattern that does not occur changes nothing |
| Text.ReplaceAll | tools/generate-blog.mjs:243-256 | `replaceAll`, left to right without rescanning what it wrote; no contract of its own, see `ReplaceAllAbsent`, `ReplaceAllFront` and `ReplaceAllLeavesNone` |
| Text.ReplaceAllFront | tools/generate-blog.mjs:243-256 | `replaceAll` replaces an occurrence at the front and carries on after it |
| Text.ReplaceAllLeavesNone | tools/fix-head-meta.mjs:168-172 | when no replacement can produce the sought text, `replaceAll` leaves none of it behind |
| Text.ReplaceAllUntouched | tools/fix-head-meta.mjs:168-172 | up to the first letter a replacement writes, the result agrees with the input |
| Text.ContainsSuffix | tools/fix-head-meta.mjs:168-172 | a text contains whatever a suffix of it contains |
| Text.FrontUntouched | tools/fix-head-meta.mjs:168-172 | an occurrence at the front of the result of a step that kept a letter was already in the input |
| Text.AfterReplacement | tools/fix-head-meta.mjs:168-172 | after a replacement, the sought text can occur only in the rest |
| Text.AfterKept | tools/fix-head-meta.mjs:168-172 | after a kept letter that does not start the sought text, it can occur only in the rest |
| Text.ReplaceCharIsMap | tools/generate-sitemap.mjs:91-98 | replacing a one-character pattern is a per-character map |
| Text.MapChar | tools/generate-sitemap.mjs:91-98 | a per-character replacement removes that character when the replacement lacks it, and keeps every other character's presence |
| Text.Split | tools/generate-blog.mjs:148-153 | `split(c)` gives at least one piece, no piece holds `c`, and the pieces joined by `c` give back the input |
| Text.SplitCount | tools/generate-blog.mjs:153 | `split(c)` gives one piece more than the input has separators |
| Text.SplitAppend | tools/generate-blog.mjs:153 | splitting distributes over a separator occurrence |
| Text.LexLeTotal | tools/generate-blog.mjs:293 | the string order used for `localeCompare` is total |
| Text.LexLe | tools/generate-sitemap.mjs:145 | code-point order, the model of `localeCompare`; no contract of its own, see `LexLeTotal`, `LexLeTransitive` and `LexLeAntisymmetric` |
| Text.LexLeTransitive | tools/generate-blog.mjs:293 | the string order is transitive |
| Text.LexLeAntisymmetric | tools/generate-blog.mjs:293 | the string order is antisymmetric |
| Text.CollapseSlashes | tools/generate-sitemap.mjs:81 | `replace(/\/{2,}/g, "/")` leaves no doubled slash, never grows the text, and keeps a leading slash |
| Text.SlashKeeps | tools/generate-sitemap.mjs:81 | a character other than `/` is kept as it is |
| Text.SlashesDropped | tools/generate-sitemap.mjs:81 | after a `/`, the rest of the run of slashes is dropped |
| Text.SlashRun | tools/generate-sitemap.mjs:81 | a run of slashes becomes one `/` |
| Text.SlashAppend | tools/generate-sitemap.mjs:81 | text that ends in a character other than `/` collapses on its own, so with the laws above every run of slashes becomes one `/` and every other character is kept, in order |
| Text.SlashJoin | tools/generate-sitemap.mjs:81 | the step of `SlashAppend` at the first character |
| Text.TailAppend | tools/generate-sitemap.mjs:81 | the first character and the rest of a concatenation come from its first part |
| Text.CollapseFixed | tools/generate-sitemap.mjs:81 | a path without doubled slashes is left as it is |
| Js.SafeStr | tools/generate-blog.mjs:45-47 | `safeStr` of a string is its trim; it is `""` for `null`/`undefined`, and trimmed for every value |
| Js.SafeStrTrimmed | tools/generate-blog.mjs:45-47 | `safeStr` of an already trimmed string gives it back |
| Js.ToStr | tools/generate-blog.mjs:45-47 | `String(v)`; no contract of its own, the string case is stated by `Js.SafeStr` |
| Js.StrOrEmpty | tools/generate-blog.mjs:45 | `String(v ?? "")` is `""` for `null` and the string itself for a string |
| Js.Get | tools/generate-blog.mjs:167-182 | a property of something that is not an object is `undefined` |
| Js.Or | tools/generate-blog.mjs:171 | `a \|\| b` is `a` when `a` is truthy, else `b` |
| Js.Truthy | tools/generate-blog.mjs:171 | `Boolean(v)`; no contract of its own, see `Js.Or` and `Blog.OrText` |
| Js.EncodeChar | tools/generate-blog.mjs:103-105 | `encodeURIComponent` keeps each unreserved character and writes every other one as `%`-escapes |
| Js.EncodeUnreservedIsIdentity | tools/generate-blog.mjs:103-105 | a string of unreserved characters is encoded as itself |
| Js.EncodeFirst | tools/generate-blog.mjs:103-105 | the encoding starts with the first character when it is unreserved, else with `%` |
| Js.EncodeURIComponent | tools/generate-blog.mjs:103-105 | the encoding is never shorter than the input; see `EncodeChar`, `EncodeFirst` and `EncodeUnreservedIsIdentity` |
| Js.JsonChar | tools/generate-blog.mjs:313 | `JSON.stringify` writes a plain character as itself, and `"`, `\` and control characters behind a backslash |
| Js.JsonCharsNoBareQuote | tools/generate-blog.mjs:313 | every `"` inside a JSON string literal is preceded by a backslash; that it is escaped, not just preceded, is `UnJsonJson` |
| Js.UnJson | tools/generate-blog.mjs:313 | reads the inside of a JSON string literal back; no contract of its own, see `UnJsonJson` |
| Js.UnJsonChar | tools/generate-blog.mjs:313 | one written character followed by any text reads back as that character followed by the rest |
| Js.UnJsonJson | tools/generate-blog.mjs:313 | reading back what `JSON.stringify` writes inside a string literal gives the text again, so every `"`, `\\` and control character is escaped |
| Js.JsonStringArray | tools/generate-blog.mjs:313 | `JSON.stringify(tags)` is bracketed by `[` and `]` |
| Slug.DashRuns | tools/generate-blog.mjs:76 | `.replace(/[\s_]+/g, "-")` leaves no white space or `_` |
| Slug.KeepSlugChars | tools/generate-blog.mjs:77 | `.replace(/[^a-z0-9\-]/g, "")` leaves only `[a-z0-9-]` |
| Slug.CollapseNoDoubleDash | tools/generate-blog.mjs:78 | `.replace(/-+/g, "-")` leaves no `--` and adds no character |
| Slug.FinishIsSlug | tools/generate-blog.mjs:72-80 | both slugify functions give `[a-z0-9-]` text with no `--` and no `-` at either end |
| Slug.FinishFixed | tools/generate-blog.mjs:72-80 | a slug passes the shared slugify steps unchanged |
| Slug.SlugifyIdempotent | tools/generate-blog.mjs:72-80 | `slugify` gives a slug, and slugifying twice is slugifying once |
| Slug.Slugify | tools/generate-blog.mjs:72-80 | no contract of its own; see `SlugifyIdempotent` and `FinishIsSlug` |
| Slug.SlugifyFoldedIdempotent | tools/fix-clean-urls-and-canonicals.mjs:27-38 | the accent-folding `slugify` gives a slug, and slugifying twice is slugifying once |
| Slug.SlugifyFolded | tools/fix-clean-urls-and-canonicals.mjs:27-38 | no contract of its own; see `SlugifyFoldedIdempotent` and `FinishIsSlug` |
| Slug.SlugIsLowerTrimmed | tools/fix-clean-urls-and-canonicals.mjs:27-38 | a slug is its own trim, its own lower case and its own accent folding |
| Slug.Fold | tools/fix-clean-urls-and-canonicals.mjs:30-31 | NFKD with the combining marks removed maps character by character and keeps the length |
| Escape.EachHtml | tools/generate-blog.mjs:49-55 | the character-by-character HTML escape leaves no `"`, `<` or `>` |
| Escape.HtmlAttr | tools/generate-blog.mjs:49-55 | the `replaceAll` chain of `escapeHtmlAttr`; no contract of its own, see `EscapesAreCharwise`, `HtmlChainAppend` and `UnescapeEscape` |
| Escape.EachXml | tools/generate-sitemap.mjs:91-98 | the character-by-character XML escape leaves no `"`, `<`, `>` or `'` |
| Escape.Xml | tools/generate-sitemap.mjs:91-98 | `escapeXml`; no contract of its own, see `EscapesAreCharwise` (it equals `EachXml`), `XmlChainAppend` and `Sitemap.XmlClean` |
| Escape.PyEsc | Pages/scripts/sheet_cms.py:17-18 | `esc`; no contract of its own, see `EscapesAreCharwise` and `PyChainAppend` |
| Escape.EscapesAreCharwise | tools/generate-blog.mjs:49-55 | the `replaceAll` chains of `escapeHtmlAttr`, `esc` and `escapeXml` are character-by-character escapes, so the two orders give the same text |
| Escape.ChainsAreEach | Pages/scripts/sheet_cms.py:17-18 | each replace chain equals its per-character reference escape |
| Escape.HtmlChainAppend | tools/generate-blog.mjs:49-55 | the attribute escape distributes over concatenation |
| Escape.PyChainAppend | Pages/scripts/sheet_cms.py:17-18 | `esc` distributes over concatenation |
| Escape.XmlChainAppend | tools/generate-sitemap.mjs:91-98 | `escapeXml` distributes over concatenation |
| Escape.UnescapeEscape | tools/generate-blog.mjs:49-55 | escaping loses nothing: decoding the entities gives the text back |
| Escape.UnescapeChar | tools/generate-blog.mjs:49-55 | decoding the escape of one character gives that character |
| Escape.EachHtmlKeepsBrace | tools/generate-blog.mjs:49-55 | escaping adds no `{`, so an escaped value cannot form a placeholder |
| Sorting.SortByCorrect | tools/generate-blog.mjs:293 | the sort's result is ordered, is a permutation of the input, and keeps the input order among elements with equal keys |
| Sorting.SortBy | tools/generate-blog.mjs:293 | the sort of tools/generate-blog.mjs:293, Pages/tools/generate-blog.mjs:145 and tools/generate-sitemap.mjs:145; no contract of its own, see `SortByCorrect` |
| Sorting.InsertPermutes | tools/generate-blog.mjs:293 | one insertion step is a permutation |
| Sorting.InsertSorted | tools/generate-blog.mjs:293 | one insertion step keeps the list sorted |
| Sorting.InsertWithKey | tools/generate-blog.mjs:293 | one insertion step puts its element first among equal keys and leaves every other key class alone |
| Sorting.InsertAt | tools/generate-blog.mjs:293 | the element goes in at the first position whose element does not strictly precede it |
| Sorting.NotPrecedesTransitive | tools/generate-blog.mjs:293 | "may come before" in the comparator order is transitive |
| Sorting.PrecedesAsymmetric | tools/generate-blog.mjs:293 | strict precedence is asymmetric and needs different keys |
| Sorting.InsertStep | tools/generate-blog.mjs:293 | one in-place step moves `a[lo]` into the sorted part after it, leaves the part before it alone, and the sorted part then equals the functional insertion |
| Sorting.SortInPlace | tools/generate-sitemap.mjs:145 | the in-place sort leaves the array holding the specified sort of its old contents |
| Seqs.FilterMap | tools/generate-sitemap.mjs:127-134 | filter-and-map outputs at most one value per input |
| Seqs.FilterMapAppend | tools/generate-sitemap.mjs:127-134 | the output for two input runs is the two outputs in order |
| Seqs.FilterMapMembers | tools/generate-sitemap.mjs:127-134 | a value is output exactly when some kept input maps to it |
| Seqs.FilterMapAll | tools/generate-blog.mjs:284 | when every input is kept, output `i` is `f` of input `i` |
| Seqs.FilterMapSource | Pages/scripts/sheet_cms.py:31-90 | output `i` of two filter-maps with one filter comes from the same input |
| Seqs.FilterMapLength | Pages/scripts/sheet_cms.py:31-90 | the output length depends only on the filter |
| Seqs.FilterMapLoop | Pages/scripts/sheet_cms.py:31-90 | the loop that skips rejected inputs and emits two values for each other input gives the two filter-maps |
| Template.Placeholder | tools/generate-blog.mjs:243-256 | `{{name}}` is four characters longer than the name |
| Template.SubstituteAbsent | tools/generate-blog.mjs:243-256 | a template with none of the placeholders is left as it is |
| Template.PlaceholderMismatch | tools/generate-blog.mjs:243-256 | no placeholder starts where a different one does |
| Template.ReplaceSkipsHole | tools/generate-blog.mjs:243-256 | replacing `{{n}}` skips over the placeholder of a different name |
| Template.ReplaceFills | tools/generate-blog.mjs:243-256 | one `replaceAll` of `{{n}}` fills exactly the holes named `n` |
| Template.FillOne | tools/generate-blog.mjs:243-256 | the replacement for one more name fills its holes, and the template stays free of `{` |
| Template.SubstituteStep | tools/generate-blog.mjs:243-256 | the chain replaces the first name, then the rest |
| Template.SubstituteFills | tools/generate-blog.mjs:243-256 | the chain over the remaining names fills all their holes |
| Template.FilledAll | tools/generate-blog.mjs:243-256 | filling the holes of every listed name is filling the template at once |
| Template.SubstituteIsFill | tools/generate-blog.mjs:243-256 | when the literal text and the values hold no `{`, the chain of replacements fills every placeholder with its value at once |
| Template.Substitute | tools/generate-blog.mjs:243-256 | the chain of `replaceAll` calls, one per name; no contract of its own, see `SubstituteIsFill` and `SubstituteAbsent` |
| Markup.FindChar | tools/fix-head-meta.mjs:59-63 | the first `c` at or after a position, with none before it |
| Markup.RunEnd | tools/fix-head-meta.mjs:59-63 | a run of one character class ends at the first character outside it |
| Markup.Match | tools/fix-head-meta.mjs:59-63 | a pattern match that starts at `k` ends inside the text, and after `k` when its last step takes a character |
| Markup.MatchLocal | tools/fix-head-meta.mjs:59-63 | a match depends only on the characters it matched |
| Markup.MatchAvoids | tools/fix-head-meta.mjs:59-63 | a character no step of a pattern accepts does not occur in a match |
| Markup.MatchEndsQuote | tools/fix-head-meta.mjs:59-63 | a match whose last step is a quote ends with a quote |
| Markup.MatchAppend | tools/fix-head-meta.mjs:59-63 | matching two step lists is matching the first, then the second where it ended |
| Markup.MatchWord | tools/fix-head-meta.mjs:59-63 | a lower-case word matches itself |
| Markup.PrefixShape | tools/fix-head-meta.mjs:65-68 | the `<link\s+rel=["']canonical["']` prefix starts with its only `<` and ends with a quote |
| Markup.PrefixLocal | tools/fix-head-meta.mjs:65-68 | the prefix match depends only on its own characters |
| Markup.TagLen | tools/fix-head-meta.mjs:65-68 | a whole tag match ends with its `>` |
| Markup.TagLenLocal | tools/fix-head-meta.mjs:65-68 | a whole tag match depends only on its own characters |
| Markup.FirstTagFrom | tools/fix-head-meta.mjs:60 | `regex.test`/`replace` take the left-most tag match, with none before it |
| Markup.TagMatchesItself | tools/fix-head-meta.mjs:65-68 | a tag written `<elem attr="value" …>` whose only `>` is its last character matches its own pattern whole |
| Markup.ReplacedFinds | tools/fix-head-meta.mjs:60 | after replacing the first match, the new tag is the first match |
| Markup.InsertedFinds | tools/fix-head-meta.mjs:61 | after inserting before `</head>`, the new tag is the first match |
| Markup.PrependedFinds | tools/fix-head-meta.mjs:62 | after putting the tag in front, the tag is the first match |
| Markup.UpsertTagFinds | tools/fix-head-meta.mjs:59-63 | after `upsertTag`, the first match of the pattern is the new tag, at the position `UpsertPos` names |
| Markup.UpsertOverItself | tools/fix-head-meta.mjs:59-63 | replacing a match by the tag it already holds changes nothing |
| Markup.UpsertTagIdempotent | tools/fix-head-meta.mjs:59-63 | upserting the same tag twice is upserting it once |
| Markup.UpsertTag | tools/fix-head-meta.mjs:59-63 | no contract of its own; see `UpsertTagFinds` and `UpsertTagIdempotent` |
| Finders.MetaEnd | tools/fix-head-meta.mjs:183 | `<meta\b[^>]*>` ends at the first `>` |
| Finders.AttrMatch | tools/fix-head-meta.mjs:96-99 | the text `attr="value"` matches the steps of `attr=["']value["']` |
| Finders.KeyInLocal | tools/fix-head-meta.mjs:96-99 | whether an attribute pair occurs inside a tag depends only on the tag's text |
| Finders.KeyAfter | tools/fix-head-meta.mjs:96-99 | an attribute written before `>` is found inside the tag |
| Finders.TagEndAfter | tools/fix-head-meta.mjs:96-99 | such a tag closes at the `>` right after the attribute |
| Finders.LastValue | tools/fix-head-meta.mjs:96-99 | the greedy `[^>]*` before `content=` gives a group and match inside the text |
| Finders.LangFrom | tools/fix-head-meta.mjs:163-166 | the lazy `([^>]*?)\s` before `lang` gives a span inside the tag |
| Finders.EndingAt | tools/add-schema.mjs:182-184 | an element ends right after its closing tag exactly when one was found |
| Finders.CloseAfterIs | tools/add-schema.mjs:182-184 | with a `</script>` at `h`, the block ends right after it |
| Finders.At | tools/fix-head-meta.mjs:51-57 | every finder's match at the start of a text lies inside it, with its group inside the match |
| Finders.FirstFrom | tools/fix-head-meta.mjs:51-57 | the left-most match at or after a position, with no match before it |
| Finders.FirstFromFound | tools/fix-head-meta.mjs:51-57 | what `FirstFrom` finds is a match where it starts |
| Finders.FirstFound | tools/fix-head-meta.mjs:51-57 | what `First` finds is a match where it starts |
| Finders.FirstIsLeftmost | tools/fix-head-meta.mjs:51-57 | a non-global match is exactly the left-most one: a match of the pattern with no match starting before it |
| Finders.FirstFromLeftmost | tools/fix-head-meta.mjs:51-57 | the search from a position at or before the left-most match finds it |
| Finders.FirstNone | tools/fix-head-meta.mjs:51-57 | the search finds nothing exactly when the pattern matches nowhere |
| Finders.FirstFromNone | tools/fix-head-meta.mjs:51-57 | where the pattern matches nowhere, the search from any position finds nothing |
| Finders.First | tools/fix-head-meta.mjs:114 | the non-global `match`: a match that lies in the text, with its group inside it; that it is the left-most one is `FirstIsLeftmost`, and none exactly when nothing matches is `FirstNone` |
| Finders.ReplaceMatchAt | tools/fix-head-meta.mjs:94-111 | a non-global `replace` puts the replacement in place of the first match and keeps the text around it |
| Finders.ReplaceMatch | tools/fix-head-meta.mjs:60 | no contract of its own; see `ReplaceMatchAt` |
| Finders.HeadFirstCopy | tools/fix-head-meta.mjs:51-57 | no copy of the head's text starts before the head, so `html.replace(head, …)` replaces the head itself |
| Finders.WithHeadRegion | tools/fix-head-meta.mjs:51-57 | `withHead` rewrites the first head element and keeps the text around it; without a head it rewrites the whole text |
| Finders.WithHead | tools/fix-head-meta.mjs:51-57 | no contract of its own; see `WithHeadRegion` |
| Finders.HeadLocal | tools/fix-head-meta.mjs:51-57 | the head match depends only on its own characters |
| Finders.HeadAt | tools/fix-head-meta.mjs:52 | the `<head>` element match lies in the text; see `HeadLocal` and `WithHeadRegion` |
| Finders.TitleAt | tools/fix-head-meta.mjs:114 | the `<title>` match lies in the text with its group inside it; see `PageMeta.TitleRead` |
| Finders.PairAt | tools/fix-head-meta.mjs:119-121 | a meta attribute-pair match lies in the text with its group inside it; see `LastValue`, `PageMeta.DescriptionRead` and `PageMeta.OgImageRead` |
| Finders.SchemaAt | tools/add-schema.mjs:186-189 | the block match for an id lies in the text; see `SchemaLocal` and `ScriptBlock.ScriptTagMatchesItself` |
| Finders.SchemaLocal | tools/add-schema.mjs:182-184 | the block match for an id depends only on its own characters |
| PageMeta.ShouldSkipFileExactly | tools/fix-head-meta.mjs:16-19 | on a `/` path, a page is skipped exactly when it holds `<slug>` or `_templates` |
| PageMeta.ShouldSkipFile | tools/fix-head-meta.mjs:16-19 | no contract of its own; see `ShouldSkipFileExactly` |
| PageMeta.CanonicalOfRoot | tools/fix-head-meta.mjs:32-40 | the root `index.html`, in any case, has the canonical `BASE/` |
| PageMeta.CanonicalOfIndex | tools/fix-head-meta.mjs:32-40 | `x/index.html` has the folder URL `BASE/x/` as canonical |
| PageMeta.CanonicalOfFolder | tools/fix-head-meta.mjs:36-38 | collapsing slashes and putting back the scheme's `//` leave the host alone |
| Text.ReplaceFirst | tools/fix-head-meta.mjs:37 | `replace` with a string pattern; no contract of its own, see `PageMeta.CanonicalOfFolder` and `PageMeta.RestoreScheme` |
| PageMeta.CanonicalOnSite | tools/add-schema.mjs:45-54 | every canonical URL starts with `BASE/` |
| PageMeta.ToCanonicalFromFile | tools/fix-head-meta.mjs:32-40 | no contract of its own; see `CanonicalOfRoot`, `CanonicalOfIndex`, `CanonicalOfFolder` and `CanonicalOnSite` |
| PageMeta.EnsureSlashShape | tools/fix-head-meta.mjs:21-30 | after `ensureSlash` a site path ends with `/` or names a file with a `.`, and a second call changes nothing |
| PageMeta.PathOf | tools/fix-head-meta.mjs:222 | `new URL(canonical).pathname` for a URL on the site; no contract of its own, see `EnsureSlashShape` and `Schema.GatePathOfIndex` |
| PageMeta.EnsureSlash | tools/fix-head-meta.mjs:21-30 | no contract of its own; see `EnsureSlashShape` |
| PageMeta.NormalizeRooted | tools/fix-head-meta.mjs:85-92 | a path from the root is put on the `www` host |
| PageMeta.NormalizeHttps | tools/fix-head-meta.mjs:85-92 | the bare `https` domain, in any case, moves to the `www` host |
| PageMeta.NormalizeHttp | tools/fix-head-meta.mjs:85-92 | the bare `http` domain, in any case, moves to the `www` host over `https` |
| PageMeta.NormalizeOther | tools/fix-head-meta.mjs:85-92 | blank input gives `""`; any other URL comes back trimmed and otherwise unchanged |
| PageMeta.NormalizeTrimmed | tools/fix-head-meta.mjs:85-92 | the result is empty exactly when the trimmed input is, and it is trimmed |
| PageMeta.NormalizeKeepsWww | tools/add-schema.mjs:94-101 | a trimmed URL on the `www` host normalises to itself |
| PageMeta.NormalizeIdempotent | tools/fix-head-meta.mjs:85-92 | normalising twice is normalising once |
| PageMeta.NormalizeToWwwAbsolute | tools/fix-head-meta.mjs:85-92 | no contract of its own; see `NormalizeRooted`, `NormalizeHttps`, `NormalizeHttp`, `NormalizeOther`, `NormalizeTrimmed` and `NormalizeIdempotent` |
| PageMeta.RebaseHttps | tools/fix-head-meta.mjs:90 | the bare `https` domain is replaced by `BASE` |
| PageMeta.RebaseHttp | tools/fix-head-meta.mjs:91 | the bare `http` domain is replaced by `BASE` |
| PageMeta.RebaseOther | tools/fix-head-meta.mjs:90-91 | any other URL is left alone |
| PageMeta.RebaseWww | tools/fix-head-meta.mjs:90-91 | a URL on the `www` host is left alone |
| PageMeta.TitleIsNormal | tools/fix-head-meta.mjs:113-116 | the title is trimmed and single spaced, and `""` when no `<title>` matches anywhere |
| PageMeta.TitleRead | tools/fix-head-meta.mjs:113-116 | the title is the text of the left-most `<title>` match, trimmed and with each run of white space made one blank |
| PageMeta.GetTitle | tools/fix-head-meta.mjs:113-116 | no contract of its own; see `TitleRead` and `TitleIsNormal` |
| PageMeta.DescriptionIsNormal | tools/fix-head-meta.mjs:118-123 | the description is trimmed and single spaced, and `""` when no description meta matches in either attribute order |
| PageMeta.DescriptionRead | tools/fix-head-meta.mjs:118-123 | the description is the tidied content of the left-most description meta with `name` first, and only when there is none, of the left-most one with `content` first |
| PageMeta.GetDescription | tools/fix-head-meta.mjs:118-123 | no contract of its own; see `DescriptionRead` and `DescriptionIsNormal` |
| PageMeta.OgImageTrimmed | tools/add-schema.mjs:87-92 | the image read from a head is trimmed, and `""` when no `og:image` meta matches in either attribute order |
| PageMeta.OgImageRead | tools/add-schema.mjs:87-92 | the image is the trimmed content of the left-most `og:image` meta with `property` first, and only when there is none, of the left-most one with `content` first |
| PageMeta.GetOgImage | tools/add-schema.mjs:87-92 | no contract of its own; see `OgImageRead` and `OgImageTrimmed` |
| PageMeta.WrittenPages | tools/fix-head-meta.mjs:215-259 | every page is either written or skipped; no skipped page is written; every written page is an input page, fixed |
| PageMeta.WrittenAppend | tools/fix-head-meta.mjs:215-259 | the pages written for two runs of input are the two outputs in order |
| PageMeta.SkippedAppend | tools/fix-head-meta.mjs:215-259 | the skip counts of two runs of input add up |
| PageMeta.RunPages | tools/fix-head-meta.mjs:215-259 | the page loop writes the fixed non-skipped pages in order, and `changed + skipped` is the number of pages |
| HeadMeta.SetTagMatches | tools/fix-head-meta.mjs:65-161 | every tag the tool writes matches its own pattern whole when its value holds no `>` |
| HeadMeta.MetaWellFormed | tools/fix-head-meta.mjs:70-161 | the meta patterns the tool searches for are well formed |
| HeadMeta.UpsertMetaFinds | tools/fix-head-meta.mjs:70-83 | after a meta upsert the written tag is the first match, and upserting again changes nothing |
| HeadMeta.UpsertMeta | tools/fix-head-meta.mjs:70-83 | `upsertTag` with a meta tag; no contract of its own, see `UpsertMetaFinds` |
| HeadMeta.UpsertCanonicalFinds | tools/fix-head-meta.mjs:65-68 | the canonical link written is the first canonical link afterwards, and upserting again changes nothing |
| HeadMeta.UpsertCanonical | tools/fix-head-meta.mjs:65-68 | no contract of its own; see `UpsertCanonicalFinds` |
| HeadMeta.RobotsFinds | tools/fix-head-meta.mjs:70-73 | `robots` is `index,follow` in the first robots meta afterwards; a second upsert changes nothing |
| HeadMeta.UpsertRobots | tools/fix-head-meta.mjs:70-73 | no contract of its own; see `RobotsFinds` |
| HeadMeta.UpsertOgUrl | tools/fix-head-meta.mjs:75-78 | no contract of its own; see `OgUrlFinds` |
| HeadMeta.UpsertTwitterCard | tools/fix-head-meta.mjs:80-83 | no contract of its own; see `TwitterCardFinds` |
| HeadMeta.OgUrlFinds | tools/fix-head-meta.mjs:75-78 | `og:url` holds the canonical in the first match afterwards; a second upsert changes nothing |
| HeadMeta.TwitterCardFinds | tools/fix-head-meta.mjs:80-83 | `twitter:card` is `summary_large_image` in the first match afterwards; a second upsert changes nothing |
| HeadMeta.UpsertTextFacts | tools/fix-head-meta.mjs:133-155 | empty text leaves the head alone; otherwise the escaped text, which decodes back to the text, is in the first match, and a second upsert changes nothing |
| HeadMeta.UpsertText | tools/fix-head-meta.mjs:133-155 | the shared body of the four text wrappers; no contract of its own, see `UpsertTextFacts` |
| HeadMeta.UpsertOgTitle | tools/fix-head-meta.mjs:133-137 | no contract of its own; see `UpsertTextFacts` |
| HeadMeta.UpsertOgDescription | tools/fix-head-meta.mjs:139-143 | no contract of its own; see `UpsertTextFacts` |
| HeadMeta.UpsertTwitterTitle | tools/fix-head-meta.mjs:145-149 | no contract of its own; see `UpsertTextFacts` |
| HeadMeta.UpsertTwitterDescription | tools/fix-head-meta.mjs:151-155 | no contract of its own; see `UpsertTextFacts` |
| HeadMeta.TextPatternsWellFormed | tools/fix-head-meta.mjs:133-155 | the four text-wrapper patterns are well formed |
| HeadMeta.DefaultOgImageNormal | tools/fix-head-meta.mjs:8 | the default image is already a normalised `www` URL |
| HeadMeta.TwitterImageValue | tools/fix-head-meta.mjs:157-161 | the Twitter image is normalised, and without an image it is the default one |
| HeadMeta.TwitterImageFinds | tools/fix-head-meta.mjs:157-161 | after the upsert the first `twitter:image` meta holds the normalised image |
| HeadMeta.TwitterImageDefault | tools/fix-head-meta.mjs:157-161 | without an image, the default image is written |
| HeadMeta.UpsertTwitterImage | tools/fix-head-meta.mjs:157-161 | no contract of its own; see `TwitterImageValue`, `TwitterImageFinds` and `TwitterImageDefault` |
| HeadMeta.OgImageNormal | tools/fix-head-meta.mjs:94-111 | the `og:image` written is already normalised |
| HeadMeta.OgImageChoice | tools/fix-head-meta.mjs:98-104 | the image `fixOrAddOgImage` writes; no contract of its own, see `OgImageNormal`, `OgImageDefault` and `OgImageReplaces` |
| HeadMeta.OgImageDefault | tools/fix-head-meta.mjs:107-110 | without any `og:image` meta, the default image is upserted |
| HeadMeta.OgImageReplaces | tools/fix-head-meta.mjs:98-104 | with an `og:image` meta, only its first match changes, into a tag with the normalised image |
| HeadMeta.FixOrAddOgImage | tools/fix-head-meta.mjs:94-111 | no contract of its own; see `OgImageReplaces`, `OgImageDefault` and `OgImageNormal` |
| HeadMeta.FixHtmlLangKeeps | tools/fix-head-meta.mjs:163-166 | pages other than the two listed, and pages without `<html … lang="sr" …>`, are left alone |
| HeadMeta.FixHtmlLangRewrites | tools/fix-head-meta.mjs:163-166 | on the two listed pages only the first such tag changes: `lang` becomes `sr-ME`, and the other attributes and the text around it stay |
| HeadMeta.FixLangTag | tools/fix-head-meta.mjs:165 | the non-global lang replace at the matched tag; no contract of its own, see `FixHtmlLangRewrites` |
| HeadMeta.LangTag | tools/fix-head-meta.mjs:165 | the replacement `<html$1 lang="sr-ME"$2>`; no contract of its own, see `FixHtmlLangRewrites` |
| HeadMeta.FixHtmlLang | tools/fix-head-meta.mjs:163-166 | no contract of its own; see `FixHtmlLangKeeps` and `FixHtmlLangRewrites` |
| HeadMeta.NormalizeDomainsAbsent | tools/fix-head-meta.mjs:168-172 | a head that does not name the bare domain is left alone |
| HeadMeta.NormalizeDomainsRemoves | tools/fix-head-meta.mjs:168-172 | after the rewrite the head names neither `https://sindikatstudio83.me` nor `http://sindikatstudio83.me` |
| HeadMeta.NormalizeDomainsFront | tools/fix-head-meta.mjs:168-172 | a head that starts with the bare `https` domain starts with `BASE` after the rewrite |
| HeadMeta.DomainLeads | tools/fix-head-meta.mjs:168-172 | neither bare domain repeats its first letter, and `BASE` differs from each at a fixed position, so a replacement cannot create a new match |
| HeadMeta.NormalizeDomainsInHead | tools/fix-head-meta.mjs:168-172 | no contract of its own; see `NormalizeDomainsAbsent`, `NormalizeDomainsRemoves` and `NormalizeDomainsFront` |
| HeadMeta.Matches | tools/fix-head-meta.mjs:176-185 | a global replace visits non-overlapping, non-empty matches left to right |
| HeadMeta.MatchesFirst | tools/fix-head-meta.mjs:176-185 | the visited matches start with the first match, then the matches after it |
| HeadMeta.KeepFirstNone | tools/fix-head-meta.mjs:176-185 | without a match, nothing changes |
| HeadMeta.SpliceFirst | tools/fix-head-meta.mjs:176-185 | with a match, the text up to the end of the first match is kept, and later matches are deleted |
| HeadMeta.SpliceDrops | tools/fix-head-meta.mjs:176-185 | after the first match, the text only gets shorter, and strictly shorter when a match is deleted |
| HeadMeta.KeepFirstMatch | tools/fix-head-meta.mjs:176-185 | the callback loop with its `seen` flag keeps the first match and deletes the others |
| HeadMeta.KeepFirst | tools/fix-head-meta.mjs:174-189 | the seen-flag global replace; no contract of its own, see `KeepFirstMatch`, `KeepFirstNone`, `SpliceFirst` and `SpliceDrops` |
| HeadMeta.SpliceMatches | tools/fix-head-meta.mjs:176-185 | the callback loop over the visited matches gives the specified splice |
| HeadMeta.CollapseNewlines | tools/fix-head-meta.mjs:189 | `replace(/\n{3,}/g, "\n\n")` keeps whether the text starts with a line break |
| HeadMeta.CollapseNewlinesNoTriple | tools/fix-head-meta.mjs:189 | after collapsing, no three line breaks are left in a row |
| HeadMeta.CollapseNewlinesFixed | tools/fix-head-meta.mjs:189 | text without three line breaks in a row is left alone, so collapsing is idempotent |
| HeadMeta.Dedupe | tools/fix-head-meta.mjs:174-191 | the two flag-driven replaces and the collapse give `dedupeHeadMeta`, with no three line breaks in a row |
| HeadMeta.DedupeNoTriple | tools/fix-head-meta.mjs:174-191 | the de-duplicated head has no three line breaks in a row, and collapsing it again changes nothing |
| HeadMeta.DedupeHeadMeta | tools/fix-head-meta.mjs:174-191 | no contract of its own; see `Dedupe`, `DedupeNoTriple` and `SpliceFirst` |
| HeadMeta.HeadChainNoTriple | tools/fix-head-meta.mjs:230-255 | the head after the whole chain of steps never has three line breaks in a row |
| HeadMeta.HeadChain | tools/fix-head-meta.mjs:230-258 | the steps `main` runs over the head, in order; no contract of its own, see `HeadChainNoTriple` and the lemmas of each step |
| HeadMeta.FixHeads | tools/fix-head-meta.mjs:204-264 | `main` writes every page but the templates, fixed, in order; `changed` counts the written pages and `skipped` the templates |
| HeadMeta.FixPage | tools/fix-head-meta.mjs:221-259 | one page: the lang fix, then the head chain in the head; no contract of its own, see `FixHeads` |
| ScriptBlock.EscapeLeavesNoClose | tools/add-schema.mjs:108-111 | no `</script>`, in any case, survives `escapeForClosingScript` |
| ScriptBlock.EscapeWithoutClose | tools/add-schema.mjs:108-111 | text without `</script>` is left alone |
| ScriptBlock.EscapeIdempotent | tools/add-schema.mjs:108-111 | escaping twice is escaping once |
| ScriptBlock.EscapedPrefix | tools/add-schema.mjs:108-111 | a lower-case word without `<` at the front of the escaped text was already at the front of the input |
| ScriptBlock.EscapeClosingScript | tools/add-schema.mjs:108-111 | no contract of its own; see `EscapeLeavesNoClose`, `EscapeWithoutClose` and `EscapeIdempotent` |
| ScriptBlock.EscapeRegExp | tools/add-schema.mjs:199-201 | `escapeRegExp` only adds characters |
| ScriptBlock.UnescapeEscapeRegExp | tools/add-schema.mjs:199-201 | removing the backslashes gives back the input |
| ScriptBlock.EscapeRegExpOfPlain | tools/add-schema.mjs:199-201 | an id without special characters is its own escape |
| ScriptBlock.ScriptTagMatchesItself | tools/add-schema.mjs:178-197 | a block written for an id is found whole by the block finder for that id |
| ScriptBlock.ScriptTagAtFront | tools/add-schema.mjs:178-197 | a block at the front of a text is found there whatever follows it |
| ScriptBlock.ScriptTag | tools/add-schema.mjs:180-183 | the block written for an id; no contract of its own, see `ScriptTagMatchesItself` and `ScriptTagAtFront` |
| ScriptBlock.UpsertSchemaWrites | tools/add-schema.mjs:178-197 | `upsertSchemaBlock` writes the new block whole at `SchemaPos`, where the finder for the id takes exactly that block |
| ScriptBlock.InFront | tools/add-schema.mjs:196 | without a block and without `</head>`, the block goes in front |
| ScriptBlock.UpsertKeeps | tools/add-schema.mjs:178-197 | only the replaced span changes: the first block for the id, else the `</head>` the block goes before, else nothing |
| ScriptBlock.KeptText | tools/add-schema.mjs:178-197 | text wholly before or after the replaced span, such as a block for another id, is kept, shifted when it lies after |
| ScriptBlock.UpsertSchemaBlock | tools/add-schema.mjs:178-197 | no contract of its own; see `UpsertSchemaWrites`, `UpsertKeeps` and `KeptText` |
| ScriptBlock.BodyClose | tools/add-schema.mjs:184-185 | after the opening tag, the first `</script>` is the block's own |
| Schema.PostImageChoice | tools/add-schema.mjs:144-176 | the post image is never empty: the absolute `www` image, or the logo when there is none |
| Schema.BlogPostingFields | tools/add-schema.mjs:144-176 | the post block has headline `Blog` for a missing title, the chosen image, the description and date as given, id `canonical#blogposting` and the page as main entity |
| Schema.BlogPostingByOrg | tools/add-schema.mjs:144-176 | the post is written and published by the organization of `buildOrgSchema`, under its logo |
| Schema.BlogPostingSchema | tools/add-schema.mjs:144-176 | no contract of its own; see `BlogPostingFields`, `PostImageChoice` and `BlogPostingByOrg` |
| Schema.SiteBlocksAgree | tools/add-schema.mjs:113-142 | the organization and the local business have distinct `@id`s, the same name and the same URL |
| Schema.OrgSchema | tools/add-schema.mjs:113-125 | no contract of its own; see `SiteBlocksAgree` and `BlogPostingByOrg` |
| Schema.LocalBusinessSchema | tools/add-schema.mjs:127-142 | no contract of its own; see `SiteBlocksAgree` |
| Schema.BlogPostPathShape | tools/add-schema.mjs:20 | the post paths are exactly `/sr-me/blog/p`, two digits and `/`, with the letters in any case |
| Schema.BlogPostPathExact | tools/add-schema.mjs:20 | a path with anything after the slash, or a third digit, is not a post path |
| Schema.IsBlogPostPath | tools/add-schema.mjs:20 | `BLOG_POST_PATH_RE`; no contract of its own, see `BlogPostPathShape` and `BlogPostPathExact` |
| Schema.GatePathOfIndex | tools/add-schema.mjs:222-235 | the gate tests the folder path of `x/index.html`, so `sr-me/blog/p07/` gets a post block and `sr-me/blog/` does not |
| Schema.IdsAreNames | tools/add-schema.mjs:231-248 | the three block ids are names the block finder can match |
| Schema.SchemaHeadSteps | tools/add-schema.mjs:227-252 | the head steps are the org block, the local business block, then the post block only on a post page |
| Schema.SchemaHeadWrites | tools/add-schema.mjs:227-252 | the last block written is whole in the new head: the post block on a post page, else the local business block; a page that is not a post gets no post block |
| Schema.SiteHead | tools/add-schema.mjs:230-232 | the org and local-business blocks; no contract of its own, see `SchemaHeadWrites` and `OrgBlockWritten` |
| Schema.PostJson | tools/add-schema.mjs:235-246 | the post block built from the head read after the site blocks; no contract of its own, see `BlogPostingFields` |
| Schema.SchemaHead | tools/add-schema.mjs:227-249 | the function `main` passes to `withHead`; no contract of its own, see `SchemaHeadSteps` and `SchemaHeadWrites` |
| Schema.OrgBlockWritten | tools/add-schema.mjs:231 | the org block is whole in the head after it, at `SchemaPos` |
| Schema.SchemaPageKeepsBody | tools/add-schema.mjs:227-252 | only the head changes: a page with a head keeps everything around it |
| Schema.SchemaPage | tools/add-schema.mjs:220-249 | one page; no contract of its own, see `SchemaPageKeepsBody` and `AddSchema` |
| Schema.AddSchema | tools/add-schema.mjs:203-260 | `main` writes every page but the templates with its blocks, in order; `changed` and `skipped` count them |
| ServicesSchema.HasPartFollowsServices | tools/add-services-schema.mjs:135-172 | `hasPart` has one item per service, in order, each at its anchor, under its name and description, provided by the organization |
| ServicesSchema.AboutIsOrg | tools/add-services-schema.mjs:135-172 | the page is about the organization of add-schema's org block: same `@id`, same logo |
| ServicesSchema.ServiceUrlInjective | tools/add-services-schema.mjs:150-161 | distinct slugs give distinct anchors, and back |
| ServicesSchema.ItemIdsDistinct | tools/add-services-schema.mjs:150-161 | the items' `@id`s are distinct exactly when the slugs are |
| ServicesSchema.ServiceItem | tools/add-services-schema.mjs:149-160 | no contract of its own; see `HasPartFollowsServices` and `ItemIdsDistinct` |
| ServicesSchema.ServicesSlugsDistinct | tools/add-services-schema.mjs:22-92 | the service list has eleven entries with distinct slugs |
| ServicesSchema.BuiltItemsDistinct | tools/add-services-schema.mjs:135-172 | the built schema has eleven items with eleven distinct `@id`s |
| ServicesSchema.BuildServicesSchema | tools/add-services-schema.mjs:135-172 | no contract of its own; see `HasPartFollowsServices`, `AboutIsOrg` and `BuiltItemsDistinct` |
| ServicesSchema.ServicesHeadWrites | tools/add-services-schema.mjs:174-191 | the `services` block is whole in the new head, and blocks for other ids around it are kept |
| Blog.NormCategory | tools/generate-blog.mjs:82-84 | the category is `Lower(SafeStr(v))`, the value as trimmed text lower-cased, and is therefore trimmed and lower case |
| Blog.LowerTrimmed | tools/generate-blog.mjs:82-84 | lower-casing keeps text trimmed |
| Blog.NormalizeStatus | tools/generate-blog.mjs:96-101 | empty becomes `draft`, `published` and its three synonyms (`publish`, `live`, `public`) become `published`, anything else is kept lower case |
| Blog.TagPiecesTrimmed | tools/generate-blog.mjs:86-94 | every tag kept from text is trimmed and not empty |
| Blog.TagPiecesAppend | tools/generate-blog.mjs:86-94 | cleaning two lists of pieces is cleaning each, in order |
| Blog.TagPieces | tools/generate-blog.mjs:90-93 | `map(trim).filter(Boolean)`: at most one piece per part; see `TagPiecesTrimmed` and `TagPiecesAppend` |
| Blog.TagsOf | tools/generate-blog.mjs:86-94 | tags read from text are non-empty, trimmed and free of `,` |
| Blog.TagsOfComma | tools/generate-blog.mjs:86-94 | the tags before and after a comma are read separately and kept in order |
| Blog.TagsOfOne | tools/generate-blog.mjs:86-94 | a text without a comma is one tag, unless it is blank |
| Blog.ParseTags | tools/generate-blog.mjs:86-94 | an array gives `TagItems` of its elements: its truthy elements, each as a trimmed string, at most one per element; text gives non-empty trimmed tags without `,` |
| Blog.TagItemsAppend | tools/generate-blog.mjs:87 | the tags of two arrays joined are the tags of each, in order |
| Blog.TagItems | tools/generate-blog.mjs:87 | at most one tag per element, each trimmed; see `TagItemsAppend` and `ParseTagsArrayOne` for which elements are kept, in order |
| Blog.ParseTagsArrayAppend | tools/generate-blog.mjs:87 | an array tags cell is read element by element: splitting the array splits the tags |
| Blog.ParseTagsArrayOne | tools/generate-blog.mjs:87 | a one-element array gives the trimmed text of a truthy element, and nothing for a falsy one |
| Blog.BlankArrayTag | tools/generate-blog.mjs:86-94 | a blank text gives no tag, but a blank string inside an array is kept as an empty tag |
| Blog.ExtractRows | tools/generate-blog.mjs:136-143 | rows are the response itself when it is an array, else the first of its `posts`, `data` and `rows` fields that is an array; nothing when none is |
| Blog.Separator | tools/generate-blog.mjs:152 | the separator is `,` exactly when the first line has a comma and no tab; otherwise it is a tab |
| Blog.Cells | tools/generate-blog.mjs:153 | a line has one cell per separator-free piece, and cell `j` is piece `j` trimmed |
| Blog.TsvToRows | tools/generate-blog.mjs:145-155 | one row per non-blank line, the header line included; blank text gives no rows |
| Blog.TsvRowShape | tools/generate-blog.mjs:145-155 | row `i` is the cells of non-blank line `i`, cut at the separator the first line chose: cell `j` is the `j`-th piece trimmed |
| Blog.NonBlankMembers | tools/generate-blog.mjs:148 | a line is kept exactly when it is one of the lines and is not blank |
| Blog.NonBlankAppend | tools/generate-blog.mjs:148 | filtering two runs of lines keeps the non-blank lines of each, in order |
| Blog.NonBlankOne | tools/generate-blog.mjs:148 | one line is kept exactly when it is not blank |
| Blog.Lines | tools/generate-blog.mjs:148 | `split(/\r?\n/)`: one line per piece of the split at line feeds; see `TsvRowShape` |
| Blog.NonBlank | tools/generate-blog.mjs:148 | `filter((l) => l.trim().length)`: the kept lines are not blank; which and in what order is `NonBlankMembers`, `NonBlankAppend` and `NonBlankOne` |
| Blog.RowsOf | tools/generate-blog.mjs:270-275 | a text response gives its TSV rows, and an array response gives its elements |
| Blog.ColumnOrderDistinct | tools/generate-blog.mjs:23-36 | the column names are distinct |
| Blog.ColumnObject | tools/generate-blog.mjs:157-163 | column `i` holds `arr[i]`, or `""` when the row is short or the cell is null, and there are no other keys |
| Blog.ArrayRowToObject | tools/generate-blog.mjs:157-163 | the loop over the column names builds that object |
| Blog.NormalizePost | tools/generate-blog.mjs:165-198 | every normalised post has a slug in `[a-z0-9-]` form and a non-empty status; its fields are in `NormalizePostFields` and `NormalizePostFallbacks` |
| Blog.NormalizePostFields | tools/generate-blog.mjs:165-179 | the slug is the slugified `slug`, the status the normalised `status`, the category the normalised `category`, the tags the parsed `tags`, and the title, date and cover image the trimmed `title`, `date` and (when truthy) `cover_image` of the row object |
| Blog.MakePostFields | tools/generate-blog.mjs:169-179 | a built post takes the slug, status, category and tags it is given, and the trimmed `title`, `date` and (when truthy) `cover_image` of the row |
| Blog.MakePost | tools/generate-blog.mjs:169-182 | no contract of its own; see `MakePostFields` and `MakePostFallbacks` |
| Blog.OrNothing | tools/generate-blog.mjs:177 | `safeStr(a \|\| "")` is `a` trimmed when it is truthy, else `""` |
| Blog.MakePostFallbacks | tools/generate-blog.mjs:169-182 | every text field is trimmed; the excerpt is the excerpt, else the description, else empty; the description is the excerpt or else the title; the alt text falls back to the title; the og:image to the cover image; the content to `content`, else empty |
| Blog.NormalizePostFallbacks | tools/generate-blog.mjs:165-198 | the same fallbacks hold between every row, object or positional, and its post |
| Blog.OrText | tools/generate-blog.mjs:171-182 | reading `a`, else `b`, else `""`, as the excerpt and the content are read, gives the trimmed text of the first truthy of `a` and `b`, and empty text when neither is truthy |
| Blog.PositionalRow | tools/generate-blog.mjs:157-198 | a positional row takes its slug, status, title and tags from the first, second, fifth and seventh cells, and its date is empty |
| Blog.PositionalContent | tools/generate-blog.mjs:157-182 | the content of a positional row is its twelfth cell trimmed, and empty when that cell is falsy, as there is no `content` column to fall back to |
| Blog.PositionalAbsent | tools/generate-blog.mjs:157-163 | a key that is not a column of `COLUMN_ORDER`, such as `content`, is absent from a positional row |
| Blog.RowObject | tools/generate-blog.mjs:166 | an array row through `arrayRowToObject`, anything else as it is; no contract of its own, see `NormalizePostFields`, `PositionalGet` and `PositionalAbsent` |
| Blog.ContentNotColumn | tools/generate-blog.mjs:23-36 | `content` is not among the columns of `COLUMN_ORDER` |
| Blog.PositionalNoDate | tools/generate-blog.mjs:23-36 | a positional row has no `date` column |
| Blog.Published | tools/generate-blog.mjs:286-288 | a post is kept exactly when it has a slug and a title and is `published` |
| Blog.PublishedAppend | tools/generate-blog.mjs:286-288 | the posts kept from two runs are those kept from each, in order |
| Blog.PublishedOne | tools/generate-blog.mjs:286-288 | one post is kept, once, exactly when it is publishable; with `PublishedAppend` this fixes the order and the multiplicity of the result |
| Blog.IsPublishable | tools/generate-blog.mjs:286-288 | the filter test; see `Published` and `PublishedOne` |
| Blog.PublishedJoin | tools/generate-blog.mjs:286-288 | the head step of `PublishedAppend` |
| Blog.Normalized | tools/generate-blog.mjs:284 | post `i` is the normalisation of row `i` |
| Blog.PublishedPostsCorrect | tools/generate-blog.mjs:284-293 | `main` publishes exactly the publishable posts, each with a slug, newest first, equal dates in sheet order |
| Blog.PublishedPosts | tools/generate-blog.mjs:284-293 | no contract of its own; see `PublishedPostsCorrect` |
| Blog.ToPostsJson | tools/generate-blog.mjs:200-214 | one listing entry per post, in order; entry `i` with the content of post `i` gives back the post |
| Blog.CanonicalForSlug | tools/generate-blog.mjs:103-105 | a post's canonical URL is under `SITE_BASE/sr-me/blog/` and ends with `/` |
| Blog.CanonicalOfSlug | tools/generate-blog.mjs:103-105 | a slug needs no escapes, so the canonical URL contains it as it is |
| Blog.RenderDataFor | tools/generate-blog.mjs:302-314 | the og:image and cover image are the post's own, or the default cover when empty; the alt text is the post's, or its title; the canonical is that of the slug; the tags are their JSON array; every other field is the post's own |
| Blog.PageFor | tools/generate-blog.mjs:301-317 | a post's page is written under its slug |
| Blog.RenderWithoutPlaceholders | tools/generate-blog.mjs:243-256 | a template without the placeholders is written as it is |
| Blog.FillingBraceless | tools/generate-blog.mjs:243-256 | no value inserted adds a `{` when the data has none |
| Blog.RenderIsFill | tools/generate-blog.mjs:243-256 | `renderTemplate` fills every placeholder with its value at once, without scanning values for later placeholders |
| Blog.RenderTemplate | tools/generate-blog.mjs:243-256 | no contract of its own; see `RenderIsFill` and `RenderWithoutPlaceholders` |
| Blog.PagesForAt | tools/generate-blog.mjs:301-317 | page `i` is the rendering of post `i` |
| Blog.PagesFor | tools/generate-blog.mjs:299-318 | one page per published post; see `PagesForAt` |
| Blog.RenderPages | tools/generate-blog.mjs:301-317 | the page loop renders one page per post, in order |
| Blog.SortByDate | tools/generate-blog.mjs:293 | the in-place sort on an array gives the stable newest-first sort by date |
| Blog.DateKey | tools/generate-blog.mjs:293 | the sort key `String(p.date \|\| "")`; see `SortByDate` and `PublishedPostsCorrect` |
| Blog.SelectPosts | tools/generate-blog.mjs:270-293 | rows, normalisation, selection and sort give the published posts |
| Blog.Generate | tools/generate-blog.mjs:258-320 | `main` writes the listing of the published posts and one page per post |
| PagesBlog.Rows | Pages/tools/generate-blog.mjs:138 | rows are `api.posts` when it is an array and none otherwise; a `null` response throws |
| PagesBlog.RowsVersusBlog | Pages/tools/generate-blog.mjs:138 | rows come from `posts` alone: a top-level array, `data` or `rows` give none |
| PagesBlog.Status | Pages/tools/generate-blog.mjs:94 | the status is the lower-cased text or `draft`, and is `published` exactly when the text is |
| PagesBlog.StatusVersusBlog | Pages/tools/generate-blog.mjs:94 | the older copy's status differs from the newer one's on the synonyms, which stay unpublished |
| PagesBlog.PickCover | Pages/tools/generate-blog.mjs:42-44 | the cover is trimmed, and empty when `cover_image` is falsy |
| PagesBlog.NormalizePost | Pages/tools/generate-blog.mjs:88-112 | normalising throws exactly on a `null` row; otherwise the slug is trimmed and the status is not empty |
| PagesBlog.PostOf | Pages/tools/generate-blog.mjs:88-112 | the post's slug is trimmed, its status is not empty, and its cover is `pickCover` of the row; its fields are in `PostOfFields` and `NormalizePostFallbacks` |
| PagesBlog.PostOfFields | Pages/tools/generate-blog.mjs:89-99 | the slug is the trimmed `slug`, the status the lower-cased `status` or `draft`, the category the normalised `category`, the tags the parsed `tags`, and the title, date and cover the trimmed `title`, `date` and (when truthy) `cover_image` |
| PagesBlog.SlugOnlyTrimmed | Pages/tools/generate-blog.mjs:89 | the slug is the trimmed text, where the newer copy slugifies it |
| PagesBlog.NormalizePostFallbacks | Pages/tools/generate-blog.mjs:88-112 | every text field is trimmed; the excerpt, description, alt text, og:image and content fall back as in the newer copy |
| PagesBlog.NonObjectRowIsDraft | Pages/tools/generate-blog.mjs:88-112 | a row that is not an object, such as a positional array, is a draft with empty fields |
| PagesBlog.Normalized | Pages/tools/generate-blog.mjs:139 | `rows.map(normalizePost)` throws exactly when some row is `null`; otherwise post `i` is row `i` normalised |
| PagesBlog.PublishedPostsCorrect | Pages/tools/generate-blog.mjs:138-145 | a run fails exactly on a `null` response or row; otherwise it writes exactly the publishable posts, newest first, equal dates in sheet order |
| PagesBlog.PublishedPosts | Pages/tools/generate-blog.mjs:138-145 | no contract of its own; see `PublishedPostsCorrect` |
| PagesBlog.Generate | Pages/tools/generate-blog.mjs:131-172 | `main` fails when normalisation throws and otherwise writes the listing and one page per post |
| SheetCms.Field | Pages/scripts/sheet_cms.py:32-53 | `(row.get(k) or "").strip()` is the trim of the cell, and empty for a missing column |
| SheetCms.OrElse | Pages/scripts/sheet_cms.py:40-53 | Python's `a or b` on strings |
| SheetCms.StripTrailingSlashes | Pages/scripts/sheet_cms.py:8 | `rstrip("/")` removes exactly the trailing slashes |
| SheetCms.StripTrailingSlashesIdempotent | Pages/scripts/sheet_cms.py:8 | stripping twice is stripping once |
| SheetCms.Esc | Pages/scripts/sheet_cms.py:17-18 | `esc` is the character-by-character HTML escape and leaves no `<`, `>` or `"` |
| SheetCms.ParseTags | Pages/scripts/sheet_cms.py:20-24 | `parse_tags` gives non-empty trimmed pieces without `,` |
| SheetCms.ParseTagsAgrees | Pages/scripts/sheet_cms.py:20-24 | the CMS reads a tag text as the generators read a text tags cell |
| SheetCms.ParseTagsTrimmed | Pages/scripts/sheet_cms.py:21 | trimming the text first changes nothing |
| SheetCms.TitleFrom | Pages/scripts/sheet_cms.py:41 | `str.title()` keeps the length and which characters are letters; every output character is the input's character up to case, and every non-letter is copied |
| SheetCms.TitleShape | Pages/scripts/sheet_cms.py:41 | after `str.title()` the first letter of each word is upper case and every other letter lower case |
| SheetCms.Title | Pages/scripts/sheet_cms.py:41 | `str.title()` keeps the length, changes letters only in case and copies every non-letter; the case of each letter is `TitleShape` |
| SheetCms.DefaultBadge | Pages/scripts/sheet_cms.py:40-41 | the default category's badge is `Blog` |
| SheetCms.UrlFor | Pages/scripts/sheet_cms.py:55 | a post's path is under `/sr-me/blog/` and ends with `/` |
| SheetCms.EntryFor | Pages/scripts/sheet_cms.py:36-90 | the entry of a row carries the row's id; its fields are in `EntryKept` and `EntryDefaults` |
| SheetCms.EntryDefaults | Pages/scripts/sheet_cms.py:40-55 | for an empty cell: category `blog`, badge the title-cased category, title the id, the fixed excerpt, image the site's cover image, alt text the title, popup image the image, popup alt text the alt text; the URL is the post's path |
| SheetCms.EntryFromDefaults | Pages/scripts/sheet_cms.py:40-55 | the same defaults, for any stripped cells |
| SheetCms.EntryKept | Pages/scripts/sheet_cms.py:36-51 | a cell that is not empty is kept stripped (the category also lower-cased); the id is the stripped `id` cell, and the tags are `parse_tags` of the `tags` cell |
| SheetCms.EntryFromKept | Pages/scripts/sheet_cms.py:36-51 | the same, for any stripped cells |
| SheetCms.EntryFrom | Pages/scripts/sheet_cms.py:36-55 | no contract of its own; see `EntryFromDefaults`, `EntryFromKept` and `EntryFromFilled` |
| SheetCms.EntryFilled | Pages/scripts/sheet_cms.py:40-51 | category, badge, excerpt, image and popup image are never empty; with an id, neither are title, alt and popup alt |
| SheetCms.BodyFor | Pages/scripts/sheet_cms.py:53 | the body is the trimmed `body` cell when it is not empty, and the placeholder paragraph `<p>(Sadržaj uskoro.)</p>` otherwise |
| SheetCms.ChipsFirstThree | Pages/scripts/sheet_cms.py:70-72 | only the first three tags become chips |
| SheetCms.Chip | Pages/scripts/sheet_cms.py:71 | one `<span class="chip">` with the escaped tag; no contract of its own, see `ChipsFirstThree` |
| SheetCms.Chips | Pages/scripts/sheet_cms.py:71 | no contract of its own; see `ChipsFirstThree` |
| SheetCms.ValuesFor | Pages/scripts/sheet_cms.py:55-56 | the canonical URL is the site base followed by the post's path |
| SheetCms.PageWithoutPlaceholders | Pages/scripts/sheet_cms.py:58-72 | a template without the placeholders is written as it is |
| SheetCms.FillingBraceless | Pages/scripts/sheet_cms.py:58-72 | no value inserted adds a `{` when the values have none |
| SheetCms.Filling | Pages/scripts/sheet_cms.py:59-72 | what each placeholder is replaced with; no contract of its own, see `FillingBraceless` and `PageIsFill` |
| SheetCms.PageIsFill | Pages/scripts/sheet_cms.py:58-72 | the chain of `replace` calls fills every placeholder at once |
| SheetCms.PageHtml | Pages/scripts/sheet_cms.py:58-72 | no contract of its own; see `PageIsFill` and `PageWithoutPlaceholders` |
| SheetCms.Listing | Pages/scripts/sheet_cms.py:31-90 | at most one entry per row |
| SheetCms.ListingAppend | Pages/scripts/sheet_cms.py:31-90 | the listing keeps the sheet's order and sorts nothing |
| SheetCms.ListingMembers | Pages/scripts/sheet_cms.py:31-38 | an entry is listed exactly for each published row with an id |
| SheetCms.Accepts | Pages/scripts/sheet_cms.py:32-38 | the published-status and id tests of the loop; see `ListingMembers` |
| SheetCms.PagesMatchListing | Pages/scripts/sheet_cms.py:74-90 | there is one page per entry, and page `i` has the id of entry `i` |
| SheetCms.Pages | Pages/scripts/sheet_cms.py:30-84 | the pages of the accepted rows; no contract of its own, see `PagesMatchListing` and `Run` |
| SheetCms.Run | Pages/scripts/sheet_cms.py:8-94 | the row loop writes the pages of the accepted rows and appends their entries, with the site base stripped of trailing slashes |
| Sitemap.Under | tools/generate-sitemap.mjs:42-64 | files found in a directory are placed under its name |
| Sitemap.WalkSound | tools/generate-sitemap.mjs:42-64 | `walk` returns only HTML files other than `404.html`, and enters no skipped directory |
| Sitemap.WalkComplete | tools/generate-sitemap.mjs:42-64 | every HTML file other than `404.html` outside the skipped directories is collected, with its date |
| Sitemap.WalkEntryComplete | tools/generate-sitemap.mjs:42-64 | the same for one directory entry |
| Sitemap.Walk | tools/generate-sitemap.mjs:42-64 | the recursive loop over the entries gives the specified walk |
| Sitemap.WalkFiles | tools/generate-sitemap.mjs:42-64 | no contract of its own; see `WalkSound` and `WalkComplete` |
| Sitemap.FileToUrl | tools/generate-sitemap.mjs:66-84 | every URL starts with `BASE_URL/` and has no doubled slash in its path |
| Sitemap.FileToUrlIndex | tools/generate-sitemap.mjs:66-84 | `x/index.html`, in any case, maps to the folder URL `x/` |
| Sitemap.FileToUrlRoot | tools/generate-sitemap.mjs:66-84 | the root `index.html` maps to the site's root URL |
| Sitemap.UrlPathOfIndex | tools/generate-sitemap.mjs:66-84 | `x/index.html`, in any case, has the URL path `x/` |
| Sitemap.UrlPathOf | tools/generate-sitemap.mjs:66-84 | no contract of its own; see `UrlPathOfIndex`, `FileToUrlIndex` and `FileToUrlRoot` |
| Sitemap.LegacySrMeMatchCorrect | tools/generate-sitemap.mjs:34 | the matcher accepts exactly the URLs `/\/sr-me\/[^\/]+\.html$/i` matches |
| Sitemap.LegacySrMePage | tools/generate-sitemap.mjs:34 | the regular expression `/\/sr-me\/[^\/]+\.html$/i` as a predicate; see `LegacySrMeMatchCorrect` |
| Sitemap.ShouldSkipUrl | tools/generate-sitemap.mjs:27-40 | no contract of its own; the regular-expression test is `LegacySrMeMatch`, see `LegacySrMeMatchCorrect` |
| Sitemap.EntriesMembers | tools/generate-sitemap.mjs:127-134 | an entry is kept exactly when it is the entry of a found file and its URL passes both filters |
| Sitemap.Listed | tools/generate-sitemap.mjs:133-134 | the two filters of `main`; see `EntriesMembers` and `SitemapSound` |
| Sitemap.Entries | tools/generate-sitemap.mjs:127-134 | `entries` of `main`; no contract of its own, see `EntriesMembers` |
| Sitemap.DedupSeen | tools/generate-sitemap.mjs:137-143 | removing duplicates never adds entries |
| Sitemap.DedupSubseq | tools/generate-sitemap.mjs:137-143 | removing duplicates keeps the entries in order |
| Sitemap.DedupSound | tools/generate-sitemap.mjs:137-143 | kept entries come from the input, at locations not seen before |
| Sitemap.DedupAtMostOne | tools/generate-sitemap.mjs:137-143 | at most one kept entry has a given location |
| Sitemap.DedupKeepsFirst | tools/generate-sitemap.mjs:137-143 | the first entry of every location is kept |
| Sitemap.DedupCovers | tools/generate-sitemap.mjs:137-143 | every location of the input not seen before keeps an entry |
| Sitemap.Dedupe | tools/generate-sitemap.mjs:137-143 | the loop with its `seen` set gives the specified de-duplication |
| Sitemap.Dedup | tools/generate-sitemap.mjs:137-143 | no contract of its own; see `DedupSound`, `DedupKeepsFirst`, `DedupCovers` and `DedupAtMostOne` |
| Sitemap.BuildSitemap | tools/generate-sitemap.mjs:100-117 | the document starts with the XML header and `<urlset>` and ends with `</urlset>`; its whole layout is `BuildSitemapLayout` |
| Sitemap.BodyAppend | tools/generate-sitemap.mjs:105-114 | the `<url>` blocks follow the entries' order |
| Sitemap.UrlBlock | tools/generate-sitemap.mjs:106-112 | no contract of its own; see `UrlBlockShape` |
| Sitemap.Body | tools/generate-sitemap.mjs:105-114 | the `map(...).join("")` over the entries; no contract of its own, see `BodyOne`, `BodyAppend` and `BlockAt` |
| Sitemap.BuildSitemapLayout | tools/generate-sitemap.mjs:100-117 | the document is the header, the blocks of the entries, then `</urlset>` |
| Sitemap.BodyOne | tools/generate-sitemap.mjs:105-114 | no entries give no blocks, and one entry gives its own block; with `BodyAppend` this fixes the body in order |
| Sitemap.BodyCons | tools/generate-sitemap.mjs:105-114 | the body of a non-empty list is the first block followed by the rest |
| Sitemap.BodySplit | tools/generate-sitemap.mjs:105-114 | the body is the blocks before entry `i`, its block, then the blocks after it |
| Sitemap.BlockAt | tools/generate-sitemap.mjs:100-117 | the block of entry `i` stands in the document right after the header and the blocks of the entries before it |
| Sitemap.UrlBlockShape | tools/generate-sitemap.mjs:106-112 | the location is written escaped; an undated block is `<url>`, the `<loc>` line and `</url>`, and a dated one has the `<lastmod>` line between them |
| Sitemap.SitemapSorted | tools/generate-sitemap.mjs:145 | the sitemap is in ascending order of location |
| Sitemap.SitemapSound | tools/generate-sitemap.mjs:125-145 | the sitemap lists only entries of found files whose URLs pass both filters |
| Sitemap.SitemapLocs | tools/generate-sitemap.mjs:125-145 | the sitemap lists exactly the locations of the kept entries |
| Sitemap.SitemapComplete | tools/generate-sitemap.mjs:42-145 | every collected file whose URL passes both filters is listed |
| Sitemap.SitemapEntries | tools/generate-sitemap.mjs:125-145 | no contract of its own; see `SitemapSound`, `SitemapLocs`, `SitemapComplete`, `SitemapDistinct` and `SitemapSorted` |
| Sitemap.SitemapDistinct | tools/generate-sitemap.mjs:137-145 | the sitemap lists each location once |
| Sitemap.Generate | tools/generate-sitemap.mjs:119-152 | `main` after the walk writes the sitemap of the de-duplicated, sorted entries |
| CleanUrls.LastSlash | tools/fix-clean-urls-and-canonicals.mjs:44-56 | the last `/` before a position, or -1 |
| CleanUrls.DirnameOfName | tools/fix-clean-urls-and-canonicals.mjs:44-56 | a name without `/` has directory `.` and is its own base name |
| CleanUrls.DirnameOfPath | tools/fix-clean-urls-and-canonicals.mjs:44-56 | `d/name` has directory `d` and base name `name` |
| CleanUrls.BasenameHtml | tools/fix-clean-urls-and-canonicals.mjs:44-56 | a name ending with `.html` loses that ending |
| CleanUrls.CleanUrlShape | tools/fix-clean-urls-and-canonicals.mjs:44-56 | a clean URL lies under `/sr-me/` and ends with `/` |
| CleanUrls.CleanUrlOfName | tools/fix-clean-urls-and-canonicals.mjs:44-56 | a root page gets `/sr-me/<slug>/`, where the slug is that of its name without `.html` |
| CleanUrls.CleanUrlOfPath | tools/fix-clean-urls-and-canonicals.mjs:44-56 | a page in a folder keeps the folder in front of its slug |
| CleanUrls.CleanUrlPlain | tools/fix-clean-urls-and-canonicals.mjs:44-56 | a root page's clean URL holds no `.`, `>` or quote |
| CleanUrls.CleanUrl | tools/fix-clean-urls-and-canonicals.mjs:44-56 | no contract of its own; see `CleanUrlShape`, `CleanUrlOfName` and `CleanUrlOfPath` |
| CleanUrls.CanonicalTag | tools/fix-clean-urls-and-canonicals.mjs:58-60 | the canonical tag is `<link rel="canonical" href="url" />` |
| CleanUrls.SetLink | tools/fix-clean-urls-and-canonicals.mjs:94-98 | `Map.set` adds the key, and every entry afterwards was there before or is the new one |
| CleanUrls.SetLinkDistinct | tools/fix-clean-urls-and-canonicals.mjs:94-98 | setting a key keeps the keys distinct |
| CleanUrls.BuildMapping | tools/fix-clean-urls-and-canonicals.mjs:79-102 | the loop over the entries gives the specified mapping |
| CleanUrls.MappingValid | tools/fix-clean-urls-and-canonicals.mjs:79-102 | each key occurs once, with its clean URL |
| CleanUrls.MappingKeys | tools/fix-clean-urls-and-canonicals.mjs:79-102 | the keys are exactly the names of the `.html` files other than `404.html` and `index.html` |
| CleanUrls.MappingExcludes | tools/fix-clean-urls-and-canonicals.mjs:86-92 | no key is `404.html`, an `index.html`, or a name without `.html` |
| CleanUrls.MappedAreRoot | tools/fix-clean-urls-and-canonicals.mjs:127-136 | every mapped name is one of the root pages |
| CleanUrls.RootHtml | tools/fix-clean-urls-and-canonicals.mjs:127-136 | the root pages are exactly the `.html` files other than `404.html` |
| CleanUrls.ReplaceInternalLinks | tools/fix-clean-urls-and-canonicals.mjs:104-125 | the loop over the mapping gives the five replacements per entry, in map order |
| CleanUrls.RewriteLinkAbsent | tools/fix-clean-urls-and-canonicals.mjs:113-123 | text with none of the five spellings of a file is left alone by its entry |
| CleanUrls.LinksUntouched | tools/fix-clean-urls-and-canonicals.mjs:104-125 | a page that names no mapped file keeps its text |
| CleanUrls.AbsoluteLinkRewritten | tools/fix-clean-urls-and-canonicals.mjs:115 | an absolute link `/sr-me/Name.html` becomes the clean URL |
| CleanUrls.QuotedLinkRewritten | tools/fix-clean-urls-and-canonicals.mjs:117-118 | a quoted relative link `"Name.html"` becomes the quoted clean URL |
| CleanUrls.RewriteLink | tools/fix-clean-urls-and-canonicals.mjs:113-123 | no contract of its own; see `RewriteLinkAbsent`, `AbsoluteLinkRewritten` and `QuotedLinkRewritten` |
| CleanUrls.DropLeadingSlashes | tools/fix-clean-urls-and-canonicals.mjs:176 | `replace(/^\/+/, "")` leaves no leading slash and removes only a prefix |
| CleanUrls.CleanPagePath | tools/fix-clean-urls-and-canonicals.mjs:164-178 | the clean copy of a root page lives at `sr-me/<slug>/index.html`, and at `sr-me/index.html` when the slug is empty, as `path.join` collapses the doubled slash |
| CleanUrls.CleanRel | tools/fix-clean-urls-and-canonicals.mjs:164-178 | no contract of its own; see `CleanPagePath` |
| CleanUrls.CleanPageCanonical | tools/fix-clean-urls-and-canonicals.mjs:62-77 | the first canonical link of the clean copy is the tag for `SITE_BASE` + the clean URL |
| CleanUrls.CreateCleanPages | tools/fix-clean-urls-and-canonicals.mjs:154-181 | the first loop writes a clean copy of every root page but `404.html` and `index.html`; `created` counts them |
| CleanUrls.RootUpdatesChanged | tools/fix-clean-urls-and-canonicals.mjs:187-198 | a root page is written back exactly when its links change, under its own name with the new text |
| CleanUrls.UpdateRootPages | tools/fix-clean-urls-and-canonicals.mjs:187-198 | the second loop writes those pages and counts them in `updatedRoot` |

## Left out

- Network and process plumbing is left out because it is I/O: `fetchJson`, `fetch_csv`, the timeout, `process.exit`, and console output.
- `ensureSheetParam` is not modelled because it relies on the `URL` class.
- The check that `SHEET_API_URL` is set is not modelled. The model starts from the fetched value.
- File-system access is abstracted: reads, writes, `mkdirSync` and `existsSync`. A tool's output is the list of pages it writes, and the inputs are parameters.
- `listIndexHtml` is not modelled: added as a filter, it would only restrict the input to `index.html` files, so its list of pages is a parameter. `walk` is modelled over an in-memory tree of entries.
- `listSrRootHtmlFiles` is modelled only as the filter `RootHtml` over a list of directory entries.
- `isoDateFromMtime` is not modelled, because the clock and `statSync` are I/O: the date of each page is a parameter.
- `JSON.stringify(obj, null, 2)` and `json.dumps` of objects are not modelled: they are a `stringify` parameter. Their indentation and key layout are not modelled. `JSON.stringify` of a string array is modelled.
- `JSON.parse`, `csv.DictReader` and UTF-8 decoding are not modelled. The response is a `Js.Value`, and a CSV row is a map from column name to cell.
- `loadTemplateOrFallback` and `loadTemplate` are not modelled: the template text is a parameter. The built-in fallback template is constant data.
- `listingCanonical` is not modelled: Pages/tools/generate-blog.mjs never calls it.
- `escapeHtmlAttr` of Pages/tools/generate-blog.mjs is not modelled on its own: it is the same chain as in tools/generate-blog.mjs, so both copies use `Escape.HtmlAttr`.
- `$` patterns in replacement strings are not modelled: replacements are inserted literally. A sheet value or page text holding `$&`, `$1` or `$$` is therefore rewritten by the source's `String.prototype.replace` (it would insert the match or a single `$`) but kept as written by the model.
- Unicode is approximated:
  - white space is the ASCII set plus the no-break space and the byte-order mark;
  - `SheetCms.Field`: the JavaScript set above is used for Python's `str.strip()` as well, which differs from it: Python does not strip the byte-order mark U+FEFF but does strip U+001C to U+001F and U+0085;
  - `toLowerCase()` and `.lower()` handle ASCII and `Č Ć Š Ž Đ`;
  - NFKD with the combining marks removed handles a small table of accented Latin letters;
  - `SheetCms.Title`: `str.title()` is modelled on ASCII letters only, so any other letter counts as a word break and keeps its case. Python gives `"Događaji"` for `"događaji"`, where the model gives `"DogađAji"`. So a category holding a non-ASCII letter gets a different default badge.
- `localeCompare` is modelled as code-point order. ICU collation is not modelled.
- Python's string `<` is not used by the CMS, which sorts nothing.
- The `path` module is modelled only for the paths the tools pass to it. `path.join`, `path.relative` and Windows separators are reduced to `/` paths.
- `new URL(u).pathname` is modelled only for URLs on the site (`PageMeta.PathOf`).
- `PageMeta.EnsureSlash`, `PageMeta.PathOf`: the percent-encoding `new URL` applies to the path is not modelled. A folder whose name holds a space or a non-ASCII letter such as `č` keeps the raw characters in the model, where the source writes `%20` or `%C4%8D`.
- The `assert` helper of the generators is not modelled, because it only stops a run when its I/O preconditions fail.
- `Sitemap.FileToUrl`, `Sitemap.FileToUrlIndex`: the input is a path already relative to the site root. `path.relative` itself is not modelled.
- `HeadMeta.FixHeads`, `Schema.AddSchema`: pages are written whether or not their text changed, as in the source. The count is of pages written, not of pages changed.
- `Js.EncodeURIComponent`: surrogate pairs are not modelled, because Dafny's `char` is a Unicode scalar value. A lone surrogate, which throws a `URIError` in JavaScript, cannot arise.
- `Markup.Match` and the finders model the regular expressions the tools use, each as its own matcher. General regular-expression semantics is not modelled.
- `Finders.LastValue`, `Finders.LangFrom`: backtracking is modelled through its outcome for these patterns alone: the greedy `[^>]*` backs off to the last `content=`, and the lazy `[^>]*?` stops at the first blank.
