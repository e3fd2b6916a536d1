/** The other fixed patterns the page rewriters search for: the head
    element, the title, a `<meta>` tag holding an attribute pair in either
    order, a JSON-LD block for a `data-schema` id, the charset and viewport
    metas and the `lang="sr"` attribute of `<html>`. Each is a finder that
    reports the length of a match at the start of a text (and the span of
    its captured group), following the expression's backtracking order;
    `First` is the left-most match, as `String.prototype.match` and a
    non-global `replace` find it. */
module Finders {
  import opened Text
  import opened Markup

  /** A match at the start of a text: its length, and the group it captures. */
  datatype Hit = Hit(len: nat, cap: Span)

  /** A match in a larger text: where it starts. */
  datatype Found = Found(at: nat, hit: Hit)

  datatype Finder =
    | HeadF
      // <head\b[^>]*>[\s\S]*?<\/head>
    | TitleF
      // <title[^>]*>([\s\S]*?)<\/title>
    | PairF(attr: string, value: string, plus: bool, keyFirst: bool)
      // keyFirst: <meta\b[^>]*attr=["']value["'][^>]*content=["']([^"']*)["'][^>]*>
      // otherwise: <meta\b[^>]*content=["']([^"']*)["'][^>]*attr=["']value["'][^>]*>
      // plus: the group is [^"']+ instead of [^"']*
    | SchemaF(id: string)
      // <script\s+type=["']application\/ld\+json["'][^>]*data-schema=["']id["'][^>]*>[\s\S]*?<\/script>
    | CharsetF
      // <meta\s+charset=["'][^"']+["']\s*\/?>
    | MetaWithF(attr: string, value: string)
      // <meta\b[^>]*attr=["']value["'][^>]*>
    | LangF
      // <html([^>]*?)\slang=["']sr["']([^>]*?)>

  // ---- pieces ----

  /** `attr=["']value["']` as steps. */
  function AttrItems(attr: string, value: string): (r: seq<Item>)
    ensures r != [] && r[|r| - 1] == Quote
  {
    Word(attr + "=") + [Quote] + Word(value) + [Quote]
  }

  /** `content=["']` as steps. */
  function ContentItems(): (r: seq<Item>)
    ensures r != [] && r[|r| - 1] == Quote
  {
    Word("content=") + [Quote]
  }

  /** A word starts at 0 and is not followed by a word character (`\b`). */
  predicate OpensWord(t: string, w: string) {
    && Match(t, Word(w), 0) == Some(|w|)
    && (|w| == |t| || (|w| < |t| && !IsWordChar(t[|w|])))
  }

  lemma OpensWordLocal(t: string, u: string, w: string, m: nat)
    requires w != [] && OpensWord(t, w) && |w| < m <= |t| && m <= |u| && t[..m] == u[..m]
    ensures OpensWord(u, w)
  {
    assert Word(w)[|w| - 1] == Ch(w[|w| - 1]);
    MatchLocal(t, u, Word(w), 0);
    assert u[|w|] == t[..m][|w|];
  }

  /** `<meta\b[^>]*>`: the position of the `>` that ends the tag. */
  function MetaEnd(t: string): (r: Option<nat>)
    ensures r.Some? ==> 5 <= r.value < |t| && t[r.value] == '>'
  {
    if OpensWord(t, "<meta") then FindChar(t, '>', 5) else None
  }

  /** Whether `key` matches somewhere in `[lo, hi)`, with its whole match
      inside. */
  function KeyIn(t: string, key: seq<Item>, lo: nat, hi: nat): (r: bool)
    requires lo <= hi <= |t|
    decreases hi - lo
  {
    (match Match(t, key, lo) case Some(e) => e <= hi case None => false)
    || (lo < hi && KeyIn(t, key, lo + 1, hi))
  }

  lemma {:induction false} KeyInWitness(t: string, key: seq<Item>, lo: nat, hi: nat, b: nat)
    requires lo <= b <= hi <= |t|
    requires Match(t, key, b).Some? && Match(t, key, b).value <= hi
    ensures KeyIn(t, key, lo, hi)
    decreases b - lo
  {
    if lo < b {
      KeyInWitness(t, key, lo + 1, hi, b);
    }
  }

  /** `attr="value"` written out matches its steps. */
  lemma AttrMatch(t: string, attr: string, value: string, k: nat)
    requires IsName(attr) && IsName(value)
    requires k + |attr| + |value| + 3 <= |t|
    requires t[k..k + |attr| + 1] == attr + "=" && t[k + |attr| + 1] == '"'
    requires t[k + |attr| + 2..k + |attr| + 2 + |value|] == value && t[k + |attr| + 2 + |value|] == '"'
    ensures Match(t, AttrItems(attr, value), k) == Some(k + |attr| + |value| + 3)
  {
    var k3 := k + |attr| + 1;
    var q := [Quote] + Word(value) + [Quote];
    QuotedChain(t, value, k3, k3 + 1 + |value|);
    NameAssign(attr);
    StepWord(t, attr + "=", q, k);
    AttrItemsSplit(attr, value, q);
  }

  lemma AttrItemsSplit(attr: string, value: string, q: seq<Item>)
    requires q == [Quote] + Word(value) + [Quote]
    ensures AttrItems(attr, value) == Word(attr + "=") + q
  {
  }

  /** Whether a key matches in a range depends only on the text up to the
      range's end. */
  lemma {:induction false} KeyInLocal(t: string, u: string, key: seq<Item>, lo: nat, hi: nat, m: nat)
    requires key != [] && IsSingle(key[|key| - 1])
    requires lo <= hi <= m <= |t| && m <= |u| && t[..m] == u[..m]
    requires KeyIn(t, key, lo, hi)
    ensures KeyIn(u, key, lo, hi)
    decreases hi - lo
  {
    match Match(t, key, lo)
    case Some(e) =>
      if e <= hi {
        assert t[..e] == u[..e] by {
          assert t[..e] == t[..m][..e];
          assert u[..e] == u[..m][..e];
        }
        MatchLocal(t, u, key, lo);
      } else {
        KeyInLocal(t, u, key, lo + 1, hi, m);
      }
    case None =>
      KeyInLocal(t, u, key, lo + 1, hi, m);
  }

  /** The tag closes at the `>` right after an attribute `attr="value"`
      that follows `pre` and a blank. */
  lemma TagEndAfter(t: string, pre: string, attr: string, value: string, body: string)
    requires IsName(attr) && IsName(value)
    requires t == pre + " " + attr + "=\"" + value + "\">" + body
    ensures FindChar(t, '>', |pre|) == Some(|pre| + |attr| + |value| + 4)
  {
    var k := |pre| + 1;
    var g := k + |attr| + |value| + 3;
    forall j | |pre| <= j < g ensures t[j] != '>' {
      if k <= j < k + |attr| {
        assert t[j] == attr[j - k];
      } else if k + |attr| + 2 <= j < k + |attr| + 2 + |value| {
        assert t[j] == value[j - k - |attr| - 2];
      }
    }
    assert t[g] == '>';
    FindCharIs(t, '>', |pre|, g);
  }

  /** That attribute is a key inside the tag. */
  lemma KeyAfter(t: string, pre: string, attr: string, value: string, body: string)
    requires IsName(attr) && IsName(value)
    requires t == pre + " " + attr + "=\"" + value + "\">" + body
    ensures KeyIn(t, AttrItems(attr, value), |pre|, |pre| + |attr| + |value| + 4)
  {
    var k := |pre| + 1;
    var g := k + |attr| + |value| + 3;
    assert t[k..k + |attr| + 1] == attr + "=";
    assert t[k + |attr| + 2..k + |attr| + 2 + |value|] == value;
    AttrMatch(t, attr, value, k);
    KeyInWitness(t, AttrItems(attr, value), |pre|, g, k);
  }

  // ---- the attribute pair of a meta tag ----

  /** The rest of a pair match once `content=["']` is taken at `c`, inside
      the tag whose first `>` is at `g`: the group runs to the next quote,
      the tag ends at the first `>` after it, and the other attribute stands
      before `c` (key first) or between the quote and that `>`. */
  function ValueAt(t: string, f: Finder, g: nat, c: nat): (r: Option<Hit>)
    requires f.PairF? && 5 <= c <= g < |t|
    ensures r.Some? ==> r.value.cap.start <= r.value.cap.end < r.value.len <= |t|
  {
    match Match(t, ContentItems(), c)
    case None => None
    case Some(e) =>
      if e > g then None
      else
        var q := RunEnd(t, e, NotQuote);
        if q == |t| || (f.plus && q == e) then None
        else
          match FindChar(t, '>', q + 1)
          case None => None
          case Some(g2) =>
            var key := AttrItems(f.attr, f.value);
            if (if f.keyFirst then KeyIn(t, key, 5, c) else KeyIn(t, key, q + 1, g2))
            then Some(Hit(g2 + 1, Span(e, q)))
            else None
  }

  /** The greedy `[^>]*` before `content=` backs off from the end of the
      tag: the last `c` below `hi` where the rest matches. */
  function LastValue(t: string, f: Finder, g: nat, hi: nat): (r: Option<Hit>)
    requires f.PairF? && hi <= g < |t|
    decreases hi
    ensures r.Some? ==> r.value.cap.start <= r.value.cap.end < r.value.len <= |t|
  {
    if hi <= 5 then None
    else
      match ValueAt(t, f, g, hi - 1)
      case Some(h) => Some(h)
      case None => LastValue(t, f, g, hi - 1)
  }

  // ---- `<html ... lang="sr" ...>` ----

  /** `lang=["']sr["']` as steps. */
  function LangItems(): (r: seq<Item>)
    ensures r != [] && r[|r| - 1] == Quote
  {
    Word("lang=") + [Quote] + Word("sr") + [Quote]
  }

  /** The lazy `([^>]*?)\s` before the attribute: the first white space
      at or after `j` and before the `>` at `g` that the attribute follows;
      the span runs from that blank to the attribute's end. */
  function LangFrom(t: string, j: nat, g: nat): (r: Option<Span>)
    requires j <= g < |t|
    decreases g - j
    ensures r.Some? ==> j <= r.value.start < r.value.end <= g
  {
    if j == g then None
    else
      match Match(t, LangItems(), j + 1)
      case Some(e) =>
        if IsSpace(t[j]) && e <= g then Some(Span(j, e)) else LangFrom(t, j + 1, g)
      case None => LangFrom(t, j + 1, g)
  }

  // ---- the finders ----

  /** `<script\s+type=["']application/ld+json["']`. */
  function ScriptPattern(): TagPattern {
    TagPattern("script", "type", "application/ld+json")
  }

  /** `<meta\s+charset=["'][^"']+["']\s*\/?>` as steps. */
  function CharsetItems(): (r: seq<Item>)
    ensures r != [] && r[|r| - 1] == Ch('>')
  {
    Word("<meta") + [Plus(Space)] + Word("charset=") + [Quote, Plus(NotQuote), Quote, Star(Space), Opt('/'), Ch('>')]
  }

  function HeadAt(t: string): (r: Option<Hit>)
    ensures r.Some? ==> 0 < r.value.len <= |t|
  {
    if !OpensWord(t, "<head") then None else CloseAfter(t, FindChar(t, '>', 5), "</head>")
  }

  /** The steps of an element finder after its opening tag: the end `gt` of
      that tag, then the first closing tag `close` after it, found without
      regard to case; the element ends with that closing tag. */
  function CloseAfter(t: string, gt: Option<nat>, close: string): (r: Option<Hit>)
    requires close != []
  {
    match gt
    case None => None
    case Some(g) => EndingAt(FindCI(t, close, g + 1), |close|)
  }

  /** The element whose closing tag of `width` characters starts at `h`,
      if one was found. */
  function EndingAt(h: int, width: nat): (r: Option<Hit>)
    ensures r.Some? <==> h >= 0
  {
    if h < 0 then None else Some(Hit(h + width, Span(0, 0)))
  }

  /** With a closing tag at `h`, the element ends right after it. */
  lemma CloseAfterIs(t: string, g: nat, close: string, h: int)
    requires close != []
    requires FindCI(t, close, g + 1) == h && h >= 0
    ensures CloseAfter(t, Some(g), close) == Some(Hit(h + |close|, Span(0, 0)))
  {
    CloseAfterStep(t, g, close);
    EndingAtIs(h, |close|);
  }

  lemma CloseAfterStep(t: string, g: nat, close: string)
    requires close != []
    ensures CloseAfter(t, Some(g), close) == EndingAt(FindCI(t, close, g + 1), |close|)
  {
  }

  lemma EndingAtIs(h: int, width: nat)
    requires h >= 0
    ensures EndingAt(h, width) == Some(Hit(h + width, Span(0, 0)))
  {
  }

  function TitleAt(t: string): (r: Option<Hit>)
    ensures r.Some? ==> r.value.cap.start <= r.value.cap.end < r.value.len <= |t|
  {
    if Match(t, Word("<title"), 0) != Some(6) then None
    else
      match FindChar(t, '>', 6)
      case None => None
      case Some(g) =>
        var c := FindCI(t, "</title>", g + 1);
        if c < 0 then None else Some(Hit(c + 8, Span(g + 1, c)))
  }

  function PairAt(t: string, f: Finder): (r: Option<Hit>)
    requires f.PairF?
    ensures r.Some? ==> r.value.cap.start <= r.value.cap.end < r.value.len <= |t|
  {
    match MetaEnd(t)
    case None => None
    case Some(g) => LastValue(t, f, g, g)
  }

  function SchemaAt(t: string, id: string): (r: Option<Hit>)
    ensures r.Some? ==> 0 < r.value.len <= |t|
  {
    SchemaWith(t, PrefixLen(t, ScriptPattern()), AttrItems("data-schema", Lower(id)))
  }

  /** The steps of `SchemaAt` after the tag prefix. */
  function SchemaWith(t: string, pre: Option<nat>, key: seq<Item>): (r: Option<Hit>)
    ensures r.Some? ==> 0 < r.value.len <= |t|
  {
    match pre
    case None => None
    case Some(n) =>
      match FindChar(t, '>', n)
      case None => None
      case Some(g) =>
        if !KeyIn(t, key, n, g) then None else CloseAfter(t, Some(g), "</script>")
  }

  function CharsetAt(t: string): (r: Option<Hit>)
    ensures r.Some? ==> 0 < r.value.len <= |t|
  {
    match Match(t, CharsetItems(), 0)
    case None => None
    case Some(n) => Some(Hit(n, Span(0, 0)))
  }

  function MetaWithAt(t: string, attr: string, value: string): (r: Option<Hit>)
    ensures r.Some? ==> 0 < r.value.len <= |t|
  {
    match MetaEnd(t)
    case None => None
    case Some(g) => if KeyIn(t, AttrItems(attr, value), 5, g) then Some(Hit(g + 1, Span(0, 0))) else None
  }

  function LangAt(t: string): (r: Option<Hit>)
    ensures r.Some? ==> 5 <= r.value.cap.start <= r.value.cap.end < r.value.len <= |t|
  {
    if Match(t, Word("<html"), 0) != Some(5) then None
    else
      match FindChar(t, '>', 5)
      case None => None
      case Some(g) =>
        match LangFrom(t, 5, g)
        case None => None
        case Some(sp) => Some(Hit(g + 1, sp))
  }

  /** The match of `f` at the start of `t`, if any. */
  function At(t: string, f: Finder): (r: Option<Hit>)
    ensures r.Some? ==> 0 < r.value.len <= |t| && r.value.cap.start <= r.value.cap.end <= r.value.len
  {
    match f
    case HeadF => HeadAt(t)
    case TitleF => TitleAt(t)
    case PairF(_, _, _, _) => PairAt(t, f)
    case SchemaF(id) => SchemaAt(t, id)
    case CharsetF => CharsetAt(t)
    case MetaWithF(attr, value) => MetaWithAt(t, attr, value)
    case LangF => LangAt(t)
  }

  /** The left-most match of `f` that starts at or after `i`. */
  function FirstFrom(s: string, f: Finder, i: nat): (r: Option<Found>)
    requires i <= |s|
    decreases |s| - i
    ensures r.Some? ==> i <= r.value.at && 0 < r.value.hit.len && r.value.at + r.value.hit.len <= |s|
    ensures r.Some? ==> r.value.hit.cap.start <= r.value.hit.cap.end <= r.value.hit.len
    ensures forall j {:trigger At(s[j..], f)} :: i <= j <= |s| && (r.None? || j < r.value.at) ==> At(s[j..], f).None?
  {
    match At(s[i..], f)
    case Some(h) => Some(Found(i, h))
    case None => if i == |s| then None else FirstFrom(s, f, i + 1)
  }

  /** The left-most match of `f` in `s`. */
  function First(s: string, f: Finder): (r: Option<Found>)
    ensures r.Some? ==> 0 < r.value.hit.len && r.value.at + r.value.hit.len <= |s|
    ensures r.Some? ==> r.value.hit.cap.start <= r.value.hit.cap.end <= r.value.hit.len
  {
    FirstFrom(s, f, 0)
  }

  /** What `FirstFrom` finds is a match of `f` where it starts. */
  lemma {:induction false} FirstFromFound(s: string, f: Finder, i: nat)
    requires i <= |s| && FirstFrom(s, f, i).Some?
    ensures At(s[FirstFrom(s, f, i).value.at..], f) == Some(FirstFrom(s, f, i).value.hit)
    decreases |s| - i
  {
    if At(s[i..], f).None? {
      FirstFromFound(s, f, i + 1);
    }
  }

  /** What `First` finds is a match of `f` where it starts. */
  lemma FirstFound(s: string, f: Finder)
    requires First(s, f).Some?
    ensures At(s[First(s, f).value.at..], f) == Some(First(s, f).value.hit)
  {
    FirstFromFound(s, f, 0);
  }

  /** `m` is a match of `f` in `s` and no match starts before it. */
  predicate IsLeftmost(s: string, f: Finder, m: Found) {
    && m.at + m.hit.len <= |s| && m.hit.cap.start <= m.hit.cap.end <= m.hit.len
    && At(s[m.at..], f) == Some(m.hit)
    && forall j {:trigger At(s[j..], f)} :: 0 <= j < m.at ==> At(s[j..], f).None?
  }

  /** `f` matches nowhere in `s`. */
  predicate NoMatch(s: string, f: Finder) {
    forall j {:trigger At(s[j..], f)} :: 0 <= j <= |s| ==> At(s[j..], f).None?
  }

  /** `First` finds exactly the left-most match. */
  lemma FirstIsLeftmost(s: string, f: Finder, m: Found)
    ensures First(s, f) == Some(m) <==> IsLeftmost(s, f, m)
  {
    if First(s, f) == Some(m) {
      FirstFound(s, f);
    }
    if IsLeftmost(s, f, m) {
      FirstFromLeftmost(s, f, 0, m);
    }
  }

  lemma {:induction false} FirstFromLeftmost(s: string, f: Finder, i: nat, m: Found)
    requires i <= m.at && IsLeftmost(s, f, m)
    ensures FirstFrom(s, f, i) == Some(m)
    decreases m.at - i
  {
    if i < m.at {
      assert At(s[i..], f).None?;
      FirstFromLeftmost(s, f, i + 1, m);
    }
  }

  /** `First` finds nothing exactly when `f` matches nowhere. */
  lemma FirstNone(s: string, f: Finder)
    ensures First(s, f).None? <==> NoMatch(s, f)
  {
    if NoMatch(s, f) {
      FirstFromNone(s, f, 0);
    }
  }

  lemma {:induction false} FirstFromNone(s: string, f: Finder, i: nat)
    requires i <= |s| && NoMatch(s, f)
    ensures FirstFrom(s, f, i).None?
    decreases |s| - i
  {
    assert At(s[i..], f).None?;
    if i < |s| {
      FirstFromNone(s, f, i + 1);
    }
  }

  /** The text of a match. */
  function MatchText(s: string, m: Found): (r: string)
    requires m.at + m.hit.len <= |s|
    ensures |r| == m.hit.len
  {
    s[m.at..m.at + m.hit.len]
  }

  /** The text of a match's group. */
  function Group(s: string, m: Found): (r: string)
    requires m.at + m.hit.len <= |s| && m.hit.cap.start <= m.hit.cap.end <= m.hit.len
  {
    s[m.at + m.hit.cap.start..m.at + m.hit.cap.end]
  }

  /** `s.replace(re, rep)` for a non-global expression: the first match
      gives way to `rep`. */
  function ReplaceMatch(s: string, f: Finder, rep: string): (r: string)
  {
    match First(s, f)
    case None => s
    case Some(m) => s[..m.at] + rep + s[m.at + m.hit.len..]
  }

  /** The replacement of a known first match. */
  lemma ReplaceMatchAt(s: string, f: Finder, rep: string, m: Found)
    requires First(s, f) == Some(m)
    ensures ReplaceMatch(s, f, rep) == s[..m.at] + rep + s[m.at + m.hit.len..]
  {
  }

  // ---- the head ----

  /** The head match depends only on its own characters. */
  lemma HeadLocal(t: string, u: string)
    requires HeadAt(t).Some? && HeadAt(t).value.len <= |u|
    requires var m := HeadAt(t).value.len; t[..m] == u[..m]
    ensures HeadAt(u) == HeadAt(t)
  {
    var m := HeadAt(t).value.len;
    var g := FindChar(t, '>', 5).value;
    var h := FindCI(t, "</head>", g + 1);
    OpensWordLocal(t, u, "<head", m);
    FindCharLocal(t, u, '>', 5, m);
    FindCILocal(t, u, "</head>", g + 1, m);
    CloseAfterIs(t, g, "</head>", h);
    CloseAfterIs(u, g, "</head>", h);
  }

  /** `withHead(html, fn)`: `fn` rewrites the text of the first head
      element, and the result takes the place of the first occurrence of
      that text; without a head element, `fn` rewrites everything. */
  function WithHead(s: string, f: string -> string): (r: string)
  {
    match First(s, HeadF)
    case None => f(s)
    case Some(m) =>
      var head := MatchText(s, m);
      ReplaceFirst(s, head, f(head))
  }

  /** No copy of the head's text starts before the head: a copy would be
      an earlier head match. */
  lemma HeadFirstCopy(s: string, m: Found)
    requires First(s, HeadF) == Some(m)
    ensures Find(s, MatchText(s, m), 0) == m.at
  {
    var head := MatchText(s, m);
    var n := m.hit.len;
    FirstFromFound(s, HeadF, 0);
    assert OccursAt(s, head, m.at);
    forall j | 0 <= j < m.at ensures !OccursAt(s, head, j) {
      if OccursAt(s, head, j) {
        assert At(s[j..], HeadF).None?;
        assert s[m.at..][..n] == head && s[j..][..n] == head;
        HeadLocal(s[m.at..], s[j..]);
        assert false;
      }
    }
  }

  /** `withHead` changes the first head element and nothing else; without
      one, it is `fn` of the whole text. */
  lemma WithHeadRegion(s: string, f: string -> string)
    ensures First(s, HeadF).None? ==> WithHead(s, f) == f(s)
    ensures First(s, HeadF).Some? ==>
      var m := First(s, HeadF).value;
      WithHead(s, f) == s[..m.at] + f(MatchText(s, m)) + s[m.at + m.hit.len..]
  {
    if First(s, HeadF).Some? {
      HeadFirstCopy(s, First(s, HeadF).value);
    }
  }

  // ---- the JSON-LD block ----

  lemma ScriptPatternWellFormed()
    ensures WellFormed(ScriptPattern())
  {
    NameFromChars("script");
    NameFromChars("type");
    NameFromChars("application/ld+json");
  }

  /** `SchemaAt` from its four steps. */
  lemma SchemaAtParts(x: string, id: string, n: nat, g: nat, h: int)
    requires PrefixLen(x, ScriptPattern()) == Some(n)
    requires FindChar(x, '>', n) == Some(g)
    requires KeyIn(x, AttrItems("data-schema", Lower(id)), n, g)
    requires FindCI(x, "</script>", g + 1) == h && h >= 0
    ensures SchemaAt(x, id) == Some(Hit(h + 9, Span(0, 0)))
  {
    SchemaWithParts(x, PrefixLen(x, ScriptPattern()), AttrItems("data-schema", Lower(id)), n, g, h);
  }

  lemma SchemaWithParts(x: string, pre: Option<nat>, key: seq<Item>, n: nat, g: nat, h: int)
    requires pre == Some(n)
    requires FindChar(x, '>', n) == Some(g)
    requires KeyIn(x, key, n, g)
    requires FindCI(x, "</script>", g + 1) == h && h >= 0
    ensures SchemaWith(x, pre, key) == Some(Hit(h + 9, Span(0, 0)))
  {
    assert SchemaWith(x, pre, key) == CloseAfter(x, Some(g), "</script>");
    CloseAfterIs(x, g, "</script>", h);
  }

  lemma SchemaLocal(t: string, u: string, id: string)
    requires SchemaAt(t, id).Some? && SchemaAt(t, id).value.len <= |u|
    requires var m := SchemaAt(t, id).value.len; t[..m] == u[..m]
    ensures SchemaAt(u, id) == SchemaAt(t, id)
  {
    var m := SchemaAt(t, id).value.len;
    var n := PrefixLen(t, ScriptPattern()).value;
    var g := FindChar(t, '>', n).value;
    var key := AttrItems("data-schema", Lower(id));
    var h := FindCI(t, "</script>", g + 1);
    SchemaAtParts(t, id, n, g, h);
    ScriptPatternWellFormed();
    assert t[..n] == u[..n] by { assert t[..n] == t[..m][..n]; assert u[..n] == u[..m][..n]; }
    PrefixLocal(t, u, ScriptPattern());
    FindCharLocal(t, u, '>', n, m);
    KeyInLocal(t, u, key, n, g, m);
    FindCILocal(t, u, "</script>", g + 1, m);
    SchemaAtParts(u, id, n, g, h);
  }
}
