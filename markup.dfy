/** The fixed patterns the page rewriters look for in HTML text, each
    written as its own finder rather than as a regular expression, and the
    two operations built on them: "upsert a tag" (replace the first match,
    else insert before `</head>`, else prepend) and "work on the head
    only". Letters match case-insensitively, as the expressions' `i` flag
    makes them; `\s` is `Text.IsSpace`. */
module Markup {
  import opened Text

  datatype Option<T> = None | Some(value: T)

  /** The characters `[start, end)` of a text. */
  datatype Span = Span(start: nat, end: nat)

  predicate IsQuote(c: char) {
    c == '"' || c == '\''
  }

  /** `\w`. */
  predicate IsWordChar(c: char) {
    'a' <= c <= 'z' || 'A' <= c <= 'Z' || '0' <= c <= '9' || c == '_'
  }

  /** Every character of `s` is its own lower case. */
  predicate IsLowerText(s: string) {
    forall c :: c in s ==> LowerChar(c) == c
  }

  lemma LowerTextFixed(s: string)
    requires IsLowerText(s)
    ensures Lower(s) == s
  {
    forall i | 0 <= i < |s| ensures Lower(s)[i] == s[i] {
      assert s[i] in s;
    }
  }

  // ---- single characters and runs ----

  /** The index of the first `c` at or after `from`. */
  function FindChar(s: string, c: char, from: nat): (r: Option<nat>)
    decreases |s| - from
    ensures r.Some? ==> from <= r.value < |s| && s[r.value] == c
    ensures forall k :: from <= k < |s| && (r.None? || k < r.value) ==> s[k] != c
  {
    if from >= |s| then None
    else if s[from] == c then Some(from)
    else FindChar(s, c, from + 1)
  }

  /** The first `c` is the one with no `c` before it. */
  lemma FindCharIs(s: string, c: char, from: nat, g: nat)
    requires from <= g < |s| && s[g] == c
    requires forall k | from <= k < g :: s[k] != c
    ensures FindChar(s, c, from) == Some(g)
  {
  }

  lemma FindCharLocal(t: string, u: string, c: char, from: nat, n: nat)
    requires FindChar(t, c, from).Some? && FindChar(t, c, from).value < n
    requires n <= |t| && n <= |u| && t[..n] == u[..n]
    ensures FindChar(u, c, from) == FindChar(t, c, from)
  {
    var g := FindChar(t, c, from).value;
    assert u[g] == t[..n][g];
    assert forall k :: from <= k < g ==> u[k] == t[..n][k];
  }

  /** The classes of characters that the expressions repeat: `\s` and
      `[^"']`. */
  datatype Class = Space | NotQuote

  predicate InClass(c: char, cl: Class) {
    match cl
    case Space => IsSpace(c)
    case NotQuote => !IsQuote(c)
  }

  /** The end of the run of `cl` characters that starts at `i`. */
  function RunEnd(s: string, i: nat, cl: Class): (r: nat)
    requires i <= |s|
    decreases |s| - i
    ensures i <= r <= |s|
    ensures forall k :: i <= k < r ==> InClass(s[k], cl)
    ensures r < |s| ==> !InClass(s[r], cl)
  {
    if i < |s| && InClass(s[i], cl) then RunEnd(s, i + 1, cl) else i
  }

  lemma {:induction false} RunEndLocal(t: string, u: string, i: nat, cl: Class, n: nat)
    requires i <= n <= |t| && n <= |u| && t[..n] == u[..n] && RunEnd(t, i, cl) < n
    ensures RunEnd(u, i, cl) == RunEnd(t, i, cl)
    decreases n - i
  {
    assert u[i] == t[..n][i];
    if InClass(t[i], cl) {
      RunEndLocal(t, u, i + 1, cl, n);
    }
  }

  // ---- a sequence of steps ----

  /** One step of a fixed expression: a letter matched regardless of case,
      one quote (`["']`), a maximal run of one or more (`+`) or of any
      number (`*`) of characters of a class, or an optional character
      (`?`). Runs and options take as much as they can: in every
      expression here the step after them cannot accept what they would
      give back. */
  datatype Item = Ch(c: char) | Quote | Plus(cl: Class) | Star(cl: Class) | Opt(o: char)

  /** The steps that consume exactly one character. */
  predicate IsSingle(it: Item) {
    it.Ch? || it.Quote?
  }

  /** The characters a step can consume. */
  predicate Accepts(it: Item, c: char) {
    match it
    case Ch(d) => LowerChar(c) == d
    case Quote => IsQuote(c)
    case Plus(cl) => InClass(c, cl)
    case Star(cl) => InClass(c, cl)
    case Opt(o) => c == o
  }

  /** The steps that match the letters of `s`. */
  function Word(s: string): (r: seq<Item>)
    ensures |r| == |s| && forall i :: 0 <= i < |s| ==> r[i] == Ch(s[i])
  {
    seq(|s|, i requires 0 <= i < |s| => Ch(s[i]))
  }

  /** Where a match of `items` that starts at `k` ends. */
  function Match(t: string, items: seq<Item>, k: nat): (r: Option<nat>)
    requires k <= |t|
    decreases |items|
    ensures r.Some? ==> k <= r.value <= |t|
    ensures r.Some? && items != [] && IsSingle(items[|items| - 1]) ==> k < r.value
  {
    if items == [] then Some(k)
    else
      var rest := items[1..];
      assert rest != [] ==> rest[|rest| - 1] == items[|items| - 1];
      match items[0]
      case Ch(c) => if k < |t| && LowerChar(t[k]) == c then Match(t, rest, k + 1) else None
      case Quote => if k < |t| && IsQuote(t[k]) then Match(t, rest, k + 1) else None
      case Plus(cl) => if k < |t| && InClass(t[k], cl) then Match(t, rest, RunEnd(t, k, cl)) else None
      case Star(cl) => Match(t, rest, RunEnd(t, k, cl))
      case Opt(o) => if k < |t| && t[k] == o then Match(t, rest, k + 1) else Match(t, rest, k)
  }

  /** A match depends on the matched characters only, when its last step
      consumes exactly one character. */
  lemma {:induction false} MatchLocal(t: string, u: string, items: seq<Item>, k: nat)
    requires k <= |t| && Match(t, items, k).Some?
    requires items != [] ==> IsSingle(items[|items| - 1])
    requires var n := Match(t, items, k).value; n <= |u| && t[..n] == u[..n]
    ensures k <= |u| && Match(u, items, k) == Match(t, items, k)
    decreases |items|
  {
    var n := Match(t, items, k).value;
    if items != [] {
      var rest := items[1..];
      assert rest != [] ==> rest[|rest| - 1] == items[|items| - 1];
      assert k < n ==> u[k] == t[..n][k];
      match items[0]
      case Ch(c) => MatchLocal(t, u, rest, k + 1);
      case Quote => MatchLocal(t, u, rest, k + 1);
      case Plus(cl) =>
        RunEndLocal(t, u, k, cl, n);
        MatchLocal(t, u, rest, RunEnd(t, k, cl));
      case Star(cl) =>
        RunEndLocal(t, u, k, cl, n);
        MatchLocal(t, u, rest, RunEnd(t, k, cl));
      case Opt(o) =>
        if k < |t| && t[k] == o {
          MatchLocal(t, u, rest, k + 1);
        } else {
          MatchLocal(t, u, rest, k);
        }
    }
  }

  /** A character that no step accepts does not occur in a match. */
  lemma {:induction false} MatchAvoids(t: string, items: seq<Item>, k: nat, c: char)
    requires k <= |t| && Match(t, items, k).Some?
    requires forall it :: it in items ==> !Accepts(it, c)
    ensures forall j :: k <= j < Match(t, items, k).value ==> t[j] != c
    decreases |items|
  {
    if items != [] {
      var rest := items[1..];
      assert forall it :: it in rest ==> it in items;
      assert !Accepts(items[0], c) by { assert items[0] in items; }
      match items[0]
      case Ch(d) => MatchAvoids(t, rest, k + 1, c);
      case Quote => MatchAvoids(t, rest, k + 1, c);
      case Plus(cl) => MatchAvoids(t, rest, RunEnd(t, k, cl), c);
      case Star(cl) => MatchAvoids(t, rest, RunEnd(t, k, cl), c);
      case Opt(o) =>
        if k < |t| && t[k] == o {
          MatchAvoids(t, rest, k + 1, c);
        } else {
          MatchAvoids(t, rest, k, c);
        }
    }
  }

  /** A match whose last step is a quote ends with a quote. */
  lemma {:induction false} MatchEndsQuote(t: string, items: seq<Item>, k: nat)
    requires k <= |t| && Match(t, items, k).Some?
    requires items != [] && items[|items| - 1] == Quote
    ensures IsQuote(t[Match(t, items, k).value - 1])
    decreases |items|
  {
    var rest := items[1..];
    if rest != [] {
      assert rest[|rest| - 1] == Quote;
      match items[0]
      case Ch(d) => MatchEndsQuote(t, rest, k + 1);
      case Quote => MatchEndsQuote(t, rest, k + 1);
      case Plus(cl) => MatchEndsQuote(t, rest, RunEnd(t, k, cl));
      case Star(cl) => MatchEndsQuote(t, rest, RunEnd(t, k, cl));
      case Opt(o) =>
        if k < |t| && t[k] == o {
          MatchEndsQuote(t, rest, k + 1);
        } else {
          MatchEndsQuote(t, rest, k);
        }
    }
  }

  /** Where the first step of a match that starts at `k` ends. */
  function StepEnd(t: string, it: Item, k: nat): (r: Option<nat>)
    requires k <= |t|
    ensures r.Some? ==> r.value <= |t|
  {
    match it
    case Ch(c) => if k < |t| && LowerChar(t[k]) == c then Some(k + 1) else None
    case Quote => if k < |t| && IsQuote(t[k]) then Some(k + 1) else None
    case Plus(cl) => if k < |t| && InClass(t[k], cl) then Some(RunEnd(t, k, cl)) else None
    case Star(cl) => Some(RunEnd(t, k, cl))
    case Opt(o) => if k < |t| && t[k] == o then Some(k + 1) else Some(k)
  }

  /** A match is its first step followed by a match of the other steps. */
  lemma MatchCons(t: string, items: seq<Item>, k: nat)
    requires k <= |t| && items != []
    ensures Match(t, items, k) == match StepEnd(t, items[0], k) case None => None case Some(e) => Match(t, items[1..], e)
  {
  }

  /** Matching two step sequences one after the other. */
  lemma {:induction false} MatchAppend(t: string, a: seq<Item>, b: seq<Item>, k: nat)
    requires k <= |t|
    ensures Match(t, a + b, k) == match Match(t, a, k) case None => None case Some(e) => Match(t, b, e)
    decreases |a|
  {
    if a == [] {
      assert a + b == b;
    } else {
      var ab := a + b;
      assert ab[0] == a[0] && ab[1..] == a[1..] + b;
      MatchCons(t, ab, k);
      MatchCons(t, a, k);
      var st := StepEnd(t, a[0], k);
      if st.Some? {
        MatchAppend(t, a[1..], b, st.value);
      }
    }
  }

  /** The letters of a lower-case word match themselves. */
  lemma {:induction false} MatchWord(t: string, w: string, k: nat)
    requires IsLowerText(w) && k + |w| <= |t| && t[k..k + |w|] == w
    ensures Match(t, Word(w), k) == Some(k + |w|)
    decreases |w|
  {
    if w != [] {
      assert Word(w)[1..] == Word(w[1..]);
      assert t[k] == w[0] && w[0] in w;
      assert t[k + 1..k + |w|] == w[1..];
      assert IsLowerText(w[1..]) by {
        forall c | c in w[1..] ensures LowerChar(c) == c { assert c in w; }
      }
      MatchWord(t, w[1..], k + 1);
    }
  }

  /** A word's steps accept no `c` that the word lacks and that is its own
      lower case. */
  lemma WordAvoids(s: string, c: char)
    requires c !in s && LowerChar(c) == c
    ensures forall it :: it in Word(s) ==> !Accepts(it, c)
  {
    forall it | it in Word(s) ensures !Accepts(it, c) {
      var i :| 0 <= i < |s| && Word(s)[i] == it;
      assert s[i] in s;
    }
  }

  // ---- `<elem\s+attr=["']value["'][^>]*>` ----

  /** The expression `<elem\s+attr=["']value["'][^>]*>`. */
  datatype TagPattern = TagPattern(elem: string, attr: string, value: string)

  /** The names are lower case and hold no `<`, `>` or quote, and the
      attribute name does not start with white space. */
  predicate WellFormed(p: TagPattern) {
    && p.attr != [] && !IsSpace(p.attr[0])
    && IsName(p.elem) && IsName(p.attr) && IsName(p.value)
  }

  /** Lower case, without `<`, `>`, `=` or quotes. */
  predicate IsName(s: string) {
    IsLowerText(s) && '<' !in s && '>' !in s && '=' !in s && '"' !in s && '\'' !in s
  }

  /** The characters names are written with here. */
  predicate NameChar(c: char) {
    'a' <= c <= 'z' || '0' <= c <= '9' || c == '-' || c == '_' || c == ':' || c == '/' || c == '+' || c == '.'
  }

  lemma NameFromChars(s: string)
    requires forall i :: 0 <= i < |s| ==> NameChar(s[i])
    ensures IsName(s)
  {
    forall c | c in s ensures LowerChar(c) == c && c != '<' && c != '>' && c != '=' && c != '"' && c != '\'' {
      var i :| 0 <= i < |s| && s[i] == c;
    }
  }

  /** `<elem\s+attr=["']value["']` as steps. */
  function PrefixItems(p: TagPattern): (r: seq<Item>)
    ensures r != [] && r[0] == Ch('<') && r[|r| - 1] == Quote
  {
    [Ch('<')] + Word(p.elem) + [Plus(Space)] + Word(p.attr + "=") + [Quote] + Word(p.value) + [Quote]
  }

  /** The length of `<elem\s+attr=["']value["']` at the start of `t`. */
  function PrefixLen(t: string, p: TagPattern): (r: Option<nat>)
    ensures r.Some? ==> 0 < r.value <= |t|
  {
    Match(t, PrefixItems(p), 0)
  }

  /** The prefix starts with its only `<` and ends with a quote. */
  lemma PrefixShape(t: string, p: TagPattern)
    requires WellFormed(p) && PrefixLen(t, p).Some?
    ensures t[0] == '<'
    ensures forall k :: 0 < k < PrefixLen(t, p).value ==> t[k] != '<'
    ensures IsQuote(t[PrefixLen(t, p).value - 1])
  {
    var items := PrefixItems(p);
    var rest := items[1..];
    assert rest == Word(p.elem) + [Plus(Space)] + Word(p.attr + "=") + [Quote] + Word(p.value) + [Quote];
    WordAvoids(p.elem, '<');
    WordAvoids(p.attr + "=", '<');
    WordAvoids(p.value, '<');
    assert forall it :: it in rest ==> !Accepts(it, '<');
    assert Match(t, rest, 1) == PrefixLen(t, p);
    MatchAvoids(t, rest, 1, '<');
    MatchEndsQuote(t, rest, 1);
  }

  lemma PrefixLocal(t: string, u: string, p: TagPattern)
    requires WellFormed(p)
    requires PrefixLen(t, p).Some? && PrefixLen(t, p).value <= |u|
    requires var n := PrefixLen(t, p).value; t[..n] == u[..n]
    ensures PrefixLen(u, p) == PrefixLen(t, p)
  {
    var items := PrefixItems(p);
    assert items[|items| - 1] == Quote;
    MatchLocal(t, u, items, 0);
  }

  /** The length of a whole match at the start of `t`: the prefix, then
      everything up to and including the next `>`. */
  function TagLen(t: string, p: TagPattern): (r: Option<nat>)
    ensures r.Some? ==> 0 < r.value <= |t| && t[r.value - 1] == '>'
  {
    match PrefixLen(t, p)
    case None => None
    case Some(n) =>
      match FindChar(t, '>', n)
      case None => None
      case Some(g) => Some(g + 1)
  }

  /** A match depends on the matched characters only. */
  lemma TagLenLocal(t: string, u: string, p: TagPattern)
    requires WellFormed(p)
    requires TagLen(t, p).Some? && TagLen(t, p).value <= |u|
    requires var m := TagLen(t, p).value; t[..m] == u[..m]
    ensures TagLen(u, p) == TagLen(t, p)
  {
    var m := TagLen(t, p).value;
    var n := PrefixLen(t, p).value;
    assert t[..n] == t[..m][..n] && u[..n] == u[..m][..n];
    PrefixLocal(t, u, p);
    FindCharLocal(t, u, '>', n, m);
  }

  /** `regex.test(s)` and the position and length of the leftmost match,
      searching from `i`. */
  function FirstTagFrom(s: string, p: TagPattern, i: nat): (r: Option<Span>)
    requires i <= |s|
    decreases |s| - i
    ensures r.Some? ==> i <= r.value.start < r.value.end <= |s|
    ensures r.Some? ==> TagLen(s[r.value.start..], p) == Some(r.value.end - r.value.start)
    ensures forall j {:trigger TagLen(s[j..], p)} :: i <= j <= |s| && (r.None? || j < r.value.start) ==> TagLen(s[j..], p).None?
  {
    if TagLen(s[i..], p).Some? then Some(Span(i, i + TagLen(s[i..], p).value))
    else if i == |s| then None
    else FirstTagFrom(s, p, i + 1)
  }

  function FirstTag(s: string, p: TagPattern): (r: Option<Span>)
    ensures r.Some? ==> r.value.start < r.value.end <= |s|
  {
    FirstTagFrom(s, p, 0)
  }

  /** One step over a letter, then the rest. */
  lemma StepCh(t: string, c: char, r: seq<Item>, k: nat)
    requires k < |t| && LowerChar(t[k]) == c
    ensures Match(t, [Ch(c)] + r, k) == Match(t, r, k + 1)
  {
    assert ([Ch(c)] + r)[1..] == r;
  }

  /** One step over a quote, then the rest. */
  lemma StepQuote(t: string, r: seq<Item>, k: nat)
    requires k < |t| && IsQuote(t[k])
    ensures Match(t, [Quote] + r, k) == Match(t, r, k + 1)
  {
    assert ([Quote] + r)[1..] == r;
  }

  /** `\s+` over exactly one blank, then the rest. */
  lemma StepSpace(t: string, r: seq<Item>, k: nat)
    requires k + 1 < |t| && t[k] == ' ' && !IsSpace(t[k + 1])
    ensures Match(t, [Plus(Space)] + r, k) == Match(t, r, k + 1)
  {
    assert ([Plus(Space)] + r)[1..] == r;
    assert RunEnd(t, k + 1, Space) == k + 1;
  }

  /** A lower-case word over itself, then the rest. */
  lemma StepWord(t: string, w: string, r: seq<Item>, k: nat)
    requires IsLowerText(w) && k + |w| <= |t| && t[k..k + |w|] == w
    ensures Match(t, Word(w) + r, k) == Match(t, r, k + |w|)
  {
    MatchWord(t, w, k);
    MatchAppend(t, Word(w), r, k);
  }

  lemma NameAssign(s: string)
    requires IsName(s)
    ensures IsLowerText(s + "=")
  {
    forall c | c in s + "=" ensures LowerChar(c) == c {
      if c != '=' { assert c in s; }
    }
  }

  /** A text that starts `<elem attr="value"` matches the prefix there. */
  lemma PrefixFromParts(t: string, p: TagPattern, k1: nat, k3: nat, k5: nat)
    requires WellFormed(p)
    requires k1 == 1 + |p.elem| && k3 == k1 + 1 + |p.attr| + 1 && k5 == k3 + 1 + |p.value| && k5 < |t|
    requires t[0] == '<' && t[1..k1] == p.elem && t[k1] == ' '
    requires t[k1 + 1..k3] == p.attr + "=" && t[k3] == '"' && t[k3 + 1..k5] == p.value && t[k5] == '"'
    ensures PrefixLen(t, p) == Some(k5 + 1)
  {
    assert IsLowerText(p.elem) && IsLowerText(p.value) && !IsSpace(p.attr[0]);
    NameAssign(p.attr);
    PrefixChain(t, p.elem, p.attr + "=", p.value, k1, k3, k5);
  }

  /** `["']value["']` over `"value"`. */
  lemma QuotedChain(t: string, v: string, k3: nat, k5: nat)
    requires IsLowerText(v) && k5 == k3 + 1 + |v| && k5 < |t|
    requires t[k3] == '"' && t[k3 + 1..k5] == v && t[k5] == '"'
    ensures Match(t, [Quote] + Word(v) + [Quote], k3) == Some(k5 + 1)
  {
    StepQuote(t, [], k5);
    assert [Quote] + [] == [Quote];
    StepWord(t, v, [Quote], k3 + 1);
    assert [Quote] + Word(v) + [Quote] == [Quote] + (Word(v) + [Quote]);
    StepQuote(t, Word(v) + [Quote], k3);
  }

  /** `\s+attr=["']value["']` over ` attr="value"`. */
  lemma AttrChain(t: string, a: string, v: string, k1: nat, k3: nat, k5: nat)
    requires IsLowerText(a) && IsLowerText(v) && a != [] && !IsSpace(a[0])
    requires k3 == k1 + 1 + |a| && k5 == k3 + 1 + |v| && k5 < |t|
    requires t[k1] == ' ' && t[k1 + 1..k3] == a && t[k3] == '"' && t[k3 + 1..k5] == v && t[k5] == '"'
    ensures Match(t, [Plus(Space)] + Word(a) + ([Quote] + Word(v) + [Quote]), k1) == Some(k5 + 1)
  {
    var q := [Quote] + Word(v) + [Quote];
    QuotedChain(t, v, k3, k5);
    StepWord(t, a, q, k1 + 1);
    assert t[k1 + 1] == a[0];
    assert [Plus(Space)] + Word(a) + q == [Plus(Space)] + (Word(a) + q);
    StepSpace(t, Word(a) + q, k1);
  }

  lemma PrefixChain(t: string, e: string, a: string, v: string, k1: nat, k3: nat, k5: nat)
    requires IsLowerText(e) && IsLowerText(a) && IsLowerText(v) && a != [] && !IsSpace(a[0])
    requires k1 == 1 + |e| && k3 == k1 + 1 + |a| && k5 == k3 + 1 + |v| && k5 < |t|
    requires t[0] == '<' && t[1..k1] == e && t[k1] == ' '
    requires t[k1 + 1..k3] == a && t[k3] == '"' && t[k3 + 1..k5] == v && t[k5] == '"'
    ensures Match(t, [Ch('<')] + Word(e) + [Plus(Space)] + Word(a) + [Quote] + Word(v) + [Quote], 0) == Some(k5 + 1)
  {
    var s := [Plus(Space)] + Word(a) + ([Quote] + Word(v) + [Quote]);
    AttrChain(t, a, v, k1, k3, k5);
    StepWord(t, e, s, 1);
    StepCh(t, '<', Word(e) + s, 0);
    ChainRegroup([Ch('<')], Word(e), [Plus(Space)], Word(a), [Quote], Word(v), [Quote]);
  }

  /** The grouping `PrefixChain` walks the prefix pattern in. */
  lemma ChainRegroup<T>(a: seq<T>, b: seq<T>, c: seq<T>, d: seq<T>, e: seq<T>, f: seq<T>, g: seq<T>)
    ensures a + b + c + d + e + f + g == a + (b + (c + d + (e + f + g)))
  {
  }

  /** The text `<elem attr="value"` a pattern looks for. */
  function Opening(p: TagPattern): (r: string)
    ensures |r| == |p.elem| + |p.attr| + |p.value| + 5
  {
    "<" + p.elem + " " + p.attr + "=\"" + p.value + "\""
  }

  /** A text that opens with the pattern's own prefix matches it there. */
  lemma OpenPrefix(tag: string, p: TagPattern, rest: string)
    requires WellFormed(p)
    requires tag == Opening(p) + rest
    ensures PrefixLen(tag, p) == Some(|Opening(p)|)
  {
    var k1 := 1 + |p.elem|;
    var k3 := k1 + 1 + |p.attr| + 1;
    var k5 := k3 + 1 + |p.value|;
    assert tag[1..k1] == p.elem;
    assert tag[k1 + 1..k3] == p.attr + "=";
    assert tag[k3 + 1..k5] == p.value;
    PrefixFromParts(tag, p, k1, k3, k5);
  }

  /** A tag written `<elem attr="value"` and then text whose only `>` is
      its last character is, as a whole, a match of its own pattern. */
  lemma TagMatchesItself(tag: string, p: TagPattern, rest: string)
    requires WellFormed(p)
    requires rest != [] && rest[|rest| - 1] == '>' && '>' !in rest[..|rest| - 1]
    requires tag == "<" + p.elem + " " + p.attr + "=\"" + p.value + "\"" + rest
    ensures TagLen(tag, p) == Some(|tag|)
  {
    var n := |Opening(p)|;
    assert tag == Opening(p) + rest;
    OpenPrefix(tag, p, rest);
    RestCloses(tag, n, rest);
  }

  /** The only `>` of `rest` after position `n` is its last character. */
  lemma RestCloses(tag: string, n: nat, rest: string)
    requires n + |rest| == |tag| && tag[n..] == rest
    requires rest != [] && rest[|rest| - 1] == '>' && '>' !in rest[..|rest| - 1]
    ensures FindChar(tag, '>', n) == Some(|tag| - 1)
  {
    forall k | n <= k < |tag| - 1 ensures tag[k] != '>' {
      assert tag[k] == rest[..|rest| - 1][k - n];
    }
    assert tag[|tag| - 1] == rest[|rest| - 1];
    FindCharIs(tag, '>', n, |tag| - 1);
  }

  // ---- upsert ----

  /** The text after the tag when nothing is replaced: the first `</head>`,
      in any case, becomes `  tag\n</head>`; without one the tag and a line
      break go in front. */
  function InsertTag(s: string, tag: string): (r: string)
  {
    var h := FindCI(s, "</head>", 0);
    if h >= 0 then s[..h] + "  " + tag + "\n</head>" + s[h + 7..]
    else tag + "\n" + s
  }

  /** Where `InsertTag` puts the tag. */
  function InsertPos(s: string): (r: nat)
  {
    var h := FindCI(s, "</head>", 0);
    if h >= 0 then h + 2 else 0
  }

  /** `upsertTag(html, pattern, tag)`: replace the first match, else
      insert. */
  function UpsertTag(s: string, p: TagPattern, tag: string): (r: string)
  {
    match FirstTag(s, p)
    case Some(sp) => s[..sp.start] + tag + s[sp.end..]
    case None => InsertTag(s, tag)
  }

  /** Where `UpsertTag` puts the tag. */
  function UpsertPos(s: string, p: TagPattern): (r: nat)
  {
    match FirstTag(s, p)
    case Some(sp) => sp.start
    case None => InsertPos(s)
  }

  /** A match in `t` that starts before a `<` at `pos` is one in `s` too
      when the two texts agree up to `q`, `t` has neither `<` nor quote
      between `q` and `pos`, and `s` has a `>` at or after `q`: the
      pattern's prefix ends in a quote and has `<` only in front. */
  lemma Transfer(s: string, t: string, p: TagPattern, j: nat, q: nat, pos: nat, g: nat)
    requires WellFormed(p)
    requires q <= pos < |t| && q <= |s| && s[..q] == t[..q]
    requires t[pos] == '<'
    requires forall k :: q <= k < pos ==> t[k] != '<' && !IsQuote(t[k])
    requires q <= g < |s| && s[g] == '>'
    requires j < pos
    ensures TagLen(t[j..], p).Some? ==> j <= |s| && TagLen(s[j..], p).Some?
  {
    if TagLen(t[j..], p).Some? {
      var n := PrefixLen(t[j..], p).value;
      PrefixShape(t[j..], p);
      assert t[j] == t[j..][0];
      assert t[j..][pos - j] == t[pos];
      assert t[j..][n - 1] == t[j + n - 1];
      assert j + n <= q;
      assert s[j..][..n] == t[j..][..n] by {
        assert s[j..][..n] == s[..q][j..j + n];
        assert t[j..][..n] == t[..q][j..j + n];
      }
      PrefixLocal(t[j..], s[j..], p);
      assert s[j..][g - j] == '>';
    }
  }

  /** A tag that matches its own pattern, placed at `|a|`, matches there. */
  lemma TagAtSeam(a: string, tag: string, b: string, p: TagPattern)
    requires WellFormed(p)
    requires TagLen(tag, p) == Some(|tag|)
    ensures (a + tag + b)[|a|..] == tag + b
    ensures TagLen((a + tag + b)[|a|..], p) == Some(|tag|)
  {
    assert (a + tag + b)[|a|..] == tag + b;
    assert (tag + b)[..|tag|] == tag[..|tag|];
    TagLenLocal(tag, tag + b, p);
  }

  /** The first match of `r` is at `i` when `r` matches at `i` and
      nowhere before. */
  lemma FirstAt(r: string, p: TagPattern, i: nat, m: nat)
    requires i <= |r| && TagLen(r[i..], p) == Some(m)
    requires forall j: nat {:trigger TagLen(r[j..], p)} :: j < i ==> TagLen(r[j..], p).None?
    ensures FirstTag(r, p) == Some(Span(i, i + m))
  {
  }

  /** No match starts before `pos` in `t` when none starts before `pos`
      in `s`, under the conditions of `Transfer`. */
  lemma NoMatchBefore(s: string, t: string, p: TagPattern, q: nat, pos: nat, g: nat)
    requires WellFormed(p)
    requires q <= pos < |t| && q <= |s| && s[..q] == t[..q]
    requires t[pos] == '<'
    requires forall k :: q <= k < pos ==> t[k] != '<' && !IsQuote(t[k])
    requires q <= g < |s| && s[g] == '>'
    requires forall j: nat {:trigger TagLen(s[j..], p)} :: j < pos && j <= |s| ==> TagLen(s[j..], p).None?
    ensures forall j: nat {:trigger TagLen(t[j..], p)} :: j < pos ==> TagLen(t[j..], p).None?
  {
    forall j: nat | j < pos ensures TagLen(t[j..], p).None? {
      Transfer(s, t, p, j, q, pos, g);
    }
  }

  /** A text that agrees with `s` before the first match of `s`, `i`,
      and has the tag at `i` has the tag as its first match. */
  lemma TagFirstAfterReplace(s: string, r: string, p: TagPattern, tag: string, i: nat, g: nat)
    requires WellFormed(p) && TagLen(tag, p) == Some(|tag|)
    requires forall j: nat {:trigger TagLen(s[j..], p)} :: j < i && j <= |s| ==> TagLen(s[j..], p).None?
    requires i <= g < |s| && s[g] == '>'
    requires i + |tag| <= |r| && r[..i] == s[..i] && r[i..i + |tag|] == tag
    ensures FirstTag(r, p) == Some(Span(i, i + |tag|))
  {
    PrefixShape(tag, p);
    assert r[i] == tag[0];
    assert r[i..][..|tag|] == tag[..|tag|];
    TagLenLocal(tag, r[i..], p);
    NoMatchBefore(s, r, p, i, i, g);
    FirstAt(r, p, i, |tag|);
  }

  /** A text that agrees with `s` before its first `</head>`, `h`, then
      has two spaces and the tag, has the tag as its first match when `s`
      has no match at all. */
  lemma TagFirstAfterInsert(s: string, r: string, p: TagPattern, tag: string, h: nat)
    requires WellFormed(p) && TagLen(tag, p) == Some(|tag|)
    requires forall j: nat {:trigger TagLen(s[j..], p)} :: j <= |s| ==> TagLen(s[j..], p).None?
    requires h + 6 < |s| && s[h + 6] == '>'
    requires h + 2 + |tag| <= |r| && r[..h] == s[..h] && r[h] == ' ' && r[h + 1] == ' '
    requires r[h + 2..h + 2 + |tag|] == tag
    ensures FirstTag(r, p) == Some(Span(h + 2, h + 2 + |tag|))
  {
    var i := h + 2;
    PrefixShape(tag, p);
    assert r[i] == tag[0];
    assert r[i..][..|tag|] == tag[..|tag|];
    TagLenLocal(tag, r[i..], p);
    NoMatchBefore(s, r, p, h, i, h + 6);
    FirstAt(r, p, i, |tag|);
  }

  /** `r` holds `tag` at `i`, and that is the first match of `p` in `r`. */
  predicate FirstTagIs(r: string, p: TagPattern, tag: string, i: nat) {
    i + |tag| <= |r| && r[i..i + |tag|] == tag && FirstTag(r, p) == Some(Span(i, i + |tag|))
  }

  /** The replacing case of `UpsertTagFinds`. */
  lemma ReplacedFinds(s: string, r: string, p: TagPattern, tag: string, i: nat, e: nat)
    requires WellFormed(p) && TagLen(tag, p) == Some(|tag|)
    requires FirstTag(s, p) == Some(Span(i, e))
    requires r == s[..i] + tag + s[e..]
    ensures FirstTagIs(r, p, tag, i)
  {
    assert s[i..][e - i - 1] == s[e - 1];
    assert r[..i] == s[..i] && r[i..i + |tag|] == tag;
    TagFirstAfterReplace(s, r, p, tag, i, e - 1);
  }

  /** The inserting case of `UpsertTagFinds`. */
  lemma InsertedFinds(s: string, r: string, p: TagPattern, tag: string, h: nat)
    requires WellFormed(p) && TagLen(tag, p) == Some(|tag|)
    requires FirstTag(s, p).None?
    requires OccursAtCI(s, "</head>", h)
    requires r == s[..h] + "  " + tag + "\n</head>" + s[h + 7..]
    ensures FirstTagIs(r, p, tag, h + 2)
  {
    assert s[h + 6] == '>' by {
      assert Lower(s[h..h + 7])[6] == LowerChar(s[h + 6]);
    }
    assert r[..h] == s[..h] && r[h + 2..h + 2 + |tag|] == tag;
    TagFirstAfterInsert(s, r, p, tag, h);
  }

  /** The prepending case of `UpsertTagFinds`. */
  lemma PrependedFinds(s: string, r: string, p: TagPattern, tag: string)
    requires WellFormed(p) && TagLen(tag, p) == Some(|tag|)
    requires r == tag + "\n" + s
    ensures FirstTagIs(r, p, tag, 0)
  {
    assert r[..|tag|] == tag;
    TagLenLocal(tag, r, p);
    assert r[0..] == r;
    FirstAt(r, p, 0, |tag|);
  }

  /** `UpsertTagFinds` when `s` has a match. */
  lemma MatchedFinds(s: string, p: TagPattern, tag: string)
    requires WellFormed(p) && TagLen(tag, p) == Some(|tag|)
    requires FirstTag(s, p).Some?
    ensures FirstTagIs(UpsertTag(s, p, tag), p, tag, UpsertPos(s, p))
  {
    var sp := FirstTag(s, p).value;
    assert UpsertPos(s, p) == sp.start;
    ReplacedFinds(s, UpsertTag(s, p, tag), p, tag, sp.start, sp.end);
  }

  /** `UpsertTagFinds` when `s` has no match. */
  lemma UnmatchedFinds(s: string, p: TagPattern, tag: string)
    requires WellFormed(p) && TagLen(tag, p) == Some(|tag|)
    requires FirstTag(s, p).None?
    ensures FirstTagIs(UpsertTag(s, p, tag), p, tag, UpsertPos(s, p))
  {
    var r := UpsertTag(s, p, tag);
    var h := FindCI(s, "</head>", 0);
    if h >= 0 {
      assert UpsertPos(s, p) == h + 2;
      InsertedFinds(s, r, p, tag, h);
    } else {
      assert UpsertPos(s, p) == 0;
      PrependedFinds(s, r, p, tag);
    }
  }

  /** After an upsert the first match of the pattern is the new tag, when
      the tag matches its own pattern. */
  lemma UpsertTagFinds(s: string, p: TagPattern, tag: string)
    requires WellFormed(p) && TagLen(tag, p) == Some(|tag|)
    ensures FirstTagIs(UpsertTag(s, p, tag), p, tag, UpsertPos(s, p))
  {
    if FirstTag(s, p).Some? {
      MatchedFinds(s, p, tag);
    } else {
      UnmatchedFinds(s, p, tag);
    }
  }

  /** Replacing a match by the text it already holds changes nothing. */
  lemma UpsertOverItself(r: string, p: TagPattern, tag: string, i: nat)
    requires FirstTagIs(r, p, tag, i)
    ensures UpsertTag(r, p, tag) == r
  {
    assert r == r[..i] + r[i..i + |tag|] + r[i + |tag|..];
  }

  /** Upserting the same tag twice is upserting it once. */
  lemma UpsertTagIdempotent(s: string, p: TagPattern, tag: string)
    requires WellFormed(p) && TagLen(tag, p) == Some(|tag|)
    ensures UpsertTag(UpsertTag(s, p, tag), p, tag) == UpsertTag(s, p, tag)
  {
    UpsertTagFinds(s, p, tag);
    UpsertOverItself(UpsertTag(s, p, tag), p, tag, UpsertPos(s, p));
  }
}
