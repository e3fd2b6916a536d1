/** The JSON-LD block that tools/add-schema.mjs and
    tools/add-services-schema.mjs keep in a page's head:
    `escapeForClosingScript`, `escapeRegExp` and `upsertSchemaBlock`, which
    the two tools define identically. The JSON text is an input: how
    `JSON.stringify` lays an object out is not part of this model. */
module ScriptBlock {
  import opened Text
  import opened Markup
  import opened Finders

  // ---- escapeForClosingScript ----

  const Close := "</script>"

  /** `s.replace(/<\/script>/gi, "<\\/script>")`: left to right, every
      `</script>` in any case becomes `<\/script>`. */
  function EscapeClosingScript(s: string): (r: string)
    decreases |s|
  {
    if s == [] then []
    else if OccursAtCI(s, Close, 0) then "<\\/script>" + EscapeClosingScript(s[9..])
    else [s[0]] + EscapeClosingScript(s[1..])
  }

  predicate NoClose(s: string) {
    forall i | 0 <= i < |s| :: !OccursAtCI(s, Close, i)
  }

  /** An occurrence inside the second part of a concatenation. */
  lemma OccursAtCIShift(x: string, y: string, p: string, i: int)
    requires i >= |x|
    ensures OccursAtCI(x + y, p, i) == OccursAtCI(y, p, i - |x|)
  {
    if i + |p| <= |x + y| {
      assert (x + y)[i..i + |p|] == y[i - |x|..i - |x| + |p|];
    }
  }

  /** An occurrence of `p` starts with `p`'s first letter. */
  lemma OccursAtCIFirst(s: string, p: string, i: int)
    requires p != [] && OccursAtCI(s, p, i)
    ensures LowerChar(s[i]) == p[0]
  {
    assert Lower(s[i..i + |p|])[0] == LowerChar(s[i]);
  }

  /** The second character of an occurrence is the pattern's, up to case. */
  lemma OccursAtCISecond(s: string, p: string, i: int)
    requires |p| >= 2 && OccursAtCI(s, p, i)
    ensures LowerChar(s[i + 1]) == p[1]
  {
    assert Lower(s[i..i + |p|])[1] == LowerChar(s[i + 1]);
  }

  /** A lower-case word without `<` at the front of an escaped text was
      already there in the text. */
  lemma {:induction false} EscapedPrefix(u: string, w: string)
    requires '<' !in w && w != []
    requires |w| <= |EscapeClosingScript(u)| && Lower(EscapeClosingScript(u)[..|w|]) == w
    ensures |w| <= |u| && Lower(u[..|w|]) == w
    decreases |w|
  {
    var e := EscapeClosingScript(u);
    assert u != [];
    assert LowerChar(e[0]) == w[0] by {
      assert Lower(e[..|w|])[0] == LowerChar(e[0]);
    }
    if OccursAtCI(u, Close, 0) {
      assert false;
    }
    assert e == [u[0]] + EscapeClosingScript(u[1..]);
    if |w| > 1 {
      var e1 := EscapeClosingScript(u[1..]);
      assert e1[..|w| - 1] == e[1..|w|];
      assert Lower(e1[..|w| - 1]) == w[1..] by {
        forall k | 0 <= k < |w| - 1 ensures Lower(e1[..|w| - 1])[k] == w[1..][k] {
          assert Lower(e[..|w|])[k + 1] == w[k + 1];
        }
      }
      assert '<' !in w[1..] by {
        forall c | c in w[1..] ensures c != '<' { assert c in w; }
      }
      EscapedPrefix(u[1..], w[1..]);
      assert Lower(u[..|w|]) == w by {
        forall k | 0 <= k < |w| ensures Lower(u[..|w|])[k] == w[k] {
          if k > 0 {
            assert Lower(u[1..][..|w| - 1])[k - 1] == w[1..][k - 1];
          }
        }
      }
    }
  }

  /** No `</script>` in any case survives the escape. */
  lemma {:induction false} EscapeLeavesNoClose(s: string)
    ensures NoClose(EscapeClosingScript(s))
    decreases |s|
  {
    var r := EscapeClosingScript(s);
    if s != [] {
      if OccursAtCI(s, Close, 0) {
        var rest := EscapeClosingScript(s[9..]);
        EscapeLeavesNoClose(s[9..]);
        forall i | 0 <= i < |r| ensures !OccursAtCI(r, Close, i) {
          if i >= 10 {
            OccursAtCIShift("<\\/script>", rest, Close, i);
          } else {
            ReplacementNoClose(r, rest, i);
          }
        }
      } else {
        var rest := EscapeClosingScript(s[1..]);
        EscapeLeavesNoClose(s[1..]);
        forall i | 0 <= i < |r| ensures !OccursAtCI(r, Close, i) {
          if i >= 1 {
            OccursAtCIShift([s[0]], rest, Close, i);
          } else if i == 0 && OccursAtCI(r, Close, 0) {
            FrontNotClose(s, rest);
          }
        }
      }
    }
  }

  /** No `</script>` starts inside the replacement `<\/script>`. */
  lemma ReplacementNoClose(r: string, rest: string, i: nat)
    requires r == "<\\/script>" + rest && i < 10
    ensures !OccursAtCI(r, Close, i)
  {
    if OccursAtCI(r, Close, i) {
      OccursAtCIFirst(r, Close, i);
      assert r[i] == "<\\/script>"[i];
      assert i == 0;
      OccursAtCISecond(r, Close, 0);
      assert false;
    }
  }

  /** A copied first character cannot start a `</script>` in the output. */
  lemma FrontNotClose(s: string, rest: string)
    requires s != [] && !OccursAtCI(s, Close, 0)
    requires rest == EscapeClosingScript(s[1..])
    ensures !OccursAtCI([s[0]] + rest, Close, 0)
  {
    var r := [s[0]] + rest;
    if OccursAtCI(r, Close, 0) {
      assert Lower(r[..9])[0] == LowerChar(s[0]);
      assert s[0] == '<';
      assert rest[..8] == r[1..9];
      assert Lower(rest[..8]) == "/script>" by {
        forall k | 0 <= k < 8 ensures Lower(rest[..8])[k] == "/script>"[k] {
          assert Lower(r[..9])[k + 1] == Close[k + 1];
        }
      }
      EscapedPrefix(s[1..], "/script>");
      CloseFromParts(s);
      assert false;
    }
  }

  lemma CloseFromParts(s: string)
    requires |s| >= 9 && s[0] == '<' && Lower(s[1..][..8]) == "/script>"
    ensures OccursAtCI(s, Close, 0)
  {
    forall k | 0 <= k < 9 ensures Lower(s[..9])[k] == Close[k] {
      if k > 0 {
        assert Lower(s[1..][..8])[k - 1] == "/script>"[k - 1];
      }
    }
  }

  /** Text without `</script>` is left as it is. */
  lemma {:induction false} EscapeWithoutClose(s: string)
    requires NoClose(s)
    ensures EscapeClosingScript(s) == s
    decreases |s|
  {
    if s != [] {
      assert !OccursAtCI(s, Close, 0);
      assert NoClose(s[1..]) by {
        forall i | 0 <= i < |s| - 1 ensures !OccursAtCI(s[1..], Close, i) {
          OccursAtCIShift([s[0]], s[1..], Close, i + 1);
          assert [s[0]] + s[1..] == s;
        }
      }
      EscapeWithoutClose(s[1..]);
    }
  }

  /** Escaping twice is escaping once. */
  lemma EscapeIdempotent(s: string)
    ensures EscapeClosingScript(EscapeClosingScript(s)) == EscapeClosingScript(s)
  {
    EscapeLeavesNoClose(s);
    EscapeWithoutClose(EscapeClosingScript(s));
  }

  // ---- escapeRegExp ----

  /** The characters `escapeRegExp` puts a backslash before. */
  const RegExpSpecials := ".*+?^${}()|[]\\"

  /** `s.replace(/[.*+?^${}()|[\]\\]/g, "\\$&")`. */
  function EscapeRegExp(s: string): (r: string)
    ensures |r| >= |s|
  {
    if s == [] then []
    else (if s[0] in RegExpSpecials then ['\\', s[0]] else [s[0]]) + EscapeRegExp(s[1..])
  }

  /** Drops the backslash in front of each escaped character. */
  function UnescapeRegExp(t: string): (r: string)
    decreases |t|
  {
    if t == [] then []
    else if |t| >= 2 && t[0] == '\\' then [t[1]] + UnescapeRegExp(t[2..])
    else [t[0]] + UnescapeRegExp(t[1..])
  }

  /** Removing the backslashes gives back the input. */
  lemma {:induction false} UnescapeEscapeRegExp(s: string)
    ensures UnescapeRegExp(EscapeRegExp(s)) == s
  {
    if s != [] {
      UnescapeEscapeRegExp(s[1..]);
      var t := EscapeRegExp(s);
      if s[0] in RegExpSpecials {
        assert t[0] == '\\' && t[1] == s[0] && t[2..] == EscapeRegExp(s[1..]);
      } else {
        assert s[0] != '\\';
        assert t[1..] == EscapeRegExp(s[1..]);
      }
    }
  }

  /** Text without special characters is its own escape. */
  lemma {:induction false} EscapeRegExpOfPlain(s: string)
    requires forall c :: c in s ==> c !in RegExpSpecials
    ensures EscapeRegExp(s) == s
  {
    if s != [] {
      assert s[0] in s;
      assert forall c :: c in s[1..] ==> c in s;
      EscapeRegExpOfPlain(s[1..]);
    }
  }

  // ---- upsertSchemaBlock ----

  /** The block written for `id` around the JSON text:
      `<script type="application/ld+json" data-schema="id">`, a line break,
      the escaped JSON, a line break and `</script>`. */
  function ScriptTag(id: string, json: string): (r: string)
  {
    Opening(ScriptPattern()) + " " + "data-schema" + "=\"" + id + "\">" + ScriptBody(json)
  }

  /** What follows the opening tag of a block. */
  function ScriptBody(json: string): (r: string)
  {
    "\n" + EscapeClosingScript(json) + "\n" + Close
  }

  /** `upsertSchemaBlock(head, id, obj)`, with `json` the text of
      `JSON.stringify(obj, null, 2)`: the first block for `id` gives way to
      the new one; without one, the block goes in before `</head>`, or in
      front. */
  function UpsertSchemaBlock(head: string, id: string, json: string): (r: string)
  {
    Upsert(head, SchemaF(id), ScriptTag(id, json))
  }

  /** The first match of `f` gives way to `tag`; without one, `tag` goes
      in before `</head>`, or in front. */
  function Upsert(head: string, f: Finder, tag: string): (r: string)
  {
    match First(head, f)
    case Some(m) => head[..m.at] + tag + head[m.at + m.hit.len..]
    case None => InsertTag(head, tag)
  }

  /** Where the new block goes. */
  function SchemaPos(head: string, id: string): (r: nat)
  {
    match First(head, SchemaF(id))
    case Some(m) => m.at
    case None => InsertPos(head)
  }

  /** The opening tag of a block is a prefix the schema finder accepts at
      its own start, with the `data-schema` key inside it. */
  lemma ScriptOpenMatches(tag: string, id: string, body: string)
    requires IsName(id)
    requires tag == Opening(ScriptPattern()) + " " + "data-schema" + "=\"" + id + "\">" + body
    ensures PrefixLen(tag, ScriptPattern()) == Some(34)
    ensures FindChar(tag, '>', 34) == Some(49 + |id|)
    ensures KeyIn(tag, AttrItems("data-schema", Lower(id)), 34, 49 + |id|)
  {
    ScriptPatternWellFormed();
    var pre := Opening(ScriptPattern());
    var rest := " " + "data-schema" + "=\"" + id + "\">" + body;
    assert tag == pre + rest;
    OpenPrefix(tag, ScriptPattern(), rest);
    NameFromChars("data-schema");
    TagEndAfter(tag, pre, "data-schema", id, body);
    KeyAfter(tag, pre, "data-schema", id, body);
    LowerTextFixed(id);
  }

  /** `</script>` is written in lower case. */
  lemma CloseLower()
    ensures Lower(Close) == Close
  {
    forall i | 0 <= i < 9 ensures Lower(Close)[i] == Close[i] {
      assert Close[i] in "</script>";
    }
  }

  /** After the opening tag, the first `</script>` is the block's own. */
  lemma BodyClose(t: string, x: string, json: string)
    requires t == x + ScriptBody(json)
    ensures FindCI(t, Close, |x|) == |t| - 9
  {
    var e := EscapeClosingScript(json);
    var a := x + "\n" + e + "\n";
    Regroup(x, "\n", e, "\n", Close);
    CloseLower();
    forall i | |x| <= i < |a| ensures !OccursAtCI(t, Close, i) {
      NotBeforeEnd(t, x, json, i);
    }
    FindAtEnd(t, a, Close, |x|);
  }

  lemma Regroup(x: string, b: string, c: string, d: string, y: string)
    ensures x + (b + c + d + y) == (x + b + c + d) + y
  {
  }

  /** A lower-case pattern at the very end, with none before it, is the
      first one. */
  lemma FindAtEnd(t: string, a: string, p: string, from: nat)
    requires t == a + p && Lower(p) == p && from <= |a|
    requires forall i | from <= i < |a| :: !OccursAtCI(t, p, i)
    ensures FindCI(t, p, from) == |a|
  {
    assert t[|a|..|a| + |p|] == p;
    FindCIIs(t, p, from, |a|);
  }

  /** Between the opening tag and the block's own `</script>` there is
      none. */
  lemma NotBeforeEnd(t: string, x: string, json: string, i: nat)
    requires t == x + ScriptBody(json)
    requires |x| <= i < |t| - 9
    ensures !OccursAtCI(t, Close, i)
  {
    var e := EscapeClosingScript(json);
    EscapeLeavesNoClose(json);
    var j := |x| + 1 + |e|;
    if i == |x| {
      NotAtNewline(t, i);
    } else if i + 9 <= j {
      assert t == (x + "\n") + e + ("\n" + Close);
      OccursAtCIMiddle(x + "\n", e, "\n" + Close, Close, i);
    } else {
      AcrossNewline(t, i, j);
    }
  }

  /** An occurrence inside the middle part of a concatenation. */
  lemma OccursAtCIMiddle(a: string, b: string, c: string, p: string, i: int)
    requires |a| <= i && i + |p| <= |a| + |b|
    ensures OccursAtCI(a + b + c, p, i) == OccursAtCI(b, p, i - |a|)
  {
    assert (a + b + c)[i..i + |p|] == b[i - |a|..i - |a| + |p|];
  }

  /** No `</script>` starts at a line break. */
  lemma NotAtNewline(t: string, i: nat)
    requires i < |t| && t[i] == '\n'
    ensures !OccursAtCI(t, Close, i)
  {
    if OccursAtCI(t, Close, i) {
      OccursAtCIFirst(t, Close, i);
      assert false;
    }
  }

  /** Nor does one run across a line break. */
  lemma AcrossNewline(t: string, i: nat, j: nat)
    requires i <= j < i + 9 && j < |t| && t[j] == '\n'
    ensures !OccursAtCI(t, Close, i)
  {
    if OccursAtCI(t, Close, i) {
      OccursAtCIChar(t, Close, i, j);
      assert false;
    }
  }

  /** A block written for a well-formed name is found at its own start and
      taken whole. */
  lemma ScriptTagMatchesItself(id: string, json: string)
    requires IsName(id)
    ensures SchemaAt(ScriptTag(id, json), id) == Some(Hit(|ScriptTag(id, json)|, Span(0, 0)))
  {
    var x := Opening(ScriptPattern()) + " " + "data-schema" + "=\"" + id + "\">";
    var tag := ScriptTag(id, json);
    ScriptOpenMatches(tag, id, ScriptBody(json));
    OpeningLength(id, x);
    BodyClose(tag, x, json);
    ScriptTagParts(tag, id, |x|);
  }

  lemma OpeningLength(id: string, x: string)
    requires x == Opening(ScriptPattern()) + " " + "data-schema" + "=\"" + id + "\">"
    ensures |x| == 50 + |id|
  {
  }

  /** `ScriptTagMatchesItself` from the opening tag's facts and the
      closing tag. */
  lemma ScriptTagParts(tag: string, id: string, n: nat)
    requires n == 50 + |id| && |tag| >= n + 9
    requires PrefixLen(tag, ScriptPattern()) == Some(34)
    requires FindChar(tag, '>', 34) == Some(n - 1)
    requires KeyIn(tag, AttrItems("data-schema", Lower(id)), 34, n - 1)
    requires FindCI(tag, Close, n) == |tag| - 9
    ensures SchemaAt(tag, id) == Some(Hit(|tag|, Span(0, 0)))
  {
    SchemaAtParts(tag, id, 34, n - 1, |tag| - 9);
  }

  /** A block found at the front of a text is found there whatever
      follows it. */
  lemma ScriptTagAtFront(id: string, json: string, rest: string)
    requires IsName(id)
    ensures SchemaAt(ScriptTag(id, json) + rest, id) == Some(Hit(|ScriptTag(id, json)|, Span(0, 0)))
  {
    var tag := ScriptTag(id, json);
    ScriptTagMatchesItself(id, json);
    assert (tag + rest)[..|tag|] == tag[..|tag|];
    SchemaLocal(tag, tag + rest, id);
  }

  /** `r` holds the block for `id` at `p`, and the schema finder for `id`
      takes exactly that block there. */
  predicate BlockAt(r: string, p: nat, id: string, json: string) {
    var tag := ScriptTag(id, json);
    p + |tag| <= |r| && r[p..p + |tag|] == tag
    && SchemaAt(r[p..], id) == Some(Hit(|tag|, Span(0, 0)))
  }

  lemma BlockBetween(r: string, pre: string, id: string, json: string, rest: string)
    requires IsName(id) && r == pre + ScriptTag(id, json) + rest
    ensures BlockAt(r, |pre|, id, json)
  {
    var tag := ScriptTag(id, json);
    assert r[|pre|..] == tag + rest;
    assert r[|pre|..|pre| + |tag|] == tag;
    ScriptTagAtFront(id, json, rest);
  }

  /** The upsert writes the new block whole at `SchemaPos`, where the
      schema finder for `id` then takes exactly that block. */
  lemma UpsertSchemaWrites(head: string, id: string, json: string)
    requires IsName(id)
    ensures BlockAt(UpsertSchemaBlock(head, id, json), SchemaPos(head, id), id, json)
  {
    if First(head, SchemaF(id)).Some? {
      WritesOverBlock(head, id, json);
    } else if FindCI(head, "</head>", 0) >= 0 {
      WritesBeforeHeadEnd(head, id, json);
    } else {
      WritesInFront(head, id, json);
    }
  }

  lemma WritesOverBlock(head: string, id: string, json: string)
    requires IsName(id) && First(head, SchemaF(id)).Some?
    ensures BlockAt(UpsertSchemaBlock(head, id, json), SchemaPos(head, id), id, json)
  {
    var m := First(head, SchemaF(id)).value;
    BlockBetween(UpsertSchemaBlock(head, id, json), head[..m.at], id, json, head[m.at + m.hit.len..]);
  }

  lemma WritesBeforeHeadEnd(head: string, id: string, json: string)
    requires IsName(id) && First(head, SchemaF(id)).None?
    requires FindCI(head, "</head>", 0) >= 0
    ensures BlockAt(UpsertSchemaBlock(head, id, json), SchemaPos(head, id), id, json)
  {
    var h := FindCI(head, "</head>", 0);
    Regroup3(head[..h], "  ", ScriptTag(id, json), "\n</head>", head[h + 7..]);
    BlockBetween(UpsertSchemaBlock(head, id, json), head[..h] + "  ", id, json, "\n</head>" + head[h + 7..]);
  }

  lemma WritesInFront(head: string, id: string, json: string)
    requires IsName(id) && First(head, SchemaF(id)).None?
    requires FindCI(head, "</head>", 0) < 0
    ensures BlockAt(UpsertSchemaBlock(head, id, json), SchemaPos(head, id), id, json)
  {
    var tag := ScriptTag(id, json);
    InFront(head, id, json, tag);
    BlockFront(UpsertSchemaBlock(head, id, json), id, json, head);
  }

  lemma BlockFront(r: string, id: string, json: string, rest: string)
    requires IsName(id) && r == ScriptTag(id, json) + "\n" + rest
    ensures BlockAt(r, 0, id, json)
  {
    var tag := ScriptTag(id, json);
    SeqAssoc(tag, "\n", rest);
    assert r[0..] == tag + ("\n" + rest);
    assert r[0..|tag|] == tag;
    ScriptTagAtFront(id, json, "\n" + rest);
  }

  /** Without a block and without `</head>` the block goes in front. */
  lemma InFront(head: string, id: string, json: string, tag: string)
    requires First(head, SchemaF(id)).None? && FindCI(head, "</head>", 0) < 0
    requires tag == ScriptTag(id, json)
    ensures UpsertSchemaBlock(head, id, json) == tag + "\n" + head && SchemaPos(head, id) == 0
  {
  }

  lemma Regroup3(a: string, b: string, c: string, d: string, e: string)
    ensures a + b + c + d + e == (a + b) + c + (d + e)
  {
  }

  // ---- what the upsert keeps ----

  /** The span of `head` an upsert takes out: the first match of `f`;
      without one, the first `</head>` (written back in lower case after
      the new text), or nothing at the front. */
  function Replaced(head: string, f: Finder): (r: (nat, nat))
    ensures r.0 <= r.1 <= |head|
  {
    match First(head, f)
    case Some(m) => (m.at, m.at + m.hit.len)
    case None =>
      var h := FindCI(head, "</head>", 0);
      if h >= 0 then (h, h + 7) else (0, 0)
  }

  /** The text before the span and the text after it are kept as they
      were. */
  predicate KeepsOutside(head: string, r: string, p: nat, q: nat)
    requires p <= q <= |head|
  {
    p + (|head| - q) <= |r| && r[..p] == head[..p] && r[|r| - (|head| - q)..] == head[q..]
  }

  lemma KeepsAround(head: string, r: string, p: nat, q: nat, mid: string)
    requires p <= q <= |head| && r == head[..p] + mid + head[q..]
    ensures KeepsOutside(head, r, p, q)
  {
    assert r[..p] == head[..p];
    assert r[|r| - (|head| - q)..] == head[q..];
  }

  /** Only the replaced span changes: the first match of `f` if there is
      one, else the `</head>` the new text goes in front of, else
      nothing. */
  lemma UpsertKeeps(head: string, f: Finder, tag: string)
    ensures var sp := Replaced(head, f);
      KeepsOutside(head, Upsert(head, f, tag), sp.0, sp.1)
    ensures First(head, f).Some? ==>
      Replaced(head, f).1 - Replaced(head, f).0 == First(head, f).value.hit.len
    ensures First(head, f).None? ==> Replaced(head, f).1 - Replaced(head, f).0 <= 7
  {
    var r := Upsert(head, f, tag);
    if First(head, f).Some? {
      var m := First(head, f).value;
      KeepsAround(head, r, m.at, m.at + m.hit.len, tag);
    } else {
      var h := FindCI(head, "</head>", 0);
      if h >= 0 {
        KeepsBeforeHeadEnd(head, r, h, tag);
      } else {
        KeepsAround(head, r, 0, 0, tag + "\n");
      }
    }
  }

  lemma KeepsBeforeHeadEnd(head: string, r: string, h: nat, tag: string)
    requires h + 7 <= |head| && r == head[..h] + "  " + tag + "\n</head>" + head[h + 7..]
    ensures KeepsOutside(head, r, h, h + 7)
  {
    Regroup3(head[..h], "  ", tag, "\n</head>", head[h + 7..]);
    KeepsAround(head, r, h, h + 7, "  " + tag + "\n</head>");
  }

  /** Any text lying wholly before or wholly after a kept span, such as a
      block for another id, is found unchanged in the result, shifted by
      the change in length when it lies after. */
  lemma KeptText(head: string, r: string, p: nat, q: nat, j: nat, k: nat)
    requires p <= q <= |head| && KeepsOutside(head, r, p, q)
    requires j <= k <= |head| && (k <= p || q <= j)
    ensures k <= p ==> k <= |r| && r[j..k] == head[j..k]
    ensures q <= j ==>
              && 0 <= j + (|r| - |head|) && k + (|r| - |head|) <= |r|
              && r[j + (|r| - |head|)..k + (|r| - |head|)] == head[j..k]
  {
    if k <= p {
      SliceOfSlice(r, 0, p, j, k);
      SliceOfSlice(head, 0, p, j, k);
    }
    if q <= j {
      var t := |r| - (|head| - q);
      assert r[t..] == head[q..];
      SliceOfSlice(r, t, |r|, j - q, k - q);
      SliceOfSlice(head, q, |head|, j - q, k - q);
    }
  }
}
