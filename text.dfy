/** String helpers shared by every model: whitespace and case as the
    JavaScript and Python string methods see them (restricted to the
    characters the site's content uses), literal search and
    replacement, splitting and joining, and code-point order. */
module Text {

  /** `\s` and the characters `trim()` removes, limited to ASCII white
      space, the no-break space and the byte-order mark. */
  predicate IsSpace(c: char) {
    c == ' ' || c == '\t' || c == '\n' || c == '\r' || c == '\U{B}' || c == '\U{C}'
    || c == '\U{A0}' || c == '\U{FEFF}'
  }

  function TrimStart(s: string): (r: string)
    ensures |r| <= |s| && r == s[|s| - |r|..]
    ensures r != [] ==> !IsSpace(r[0])
    ensures forall i :: 0 <= i < |s| - |r| ==> IsSpace(s[i])
  {
    if s != [] && IsSpace(s[0]) then TrimStart(s[1..]) else s
  }

  function TrimEnd(s: string): (r: string)
    ensures |r| <= |s| && r == s[..|r|]
    ensures r != [] ==> !IsSpace(r[|r| - 1])
    ensures forall i :: |r| <= i < |s| ==> IsSpace(s[i])
  {
    if s != [] && IsSpace(s[|s| - 1]) then TrimEnd(s[..|s| - 1]) else s
  }

  /** `r` is `s[i..]` cut to its length, with only white space before and
      after it in `s`. */
  predicate TrimOf(s: string, r: string, i: int) {
    && 0 <= i <= |s| - |r| && r == s[i..i + |r|]
    && (forall k :: 0 <= k < i ==> IsSpace(s[k]))
    && (forall k :: i + |r| <= k < |s| ==> IsSpace(s[k]))
  }

  /** `String.prototype.trim` / Python `str.strip()`: the input without its
      leading and trailing white space. */
  function Trim(s: string): (r: string)
    ensures r != [] ==> !IsSpace(r[0]) && !IsSpace(r[|r| - 1])
    ensures |r| <= |s|
    ensures exists i :: TrimOf(s, r, i)
  {
    var t := TrimStart(s);
    var r := TrimEnd(t);
    TrimWitness(s, t, r);
    r
  }

  /** A white-space prefix cut from `s`, then a white-space suffix cut
      from what is left, leave `r` where the prefix ends. */
  lemma TrimWitness(s: string, t: string, r: string)
    requires |t| <= |s| && t == s[|s| - |t|..]
    requires forall k :: 0 <= k < |s| - |t| ==> IsSpace(s[k])
    requires |r| <= |t| && r == t[..|r|]
    requires forall k :: |r| <= k < |t| ==> IsSpace(t[k])
    ensures TrimOf(s, r, |s| - |t|)
  {
    var i := |s| - |t|;
    forall k | i + |r| <= k < |s| ensures IsSpace(s[k]) {
      assert s[k] == t[k - i];
    }
  }

  /** The outer white space of `s` determines its trim: whatever lies
      between a white-space prefix and a white-space suffix, and starts and
      ends with other characters, is `Trim(s)`. */
  lemma TrimUnique(s: string, i: nat, j: nat)
    requires i <= j <= |s|
    requires forall k :: 0 <= k < i ==> IsSpace(s[k])
    requires forall k :: j <= k < |s| ==> IsSpace(s[k])
    requires i < j ==> !IsSpace(s[i]) && !IsSpace(s[j - 1])
    ensures Trim(s) == s[i..j]
  {
    var r := Trim(s);
    var i0 :| TrimOf(s, r, i0);
    var j0 := i0 + |r|;
    if r == [] {
      if i < j {
        assert false;
      }
    } else {
      assert !IsSpace(s[i0]) && !IsSpace(s[j0 - 1]);
      if i == j || i0 < i || i < i0 || j0 < j || j < j0 {
        assert false;
      }
    }
  }

  /** Trimming only removes characters. */
  lemma TrimAvoids(s: string, c: char)
    requires c !in s
    ensures c !in Trim(s)
  {
    var t := TrimStart(s);
    var r := TrimEnd(t);
    forall i | 0 <= i < |r| ensures r[i] != c {
      assert r[i] == t[..|r|][i] == t[i];
      assert t[i] == s[|s| - |t|..][i];
    }
  }

  predicate IsTrimmed(s: string) {
    s == [] || (!IsSpace(s[0]) && !IsSpace(s[|s| - 1]))
  }

  lemma TrimmedIsFixed(s: string)
    requires IsTrimmed(s)
    ensures Trim(s) == s
  {
  }

  lemma TrimIsTrimmed(s: string)
    ensures IsTrimmed(Trim(s)) && Trim(Trim(s)) == Trim(s)
  {
    TrimmedIsFixed(Trim(s));
  }

  /** No white space but single blanks. */
  predicate SingleSpaced(s: string)
    decreases |s|
  {
    s == [] ||
      (&& (IsSpace(s[0]) ==> s[0] == ' ' && (|s| == 1 || !IsSpace(s[1])))
       && SingleSpaced(s[1..]))
  }

  /** `s.replace(/\s+/g, " ")`: every run of white space becomes one blank. */
  function CollapseSpaces(s: string): (r: string)
    decreases |s|
    ensures SingleSpaced(r)
    ensures (r != [] && IsSpace(r[0])) <==> (s != [] && IsSpace(s[0]))
    ensures (r != [] && IsSpace(r[|r| - 1])) <==> (s != [] && IsSpace(s[|s| - 1]))
    ensures r == [] <==> s == []
  {
    if s == [] then []
    else if IsSpace(s[0]) then
      var t := TrimStart(s);
      assert t != [] ==> t[|t| - 1] == s[|s| - 1];
      " " + CollapseSpaces(t)
    else
      [s[0]] + CollapseSpaces(s[1..])
  }

  /** Single-spaced text has nothing to collapse. */
  lemma {:induction false} CollapseSpacesFixed(s: string)
    requires SingleSpaced(s)
    ensures CollapseSpaces(s) == s
    decreases |s|
  {
    if s != [] {
      assert SingleSpaced(s[1..]);
      CollapseSpacesFixed(s[1..]);
      if IsSpace(s[0]) {
        CollapseBlankStep(s, s[1..]);
      } else {
        CollapseCharStep(s, s[1..]);
      }
    }
  }

  /** One step of `CollapseSpacesFixed` at a single blank. */
  lemma CollapseBlankStep(s: string, tail: string)
    requires SingleSpaced(s) && s != [] && IsSpace(s[0])
    requires tail == s[1..] && CollapseSpaces(tail) == tail
    ensures CollapseSpaces(s) == s
  {
    LeadBlank(s);
    assert CollapseSpaces(s) == " " + tail;
    assert s == [s[0]] + tail;
  }

  /** One step of `CollapseSpacesFixed` at a character that is not white
      space. */
  lemma CollapseCharStep(s: string, tail: string)
    requires s != [] && !IsSpace(s[0])
    requires tail == s[1..] && CollapseSpaces(tail) == tail
    ensures CollapseSpaces(s) == s
  {
    assert CollapseSpaces(s) == [s[0]] + tail;
    assert s == [s[0]] + tail;
  }

  lemma LeadBlank(s: string)
    requires SingleSpaced(s) && s != [] && IsSpace(s[0])
    ensures TrimStart(s) == s[1..]
  {
    assert |s| == 1 || !IsSpace(s[1]);
  }

  /** A character that is not white space is kept as it is. */
  lemma CollapseKeeps(c: char, b: string)
    requires !IsSpace(c)
    ensures CollapseSpaces([c] + b) == [c] + CollapseSpaces(b)
  {
    assert ([c] + b)[1..] == b;
  }

  /** A whole run of white space becomes a single blank. */
  lemma CollapseRun(w: string, b: string)
    requires w != [] && forall k :: 0 <= k < |w| ==> IsSpace(w[k])
    requires b == [] || !IsSpace(b[0])
    ensures CollapseSpaces(w + b) == " " + CollapseSpaces(b)
  {
    TrimStartRun(w, b);
  }

  lemma {:induction false} TrimStartRun(w: string, b: string)
    requires forall k :: 0 <= k < |w| ==> IsSpace(w[k])
    requires b == [] || !IsSpace(b[0])
    ensures TrimStart(w + b) == b
    decreases |w|
  {
    if w == [] {
      assert w + b == b;
    } else {
      assert (w + b)[1..] == w[1..] + b;
      TrimStartRun(w[1..], b);
    }
  }

  /** Text ending in a character that is not white space collapses on its
      own: no run of white space crosses the seam. */
  lemma {:induction false} CollapseAppend(a: string, b: string)
    requires a == [] || !IsSpace(a[|a| - 1])
    ensures CollapseSpaces(a + b) == CollapseSpaces(a) + CollapseSpaces(b)
    decreases |a|
  {
    if a == [] {
      assert a + b == b;
    } else if !IsSpace(a[0]) {
      var a1 := a[1..];
      CollapseAppend(a1, b);
      CollapseCharJoin(a, b, a1);
    } else {
      var t := TrimStart(a);
      TrimStartInner(a, t);
      CollapseAppend(t, b);
      CollapseRunJoin(a, b, t);
    }
  }

  /** One step of `CollapseAppend` at a character that is not white space. */
  lemma CollapseCharJoin(a: string, b: string, a1: string)
    requires a != [] && !IsSpace(a[0]) && a1 == a[1..]
    requires CollapseSpaces(a1 + b) == CollapseSpaces(a1) + CollapseSpaces(b)
    ensures CollapseSpaces(a + b) == CollapseSpaces(a) + CollapseSpaces(b)
  {
    var c := a[0];
    TailAppend(a, b);
    CollapseStep(a, c, a1);
    CollapseStep(a + b, c, a1 + b);
    SeqAssoc([c], CollapseSpaces(a1), CollapseSpaces(b));
  }

  lemma TailAppend<T>(a: seq<T>, b: seq<T>)
    requires a != []
    ensures (a + b)[0] == a[0] && (a + b)[1..] == a[1..] + b
  {
  }

  lemma CollapseStep(s: string, c: char, t: string)
    requires s != [] && s[0] == c && !IsSpace(c) && t == s[1..]
    ensures CollapseSpaces(s) == [c] + CollapseSpaces(t)
  {
  }

  /** One step of `CollapseAppend` at a run of white space. */
  lemma CollapseRunJoin(a: string, b: string, t: string)
    requires a != [] && IsSpace(a[0]) && !IsSpace(a[|a| - 1]) && t == TrimStart(a)
    requires CollapseSpaces(t + b) == CollapseSpaces(t) + CollapseSpaces(b)
    ensures CollapseSpaces(a + b) == CollapseSpaces(a) + CollapseSpaces(b)
  {
    TrimStartAppend(a, b);
    CollapseLead(a, t);
    CollapseLead(a + b, t + b);
    SeqAssoc(" ", CollapseSpaces(t), CollapseSpaces(b));
  }

  /** Leading white space of text that ends in another character leaves
      something shorter that still ends in it. */
  lemma TrimStartInner(a: string, t: string)
    requires a != [] && IsSpace(a[0]) && !IsSpace(a[|a| - 1]) && t == TrimStart(a)
    ensures t != [] && !IsSpace(t[|t| - 1]) && |t| < |a|
  {
  }

  /** At leading white space, `CollapseSpaces` writes a blank and goes on
      after the run. */
  lemma CollapseLead(s: string, t: string)
    requires s != [] && IsSpace(s[0]) && t == TrimStart(s)
    ensures CollapseSpaces(s) == " " + CollapseSpaces(t)
  {
  }

  lemma {:induction false} TrimStartAppend(a: string, b: string)
    requires a != [] && !IsSpace(a[|a| - 1])
    ensures TrimStart(a + b) == TrimStart(a) + b
    decreases |a|
  {
    if IsSpace(a[0]) {
      assert (a + b)[1..] == a[1..] + b;
      TrimStartAppend(a[1..], b);
    }
  }

  /** Trimming then collapsing, as the title and description readers do,
      gives trimmed, single-spaced text; doing it again changes nothing. */
  lemma TidyIsNormal(s: string)
    ensures var r := CollapseSpaces(Trim(s)); IsTrimmed(r) && SingleSpaced(r)
    ensures var r := CollapseSpaces(Trim(s)); CollapseSpaces(Trim(r)) == r
  {
    var r := CollapseSpaces(Trim(s));
    TrimmedIsFixed(r);
    CollapseSpacesFixed(r);
  }

  /** `toLowerCase` / `.lower()`: ASCII letters and the five letters of the
      Montenegrin Latin alphabet with diacritics. */
  function LowerChar(c: char): (r: char)
    ensures 'A' <= c <= 'Z' ==> r as int == c as int + 32
    ensures !('A' <= c <= 'Z') && c != '\U{10C}' && c != '\U{106}' && c != '\U{160}' && c != '\U{17D}' && c != '\U{110}' ==> r == c
  {
    if 'A' <= c <= 'Z' then (c as int + 32) as char
    else if c == '\U{10C}' then '\U{10D}'
    else if c == '\U{106}' then '\U{107}'
    else if c == '\U{160}' then '\U{161}'
    else if c == '\U{17D}' then '\U{17E}'
    else if c == '\U{110}' then '\U{111}'
    else c
  }

  function Lower(s: string): (r: string)
    ensures |r| == |s| && forall i :: 0 <= i < |s| ==> r[i] == LowerChar(s[i])
  {
    seq(|s|, i requires 0 <= i < |s| => LowerChar(s[i]))
  }

  lemma LowerOfLower(s: string)
    ensures Lower(Lower(s)) == Lower(s)
  {
  }

  /** A lower-case white-space character stays white space: trimming and
      lower-casing commute. */
  lemma LowerKeepsSpace(c: char)
    ensures IsSpace(LowerChar(c)) == IsSpace(c)
  {
  }

  predicate StartsWith(s: string, p: string) {
    |p| <= |s| && s[..|p|] == p
  }

  predicate EndsWith(s: string, p: string) {
    |p| <= |s| && s[|s| - |p|..] == p
  }

  /** `p` occurs in `s` at position `i`. */
  predicate OccursAt(s: string, p: string, i: int) {
    0 <= i && i + |p| <= |s| && s[i..i + |p|] == p
  }

  /** `s.includes(p)`. */
  predicate Contains(s: string, p: string) {
    exists i | 0 <= i <= |s| - |p| :: OccursAt(s, p, i)
  }

  /** Case-insensitive occurrence of the lower-case pattern `p`. */
  predicate OccursAtCI(s: string, p: string, i: int) {
    0 <= i && i + |p| <= |s| && Lower(s[i..i + |p|]) == p
  }

  /** Each character of an occurrence is the pattern's, up to case. */
  lemma OccursAtCIChar(s: string, p: string, i: int, j: int)
    requires OccursAtCI(s, p, i) && i <= j < i + |p|
    ensures LowerChar(s[j]) == p[j - i]
  {
    assert Lower(s[i..i + |p|])[j - i] == LowerChar(s[j]);
  }

  /** `s` ends with the lower-case `p`, ignoring case. */
  predicate EndsWithCI(s: string, p: string) {
    |p| <= |s| && Lower(s[|s| - |p|..]) == p
  }

  /** Index of the first case-insensitive occurrence of `p` at or after `from`. */
  function FindCI(s: string, p: string, from: nat): (r: int)
    decreases |s| - from
    ensures r == -1 || (from <= r && OccursAtCI(s, p, r))
    ensures forall i :: from <= i && (r == -1 || i < r) ==> !OccursAtCI(s, p, i)
  {
    if from + |p| > |s| then -1
    else if OccursAtCI(s, p, from) then from
    else FindCI(s, p, from + 1)
  }

  /** The first occurrence is the one with none before it. */
  lemma FindCIIs(s: string, p: string, from: nat, h: nat)
    requires from <= h && OccursAtCI(s, p, h)
    requires forall i | from <= i < h :: !OccursAtCI(s, p, i)
    ensures FindCI(s, p, from) == h
  {
  }

  /** The first case-insensitive occurrence depends only on the text up to
      its end. */
  lemma FindCILocal(t: string, u: string, p: string, from: nat, n: nat)
    requires FindCI(t, p, from) >= 0 && FindCI(t, p, from) + |p| <= n
    requires n <= |t| && n <= |u| && t[..n] == u[..n]
    ensures FindCI(u, p, from) == FindCI(t, p, from)
  {
    var h := FindCI(t, p, from);
    OccursAtCILocal(t, u, p, h, n);
    forall i | from <= i < h ensures !OccursAtCI(u, p, i) {
      OccursAtCILocal(t, u, p, i, n);
    }
  }

  lemma OccursAtCILocal(t: string, u: string, p: string, i: nat, n: nat)
    requires i + |p| <= n <= |t| && n <= |u| && t[..n] == u[..n]
    ensures OccursAtCI(u, p, i) == OccursAtCI(t, p, i)
  {
    assert u[i..i + |p|] == t[..n][i..i + |p|] == t[i..i + |p|];
  }

  /** Index of the first occurrence of `p` at or after `from`. */
  function Find(s: string, p: string, from: nat): (r: int)
    decreases |s| - from
    ensures r == -1 || (from <= r && OccursAt(s, p, r))
    ensures forall i :: from <= i && (r == -1 || i < r) ==> !OccursAt(s, p, i)
  {
    if from + |p| > |s| then -1
    else if OccursAt(s, p, from) then from
    else Find(s, p, from + 1)
  }

  /** `s.replace(p, rep)` with a string pattern: the first occurrence only. */
  function ReplaceFirst(s: string, p: string, rep: string): (r: string)
  {
    var i := Find(s, p, 0);
    if i < 0 then s else s[..i] + rep + s[i + |p|..]
  }

  /** `s.replaceAll(pat, rep)`: left-to-right, non-overlapping. */
  function ReplaceAll(s: string, pat: string, rep: string): (r: string)
    requires pat != []
    decreases |s|
  {
    if |s| < |pat| then s
    else if s[..|pat|] == pat then rep + ReplaceAll(s[|pat|..], pat, rep)
    else [s[0]] + ReplaceAll(s[1..], pat, rep)
  }

  /** Replacing a pattern that does not occur changes nothing. */
  lemma {:induction false} ReplaceAllAbsent(s: string, pat: string, rep: string)
    requires pat != [] && !Contains(s, pat)
    ensures ReplaceAll(s, pat, rep) == s
    decreases |s|
  {
    if |s| >= |pat| {
      assert !OccursAt(s, pat, 0);
      forall i | 0 <= i <= |s| - 1 - |pat| ensures !OccursAt(s[1..], pat, i) {
        assert !OccursAt(s, pat, i + 1);
        assert s[1..][i..i + |pat|] == s[i + 1..i + 1 + |pat|];
      }
      ReplaceAllAbsent(s[1..], pat, rep);
    }
  }

  /** A prefix free of the pattern's first character is copied unchanged. */
  lemma {:induction false} ReplaceAllSkip(a: string, b: string, pat: string, rep: string)
    requires pat != [] && pat[0] !in a
    ensures ReplaceAll(a + b, pat, rep) == a + ReplaceAll(b, pat, rep)
    decreases |a|
  {
    if a != [] {
      assert (a + b)[0] == a[0];
      assert (a + b)[1..] == a[1..] + b;
      if |a + b| >= |pat| {
        assert (a + b)[..|pat|][0] == a[0];
      }
      ReplaceAllSkip(a[1..], b, pat, rep);
    } else {
      assert a + b == b;
    }
  }

  /** Where the pattern does not start, the first character is kept. */
  lemma ReplaceAllMiss(s: string, pat: string, rep: string)
    requires pat != [] && s != [] && !StartsWith(s, pat)
    ensures ReplaceAll(s, pat, rep) == [s[0]] + ReplaceAll(s[1..], pat, rep)
  {
  }

  /** An occurrence at the front is replaced. */
  lemma ReplaceAllFront(b: string, pat: string, rep: string)
    requires pat != []
    ensures ReplaceAll(pat + b, pat, rep) == rep + ReplaceAll(b, pat, rep)
  {
    assert (pat + b)[..|pat|] == pat;
    assert (pat + b)[|pat|..] == b;
  }

  /** The first character of `q` occurs in it only at the front. */
  predicate LeadUnique(q: string) {
    q != [] && forall i :: 0 < i < |q| ==> q[i] != q[0]
  }

  /** An occurrence in a suffix is an occurrence in the whole text. */
  lemma ContainsSuffix(s: string, k: nat, q: string)
    requires k <= |s| && Contains(s[k..], q)
    ensures Contains(s, q)
  {
    var i :| 0 <= i <= |s[k..]| - |q| && OccursAt(s[k..], q, i);
    assert s[k + i..k + i + |q|] == s[k..][i..i + |q|];
    assert OccursAt(s, q, k + i);
  }

  /** A front of the result is a front of the input, copied unchanged,
      unless the replacement's first character occurs in it. */
  lemma {:induction false} ReplaceAllUntouched(t: string, pat: string, rep: string, m: nat)
    requires pat != [] && rep != []
    ensures var r := ReplaceAll(t, pat, rep);
      m <= |r| ==> (m <= |t| && r[..m] == t[..m]) || (exists i :: 0 <= i < m && r[i] == rep[0])
    decreases |t|
  {
    var r := ReplaceAll(t, pat, rep);
    if m > 0 && m <= |r| && |t| >= |pat| {
      if t[..|pat|] == pat {
        assert r[0] == rep[0];
      } else {
        var r1 := ReplaceAll(t[1..], pat, rep);
        assert r == [t[0]] + r1;
        ReplaceAllUntouched(t[1..], pat, rep, m - 1);
        if exists i :: 0 <= i < m - 1 && r1[i] == rep[0] {
          var i :| 0 <= i < m - 1 && r1[i] == rep[0];
          assert r[i + 1] == rep[0];
        } else {
          assert r[..m] == [t[0]] + r1[..m - 1];
          assert t[..m] == [t[0]] + t[1..][..m - 1];
        }
      }
    }
  }

  /** `replaceAll` leaves no occurrence of a pattern `q`, which is either
      the pattern replaced or one the input lacks, when the replacement
      starts with `q`'s first character, holds it nowhere else, and
      differs from `q` at a position `d` both have. */
  lemma {:induction false} ReplaceAllLeavesNone(s: string, pat: string, rep: string, q: string, d: nat)
    requires pat != [] && LeadUnique(q) && rep != [] && rep[0] == q[0]
    requires forall i :: 0 < i < |rep| ==> rep[i] != q[0]
    requires d < |q| && d < |rep| && rep[d] != q[d]
    requires q == pat || !Contains(s, q)
    ensures !Contains(ReplaceAll(s, pat, rep), q)
    decreases |s|
  {
    var r := ReplaceAll(s, pat, rep);
    if |s| >= |pat| {
      if s[..|pat|] == pat {
        var t := s[|pat|..];
        if q != pat && Contains(t, q) {
          ContainsSuffix(s, |pat|, q);
        }
        ReplaceAllLeavesNone(t, pat, rep, q, d);
        AfterReplacement(r, rep, ReplaceAll(t, pat, rep), q, d);
      } else {
        var t := s[1..];
        if q != pat && Contains(t, q) {
          ContainsSuffix(s, 1, q);
        }
        ReplaceAllLeavesNone(t, pat, rep, q, d);
        var r1 := ReplaceAll(t, pat, rep);
        if OccursAt(r, q, 0) {
          FrontUntouched(s, t, r, r1, pat, rep, q);
          assert false;
        }
        AfterKept(r, s[0], r1, q);
      }
    }
  }

  /** No `q` starts inside a replacement, and none after it when the rest
      has none. */
  lemma AfterReplacement(r: string, rep: string, r1: string, q: string, d: nat)
    requires LeadUnique(q) && rep != [] && rep[0] == q[0]
    requires forall i :: 0 < i < |rep| ==> rep[i] != q[0]
    requires d < |q| && d < |rep| && rep[d] != q[d]
    requires r == rep + r1 && !Contains(r1, q)
    ensures !Contains(r, q)
  {
    forall p | 0 <= p <= |r| - |q| ensures !OccursAt(r, q, p) {
      if p >= |rep| {
        assert r[p..p + |q|] == r1[p - |rep|..p - |rep| + |q|];
        assert !OccursAt(r1, q, p - |rep|);
      } else if p > 0 {
        assert r[p..p + |q|][0] == rep[p];
      } else {
        assert r[..|q|][d] == rep[d];
      }
    }
  }

  /** A kept character with no `q` at the front, before a rest without
      `q`, gives a text without `q`. */
  lemma AfterKept(r: string, c: char, r1: string, q: string)
    requires r == [c] + r1 && !Contains(r1, q) && !OccursAt(r, q, 0)
    ensures !Contains(r, q)
  {
    forall p | 0 < p <= |r| - |q| ensures !OccursAt(r, q, p) {
      assert r[p..p + |q|] == r1[p - 1..p - 1 + |q|];
      assert !OccursAt(r1, q, p - 1);
    }
  }

  /** The step of `ReplaceAllLeavesNone` at the front: an occurrence of
      `q` at the front of the result was already at the front of the
      input. */
  lemma FrontUntouched(s: string, t: string, r: string, r1: string, pat: string, rep: string, q: string)
    requires pat != [] && LeadUnique(q) && rep != [] && rep[0] == q[0]
    requires s != [] && t == s[1..] && r1 == ReplaceAll(t, pat, rep) && r == [s[0]] + r1
    requires OccursAt(r, q, 0)
    ensures OccursAt(s, q, 0)
  {
    forall i | 0 <= i < |q| - 1 ensures r1[i] != rep[0] {
      assert r1[i] == r[..|q|][i + 1];
    }
    ReplaceAllUntouched(t, pat, rep, |q| - 1);
    assert s[..|q|] == [s[0]] + t[..|q| - 1];
    assert r[..|q|] == [s[0]] + r1[..|q| - 1];
  }

  /** Replacement of a single character is a per-character map. */
  function MapChar(s: string, c: char, rep: string): (r: string)
    ensures c !in rep ==> c !in r
    ensures forall x :: x !in rep && x != c ==> (x in r <==> x in s)
  {
    if s == [] then [] else (if s[0] == c then rep else [s[0]]) + MapChar(s[1..], c, rep)
  }

  lemma MapCharAppend(a: string, b: string, c: char, rep: string)
    ensures MapChar(a + b, c, rep) == MapChar(a, c, rep) + MapChar(b, c, rep)
  {
    if a != [] {
      assert (a + b)[1..] == a[1..] + b;
      MapCharAppend(a[1..], b, c, rep);
    } else {
      assert a + b == b;
    }
  }

  lemma {:induction false} ReplaceCharIsMap(s: string, c: char, rep: string)
    ensures ReplaceAll(s, [c], rep) == MapChar(s, c, rep)
    decreases |s|
  {
    if s != [] {
      ReplaceCharIsMap(s[1..], c, rep);
    }
  }

  /** JavaScript `split(c)` with a one-character separator: always at least
      one piece, and the pieces joined by `c` give back the input. */
  function Split(s: string, c: char): (r: seq<string>)
    ensures |r| >= 1
    ensures forall k :: 0 <= k < |r| ==> c !in r[k]
    ensures Join(r, [c]) == s
  {
    if s == [] then [[]]
    else
      var rest := Split(s[1..], c);
      if s[0] == c then [[]] + rest
      else
        assert Join(rest, [c]) == rest[0] + (if |rest| == 1 then [] else [c] + Join(rest[1..], [c]));
        [[s[0]] + rest[0]] + rest[1..]
  }

  function Join(parts: seq<string>, sep: string): (r: string)
  {
    if parts == [] then []
    else if |parts| == 1 then parts[0]
    else parts[0] + sep + Join(parts[1..], sep)
  }

  /** A text without the separator is one piece. */
  lemma {:induction false} SplitNoSep(s: string, c: char)
    requires c !in s
    ensures Split(s, c) == [s]
  {
    if s != [] {
      SplitNoSep(s[1..], c);
    }
  }

  /** Number of occurrences of `c` in `s`. */
  function CountChar(s: string, c: char): (n: nat)
    ensures n <= |s|
  {
    if s == [] then 0 else (if s[0] == c then 1 else 0) + CountChar(s[1..], c)
  }

  /** `split(c)` gives one piece more than there are separators. */
  lemma {:induction false} SplitCount(s: string, c: char)
    ensures |Split(s, c)| == CountChar(s, c) + 1
  {
    if s != [] {
      SplitCount(s[1..], c);
    }
  }

  /** A slice of a slice is a slice of the whole. */
  lemma SliceOfSlice<T>(s: seq<T>, i: int, j: int, k: int, l: int)
    requires 0 <= i <= j <= |s| && 0 <= k <= l <= j - i
    ensures s[i..j][k..l] == s[i + k..i + l]
  {
    forall n | 0 <= n < l - k ensures s[i..j][k..l][n] == s[i + k..i + l][n] {
      assert s[i..j][k..l][n] == s[i..j][k + n] == s[i + k + n];
    }
  }

  lemma SeqAssoc<T>(x: seq<T>, y: seq<T>, z: seq<T>)
    ensures x + (y + z) == x + y + z
  {
  }

  /** Splitting distributes over a separator occurrence. */
  lemma {:induction false} SplitAppend(a: string, b: string, c: char)
    ensures Split(a + [c] + b, c) == Split(a, c) + Split(b, c)
    decreases |a|
  {
    if a == [] {
      assert a + [c] + b == [c] + b;
      assert ([c] + b)[1..] == b;
    } else {
      var t := a + [c] + b;
      assert t[0] == a[0] && t[1..] == a[1..] + [c] + b;
      SplitAppend(a[1..], b, c);
      SplitConsStep(t, a, c, Split(a[1..], c), Split(b, c));
    }
  }

  /** One step of `SplitAppend`: both sides split their first character
      off the same way. */
  lemma SplitConsStep(t: string, a: string, c: char, ra: seq<string>, rb: seq<string>)
    requires a != [] && t != [] && t[0] == a[0]
    requires ra == Split(a[1..], c) && Split(t[1..], c) == ra + rb
    ensures Split(t, c) == Split(a, c) + rb
  {
    if a[0] != c {
      assert (ra + rb)[0] == ra[0];
      assert (ra + rb)[1..] == ra[1..] + rb;
      var x := [[a[0]] + ra[0]];
      assert Split(t, c) == x + (ra[1..] + rb);
      assert Split(a, c) == x + ra[1..];
      SeqAssoc(x, ra[1..], rb);
    } else {
      SeqAssoc([[]], ra, rb);
    }
  }

  /** Code-point order: the model's reading of `localeCompare` and of
      Python string comparison. */
  predicate LexLe(a: string, b: string) {
    a == [] || (b != [] && (a[0] < b[0] || (a[0] == b[0] && LexLe(a[1..], b[1..]))))
  }

  lemma {:induction false} LexLeTotal(a: string, b: string)
    ensures LexLe(a, b) || LexLe(b, a)
  {
    if a != [] && b != [] && a[0] == b[0] {
      LexLeTotal(a[1..], b[1..]);
    }
  }

  lemma {:induction false} LexLeTransitive(a: string, b: string, c: string)
    requires LexLe(a, b) && LexLe(b, c)
    ensures LexLe(a, c)
  {
    if a != [] && b != [] && c != [] && a[0] == b[0] == c[0] {
      LexLeTransitive(a[1..], b[1..], c[1..]);
    }
  }

  lemma {:induction false} LexLeAntisymmetric(a: string, b: string)
    requires LexLe(a, b) && LexLe(b, a)
    ensures a == b
  {
    if a != [] && b != [] {
      LexLeAntisymmetric(a[1..], b[1..]);
      assert a == [a[0]] + a[1..];
      assert b == [b[0]] + b[1..];
    }
  }

  // ---- slashes ----

  /** `.replace(/\/{2,}/g, "/")`; `afterSlash` says the last character
      produced was a `/`. */
  function CollapseSlashes(s: string, afterSlash: bool): (r: string)
    ensures |r| <= |s|
    ensures forall i :: 0 <= i < |r| - 1 ==> !(r[i] == '/' && r[i + 1] == '/')
    ensures afterSlash ==> r == [] || r[0] != '/'
    ensures !afterSlash && s != [] && s[0] == '/' ==> r != [] && r[0] == '/'
  {
    if s == [] then []
    else if s[0] == '/' then (if afterSlash then [] else "/") + CollapseSlashes(s[1..], true)
    else [s[0]] + CollapseSlashes(s[1..], false)
  }

  /** A character other than `/` is kept as it is. */
  lemma SlashKeeps(c: char, b: string, afterSlash: bool)
    requires c != '/'
    ensures CollapseSlashes([c] + b, afterSlash) == [c] + CollapseSlashes(b, false)
  {
    TailAppend([c], b);
  }

  /** After a `/`, further slashes are dropped. */
  lemma {:induction false} SlashesDropped(w: string, b: string)
    requires forall k :: 0 <= k < |w| ==> w[k] == '/'
    requires b == [] || b[0] != '/'
    ensures CollapseSlashes(w + b, true) == CollapseSlashes(b, false)
    decreases |w|
  {
    if w == [] {
      assert w + b == b;
    } else {
      TailAppend(w, b);
      SlashesDropped(w[1..], b);
    }
  }

  /** A run of slashes becomes a single `/`. */
  lemma SlashRun(w: string, b: string)
    requires w != [] && forall k :: 0 <= k < |w| ==> w[k] == '/'
    requires b == [] || b[0] != '/'
    ensures CollapseSlashes(w + b, false) == "/" + CollapseSlashes(b, false)
  {
    TailAppend(w, b);
    SlashesDropped(w[1..], b);
  }

  /** Text ending in a character other than `/` collapses on its own: no
      run of slashes crosses the seam. */
  lemma {:induction false} SlashAppend(a: string, b: string, afterSlash: bool)
    requires a != [] && a[|a| - 1] != '/'
    ensures CollapseSlashes(a + b, afterSlash) == CollapseSlashes(a, afterSlash) + CollapseSlashes(b, false)
    decreases |a|
  {
    TailAppend(a, b);
    if |a| > 1 {
      SlashAppend(a[1..], b, a[0] == '/');
      SlashJoin(a, b, afterSlash);
    }
  }

  /** One step of `SlashAppend`. */
  lemma SlashJoin(a: string, b: string, afterSlash: bool)
    requires |a| > 1 && (a + b)[1..] == a[1..] + b
    requires CollapseSlashes(a[1..] + b, a[0] == '/') == CollapseSlashes(a[1..], a[0] == '/') + CollapseSlashes(b, false)
    ensures CollapseSlashes(a + b, afterSlash) == CollapseSlashes(a, afterSlash) + CollapseSlashes(b, false)
  {
    var h := if a[0] == '/' then (if afterSlash then [] else "/") else [a[0]];
    SeqAssoc(h, CollapseSlashes(a[1..], a[0] == '/'), CollapseSlashes(b, false));
  }

  predicate NoDoubleSlash(s: string) {
    forall i :: 0 <= i < |s| - 1 ==> !(s[i] == '/' && s[i + 1] == '/')
  }

  lemma {:induction false} CollapseFixed(s: string, afterSlash: bool)
    requires NoDoubleSlash(s)
    requires afterSlash ==> s == [] || s[0] != '/'
    ensures CollapseSlashes(s, afterSlash) == s
  {
    if s != [] {
      CollapseFixed(s[1..], s[0] == '/');
    }
  }
}
