/** URL slugs: the two `slugify` functions of the site's tools
    (tools/generate-blog.mjs and tools/fix-clean-urls-and-canonicals.mjs).
    Both trim, lower-case, turn runs of white space and underscores into
    one `-`, drop everything outside `[a-z0-9-]`, collapse runs of `-`
    and strip a leading and a trailing `-`; the second one also folds
    accented letters to their base letter first. */
module Slug {
  import opened Text

  predicate IsSlugChar(c: char) {
    ('a' <= c <= 'z') || ('0' <= c <= '9') || c == '-'
  }

  /** What both slugify functions promise about their output. */
  predicate IsSlug(s: string) {
    && (forall i :: 0 <= i < |s| ==> IsSlugChar(s[i]))
    && (forall i :: 0 <= i < |s| - 1 ==> !(s[i] == '-' && s[i + 1] == '-'))
    && (s == [] || (s[0] != '-' && s[|s| - 1] != '-'))
  }

  predicate NoDoubleDash(s: string) {
    forall i :: 0 <= i < |s| - 1 ==> !(s[i] == '-' && s[i + 1] == '-')
  }

  predicate IsRunChar(c: char) {
    IsSpace(c) || c == '_'
  }

  /** `.replace(/[\s_]+/g, "-")`; `inRun` says the previous input
      character was already folded into a `-`. */
  function DashRuns(s: string, inRun: bool): (r: string)
    ensures forall i :: 0 <= i < |r| ==> !IsRunChar(r[i])
  {
    if s == [] then []
    else if IsRunChar(s[0]) then (if inRun then [] else "-") + DashRuns(s[1..], true)
    else [s[0]] + DashRuns(s[1..], false)
  }

  /** `.replace(/[^a-z0-9\-]/g, "")`. */
  function KeepSlugChars(s: string): (r: string)
    ensures forall i :: 0 <= i < |r| ==> IsSlugChar(r[i])
  {
    if s == [] then []
    else (if IsSlugChar(s[0]) then [s[0]] else []) + KeepSlugChars(s[1..])
  }

  /** `.replace(/-+/g, "-")`; `afterDash` says the last character already
      produced was a `-`. */
  function CollapseDashes(s: string, afterDash: bool): (r: string)
  {
    if s == [] then []
    else if s[0] == '-' then (if afterDash then [] else "-") + CollapseDashes(s[1..], true)
    else [s[0]] + CollapseDashes(s[1..], false)
  }

  /** `.replace(/^-|-$/g, "")`. */
  function StripDashes(s: string): (r: string)
  {
    var t := if s != [] && s[0] == '-' then s[1..] else s;
    if t != [] && t[|t| - 1] == '-' then t[..|t| - 1] else t
  }

  /** The part shared by both slugify functions, after trimming and
      lower-casing. */
  function Finish(s: string): (r: string)
  {
    StripDashes(CollapseDashes(KeepSlugChars(DashRuns(s, false)), false))
  }

  /** tools/generate-blog.mjs `slugify`. */
  function Slugify(s: string): (r: string)
  {
    Finish(Lower(Trim(s)))
  }

  /** `normalize("NFKD")` followed by removal of the combining marks
      U+0300..U+036F, for the accented letters of the site's languages;
      every other character is left as it is. */
  function FoldChar(c: char): (r: char)
  {
    if c == '\U{10D}' || c == '\U{107}' then 'c'
    else if c == '\U{161}' then 's'
    else if c == '\U{17E}' then 'z'
    else if c == '\U{E1}' || c == '\U{E0}' || c == '\U{E4}' then 'a'
    else if c == '\U{E9}' || c == '\U{E8}' || c == '\U{EB}' then 'e'
    else if c == '\U{ED}' || c == '\U{EC}' then 'i'
    else if c == '\U{F3}' || c == '\U{F2}' || c == '\U{F6}' then 'o'
    else if c == '\U{FA}' || c == '\U{F9}' || c == '\U{FC}' then 'u'
    else c
  }

  function Fold(s: string): (r: string)
    ensures |r| == |s| && forall i :: 0 <= i < |s| ==> r[i] == FoldChar(s[i])
  {
    seq(|s|, i requires 0 <= i < |s| => FoldChar(s[i]))
  }

  /** tools/fix-clean-urls-and-canonicals.mjs `slugify`. */
  function SlugifyFolded(s: string): (r: string)
  {
    Finish(Fold(Lower(Trim(s))))
  }

  // ---- the output is a slug ----

  lemma {:induction false} CollapseNoDoubleDash(s: string, afterDash: bool)
    ensures NoDoubleDash(CollapseDashes(s, afterDash))
    ensures afterDash ==> CollapseDashes(s, afterDash) == [] || CollapseDashes(s, afterDash)[0] != '-'
    ensures forall c :: c in CollapseDashes(s, afterDash) ==> c in s
  {
    if s != [] {
      CollapseNoDoubleDash(s[1..], s[0] == '-');
    }
  }

  lemma StripIsSlug(s: string)
    requires NoDoubleDash(s)
    requires forall c :: c in s ==> IsSlugChar(c)
    ensures IsSlug(StripDashes(s))
  {
    var t := if s != [] && s[0] == '-' then s[1..] else s;
    assert forall i :: 0 <= i < |t| - 1 ==> !(t[i] == '-' && t[i + 1] == '-') by {
      if s != [] && s[0] == '-' {
        forall i | 0 <= i < |t| - 1 ensures !(t[i] == '-' && t[i + 1] == '-') {
          assert t[i] == s[i + 1] && t[i + 1] == s[i + 2];
        }
      }
    }
    assert t == [] || t[0] != '-' by {
      if s != [] && s[0] == '-' && |s| > 1 {
        assert !(s[0] == '-' && s[1] == '-');
      }
    }
    var r := StripDashes(s);
    assert r == if t != [] && t[|t| - 1] == '-' then t[..|t| - 1] else t;
    if t != [] && t[|t| - 1] == '-' && |t| >= 2 {
      assert t[|t| - 2] != '-';
    }
    assert forall c :: c in r ==> c in s;
  }

  /** Every result of `Finish`, hence of both slugify functions, uses only
      `[a-z0-9-]`, has no `--` and neither starts nor ends with `-`. */
  lemma FinishIsSlug(s: string)
    ensures IsSlug(Finish(s))
  {
    var k := KeepSlugChars(DashRuns(s, false));
    CollapseNoDoubleDash(k, false);
    StripIsSlug(CollapseDashes(k, false));
  }

  // ---- a slug is a fixed point ----

  lemma {:induction false} DashRunsFixed(s: string, inRun: bool)
    requires forall i :: 0 <= i < |s| ==> IsSlugChar(s[i])
    ensures DashRuns(s, inRun) == s
  {
    if s != [] {
      DashRunsFixed(s[1..], false);
    }
  }

  lemma {:induction false} KeepFixed(s: string)
    requires forall i :: 0 <= i < |s| ==> IsSlugChar(s[i])
    ensures KeepSlugChars(s) == s
  {
    if s != [] {
      KeepFixed(s[1..]);
    }
  }

  lemma {:induction false} CollapseFixed(s: string, afterDash: bool)
    requires NoDoubleDash(s)
    requires afterDash ==> s == [] || s[0] != '-'
    ensures CollapseDashes(s, afterDash) == s
  {
    if s != [] {
      CollapseFixed(s[1..], s[0] == '-');
    }
  }

  lemma FinishFixed(s: string)
    requires IsSlug(s)
    ensures Finish(s) == s
  {
    DashRunsFixed(s, false);
    KeepFixed(s);
    CollapseFixed(s, false);
    StripFixed(s);
    FinishOf(s, DashRuns(s, false), KeepSlugChars(s), CollapseDashes(s, false));
  }

  /** `Finish` through its stages. */
  lemma FinishOf(s: string, a: string, b: string, c: string)
    requires a == DashRuns(s, false) && b == KeepSlugChars(a) && c == CollapseDashes(b, false)
    ensures Finish(s) == StripDashes(c)
  {
  }

  lemma StripFixed(s: string)
    requires s == [] || (s[0] != '-' && s[|s| - 1] != '-')
    ensures StripDashes(s) == s
  {
  }

  lemma SlugIsLowerTrimmed(s: string)
    requires IsSlug(s)
    ensures Trim(s) == s && Lower(s) == s && Fold(s) == s
  {
    if s != [] {
      assert IsSlugChar(s[0]) && IsSlugChar(s[|s| - 1]);
      TrimmedIsFixed(s);
    }
    forall i | 0 <= i < |s| ensures Lower(s)[i] == s[i] && Fold(s)[i] == s[i] {
      assert IsSlugChar(s[i]);
    }
  }

  /** Slugify of tools/generate-blog.mjs: the output is a slug and
      slugifying twice is slugifying once. */
  lemma SlugifyIdempotent(x: string)
    ensures IsSlug(Slugify(x))
    ensures Slugify(Slugify(x)) == Slugify(x)
  {
    var y := Slugify(x);
    FinishIsSlug(Lower(Trim(x)));
    SlugIsLowerTrimmed(y);
    FinishFixed(y);
  }

  /** The same two facts for the accent-folding slugify of
      tools/fix-clean-urls-and-canonicals.mjs. */
  lemma SlugifyFoldedIdempotent(x: string)
    ensures IsSlug(SlugifyFolded(x))
    ensures SlugifyFolded(SlugifyFolded(x)) == SlugifyFolded(x)
  {
    var y := SlugifyFolded(x);
    FinishIsSlug(Fold(Lower(Trim(x))));
    SlugIsLowerTrimmed(y);
    FinishFixed(y);
  }
}
