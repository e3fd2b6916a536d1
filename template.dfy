/** `{{name}}` placeholders and the chain of `replaceAll` calls that
    fills them, shared by the blog generators and the sheet CMS, with the
    proof that such a chain fills every placeholder at once when neither
    the template's text nor the values contain `{`. */
module Template {
  import opened Text

  function Placeholder(n: string): (r: string)
    ensures |r| == |n| + 4
  {
    "{{" + n + "}}"
  }

  /** Replace every placeholder of `names`, one after the other. */
  function Substitute(t: string, fill: string -> string, names: seq<string>): (r: string)
    decreases names
  {
    if names == [] then t
    else Substitute(ReplaceAll(t, Placeholder(names[0]), fill(names[0])), fill, names[1..])
  }

  lemma {:induction false} SubstituteAbsent(t: string, fill: string -> string, names: seq<string>)
    requires forall i :: 0 <= i < |names| ==> !Contains(t, Placeholder(names[i]))
    ensures Substitute(t, fill, names) == t
  {
    if names != [] {
      ReplaceAllAbsent(t, Placeholder(names[0]), fill(names[0]));
      SubstituteAbsent(t, fill, names[1..]);
    }
  }

  // ---- filling as simultaneous substitution ----

  /** A template cut into literal text and placeholders. */
  datatype Piece = Lit(text: string) | Hole(name: string)

  function PieceText(p: Piece): string {
    if p.Lit? then p.text else Placeholder(p.name)
  }

  function Concat(ps: seq<Piece>): string {
    if ps == [] then [] else PieceText(ps[0]) + Concat(ps[1..])
  }

  predicate CleanName(n: string) {
    n != [] && '{' !in n && '}' !in n
  }

  /** Literal text without `{`, placeholders with clean names. */
  predicate Braceless(ps: seq<Piece>) {
    forall i :: 0 <= i < |ps| ==> (ps[i].Lit? ==> '{' !in ps[i].text) && (ps[i].Hole? ==> CleanName(ps[i].name))
  }

  /** Fill the placeholders named `n` with `v`. */
  function FillName(ps: seq<Piece>, n: string, v: string): (r: seq<Piece>)
    ensures |r| == |ps|
  {
    seq(|ps|, i requires 0 <= i < |ps| => if ps[i] == Hole(n) then Lit(v) else ps[i])
  }

  /** A placeholder never starts where a different one does. */
  lemma PlaceholderMismatch(m: string, n: string, x: string)
    requires CleanName(m) && CleanName(n) && m != n
    requires StartsWith(x, Placeholder(m))
    ensures !StartsWith(x, Placeholder(n))
  {
    var P, Q := Placeholder(n), Placeholder(m);
    if |P| <= |x| {
      assert forall k :: 0 <= k < |Q| ==> x[k] == Q[k];
      var k: nat;
      if |m| == |n| {
        var j :| 0 <= j < |m| && m[j] != n[j];
        k := j + 2;
      } else if |m| < |n| {
        assert n[|m|] in n;
        k := 2 + |m|;
      } else {
        assert m[|n|] in m;
        k := 2 + |n|;
      }
      assert x[..|P|][k] != P[k];
    }
  }

  /** Replacing `{{n}}` skips over a different placeholder. */
  lemma ReplaceSkipsHole(m: string, n: string, rest: string, v: string)
    requires CleanName(m) && CleanName(n) && m != n
    ensures ReplaceAll(Placeholder(m) + rest, Placeholder(n), v) == Placeholder(m) + ReplaceAll(rest, Placeholder(n), v)
  {
    var P := Placeholder(n);
    var tail := (m + "}}") + rest;
    var x1 := "{" + tail;
    var x := "{" + x1;
    assert x == Placeholder(m) + rest;
    assert x[..|Placeholder(m)|] == Placeholder(m);
    PlaceholderMismatch(m, n, x);
    ReplaceAllMiss(x, P, v);
    assert x[1..] == x1;
    if |x1| >= |P| {
      assert x1[1] == m[0] && P[1] == '{';
      assert m[0] in m;
      assert x1[..|P|] != P;
    }
    ReplaceAllMiss(x1, P, v);
    assert x1[1..] == tail;
    assert '{' !in m + "}}";
    ReplaceAllSkip(m + "}}", rest, P, v);
    PlaceholderFront(m, ReplaceAll(rest, P, v));
  }

  /** The two braces in front of `m}}` and what follows. */
  lemma PlaceholderFront(m: string, t: string)
    ensures "{" + ("{" + ((m + "}}") + t)) == Placeholder(m) + t
  {
  }

  lemma {:induction false} ReplaceFills(ps: seq<Piece>, n: string, v: string)
    requires Braceless(ps) && CleanName(n)
    ensures ReplaceAll(Concat(ps), Placeholder(n), v) == Concat(FillName(ps, n, v))
  {
    var P := Placeholder(n);
    if ps == [] {
    } else {
      var rest := Concat(ps[1..]);
      assert Braceless(ps[1..]);
      ReplaceFills(ps[1..], n, v);
      assert FillName(ps, n, v)[1..] == FillName(ps[1..], n, v);
      match ps[0]
      case Lit(t) =>
        ReplaceAllSkip(t, rest, P, v);
      case Hole(m) =>
        if m == n {
          ReplaceAllFront(rest, P, v);
        } else {
          ReplaceSkipsHole(m, n, rest, v);
        }
    }
  }

  /** Fill the placeholders whose name is among `names`. */
  function FillAmong(ps: seq<Piece>, fill: string -> string, names: seq<string>): (r: seq<Piece>)
    ensures |r| == |ps|
  {
    seq(|ps|, i requires 0 <= i < |ps| =>
      if ps[i].Hole? && ps[i].name in names then Lit(fill(ps[i].name)) else ps[i])
  }

  lemma FillAmongStep(ps: seq<Piece>, fill: string -> string, done: seq<string>, n: string)
    requires Braceless(FillAmong(ps, fill, done))
    requires CleanName(n) && '{' !in fill(n)
    ensures FillName(FillAmong(ps, fill, done), n, fill(n)) == FillAmong(ps, fill, done + [n])
    ensures Braceless(FillAmong(ps, fill, done + [n]))
  {
    var q, q2 := FillAmong(ps, fill, done), FillAmong(ps, fill, done + [n]);
    forall i | 0 <= i < |ps|
      ensures FillName(q, n, fill(n))[i] == q2[i]
      ensures (q2[i].Lit? ==> '{' !in q2[i].text) && (q2[i].Hole? ==> CleanName(q2[i].name))
    {
      if ps[i].Hole? {
        var m := ps[i].name;
        assert m in done + [n] <==> m in done || m == n;
      }
    }
  }

  lemma {:induction false} SubstituteFills(ps: seq<Piece>, fill: string -> string, names: seq<string>, done: seq<string>)
    requires Braceless(FillAmong(ps, fill, done))
    requires forall n :: n in names ==> CleanName(n) && '{' !in fill(n)
    ensures Substitute(Concat(FillAmong(ps, fill, done)), fill, names) == Concat(FillAmong(ps, fill, done + names))
    decreases names
  {
    if names == [] {
      assert done + names == done;
    } else {
      var n := names[0];
      FillOne(ps, fill, done, n);
      SubstituteFills(ps, fill, names[1..], done + [n]);
      MoveFirst(done, names);
      SubstituteChain(Concat(FillAmong(ps, fill, done)), fill, names, Concat(FillAmong(ps, fill, done + [n])),
        Concat(FillAmong(ps, fill, done + names)));
    }
  }

  lemma MoveFirst(done: seq<string>, names: seq<string>)
    requires names != []
    ensures done + [names[0]] + names[1..] == done + names
  {
  }

  /** `Substitute` reaches `target` when its first replacement gives `t2`
      and the rest take `t2` to `target`. */
  lemma SubstituteChain(t: string, fill: string -> string, names: seq<string>, t2: string, target: string)
    requires names != [] && t2 == ReplaceAll(t, Placeholder(names[0]), fill(names[0]))
    requires Substitute(t2, fill, names[1..]) == target
    ensures Substitute(t, fill, names) == target
  {
    SubstituteStep(t, fill, names, t2);
  }

  /** Replacing the placeholder of one more name fills its holes. */
  lemma FillOne(ps: seq<Piece>, fill: string -> string, done: seq<string>, n: string)
    requires Braceless(FillAmong(ps, fill, done))
    requires CleanName(n) && '{' !in fill(n)
    ensures ReplaceAll(Concat(FillAmong(ps, fill, done)), Placeholder(n), fill(n)) == Concat(FillAmong(ps, fill, done + [n]))
    ensures Braceless(FillAmong(ps, fill, done + [n]))
  {
    ReplaceFills(FillAmong(ps, fill, done), n, fill(n));
    FillAmongStep(ps, fill, done, n);
  }

  /** One step of `Substitute`: the first name is replaced, then the
      rest. */
  lemma SubstituteStep(t: string, fill: string -> string, names: seq<string>, t2: string)
    requires names != [] && t2 == ReplaceAll(t, Placeholder(names[0]), fill(names[0]))
    ensures Substitute(t, fill, names) == Substitute(t2, fill, names[1..])
  {
  }

  /** The text a template renders to when every placeholder is filled at
      once. */
  function Filled(ps: seq<Piece>, fill: string -> string): string {
    if ps == [] then []
    else (if ps[0].Lit? then ps[0].text else fill(ps[0].name)) + Filled(ps[1..], fill)
  }

  lemma {:induction false} FilledAll(ps: seq<Piece>, fill: string -> string, names: seq<string>)
    requires forall i :: 0 <= i < |ps| ==> ps[i].Hole? ==> ps[i].name in names
    ensures Concat(FillAmong(ps, fill, names)) == Filled(ps, fill)
  {
    if ps != [] {
      FilledAll(ps[1..], fill, names);
      assert FillAmong(ps, fill, names)[1..] == FillAmong(ps[1..], fill, names);
    }
  }

  /** A template whose literal text has no `{` and whose placeholders
      are all in `names` is filled at once by the replacement chain. */
  lemma SubstituteIsFill(ps: seq<Piece>, fill: string -> string, names: seq<string>)
    requires forall i :: 0 <= i < |ps| ==> ps[i].Lit? ==> '{' !in ps[i].text
    requires forall i :: 0 <= i < |ps| ==> ps[i].Hole? ==> ps[i].name in names
    requires forall n :: n in names ==> CleanName(n)
    requires forall n :: '{' !in fill(n)
    ensures Substitute(Concat(ps), fill, names) == Filled(ps, fill)
  {
    assert FillAmong(ps, fill, []) == ps;
    SubstituteFills(ps, fill, names, []);
    assert [] + names == names;
    FilledAll(ps, fill, names);
  }

}
