/** The stable in-place sort both generators and the sitemap builder run:
    `Array.prototype.sort` with a comparator that compares one string key
    with `localeCompare`, newest-first for blog posts (descending dates)
    and ascending for sitemap locations. `localeCompare` is read as
    code-point order (`Text.LexLe`). */
module Sorting {
  import opened Text

  /** `y` must come strictly before `x`: the comparator says `y < x`. */
  predicate Precedes<T>(key: T -> string, desc: bool, y: T, x: T) {
    if desc then !LexLe(key(y), key(x)) else !LexLe(key(x), key(y))
  }

  /** Non-decreasing in the comparator's order. */
  predicate Sorted<T>(s: seq<T>, key: T -> string, desc: bool) {
    forall i, j :: 0 <= i < j < |s| ==> !Precedes(key, desc, s[j], s[i])
  }

  /** The elements of `s` whose key is `k`, in their order in `s`. */
  function WithKey<T>(s: seq<T>, key: T -> string, k: string): (r: seq<T>)
    ensures |r| <= |s|
  {
    if s == [] then [] else (if key(s[0]) == k then [s[0]] else []) + WithKey(s[1..], key, k)
  }

  /** Insert `x` before the first element that does not strictly precede
      it, so that `x` stays ahead of the elements with an equal key. */
  function Insert<T>(x: T, t: seq<T>, key: T -> string, desc: bool): (r: seq<T>)
  {
    if t == [] then [x]
    else if Precedes(key, desc, t[0], x) then [t[0]] + Insert(x, t[1..], key, desc)
    else [x] + t
  }

  /** The result of the sort: insertion sort from the back. */
  function SortBy<T>(s: seq<T>, key: T -> string, desc: bool): (r: seq<T>)
  {
    if s == [] then [] else Insert(s[0], SortBy(s[1..], key, desc), key, desc)
  }

  // ---- order facts ----

  lemma {:induction false} LexLeReflexive(a: string)
    ensures LexLe(a, a)
  {
    if a != [] {
      LexLeReflexive(a[1..]);
    }
  }

  /** "May come before" is transitive. */
  lemma NotPrecedesTransitive<T>(key: T -> string, desc: bool, x: T, y: T, z: T)
    requires !Precedes(key, desc, y, x) && !Precedes(key, desc, z, y)
    ensures !Precedes(key, desc, z, x)
  {
    if desc {
      LexLeTransitive(key(z), key(y), key(x));
    } else {
      LexLeTransitive(key(x), key(y), key(z));
    }
  }

  /** Strict precedence is asymmetric, and needs different keys. */
  lemma PrecedesAsymmetric<T>(key: T -> string, desc: bool, x: T, y: T)
    requires Precedes(key, desc, y, x)
    ensures !Precedes(key, desc, x, y) && key(x) != key(y)
  {
    LexLeTotal(key(x), key(y));
    LexLeReflexive(key(x));
  }

  // ---- Insert ----

  lemma {:induction false} InsertPermutes<T>(x: T, t: seq<T>, key: T -> string, desc: bool)
    ensures multiset(Insert(x, t, key, desc)) == multiset(t) + multiset{x}
  {
    if t != [] && Precedes(key, desc, t[0], x) {
      InsertPermutes(x, t[1..], key, desc);
      assert t == [t[0]] + t[1..];
    }
  }

  lemma {:induction false} InsertSorted<T>(x: T, t: seq<T>, key: T -> string, desc: bool)
    requires Sorted(t, key, desc)
    ensures Sorted(Insert(x, t, key, desc), key, desc)
  {
    if t == [] {
    } else if Precedes(key, desc, t[0], x) {
      var rest := Insert(x, t[1..], key, desc);
      assert Sorted(t[1..], key, desc) by {
        forall i, j | 0 <= i < j < |t[1..]| ensures !Precedes(key, desc, t[1..][j], t[1..][i]) {
          assert t[1..][j] == t[j + 1] && t[1..][i] == t[i + 1];
        }
      }
      InsertSorted(x, t[1..], key, desc);
      InsertPermutes(x, t[1..], key, desc);
      HeadStaysFirst(x, t, rest, key, desc);
      ConsSorted(t[0], rest, key, desc);
    } else {
      var r := [x] + t;
      forall i, j | 0 <= i < j < |r| ensures !Precedes(key, desc, r[j], r[i]) {
        if i == 0 && j > 1 {
          NotPrecedesTransitive(key, desc, x, t[0], t[j - 1]);
        }
      }
    }
  }

  /** No element of the rest, after `x` went into it, precedes the head
      that `x` passed. */
  lemma HeadStaysFirst<T>(x: T, t: seq<T>, rest: seq<T>, key: T -> string, desc: bool)
    requires t != [] && Sorted(t, key, desc) && Precedes(key, desc, t[0], x)
    requires multiset(rest) == multiset(t[1..]) + multiset{x}
    ensures forall j :: 0 <= j < |rest| ==> !Precedes(key, desc, rest[j], t[0])
  {
    PrecedesAsymmetric(key, desc, x, t[0]);
    forall j | 0 <= j < |rest| ensures !Precedes(key, desc, rest[j], t[0]) {
      assert rest[j] in multiset(rest);
      if rest[j] != x {
        assert rest[j] in multiset(t[1..]);
        var m :| 0 <= m < |t[1..]| && t[1..][m] == rest[j];
        assert t[m + 1] == rest[j];
      }
    }
  }

  /** A sorted sequence behind an element none of it precedes is sorted. */
  lemma ConsSorted<T>(y: T, rest: seq<T>, key: T -> string, desc: bool)
    requires Sorted(rest, key, desc)
    requires forall j :: 0 <= j < |rest| ==> !Precedes(key, desc, rest[j], y)
    ensures Sorted([y] + rest, key, desc)
  {
    var r := [y] + rest;
    forall i, j | 0 <= i < j < |r| ensures !Precedes(key, desc, r[j], r[i]) {
      if i > 0 {
        assert r[i] == rest[i - 1] && r[j] == rest[j - 1];
      } else {
        assert r[j] == rest[j - 1];
      }
    }
  }

  lemma WithKeyCons<T>(y: T, s: seq<T>, key: T -> string, k: string)
    ensures WithKey([y] + s, key, k) == (if key(y) == k then [y] else []) + WithKey(s, key, k)
  {
    assert ([y] + s)[1..] == s;
  }

  /** Inserting `x` adds it to the front of its own key class and leaves
      every other key class as it was. */
  lemma {:induction false} InsertWithKey<T>(x: T, t: seq<T>, key: T -> string, desc: bool, k: string)
    ensures WithKey(Insert(x, t, key, desc), key, k)
         == (if key(x) == k then [x] else []) + WithKey(t, key, k)
  {
    var ax := if key(x) == k then [x] else [];
    if t == [] {
    } else if Precedes(key, desc, t[0], x) {
      PrecedesAsymmetric(key, desc, x, t[0]);
      var r := Insert(x, t[1..], key, desc);
      InsertWithKey(x, t[1..], key, desc, k);
      var a0 := if key(t[0]) == k then [t[0]] else [];
      WithKeyCons(t[0], r, key, k);
      assert t == [t[0]] + t[1..];
      WithKeyCons(t[0], t[1..], key, k);
      assert a0 == [] || ax == [];
      assert a0 + (ax + WithKey(t[1..], key, k)) == ax + (a0 + WithKey(t[1..], key, k));
    } else {
      WithKeyCons(x, t, key, k);
    }
  }

  /** `Insert(x, t)` puts `x` at the first position `d` whose element does
      not strictly precede it. */
  lemma {:induction false} InsertAt<T>(x: T, t: seq<T>, key: T -> string, desc: bool, d: nat)
    requires d <= |t|
    requires forall m :: 0 <= m < d ==> Precedes(key, desc, t[m], x)
    requires d == |t| || !Precedes(key, desc, t[d], x)
    ensures Insert(x, t, key, desc) == t[..d] + [x] + t[d..]
  {
    if d > 0 {
      InsertAt(x, t[1..], key, desc, d - 1);
      assert t[..d] == [t[0]] + t[1..][..d - 1];
      assert t[d..] == t[1..][d - 1..];
    }
  }

  // ---- the sort ----

  /** The sort's result is ordered, is a permutation of its input, and
      keeps the relative order of the elements with equal keys. */
  lemma {:induction false} SortByCorrect<T>(s: seq<T>, key: T -> string, desc: bool)
    ensures Sorted(SortBy(s, key, desc), key, desc)
    ensures multiset(SortBy(s, key, desc)) == multiset(s)
    ensures forall k :: WithKey(SortBy(s, key, desc), key, k) == WithKey(s, key, k)
  {
    if s != [] {
      var t := SortBy(s[1..], key, desc);
      SortByCorrect(s[1..], key, desc);
      InsertSorted(s[0], t, key, desc);
      InsertPermutes(s[0], t, key, desc);
      assert s == [s[0]] + s[1..];
      forall k ensures WithKey(SortBy(s, key, desc), key, k) == WithKey(s, key, k) {
        InsertWithKey(s[0], t, key, desc, k);
      }
    }
  }

  /** One step of the in-place sort: `a[lo]` is moved right past the
      elements of the already sorted `a[lo + 1..]` that must precede it. */
  method InsertStep<T>(a: array<T>, lo: nat, key: T -> string, desc: bool)
    requires lo < a.Length
    modifies a
    ensures a[..lo] == old(a[..lo])
    ensures a[lo..] == Insert(old(a[lo]), old(a[lo + 1..]), key, desc)
  {
    ghost var t := a[lo + 1..];
    var x := a[lo];
    var j := lo;
    while j + 1 < a.Length && Precedes(key, desc, a[j + 1], x)
      invariant lo <= j < a.Length
      invariant a[..lo] == old(a[..lo])
      invariant forall m :: 0 <= m < j - lo ==> a[lo + m] == t[m]
      invariant forall m :: j + 1 <= m < a.Length ==> a[m] == t[m - lo - 1]
      invariant forall m :: 0 <= m < j - lo ==> Precedes(key, desc, t[m], x)
    {
      a[j] := a[j + 1];
      j := j + 1;
    }
    a[j] := x;
    InsertAt(x, t, key, desc, j - lo);
    ghost var b := a[lo..];
    assert forall m :: 0 <= m < j - lo ==> b[m] == t[m];
    assert forall m :: j - lo < m < |b| ==> b[m] == t[m - 1];
    Spliced(b, t, x, j - lo);
  }

  /** A sequence that agrees with `t` before `d`, holds `x` at `d` and
      agrees with `t` shifted by one after it is `t` with `x` put in at
      `d`. */
  lemma Spliced<T>(b: seq<T>, t: seq<T>, x: T, d: nat)
    requires d <= |t| && |b| == |t| + 1
    requires forall m :: 0 <= m < d ==> b[m] == t[m]
    requires b[d] == x
    requires forall m :: d < m < |b| ==> b[m] == t[m - 1]
    ensures b == t[..d] + [x] + t[d..]
  {
    var u := t[..d] + [x] + t[d..];
    forall m | 0 <= m < |b| ensures b[m] == u[m] {
      if m < d {
        assert u[m] == t[m];
      } else if m > d {
        assert u[m] == t[m - 1];
      }
    }
  }

  /** The sort in place: `a` ends up holding `SortBy` of what it held. */
  method SortInPlace<T>(a: array<T>, key: T -> string, desc: bool)
    modifies a
    ensures a[..] == SortBy(old(a[..]), key, desc)
  {
    ghost var orig := a[..];
    var i := a.Length;
    while i > 0
      invariant 0 <= i <= a.Length
      invariant a[..i] == orig[..i]
      invariant a[i..] == SortBy(orig[i..], key, desc)
    {
      InsertStep(a, i - 1, key, desc);
      assert orig[i - 1..][1..] == orig[i..];
      assert orig[i - 1] == orig[..i][i - 1];
      i := i - 1;
      assert a[..i] == orig[..i + 1][..i];
    }
    assert orig[0..] == orig;
  }
}
