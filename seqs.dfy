/** Filtering and mapping a sequence in one pass, as the loops of the
    generators do when they skip some inputs and emit a value for each of
    the others. */
module Seqs {
  /** `f` of every element that passes `keep`, in order. */
  function FilterMap<T, U>(s: seq<T>, keep: T -> bool, f: T -> U): (r: seq<U>)
    ensures |r| <= |s|
  {
    if s == [] then []
    else FilterMap(s[..|s| - 1], keep, f) + (if keep(s[|s| - 1]) then [f(s[|s| - 1])] else [])
  }

  /** The output of two runs is the two outputs one after the other. */
  lemma {:induction false} FilterMapAppend<T, U>(a: seq<T>, b: seq<T>, keep: T -> bool, f: T -> U)
    ensures FilterMap(a + b, keep, f) == FilterMap(a, keep, f) + FilterMap(b, keep, f)
    decreases |b|
  {
    if b == [] {
      assert a + b == a;
    } else {
      assert (a + b)[..|a + b| - 1] == a + b[..|b| - 1];
      FilterMapAppend(a, b[..|b| - 1], keep, f);
    }
  }

  /** Output `i` of two filter-maps with the same filter comes from the same
      input element. */
  lemma {:induction false} FilterMapSource<T, U, V>(s: seq<T>, keep: T -> bool, f: T -> U, g: T -> V, i: nat)
    requires i < |FilterMap(s, keep, f)|
    ensures |FilterMap(s, keep, g)| == |FilterMap(s, keep, f)|
    ensures exists j ::
      && 0 <= j < |s| && keep(s[j])
      && FilterMap(s, keep, f)[i] == f(s[j]) && FilterMap(s, keep, g)[i] == g(s[j])
  {
    FilterMapLength(s, keep, f, g);
    var init := s[..|s| - 1];
    FilterMapLength(init, keep, f, g);
    if i < |FilterMap(init, keep, f)| {
      FilterMapSource(init, keep, f, g, i);
      var j :| 0 <= j < |init| && keep(init[j])
        && FilterMap(init, keep, f)[i] == f(init[j]) && FilterMap(init, keep, g)[i] == g(init[j]);
      assert s[j] == init[j];
    } else {
      assert keep(s[|s| - 1]);
    }
  }

  /** The output's length depends on the filter alone. */
  lemma {:induction false} FilterMapLength<T, U, V>(s: seq<T>, keep: T -> bool, f: T -> U, g: T -> V)
    ensures |FilterMap(s, keep, g)| == |FilterMap(s, keep, f)|
  {
    if s != [] {
      FilterMapLength(s[..|s| - 1], keep, f, g);
    }
  }

  /** A value is output exactly when some kept element maps to it. */
  lemma {:induction false} FilterMapMembers<T, U>(s: seq<T>, keep: T -> bool, f: T -> U, y: U)
    ensures y in FilterMap(s, keep, f) <==> exists i :: 0 <= i < |s| && keep(s[i]) && y == f(s[i])
  {
    if s != [] {
      var init := s[..|s| - 1];
      FilterMapMembers(init, keep, f, y);
      if y in FilterMap(init, keep, f) {
        var i :| 0 <= i < |init| && keep(init[i]) && y == f(init[i]);
        assert s[i] == init[i];
      }
      if exists i :: 0 <= i < |s| && keep(s[i]) && y == f(s[i]) {
        var i :| 0 <= i < |s| && keep(s[i]) && y == f(s[i]);
        if i < |s| - 1 {
          assert init[i] == s[i];
        }
      }
    }
  }

  /** When every element is kept, the output is `f` of each, in order. */
  lemma {:induction false} FilterMapAll<T, U>(s: seq<T>, keep: T -> bool, f: T -> U)
    requires forall i :: 0 <= i < |s| ==> keep(s[i])
    ensures |FilterMap(s, keep, f)| == |s|
    ensures forall i :: 0 <= i < |s| ==> FilterMap(s, keep, f)[i] == f(s[i])
  {
    if s != [] {
      FilterMapAll(s[..|s| - 1], keep, f);
    }
  }

  /** A loop that skips the elements `keep` rejects and emits `f` and `g`
      of each of the others into two outputs. */
  method FilterMapLoop<T, U, V>(s: seq<T>, keep: T -> bool, f: T -> U, g: T -> V) returns (us: seq<U>, vs: seq<V>)
    ensures us == FilterMap(s, keep, f)
    ensures vs == FilterMap(s, keep, g)
  {
    us, vs := [], [];
    var i := 0;
    while i < |s|
      invariant 0 <= i <= |s|
      invariant us == FilterMap(s[..i], keep, f)
      invariant vs == FilterMap(s[..i], keep, g)
    {
      assert s[..i + 1][..i] == s[..i];
      if !keep(s[i]) {
        i := i + 1;
        continue;
      }
      us := us + [f(s[i])];
      vs := vs + [g(s[i])];
      i := i + 1;
    }
    assert s[..i] == s;
  }
}
