/** Order-preserving filtering, the shape of every LINQ `Where` in the core. */
module Seqs {

  /** The elements of `s` that satisfy `keep`, in the order of `s`. */
  function Filter<T(==, !new)>(s: seq<T>, keep: T -> bool): (r: seq<T>)
    ensures |r| <= |s|
    ensures forall x :: x in r <==> x in s && keep(x)
  {
    if s == [] then []
    else
      var n := |s| - 1;
      assert s == s[..n] + [s[n]];
      Filter(s[..n], keep) + (if keep(s[n]) then [s[n]] else [])
  }

  /** Filtering a one-element sequence keeps it or empties it. */
  lemma FilterSingleton<T(!new)>(x: T, keep: T -> bool)
    ensures Filter([x], keep) == if keep(x) then [x] else []
  {
    assert [x][..0] == [];
  }

  /** Two kept positions of `s` are two positions of the filtered sequence, in
      the same order. */
  lemma FilterKeepsTwo<T(!new)>(s: seq<T>, keep: T -> bool, i: nat, j: nat)
    requires i < j < |s| && keep(s[i]) && keep(s[j])
    ensures exists p, q :: 0 <= p < q < |Filter(s, keep)| && Filter(s, keep)[p] == s[i] && Filter(s, keep)[q] == s[j]
  {
    var front, back := s[..j], s[j..];
    assert s == front + back;
    assert back == [s[j]] + s[j + 1..];
    FilterConcat(front, back, keep);
    FilterConcat([s[j]], s[j + 1..], keep);
    FilterSingleton(s[j], keep);
    var before := Filter(front, keep);
    var after := Filter(back, keep);
    assert after[0] == s[j];
    assert s[i] == front[i];
    assert s[i] in before;
    var p :| 0 <= p < |before| && before[p] == s[i];
    var r := Filter(s, keep);
    assert r == before + after;
    assert r[p] == s[i];
    assert r[|before|] == s[j];
  }

  /** `xs` is `ys` with some elements left out, the others in their order. */
  predicate IsSubsequence<T(==, !new)>(xs: seq<T>, ys: seq<T>)
    decreases |ys|
  {
    if xs == [] then true
    else if ys == [] then false
    else if xs[|xs| - 1] == ys[|ys| - 1] then IsSubsequence(xs[..|xs| - 1], ys[..|ys| - 1])
    else IsSubsequence(xs, ys[..|ys| - 1])
  }

  /** Filtering keeps the relative order of the elements it keeps. */
  lemma {:induction false} FilterIsSubsequence<T(!new)>(s: seq<T>, keep: T -> bool)
    ensures IsSubsequence(Filter(s, keep), s)
  {
    if s != [] {
      var n := |s| - 1;
      var prefix := Filter(s[..n], keep);
      FilterIsSubsequence(s[..n], keep);
      if keep(s[n]) {
        assert (prefix + [s[n]])[..|prefix|] == prefix;
      } else if prefix != [] {
        assert Filter(s, keep) == prefix;
        assert keep(prefix[|prefix| - 1]);
        assert prefix[|prefix| - 1] != s[|s| - 1];
      }
    }
  }

  /** Filtering a concatenation filters each part. */
  lemma {:induction false} FilterConcat<T(!new)>(a: seq<T>, b: seq<T>, keep: T -> bool)
    ensures Filter(a + b, keep) == Filter(a, keep) + Filter(b, keep)
    decreases |b|
  {
    if b == [] {
      assert a + b == a;
    } else {
      var n := |b| - 1;
      assert (a + b)[..|a + b| - 1] == a + b[..n];
      FilterConcat(a, b[..n], keep);
    }
  }
}
