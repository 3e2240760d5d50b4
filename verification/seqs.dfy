/** Sequence operations behind the DataFrame and NumPy calls of the scripts:
    boolean-mask selection, concatenation of groups, zipping two columns and
    reordering rows. */
module Seqs {

  /** The rows of `xs` for which `keep` holds, in their original order. */
  function Filter<T>(xs: seq<T>, keep: T -> bool): (r: seq<T>)
    ensures |r| <= |xs|
    ensures forall x :: x in r ==> x in xs && keep(x)
    decreases |xs|
  {
    if xs == [] then []
    else (if keep(xs[0]) then [xs[0]] else []) + Filter(xs[1..], keep)
  }

  /** `r` is `xs` with some elements left out and the rest in their order. */
  ghost predicate Subsequence<T>(r: seq<T>, xs: seq<T>)
    decreases |xs|
  {
    if xs == [] then r == []
    else (r != [] && r[0] == xs[0] && Subsequence(r[1..], xs[1..])) || Subsequence(r, xs[1..])
  }

  lemma {:induction false} FilterOrdered<T>(xs: seq<T>, keep: T -> bool)
    ensures Subsequence(Filter(xs, keep), xs)
    decreases |xs|
  {
    if xs != [] {
      FilterOrdered(xs[1..], keep);
      if keep(xs[0]) {
        assert Filter(xs, keep)[1..] == Filter(xs[1..], keep);
      } else {
        assert Filter(xs, keep) == Filter(xs[1..], keep);
      }
    }
  }

  lemma {:induction false} FilterCounts<T>(xs: seq<T>, keep: T -> bool)
    ensures forall x :: multiset(Filter(xs, keep))[x] == if keep(x) then multiset(xs)[x] else 0
    decreases |xs|
  {
    if xs != [] {
      FilterCounts(xs[1..], keep);
      var rest := Filter(xs[1..], keep);
      assert xs == [xs[0]] + xs[1..];
      assert multiset(xs) == multiset{xs[0]} + multiset(xs[1..]);
      if keep(xs[0]) {
        assert multiset(Filter(xs, keep)) == multiset{xs[0]} + multiset(rest);
      } else {
        assert Filter(xs, keep) == rest;
      }
    }
  }

  /** A filter keeps the order of the rows, leaves each row unchanged, keeps
      every row the mask selects (with its multiplicity) and no other row. */
  lemma FilterSelects<T>(xs: seq<T>, keep: T -> bool)
    ensures Subsequence(Filter(xs, keep), xs)
    ensures forall x :: multiset(Filter(xs, keep))[x] == if keep(x) then multiset(xs)[x] else 0
  {
    FilterOrdered(xs, keep);
    FilterCounts(xs, keep);
  }

  /** Concatenation of a sequence of groups. */
  function Flatten<T>(xss: seq<seq<T>>): seq<T>
    decreases |xss|
  {
    if xss == [] then [] else xss[0] + Flatten(xss[1..])
  }

  lemma {:induction false} FlattenAppend<T>(xss: seq<seq<T>>, xs: seq<T>)
    ensures Flatten(xss + [xs]) == Flatten(xss) + xs
    decreases |xss|
  {
    if xss != [] {
      assert (xss + [xs])[1..] == xss[1..] + [xs];
      FlattenAppend(xss[1..], xs);
    }
  }

  /** Pairs the elements of two columns of equal length, row by row. */
  function Zip<A, B>(xs: seq<A>, ys: seq<B>): (r: seq<(A, B)>)
    requires |xs| == |ys|
    ensures |r| == |xs| && forall i :: 0 <= i < |r| ==> r[i] == (xs[i], ys[i])
  {
    seq(|xs|, i requires 0 <= i < |xs| => (xs[i], ys[i]))
  }

  /** Some position of `perm` holds `v`. */
  ghost predicate Lists(perm: seq<nat>, v: nat)
  {
    exists i :: 0 <= i < |perm| && perm[i] == v
  }

  /** `perm` lists every index below `n` exactly once. */
  ghost predicate IsPermutation(perm: seq<nat>, n: nat)
  {
    && |perm| == n
    && (forall i :: 0 <= i < n ==> perm[i] < n)
    && (forall i, j :: 0 <= i < j < n ==> perm[i] != perm[j])
    && (forall v :: 0 <= v < n ==> Lists(perm, v))
  }

  /** The rows of `xs` in the order `perm` gives. */
  function Permute<T>(xs: seq<T>, perm: seq<nat>): (r: seq<T>)
    requires forall i :: 0 <= i < |perm| ==> perm[i] < |xs|
    ensures |r| == |perm| && forall i :: 0 <= i < |perm| ==> r[i] == xs[perm[i]]
  {
    seq(|perm|, i requires 0 <= i < |perm| => xs[perm[i]])
  }

  /** Removing the position that holds the largest index leaves a
      permutation of the smaller indices. */
  lemma DropLargest(perm: seq<nat>, n: nat, p: nat)
    requires n > 0 && IsPermutation(perm, n) && p < n && perm[p] == n - 1
    ensures IsPermutation(perm[..p] + perm[p + 1..], n - 1)
  {
    var perm' := perm[..p] + perm[p + 1..];
    OthersBelow(perm, n, p);
    forall i | 0 <= i < n - 1
      ensures perm'[i] < n - 1
    {
      if i >= p { assert perm'[i] == perm[i + 1]; }
    }
    forall i, j | 0 <= i < j < n - 1
      ensures perm'[i] != perm'[j]
    {
      var a, b := if i < p then i else i + 1, if j < p then j else j + 1;
      assert perm'[i] == perm[a] && perm'[j] == perm[b] && a < b;
    }
    forall v | 0 <= v < n - 1
      ensures Lists(perm', v)
    {
      assert Lists(perm, v);
      var i :| 0 <= i < n && perm[i] == v;
      if i < p {
        assert perm'[i] == v;
      } else {
        assert perm'[i - 1] == v;
      }
    }
  }

  /** Reordering without the last row is reordering with its position cut out. */
  lemma PermuteWithoutLast<T>(xs: seq<T>, perm: seq<nat>, p: nat)
    requires |xs| > 0 && p < |perm|
    requires forall i :: 0 <= i < |perm| ==> perm[i] < |xs|
    requires forall i :: 0 <= i < |perm| && i != p ==> perm[i] < |xs| - 1
    ensures Permute(xs[..|xs| - 1], perm[..p] + perm[p + 1..]) == Permute(xs, perm)[..p] + Permute(xs, perm)[p + 1..]
  {
    var perm' := perm[..p] + perm[p + 1..];
    var r := Permute(xs, perm);
    var r' := Permute(xs[..|xs| - 1], perm');
    forall i | 0 <= i < |perm| - 1
      ensures r'[i] == (r[..p] + r[p + 1..])[i]
    {
      if i < p {
        assert perm'[i] == perm[i];
      } else {
        assert perm'[i] == perm[i + 1];
      }
    }
  }

  /** Cutting out one position removes one occurrence of its element. */
  lemma MultisetRemoveAt<T>(r: seq<T>, p: nat)
    requires p < |r|
    ensures multiset(r) == multiset(r[..p] + r[p + 1..]) + multiset{r[p]}
  {
    assert r == r[..p] + [r[p]] + r[p + 1..];
  }

  /** Every position but the one holding the largest index holds a smaller one. */
  lemma OthersBelow(perm: seq<nat>, n: nat, p: nat)
    requires n > 0 && IsPermutation(perm, n) && p < n && perm[p] == n - 1
    ensures forall i :: 0 <= i < n && i != p ==> perm[i] < n - 1
  {
    forall i | 0 <= i < n && i != p
      ensures perm[i] < n - 1
    {
      if i < p { assert perm[i] != perm[p]; } else { assert perm[p] != perm[i]; }
    }
  }

  /** The position of the largest index in a permutation. */
  lemma FindLargest(perm: seq<nat>, n: nat) returns (p: nat)
    requires n > 0 && IsPermutation(perm, n)
    ensures p < n && perm[p] == n - 1
  {
    assert Lists(perm, n - 1);
    p :| 0 <= p < |perm| && perm[p] == n - 1;
  }

  /** Reordering, counted: the reordered rows are those reordered without
      the last row, plus the last row. */
  lemma RemoveLargest<T>(xs: seq<T>, perm: seq<nat>, p: nat)
    requires |xs| > 0 && IsPermutation(perm, |xs|) && p < |xs| && perm[p] == |xs| - 1
    ensures multiset(Permute(xs, perm)) == multiset(Permute(xs[..|xs| - 1], perm[..p] + perm[p + 1..])) + multiset{xs[|xs| - 1]}
  {
    var r := Permute(xs, perm);
    OthersBelow(perm, |xs|, p);
    PermuteWithoutLast(xs, perm, p);
    MultisetRemoveAt(r, p);
  }

  /** Reordering by a permutation adds and drops nothing. */
  lemma {:induction false} PermuteKeepsRows<T>(xs: seq<T>, perm: seq<nat>)
    requires IsPermutation(perm, |xs|)
    ensures multiset(Permute(xs, perm)) == multiset(xs)
    decreases |xs|
  {
    var n := |xs|;
    if n > 0 {
      var p := FindLargest(perm, n);
      DropLargest(perm, n, p);
      PermuteKeepsRows(xs[..n - 1], perm[..p] + perm[p + 1..]);
      RemoveLargest(xs, perm, p);
      assert xs == xs[..n - 1] + [xs[n - 1]];
    }
  }
}
