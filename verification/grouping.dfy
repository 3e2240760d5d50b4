/** How src/get_paper_categories.py splits the papers into prompts: the group
    count `len(df) // B + 1` and `np.array_split`, which cuts a column of `n`
    entries into `k` consecutive pieces, the first `n % k` of them one entry
    longer than the rest. */
module Grouping {

  import opened Seqs

  /** `len(df) // B + 1`: the least group count `k` with `n < k * B`. */
  function NumSplits(n: nat, B: nat): (k: nat)
    requires B >= 1
    ensures k >= 1 && (k - 1) * B <= n < k * B
  {
    var k := n / B + 1;
    assert k * B == (n / B) * B + B;
    k
  }

  /** Where piece `j` of `n` entries cut into `k` pieces starts: each piece
      holds `n // k` entries, plus one for the first `n % k` pieces. */
  function Start(n: nat, k: nat, j: nat): nat
    requires k >= 1
    decreases j
  {
    if j == 0 then 0 else Start(n, k, j - 1) + Size(n, k, j - 1)
  }

  /** How many of `n` entries piece `j` of `k` receives. */
  function Size(n: nat, k: nat, j: nat): nat
    requires k >= 1
  {
    n / k + (if j < n % k then 1 else 0)
  }

  lemma MulLeq(a: nat, b: nat, q: nat)
    requires a <= b
    ensures a * q <= b * q
  {
  }

  /** Numpy's division points: `Start(n, k, j) == j * (n // k) + min(j, n % k)`. */
  lemma {:induction false} StartClosed(n: nat, k: nat, j: nat)
    requires k >= 1
    ensures Start(n, k, j) == j * (n / k) + (if j < n % k then j else n % k)
    decreases j
  {
    if j > 0 {
      StartClosed(n, k, j - 1);
      assert j * (n / k) == (j - 1) * (n / k) + n / k;
    }
  }

  /** The last division point is the end of the column. */
  lemma StartEnd(n: nat, k: nat)
    requires k >= 1
    ensures Start(n, k, k) == n
  {
    StartClosed(n, k, k);
  }

  lemma {:induction false} StartMonotone(n: nat, k: nat, i: nat, j: nat)
    requires k >= 1 && i <= j
    ensures Start(n, k, i) <= Start(n, k, j)
    decreases j - i
  {
    if i < j {
      StartMonotone(n, k, i, j - 1);
    }
  }

  /** Division points stay within the column. */
  lemma StartBound(n: nat, k: nat, j: nat)
    requires k >= 1 && j <= k
    ensures Start(n, k, j) <= n
  {
    StartMonotone(n, k, j, k);
    StartEnd(n, k);
  }

  /** Piece `j` of `np.array_split(xs, k)`. */
  function Piece<T>(xs: seq<T>, k: nat, j: nat): (p: seq<T>)
    requires k >= 1 && j < k
    ensures |p| == |xs| / k + (if j < |xs| % k then 1 else 0)
  {
    StartBound(|xs|, k, j + 1);
    xs[Start(|xs|, k, j)..Start(|xs|, k, j + 1)]
  }

  /** `np.array_split(xs, k)`. */
  function ArraySplit<T>(xs: seq<T>, k: nat): (groups: seq<seq<T>>)
    requires k >= 1
    ensures |groups| == k
    ensures forall j :: 0 <= j < k ==> |groups[j]| == |xs| / k + (if j < |xs| % k then 1 else 0)
  {
    seq(k, j requires 0 <= j < k => Piece(xs, k, j))
  }

  /** Piece `j` is the slice between division points `j` and `j + 1`. */
  lemma GroupSlice<T>(xs: seq<T>, k: nat, j: nat)
    requires k >= 1 && j < k
    ensures Start(|xs|, k, j) <= Start(|xs|, k, j + 1) <= |xs|
    ensures ArraySplit(xs, k)[j] == xs[Start(|xs|, k, j)..Start(|xs|, k, j + 1)]
  {
    StartBound(|xs|, k, j + 1);
  }

  lemma {:induction false} FlattenFrom<T>(xs: seq<T>, k: nat, j: nat)
    requires k >= 1 && j <= k
    ensures Start(|xs|, k, j) <= |xs|
    ensures Flatten(ArraySplit(xs, k)[j..]) == xs[Start(|xs|, k, j)..]
    decreases k - j
  {
    var g := ArraySplit(xs, k);
    if j == k {
      StartEnd(|xs|, k);
    } else {
      GroupSlice(xs, k, j);
      FlattenFrom(xs, k, j + 1);
      assert g[j..][1..] == g[j + 1..];
      assert Flatten(g[j..]) == g[j] + Flatten(g[j + 1..]);
      var a, b := Start(|xs|, k, j), Start(|xs|, k, j + 1);
      assert xs[a..] == xs[a..b] + xs[b..];
    }
  }

  /** Concatenating the pieces gives back the column. */
  lemma FlattenSplit<T>(xs: seq<T>, k: nat)
    requires k >= 1
    ensures Flatten(ArraySplit(xs, k)) == xs
  {
    FlattenFrom(xs, k, 0);
    assert ArraySplit(xs, k)[0..] == ArraySplit(xs, k);
  }

  /** Piece sizes differ by at most one, and larger pieces come first. */
  lemma SizesBalanced<T>(xs: seq<T>, k: nat)
    requires k >= 1
    ensures var g := ArraySplit(xs, k);
      forall i, j :: 0 <= i < j < k ==> |g[j]| <= |g[i]| <= |g[j]| + 1
  {
  }

  /** `a * q < a * b` with a positive `a` means `q < b`. */
  lemma CancelFactor(a: nat, q: nat, b: nat)
    requires a >= 1 && a * q < a * b
    ensures q < b
  {
    if q >= b {
      MulLeq(b, q, a);
    }
  }

  /** With `k = n // B + 1` pieces, no piece holds more than `B` entries. */
  lemma GroupsFit<T>(xs: seq<T>, B: nat)
    requires B >= 1
    ensures forall j :: 0 <= j < NumSplits(|xs|, B) ==> |ArraySplit(xs, NumSplits(|xs|, B))[j]| <= B
  {
    var n, k := |xs|, NumSplits(|xs|, B);
    var q := n / k;
    assert k * q <= n < k * B;
    CancelFactor(k, q, B);
  }

  /** `n // k` is 0 exactly when there are fewer entries than pieces. */
  lemma DivZero(n: nat, k: nat)
    requires k >= 1
    ensures n / k == 0 <==> n < k
  {
    var q := n / k;
    if q >= 1 {
      MulLeq(1, q, k);
    }
  }

  /** Dividing by at least 2 shrinks a positive count. */
  lemma DivShrinks(n: nat, B: nat)
    requires B >= 2 && n >= 1
    ensures n / B < n
  {
    var d := n / B;
    MulLeq(2, B, d);
  }

  /** The last piece is the smallest, and it is empty exactly when the batch
      size is 1 or there are no entries: `n // B + 1` pieces then outnumber
      the entries. */
  lemma LastGroupEmpty<T>(xs: seq<T>, B: nat)
    requires B >= 1
    ensures var k := NumSplits(|xs|, B);
      && (forall j :: 0 <= j < k ==> |ArraySplit(xs, k)[k - 1]| <= |ArraySplit(xs, k)[j]|)
      && (|ArraySplit(xs, k)[k - 1]| == 0 <==> B == 1 || |xs| == 0)
  {
    var n, k := |xs|, NumSplits(|xs|, B);
    DivZero(n, k);
    if B >= 2 && n >= 1 {
      DivShrinks(n, B);
    }
  }

  /** Splitting two columns of equal length row-aligns their pieces: piece `j`
      of the paired column pairs piece `j` of each. */
  lemma SplitAligned<A, B>(xs: seq<A>, ys: seq<B>, k: nat)
    requires k >= 1 && |xs| == |ys|
    ensures forall j :: 0 <= j < k ==>
      |ArraySplit(xs, k)[j]| == |ArraySplit(ys, k)[j]| &&
      ArraySplit(Zip(xs, ys), k)[j] == Zip(ArraySplit(xs, k)[j], ArraySplit(ys, k)[j])
  {
    forall j | 0 <= j < k
      ensures ArraySplit(Zip(xs, ys), k)[j] == Zip(ArraySplit(xs, k)[j], ArraySplit(ys, k)[j])
    {
      GroupSlice(xs, k, j);
      GroupSlice(ys, k, j);
      GroupSlice(Zip(xs, ys), k, j);
    }
  }
}
