/** The category clean-up shared by src/get_info_from_abstract.py and
    src/get_paper_categories.py: delete '-' and ' ', optionally lowercase, drop
    one trailing 's' unless the label ends in "ss"; then count the distinct
    labels as `np.unique(..., return_counts=True)` does, in sorted order. */
module Categories {

  import opened Values
  import opened Text
  import opened Batch

  /** The label with every '-' and then every ' ' deleted, lowercased when asked. */
  function Squeeze(cat: string, lower: bool): string
  {
    var d := Replace(Replace(cat, "-", ""), " ", "");
    if lower then Lower(d) else d
  }

  /** One trailing 's' goes unless the text ends in "ss". */
  predicate DropsS(c: string)
  {
    EndsWith(c, "s") && !EndsWith(c, "ss")
  }

  /** The canonical form of a category label. */
  function Normalize(cat: string, lower: bool): string
  {
    var c := Squeeze(cat, lower);
    if DropsS(c) then c[..|c| - 1] else c
  }

  /** A character `Lower` produces is either kept from the text or a lowercase letter. */
  lemma LowerChars(s: string, c: char)
    requires c in Lower(s) && !('a' <= c <= 'z')
    ensures c in s
  {
    var i :| 0 <= i < |s| && Lower(s)[i] == c;
    assert !IsUpper(s[i]);
  }

  /** Deleting a character that does not occur changes nothing. */
  lemma DeleteAbsent(s: string, d: char)
    requires d !in s
    ensures Replace(s, [d], "") == s
  {
    forall i: nat | i + 1 <= |s|
      ensures !OccursAt(s, [d], i)
    {
      assert s[i..i + 1] == [s[i]];
    }
    CountZeroIffAbsent(s, [d]);
    ReplaceAbsent(s, [d], "");
  }

  /** A squeezed label holds no '-' and no ' ', and no capital when lowered. */
  lemma SqueezeShape(cat: string, lower: bool)
    ensures '-' !in Squeeze(cat, lower) && ' ' !in Squeeze(cat, lower)
    ensures lower ==> forall i :: 0 <= i < |Squeeze(cat, lower)| ==> !IsUpper(Squeeze(cat, lower)[i])
  {
    var d1 := Replace(cat, "-", "");
    var d := Replace(d1, " ", "");
    DeleteRemoves(cat, '-');
    DeleteRemoves(d1, ' ');
    if '-' in d {
      ReplaceChars(d1, " ", "", '-');
    }
    if lower {
      if '-' in Lower(d) { LowerChars(d, '-'); }
      if ' ' in Lower(d) { LowerChars(d, ' '); }
    }
  }

  /** What normalising does: the result holds no '-', no ' ' and (when
      lowering) no capital, and it is the squeezed label with exactly one
      character, a final 's', removed when that label ends in 's' but not in
      "ss", and the squeezed label itself otherwise. */
  lemma NormalizeShape(cat: string, lower: bool)
    ensures var r, c := Normalize(cat, lower), Squeeze(cat, lower);
      && '-' !in r && ' ' !in r
      && (lower ==> forall i :: 0 <= i < |r| ==> !IsUpper(r[i]))
      && (DropsS(c) ==> |r| == |c| - 1 && r + "s" == c)
      && (!DropsS(c) ==> r == c)
  {
    SqueezeShape(cat, lower);
    var c := Squeeze(cat, lower);
    if DropsS(c) {
      assert c == c[..|c| - 1] + "s";
    }
  }

  /** A label that is already squeezed is left as it is. */
  lemma SqueezeSqueezed(c: string, lower: bool)
    requires '-' !in c && ' ' !in c
    requires lower ==> forall i :: 0 <= i < |c| ==> !IsUpper(c[i])
    ensures Squeeze(c, lower) == c
  {
    DeleteAbsent(c, '-');
    DeleteAbsent(c, ' ');
    if lower {
      assert Lower(c) == c;
    }
  }

  /** After one trailing 's' goes, another cannot: the text ended in "s" but not in "ss". */
  lemma DropsOnce(c: string)
    requires DropsS(c)
    ensures !DropsS(c[..|c| - 1])
  {
    var r := c[..|c| - 1];
    if |c| >= 2 {
      assert r[|r| - 1..] == [c[|c| - 2]];
      assert c[|c| - 2..] == [c[|c| - 2], c[|c| - 1]];
    }
  }

  /** A squeezed label that keeps its final letter is its own canonical form. */
  lemma NormalizeFixed(r: string, lower: bool)
    requires Squeeze(r, lower) == r && !DropsS(r)
    ensures Normalize(r, lower) == r
  {
  }

  /** Normalising twice is normalising once. */
  lemma NormalizeIdempotent(cat: string, lower: bool)
    ensures Normalize(Normalize(cat, lower), lower) == Normalize(cat, lower)
  {
    var c := Squeeze(cat, lower);
    var r := Normalize(cat, lower);
    NormalizeShape(cat, lower);
    SqueezeSqueezed(r, lower);
    if DropsS(c) {
      DropsOnce(c);
      assert r == c[..|c| - 1];
    }
    NormalizeFixed(r, lower);
  }

  /** Every label of a column, normalised. */
  function NormalizeAll(cats: seq<Value>, lower: bool): (r: seq<string>)
    requires forall i :: 0 <= i < |cats| ==> cats[i].Str?
    ensures |r| == |cats| && forall i :: 0 <= i < |cats| ==> r[i] == Normalize(cats[i].s, lower)
  {
    seq(|cats|, i requires 0 <= i < |cats| => Normalize(cats[i].s, lower))
  }

  /** The category clean-up loop: every category must be a string (a
      non-string raises AttributeError and stops the script), and each is
      replaced by its canonical form, in order. */
  method CleanCategories(cats: seq<Value>, lower: bool) returns (out: Outcome<seq<string>>)
    ensures out.Done? <==> forall i :: 0 <= i < |cats| ==> cats[i].Str?
    ensures out.Done? ==> out.value == NormalizeAll(cats, lower)
    ensures out.Failed? ==> out.reason == BadReply
  {
    var clean: seq<string> := [];
    for i := 0 to |cats|
      invariant |clean| == i
      invariant forall k :: 0 <= k < i ==> cats[k].Str? && clean[k] == Normalize(cats[k].s, lower)
    {
      if !cats[i].Str? {
        return Failed(BadReply);
      }
      var cat := Squeeze(cats[i].s, lower);
      if EndsWith(cat, "s") && !EndsWith(cat, "ss") {
        cat := cat[..|cat| - 1];
      }
      clean := clean + [cat];
    }
    return Done(clean);
  }

  /** Strict code-point order on strings, the order NumPy sorts them in. */
  predicate Below(a: string, b: string)
    decreases |a|
  {
    |b| > 0 && (|a| == 0 || a[0] < b[0] || (a[0] == b[0] && Below(a[1..], b[1..])))
  }

  lemma {:induction false} BelowIrreflexive(a: string)
    ensures !Below(a, a)
    decreases |a|
  {
    if |a| > 0 {
      BelowIrreflexive(a[1..]);
    }
  }

  lemma {:induction false} BelowTransitive(a: string, b: string, c: string)
    requires Below(a, b) && Below(b, c)
    ensures Below(a, c)
    decreases |a|
  {
    if |a| > 0 && a[0] == b[0] && b[0] == c[0] {
      BelowTransitive(a[1..], b[1..], c[1..]);
    }
  }

  lemma {:induction false} BelowTotal(a: string, b: string)
    requires a != b
    ensures Below(a, b) || Below(b, a)
    decreases |a|
  {
    if |a| > 0 && |b| > 0 && a[0] == b[0] {
      assert a == [a[0]] + a[1..] && b == [b[0]] + b[1..];
      BelowTotal(a[1..], b[1..]);
    }
  }

  /** One row of the distinct-category table. */
  datatype Count = Count(key: string, n: nat)

  /** Every label in `t` comes after `lo`. */
  ghost predicate AllAbove(t: seq<Count>, lo: string)
  {
    forall i :: 0 <= i < |t| ==> Below(lo, t[i].key)
  }

  /** Strictly increasing labels, each counted at least once. */
  ghost predicate Sorted(t: seq<Count>)
    decreases |t|
  {
    t == [] || (t[0].n >= 1 && AllAbove(t[1..], t[0].key) && Sorted(t[1..]))
  }

  /** The count `t` holds for `x`, 0 when `x` has no row. */
  function CountOf(t: seq<Count>, x: string): nat
    decreases |t|
  {
    if t == [] then 0 else if t[0].key == x then t[0].n else CountOf(t[1..], x)
  }

  /** The counts summed over all rows. */
  function Total(t: seq<Count>): nat
    decreases |t|
  {
    if t == [] then 0 else t[0].n + Total(t[1..])
  }

  /** Counts one more occurrence of `x` in a sorted table. */
  function Insert(t: seq<Count>, x: string): seq<Count>
    decreases |t|
  {
    if t == [] then [Count(x, 1)]
    else if t[0].key == x then [Count(x, t[0].n + 1)] + t[1..]
    else if Below(x, t[0].key) then [Count(x, 1)] + t
    else [t[0]] + Insert(t[1..], x)
  }

  /** `np.unique(labels, return_counts=True)`: the distinct labels in sorted
      order, each with its number of occurrences. */
  function Tally(labels: seq<string>): seq<Count>
    decreases |labels|
  {
    if labels == [] then [] else Insert(Tally(labels[..|labels| - 1]), labels[|labels| - 1])
  }

  lemma {:induction false} AllAboveLower(t: seq<Count>, lo: string, lo': string)
    requires AllAbove(t, lo) && Below(lo', lo)
    ensures AllAbove(t, lo')
  {
    forall i | 0 <= i < |t|
      ensures Below(lo', t[i].key)
    {
      BelowTransitive(lo', lo, t[i].key);
    }
  }

  lemma {:induction false} InsertAbove(t: seq<Count>, x: string, lo: string)
    requires AllAbove(t, lo) && Below(lo, x)
    ensures AllAbove(Insert(t, x), lo)
    decreases |t|
  {
    if t != [] && t[0].key != x && !Below(x, t[0].key) {
      InsertAbove(t[1..], x, lo);
    }
  }

  /** A label below every row of a table is not counted in it. */
  lemma {:induction false} CountOfAbove(t: seq<Count>, x: string)
    requires AllAbove(t, x)
    ensures CountOf(t, x) == 0
    decreases |t|
  {
    if t != [] {
      if t[0].key == x {
        BelowIrreflexive(x);
      }
      CountOfAbove(t[1..], x);
    }
  }

  lemma {:induction false} InsertCounts(t: seq<Count>, x: string)
    requires Sorted(t)
    ensures Sorted(Insert(t, x))
    ensures Total(Insert(t, x)) == Total(t) + 1
    ensures forall y :: CountOf(Insert(t, x), y) == CountOf(t, y) + if y == x then 1 else 0
    decreases |t|
  {
    if t == [] {
    } else if t[0].key == x {
      assert Insert(t, x)[1..] == t[1..];
    } else if Below(x, t[0].key) {
      var r := Insert(t, x);
      assert r[1..] == t;
      AllAboveLower(t[1..], t[0].key, x);
      assert AllAbove(t, x);
      CountOfAbove(t, x);
    } else {
      BelowTotal(x, t[0].key);
      InsertCounts(t[1..], x);
      InsertAbove(t[1..], x, t[0].key);
      var r := Insert(t, x);
      assert r[1..] == Insert(t[1..], x);
    }
  }

  /** In a sorted table the count looked up for a row's label is that row's count. */
  lemma {:induction false} CountOfRow(t: seq<Count>, i: nat)
    requires Sorted(t) && i < |t|
    ensures CountOf(t, t[i].key) == t[i].n
    decreases |t|
  {
    if i > 0 {
      assert Below(t[0].key, t[1..][i - 1].key);
      if t[0].key == t[i].key {
        BelowIrreflexive(t[i].key);
      }
      CountOfRow(t[1..], i - 1);
    }
  }

  /** A label with a non-zero count has a row. */
  lemma {:induction false} CountedHasRow(t: seq<Count>, x: string)
    requires CountOf(t, x) > 0
    ensures exists i :: 0 <= i < |t| && t[i].key == x
    decreases |t|
  {
    if t[0].key != x {
      CountedHasRow(t[1..], x);
      var i :| 0 <= i < |t[1..]| && t[1..][i].key == x;
      assert t[i + 1].key == x;
    }
  }

  /** Sorted means strictly increasing labels, so no label has two rows. */
  lemma {:induction false} SortedIncreasing(t: seq<Count>)
    requires Sorted(t)
    ensures forall i, j :: 0 <= i < j < |t| ==> Below(t[i].key, t[j].key)
    ensures forall i :: 0 <= i < |t| ==> t[i].n >= 1
    decreases |t|
  {
    if t != [] {
      SortedIncreasing(t[1..]);
      forall i, j | 0 <= i < j < |t|
        ensures Below(t[i].key, t[j].key)
      {
        if i > 0 {
          assert t[i].key == t[1..][i - 1].key && t[j].key == t[1..][j - 1].key;
        } else {
          assert t[j].key == t[1..][j - 1].key;
        }
      }
      forall i | 0 <= i < |t|
        ensures t[i].n >= 1
      {
        if i > 0 {
          assert t[i] == t[1..][i - 1];
        }
      }
    }
  }

  /** Counting one more `x` in a table that counts `m` counts `m` plus `x`. */
  lemma CountsStep(t: seq<Count>, t': seq<Count>, m: multiset<string>, x: string)
    requires forall y :: CountOf(t, y) == m[y]
    requires forall y :: CountOf(t', y) == CountOf(t, y) + if y == x then 1 else 0
    ensures forall y :: CountOf(t', y) == (m + multiset{x})[y]
  {
  }

  lemma {:induction false} TallyInvariant(labels: seq<string>)
    ensures Sorted(Tally(labels))
    ensures Total(Tally(labels)) == |labels|
    ensures forall y :: CountOf(Tally(labels), y) == multiset(labels)[y]
    decreases |labels|
  {
    if labels != [] {
      var init, x := labels[..|labels| - 1], labels[|labels| - 1];
      var t := Tally(init);
      TallyInvariant(init);
      InsertCounts(t, x);
      assert Tally(labels) == Insert(t, x);
      assert labels == init + [x];
      CountsStep(t, Insert(t, x), multiset(init), x);
    }
  }

  /** The distinct-category table lists its labels in strictly increasing order
      (so without duplicates), lists every cat that occurs, counts each cat
      exactly as often as it occurs (so at least once), and its counts add up
      to the number of labels. */
  lemma DistinctCounts(labels: seq<string>)
    ensures var t := Tally(labels);
      && (forall i, j :: 0 <= i < j < |t| ==> Below(t[i].key, t[j].key) && t[i].key != t[j].key)
      && (forall i :: 0 <= i < |t| ==> 1 <= t[i].n == multiset(labels)[t[i].key])
      && (forall x :: x in labels ==> exists i :: 0 <= i < |t| && t[i].key == x)
      && Total(t) == |labels|
  {
    var t := Tally(labels);
    TallyInvariant(labels);
    SortedIncreasing(t);
    forall i, j | 0 <= i < j < |t|
      ensures t[i].key != t[j].key
    {
      if t[i].key == t[j].key {
        BelowIrreflexive(t[i].key);
      }
    }
    forall i | 0 <= i < |t|
      ensures t[i].n == multiset(labels)[t[i].key]
    {
      CountOfRow(t, i);
    }
    forall x | x in labels
      ensures exists i :: 0 <= i < |t| && t[i].key == x
    {
      CountedHasRow(t, x);
    }
  }
}
