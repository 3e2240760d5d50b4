/** src/filter_desirable_categories.py: drop the rows of the hand-edited
    distinct-category table that miss a value, then keep the papers whose
    category appears in what is left. */
module Desirable {

  import opened Values
  import opened Seqs

  /** One row of the distinct-category table as read back from CSV; a
      missing cell reads as NaN. */
  datatype CategoryRow = CategoryRow(category: Option<string>, count: Option<int>)

  /** One paper: its category cell (NaN when empty) and its other fields. */
  datatype Paper = Paper(category: Option<string>, fields: Record)

  /** A row with no missing value survives `dropna(axis=0)`. */
  predicate Complete(row: CategoryRow)
  {
    row.category.Some? && row.count.Some?
  }

  /** `dropna(axis=0)`. */
  function DropNa(table: seq<CategoryRow>): seq<CategoryRow>
  {
    Filter(table, Complete)
  }

  /** `dropna` keeps, in order, exactly the rows that miss no value, every
      copy of them. */
  lemma DropNaRows(table: seq<CategoryRow>)
    ensures Subsequence(DropNa(table), table)
    ensures forall row :: row in DropNa(table) <==> row in table && Complete(row)
    ensures forall row :: multiset(DropNa(table))[row] == if Complete(row) then multiset(table)[row] else 0
  {
    FilterSelects(table, Complete);
    forall row | row in table
      ensures row in DropNa(table) <==> Complete(row)
    {
      assert multiset(table)[row] > 0;
    }
  }

  /** The categories to keep: the category column of the cleaned table. */
  function KeepList(table: seq<CategoryRow>): (keep: seq<string>)
    ensures forall c :: c in keep <==> exists i :: 0 <= i < |table| && Complete(table[i]) && table[i].category == Some(c)
  {
    KeptAreComplete(table);
    KeptFromTable(table);
    CompleteAreKept(table);
    CategoryColumn(DropNa(table))
  }

  /** The category of every row, all of which carry one. */
  function CategoryColumn(rows: seq<CategoryRow>): seq<string>
    requires forall i :: 0 <= i < |rows| ==> Complete(rows[i])
  {
    seq(|rows|, i requires 0 <= i < |rows| && Complete(rows[i]) => rows[i].category.value)
  }

  lemma KeptAreComplete(table: seq<CategoryRow>)
    ensures forall i :: 0 <= i < |DropNa(table)| ==> Complete(DropNa(table)[i])
  {
    var clean := DropNa(table);
    forall i | 0 <= i < |clean|
      ensures Complete(clean[i])
    {
      assert clean[i] in clean;
    }
  }

  lemma KeptFromTable(table: seq<CategoryRow>)
    requires forall i :: 0 <= i < |DropNa(table)| ==> Complete(DropNa(table)[i])
    ensures forall c :: c in CategoryColumn(DropNa(table)) ==> exists i :: 0 <= i < |table| && Complete(table[i]) && table[i].category == Some(c)
  {
    var clean := DropNa(table);
    var keep := CategoryColumn(clean);
    forall c | c in keep
      ensures exists i :: 0 <= i < |table| && Complete(table[i]) && table[i].category == Some(c)
    {
      var k :| 0 <= k < |clean| && keep[k] == c;
      assert clean[k] in clean;
    }
  }

  lemma CompleteAreKept(table: seq<CategoryRow>)
    requires forall i :: 0 <= i < |DropNa(table)| ==> Complete(DropNa(table)[i])
    ensures forall i :: 0 <= i < |table| && Complete(table[i]) ==> table[i].category.value in CategoryColumn(DropNa(table))
  {
    var clean := DropNa(table);
    var keep := CategoryColumn(clean);
    FilterSelects(table, Complete);
    forall i | 0 <= i < |table| && Complete(table[i])
      ensures table[i].category.value in keep
    {
      assert multiset(table)[table[i]] > 0;
      assert table[i] in clean;
      var k :| 0 <= k < |clean| && clean[k] == table[i];
      assert keep[k] == table[i].category.value;
    }
  }

  /** `np.isin(paper_df['category'], cat_df['category'])` for one paper: a
      missing category equals nothing, NaN included. */
  predicate Wanted(p: Paper, keep: seq<string>)
  {
    p.category.Some? && p.category.value in keep
  }

  /** The boolean-mask selection of the papers. */
  function FilterDesirable(papers: seq<Paper>, table: seq<CategoryRow>): seq<Paper>
  {
    var keep := KeepList(table);
    Filter(papers, p => Wanted(p, keep))
  }

  /** A paper is kept exactly when its category is that of a complete row of
      the table; kept papers keep their order and their fields, and each
      appears as often as in the input. */
  lemma FilterDesirableSelects(papers: seq<Paper>, table: seq<CategoryRow>)
    ensures var kept := FilterDesirable(papers, table);
      && Subsequence(kept, papers)
      && (forall p :: p in papers ==>
            (p in kept <==> exists i :: 0 <= i < |table| && Complete(table[i]) && table[i].category == p.category))
      && (forall p :: p in kept ==> multiset(kept)[p] == multiset(papers)[p])
  {
    var keep := KeepList(table);
    var kept := FilterDesirable(papers, table);
    FilterSelects(papers, p => Wanted(p, keep));
    forall p | p in papers
      ensures p in kept <==> exists i :: 0 <= i < |table| && Complete(table[i]) && table[i].category == p.category
    {
      assert multiset(papers)[p] > 0;
    }
  }
}
