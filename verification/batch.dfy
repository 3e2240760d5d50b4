/** What the batch scripts share: why a run stops, the table that joins each
    input row to its record, and the "practical" selection `flag != 0`. */
module Batch {

  import opened Values
  import opened Seqs
  import opened Text
  import Completion

  /** Why a script stops with an exception before anything is written. */
  datatype Reason =
    | ClientFailed(call: Completion.Completion) // the completion client raised
    | FetchFailed                              // fetching an abstract raised outside any `try`
    | LiteralFailed                            // `ast.literal_eval` raised something other than SyntaxError
    | BadReply                                 // a parsed reply could not be used (IndexError, TypeError, AttributeError)
    | BadStatus(code: int)                     // the listing page did not answer 200
    | NoSlug                                   // a listing link carries no forum id

  /** A script's result: its value, or the reason it stopped. */
  datatype Outcome<+T> = Done(value: T) | Failed(reason: Reason)

  /** The script stops at the first row that raises; otherwise every row has
      produced its value, in row order. */
  function AllDone<T>(xs: seq<Outcome<T>>): (r: Outcome<seq<T>>)
    ensures r.Done? <==> forall i :: 0 <= i < |xs| ==> xs[i].Done?
    ensures r.Done? ==> |r.value| == |xs| && forall i :: 0 <= i < |xs| ==> xs[i] == Done(r.value[i])
    ensures r.Failed? ==> exists i :: 0 <= i < |xs| && xs[i] == Failed(r.reason) && forall j :: 0 <= j < i ==> xs[j].Done?
    decreases |xs|
  {
    if xs == [] then Done([])
    else match xs[0]
      case Failed(e) => Failed(e)
      case Done(v) =>
        match AllDone(xs[1..])
        case Failed(e) => Failed(e)
        case Done(vs) => Done([v] + vs)
  }

  /** Rows that all succeeded with the given values. */
  function AllValues<T>(vs: seq<T>): (r: seq<Outcome<T>>)
    ensures |r| == |vs| && forall i :: 0 <= i < |vs| ==> r[i] == Done(vs[i])
  {
    seq(|vs|, i requires 0 <= i < |vs| => Done(vs[i]))
  }

  /** When every row before `i` succeeded and row `i` raised, the script stops
      with row `i`'s reason. */
  lemma FirstFailure<T>(xs: seq<Outcome<T>>, i: nat)
    requires i < |xs| && xs[i].Failed? && forall j :: 0 <= j < i ==> xs[j].Done?
    ensures AllDone(xs) == Failed(xs[i].reason)
  {
  }

  /** When every row succeeded, the script has exactly their values. */
  lemma NoFailure<T>(xs: seq<Outcome<T>>, vs: seq<T>)
    requires |vs| == |xs| && forall i :: 0 <= i < |xs| ==> xs[i] == Done(vs[i])
    ensures AllDone(xs) == Done(vs)
  {
    var r := AllDone(xs);
    assert r.value == vs by {
      forall i | 0 <= i < |xs|
        ensures r.value[i] == vs[i]
      {
        assert xs[i] == Done(r.value[i]);
      }
    }
  }

  /** Two runs over the same rows, where every row of the second that
      completes agrees with the first and every other difference is the
      second stopping for `e`: whenever the second completes, both agree, and
      where they differ the second stops for `e`. */
  lemma {:induction false} AllDoneRefined<T>(xs: seq<Outcome<T>>, ys: seq<Outcome<T>>, e: Reason)
    requires |xs| == |ys|
    requires forall i :: 0 <= i < |xs| ==> (ys[i].Done? ==> ys[i] == xs[i]) && (ys[i] != xs[i] ==> ys[i] == Failed(e))
    ensures AllDone(ys).Done? ==> AllDone(ys) == AllDone(xs)
    ensures AllDone(ys) != AllDone(xs) ==> AllDone(ys) == Failed(e)
    decreases |xs|
  {
    if xs != [] && ys[0] == xs[0] && xs[0].Done? {
      AllDoneRefined(xs[1..], ys[1..], e);
    }
  }

  /** The quote-neutralising rewrite applied to a reply before parsing: every
      `\n "` becomes `\n """`, then every `",\n` becomes `""",\n`. */
  function QuoteRewrite(reply: string): string
  {
    Replace(Replace(reply, "\n \"", "\n \"\"\""), "\",\n", "\"\"\",\n")
  }

  /** The rewrite changes a reply exactly when one of its two patterns occurs
      in it; each occurrence lengthens the reply by two quotes. */
  lemma QuoteRewriteUnchanged(reply: string)
    ensures QuoteRewrite(reply) == reply <==> !Contains(reply, "\n \"") && !Contains(reply, "\",\n")
  {
    TwoReplacesUnchanged(reply, "\n \"", "\n \"\"\"", "\",\n", "\"\"\",\n");
  }

  /** What fetching a paper page and extracting its abstract gives: the
      abstract, an empty XPath result (IndexError), or any other exception. */
  datatype Fetch = Fetched(text: string) | NoNode | FetchRaised

  /** Field `f` of every record, as a DataFrame column. */
  function Column(records: seq<Record>, f: nat): (col: seq<Value>)
    requires forall i :: 0 <= i < |records| ==> f < |records[i]|
    ensures |col| == |records| && forall i :: 0 <= i < |records| ==> col[i] == records[i][f]
  {
    seq(|records|, i requires 0 <= i < |records| => records[i][f])
  }

  /** The records with field `f` replaced, row by row, by the given strings. */
  function WithColumn(records: seq<Record>, f: nat, col: seq<string>): (r: seq<Record>)
    requires |col| == |records| && forall i :: 0 <= i < |records| ==> f < |records[i]|
    ensures |r| == |records|
    ensures forall i :: 0 <= i < |records| ==> |r[i]| == |records[i]| && r[i][f] == Str(col[i])
    ensures forall i, g :: 0 <= i < |records| && 0 <= g < |records[i]| && g != f ==> r[i][g] == records[i][g]
  {
    seq(|records|, i requires 0 <= i < |records| => records[i][f := Str(col[i])])
  }

  /** An input row beside the record made for it, as `pd.concat(axis=1)` puts them. */
  datatype Joined<P> = Joined(row: P, record: Record)

  /** Row `i` of the input beside record `i`. */
  function JoinRows<P>(rows: seq<P>, records: seq<Record>): (r: seq<Joined<P>>)
    requires |rows| == |records|
    ensures |r| == |rows| && forall i :: 0 <= i < |r| ==> r[i] == Joined(rows[i], records[i])
  {
    seq(|rows|, i requires 0 <= i < |rows| => Joined(rows[i], records[i]))
  }

  /** The classification column is the last field of every record; a row is
      dropped only when that field is the integer 0. */
  predicate FlagNotZero<P>(j: Joined<P>)
  {
    |j.record| == 0 || j.record[|j.record| - 1] != Int(0)
  }

  /** `df.query('<flag> != 0')`. */
  function Practical<P>(rows: seq<Joined<P>>): seq<Joined<P>>
  {
    Filter(rows, FlagNotZero)
  }

  /** The practical table keeps, in order and unchanged, every copy of every
      row whose flag is not 0 (error rows with -9999 included) and drops every
      row whose flag is 0. */
  lemma PracticalRows<P>(rows: seq<Joined<P>>)
    ensures Subsequence(Practical(rows), rows)
    ensures forall j :: multiset(Practical(rows))[j] == if FlagNotZero(j) then multiset(rows)[j] else 0
    ensures forall j :: j in rows ==> (j in Practical(rows) <==> FlagNotZero(j))
    ensures forall j :: j in rows && |j.record| > 0 && j.record[|j.record| - 1] == Int(SENTINEL) ==> j in Practical(rows)
  {
    FilterSelects(rows, FlagNotZero);
    forall j | j in rows
      ensures j in Practical(rows) <==> FlagNotZero(j)
    {
      assert multiset(rows)[j] > 0;
    }
  }
}
