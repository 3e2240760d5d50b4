/** src/filter_practical_abstracts.py: for each paper, fetch its abstract
    (any failure, an empty XPath result included, stops the script), ask the
    completion client four questions and a verdict, parse the raw reply, and
    keep either `[abstract] + reply` or a fixed ERROR record flagged -9999. */
module PracticalAbstracts {

  import opened Values
  import opened Seqs
  import opened Batch
  import Completion

  /** The reply must be a list of this many answers. */
  const REPLY_ITEMS: nat := 5

  /** One row of the main loop. Nothing before the parse is inside a `try`,
      and the reply is parsed as it came back, without the quote rewrite. */
  function PracticalRecord(f: Fetch, call: Completion.Completion, parse: string -> Literal): (r: Outcome<Record>)
    ensures r.Done? ==> f.Fetched? && |r.value| == 1 + REPLY_ITEMS && r.value[0] == Str(f.text)
  {
    if !f.Fetched? then Failed(FetchFailed)
    else if !call.Returned? then Failed(ClientFailed(call))
    else
      match parse(call.text)
      case Parsed(items) =>
        if |items| == REPLY_ITEMS then Done([Str(f.text)] + items)
        else Done([Str(f.text)] + ErrorFields(REPLY_ITEMS - 1))
      case SyntaxErr => Done([Str(f.text)] + ErrorFields(REPLY_ITEMS - 1))
      case OtherErr => Failed(LiteralFailed)
  }

  /** What happens to one row, case by case: the row stops the script exactly
      when fetching fails in any way, the client raises, or parsing raises
      something other than SyntaxError; a reply of exactly five answers
      becomes `[abstract] + reply`, and any other parsed reply or a syntax
      error becomes `[abstract, 'ERROR' x 4, -9999]`. */
  lemma PracticalRecordCases(f: Fetch, call: Completion.Completion, parse: string -> Literal)
    ensures var r := PracticalRecord(f, call, parse);
      && (r.Failed? <==> !f.Fetched? || (f.Fetched? && !call.Returned?)
                         || (f.Fetched? && call.Returned? && parse(call.text).OtherErr?))
      && (!f.Fetched? ==> r == Failed(FetchFailed))
      && (f.Fetched? && !call.Returned? ==> r == Failed(ClientFailed(call)))
      && (r.Done? ==> var reply := parse(call.text);
            if reply.Parsed? && |reply.items| == REPLY_ITEMS then r.value == [Str(f.text)] + reply.items
            else r.value == [Str(f.text), Str(ERROR), Str(ERROR), Str(ERROR), Str(ERROR), Int(SENTINEL)])
  {
  }

  /** Every row's outcome, in row order. */
  function PracticalRecords(fetches: seq<Fetch>, calls: seq<Completion.Completion>, parse: string -> Literal): (r: seq<Outcome<Record>>)
    requires |fetches| == |calls|
    ensures |r| == |fetches| && forall i :: 0 <= i < |r| ==> r[i] == PracticalRecord(fetches[i], calls[i], parse)
  {
    seq(|fetches|, i requires 0 <= i < |fetches| => PracticalRecord(fetches[i], calls[i], parse))
  }

  /** `main`: one six-field record per paper, appended in row order and joined
      to the paper, unless a row stops the script with its reason. */
  method FilterPracticalAbstracts<P>(papers: seq<P>, fetches: seq<Fetch>, calls: seq<Completion.Completion>, parse: string -> Literal)
    returns (out: Outcome<seq<Joined<P>>>)
    requires |fetches| == |papers| && |calls| == |papers|
    ensures var recs := AllDone(PracticalRecords(fetches, calls, parse));
      && (recs.Failed? ==> out == Failed(recs.reason))
      && (recs.Done? ==> out == Done(JoinRows(papers, recs.value)))
  {
    var rows := PracticalRecords(fetches, calls, parse);
    var output: seq<Record> := [];
    for i := 0 to |papers|
      invariant |output| == i
      invariant forall j :: 0 <= j < i ==> rows[j] == Done(output[j])
    {
      if !fetches[i].Fetched? {
        FirstFailure(rows, i);
        return Failed(FetchFailed);
      }
      var paperAbstract := fetches[i].text;
      if !calls[i].Returned? {
        FirstFailure(rows, i);
        return Failed(ClientFailed(calls[i]));
      }
      match parse(calls[i].text) {
        case Parsed(items) =>
          if |items| == REPLY_ITEMS {
            output := output + [[Str(paperAbstract)] + items];
          } else {
            output := output + [[Str(paperAbstract)] + ErrorFields(REPLY_ITEMS - 1)];
          }
        case SyntaxErr =>
          output := output + [[Str(paperAbstract)] + ErrorFields(REPLY_ITEMS - 1)];
        case OtherErr =>
          FirstFailure(rows, i);
          return Failed(LiteralFailed);
      }
    }
    NoFailure(rows, output);
    return Done(JoinRows(papers, output));
  }
}
