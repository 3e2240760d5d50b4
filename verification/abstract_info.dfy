/** src/get_info_from_abstract.py: for each paper, fetch its abstract (an
    empty XPath result falls back to a fixed sentence), ask the completion
    client for six answers, rewrite quotes, parse, and keep either
    `[abstract] + reply` or a fixed ERROR record flagged -9999; then normalise
    the category column (lowercasing), keep the rows whose flag is not 0, and
    count the distinct categories. */
module AbstractInfo {

  import opened Values
  import opened Seqs
  import opened Batch
  import opened Categories
  import Completion

  /** The abstract used when the page has no abstract node. */
  const FALLBACK: string := "Failed to load abstract. Use the paper title to answer the questions."

  /** The reply must be a list of this many answers. */
  const REPLY_ITEMS: nat := 6

  /** Where the category sits in a record. */
  const CATEGORY_FIELD: nat := 2

  /** The abstract that goes into the prompt: the fetched text, the fallback
      sentence after an IndexError, and any other exception stops the script. */
  function AbstractText(f: Fetch): Outcome<string>
  {
    match f
    case Fetched(text) => Done(text)
    case NoNode => Done(FALLBACK)
    case FetchRaised => Failed(FetchFailed)
  }

  /** One row of the main loop: the record appended to `output`, or why the
      script stopped. */
  function AbstractRecord(f: Fetch, call: Completion.Completion, parse: string -> Literal): (r: Outcome<Record>)
    ensures r.Done? ==> |r.value| == 1 + REPLY_ITEMS && r.value[0] == Str(if f.Fetched? then f.text else FALLBACK)
  {
    match AbstractText(f)
    case Failed(e) => Failed(e)
    case Done(paperAbstract) =>
      if !call.Returned? then Failed(ClientFailed(call))
      else
        match parse(QuoteRewrite(call.text))
        case Parsed(items) =>
          if |items| == REPLY_ITEMS then Done([Str(paperAbstract)] + items)
          else Done([Str(paperAbstract)] + ErrorFields(REPLY_ITEMS - 1))
        case SyntaxErr => Done([Str(paperAbstract)] + ErrorFields(REPLY_ITEMS - 1))
        case OtherErr => Failed(LiteralFailed)
  }

  /** What happens to one row, case by case: a row stops the script exactly
      when fetching raises something other than IndexError, the client
      raises, or parsing raises something other than SyntaxError; a reply of
      exactly six answers becomes `[abstract] + reply`, and any other parsed
      reply or a syntax error becomes the ERROR record with flag -9999. */
  lemma AbstractRecordCases(f: Fetch, call: Completion.Completion, parse: string -> Literal)
    ensures var r := AbstractRecord(f, call, parse);
      && (r.Failed? <==> f.FetchRaised? || (!f.FetchRaised? && !call.Returned?)
                         || (!f.FetchRaised? && call.Returned? && parse(QuoteRewrite(call.text)).OtherErr?))
      && (f.FetchRaised? ==> r == Failed(FetchFailed))
      && (!f.FetchRaised? && !call.Returned? ==> r == Failed(ClientFailed(call)))
      && (r.Done? ==> var reply := parse(QuoteRewrite(call.text));
            if reply.Parsed? && |reply.items| == REPLY_ITEMS then r.value[1..] == reply.items
            else r.value[1..] == ErrorFields(REPLY_ITEMS - 1) && r.value[REPLY_ITEMS] == Int(SENTINEL))
  {
  }

  /** A page without an abstract node does not stop the script: the row is
      still sent, with the fallback sentence as its abstract. */
  lemma MissingAbstractFallsBack(call: Completion.Completion, text: string, parse: string -> Literal)
    requires call == Completion.Returned(text) && !parse(QuoteRewrite(text)).OtherErr?
    ensures AbstractRecord(NoNode, call, parse).Done?
    ensures AbstractRecord(NoNode, call, parse).value[0] == Str(FALLBACK)
  {
  }

  /** Every row's outcome, in row order. */
  function AbstractRecords(fetches: seq<Fetch>, calls: seq<Completion.Completion>, parse: string -> Literal): (r: seq<Outcome<Record>>)
    requires |fetches| == |calls|
    ensures |r| == |fetches| && forall i :: 0 <= i < |r| ==> r[i] == AbstractRecord(fetches[i], calls[i], parse)
  {
    seq(|fetches|, i requires 0 <= i < |fetches| => AbstractRecord(fetches[i], calls[i], parse))
  }

  /** The records of the main loop, or why it stopped; every record has
      seven fields. */
  function Records(fetches: seq<Fetch>, calls: seq<Completion.Completion>, parse: string -> Literal): (r: Outcome<seq<Record>>)
    requires |fetches| == |calls|
    ensures r.Done? ==> |r.value| == |fetches| && forall i :: 0 <= i < |fetches| ==> |r.value[i]| == 1 + REPLY_ITEMS
  {
    AllDone(AbstractRecords(fetches, calls, parse))
  }

  /** The main loop stops at the first row that raises. */
  lemma RecordsStopAt(fetches: seq<Fetch>, calls: seq<Completion.Completion>, parse: string -> Literal, i: nat, done: seq<Record>)
    requires |fetches| == |calls| && i < |fetches|
    requires AbstractRecords(fetches, calls, parse)[..i] == AllValues(done)
    requires AbstractRecords(fetches, calls, parse)[i].Failed?
    ensures Records(fetches, calls, parse) == Failed(AbstractRecords(fetches, calls, parse)[i].reason)
  {
    var rows := AbstractRecords(fetches, calls, parse);
    forall j | 0 <= j < i
      ensures rows[j].Done?
    {
      assert rows[j] == rows[..i][j];
    }
    FirstFailure(rows, i);
  }

  /** Without a raising row, the main loop yields every row's record. */
  lemma RecordsAllDone(fetches: seq<Fetch>, calls: seq<Completion.Completion>, parse: string -> Literal, output: seq<Record>)
    requires |fetches| == |calls|
    requires AbstractRecords(fetches, calls, parse) == AllValues(output)
    ensures Records(fetches, calls, parse) == Done(output)
  {
    NoFailure(AbstractRecords(fetches, calls, parse), output);
  }

  /** The body of the main loop for one paper: the record it appends, or
      why the script stopped there. */
  method AskAbstract(f: Fetch, call: Completion.Completion, parse: string -> Literal) returns (r: Outcome<Record>)
    ensures r == AbstractRecord(f, call, parse)
  {
    var fetched := AbstractText(f);
    if fetched.Failed? {
      return Failed(fetched.reason);
    }
    var paperAbstract := fetched.value;
    if !call.Returned? {
      return Failed(ClientFailed(call));
    }
    var response := QuoteRewrite(call.text);
    var reply := parse(response);
    if reply.OtherErr? {
      return Failed(LiteralFailed);
    }
    if reply.Parsed? && |reply.items| == REPLY_ITEMS {
      r := Done([Str(paperAbstract)] + reply.items);
    } else {
      r := Done([Str(paperAbstract)] + ErrorFields(REPLY_ITEMS - 1));
    }
  }

  /** The main loop: one record per row, appended in row order, unless a row
      raises, which stops the script with that row's reason. */
  method CollectRecords(fetches: seq<Fetch>, calls: seq<Completion.Completion>, parse: string -> Literal)
    returns (out: Outcome<seq<Record>>)
    requires |fetches| == |calls|
    ensures out == Records(fetches, calls, parse)
  {
    ghost var rows := AbstractRecords(fetches, calls, parse);
    var output: seq<Record> := [];
    for i := 0 to |fetches|
      invariant rows[..i] == AllValues(output)
    {
      var row := AskAbstract(fetches[i], calls[i], parse);
      assert row == rows[i];
      if row.Failed? {
        RecordsStopAt(fetches, calls, parse, i, output);
        return Failed(row.reason);
      }
      output := output + [row.value];
    }
    assert rows == AllValues(output);
    RecordsAllDone(fetches, calls, parse, output);
    return Done(output);
  }

  /** What the script writes: every paper with its record and normalised
      category, the practical rows, and the distinct-category counts. */
  datatype AbstractTables<P> = AbstractTables(all: seq<Joined<P>>, practical: seq<Joined<P>>, distinct: seq<Count>)

  /** `main`: the records, joined to the papers, with the category field
      normalised (lowercasing); a non-string category stops the script. */
  method GetInfoFromAbstract<P>(papers: seq<P>, fetches: seq<Fetch>, calls: seq<Completion.Completion>, parse: string -> Literal)
    returns (out: Outcome<AbstractTables<P>>)
    requires |fetches| == |papers| && |calls| == |papers|
    ensures var recs := Records(fetches, calls, parse);
      && (recs.Failed? ==> out == Failed(recs.reason))
      && (recs.Done? ==> (out.Done? <==> forall i :: 0 <= i < |papers| ==> recs.value[i][CATEGORY_FIELD].Str?))
      && (recs.Done? && out.Failed? ==> out.reason == BadReply)
    ensures out.Done? ==>
      var recs := Records(fetches, calls, parse).value;
      var cats := NormalizeAll(Column(recs, CATEGORY_FIELD), true);
      && out.value.all == JoinRows(papers, WithColumn(recs, CATEGORY_FIELD, cats))
      && out.value.practical == Practical(out.value.all)
      && out.value.distinct == Tally(cats)
  {
    var recs := CollectRecords(fetches, calls, parse);
    if recs.Failed? {
      return Failed(recs.reason);
    }
    var records := recs.value;
    var col := Column(records, CATEGORY_FIELD);
    var clean := CleanCategories(col, true);
    if clean.Failed? {
      return Failed(clean.reason);
    }
    var all := JoinRows(papers, WithColumn(records, CATEGORY_FIELD, clean.value));
    return Done(AbstractTables(all, Practical(all), Tally(clean.value)));
  }
}
