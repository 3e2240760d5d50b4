/** src/get_paper_categories.py: split the papers into `n // B + 1` groups
    with `np.array_split`, ask the completion client for one (title,
    category) pair per paper of a group, take the second components (or
    'ERROR' for every paper of the group when the reply does not parse or has
    the wrong length), normalise the categories without lowercasing, and
    count the distinct ones. */
module PaperCategories {

  import opened Values
  import opened Seqs
  import opened Batch
  import opened Categories
  import opened Grouping
  import Completion

  /** The second element of one parsed pair, if it has one: a string gives
      its second character, a list or tuple its second element. */
  function Second(v: Value): Option<Value>
  {
    match v
    case Str(s) => if |s| >= 2 then Some(Str([s[1]])) else None
    case Items(elems) => if |elems| >= 2 then Some(elems[1]) else None
    case _ => None
  }

  /** `list(zip(*response))[1]` as written: `zip()` of nothing is empty, so an
      empty reply raises IndexError; otherwise every element must have a
      second component (a shorter element raises IndexError, a
      non-iterable one TypeError). */
  function SecondColumnAsWritten(items: seq<Value>): Outcome<seq<Value>>
  {
    if |items| == 0 then Failed(BadReply) else SecondColumn(items)
  }

  /** The second components of the parsed pairs, an empty reply giving none. */
  function SecondColumn(items: seq<Value>): (r: Outcome<seq<Value>>)
    ensures r.Done? <==> forall i :: 0 <= i < |items| ==> Second(items[i]).Some?
    ensures r.Done? ==> |r.value| == |items| && forall i :: 0 <= i < |items| ==> Some(r.value[i]) == Second(items[i])
    ensures r.Failed? ==> r.reason == BadReply
  {
    if forall i :: 0 <= i < |items| ==> Second(items[i]).Some? then
      Done(seq(|items|, i requires 0 <= i < |items| && Second(items[i]).Some? => Second(items[i]).value))
    else Failed(BadReply)
  }

  /** The expression as written agrees with the intended one on every
      non-empty reply, and stops the script on the empty reply of an empty
      group, which the intended reading extends by nothing. */
  lemma SecondColumnEmptyReply()
    ensures SecondColumnAsWritten([]) == Failed(BadReply)
    ensures SecondColumn([]) == Done([])
    ensures forall items :: |items| > 0 ==> SecondColumnAsWritten(items) == SecondColumn(items)
  {
  }

  /** One group of `size` papers: the categories it adds, or why the script
      stopped. The client call is outside the `try`, and only SyntaxError and
      the failed length assertion are caught. */
  function GroupCategories(size: nat, call: Completion.Completion, parse: string -> Literal): Outcome<seq<Value>>
  {
    if !call.Returned? then Failed(ClientFailed(call))
    else
      match parse(call.text)
      case SyntaxErr => Done(Repeat(Str(ERROR), size))
      case OtherErr => Failed(LiteralFailed)
      case Parsed(items) => if |items| != size then Done(Repeat(Str(ERROR), size)) else SecondColumn(items)
  }

  /** One group as written, with `list(zip(*response))[1]`: it differs from
      the corrected group only when an empty group's reply parses to `[]`,
      which passes the length assertion and then raises IndexError. */
  function GroupCategoriesAsWritten(size: nat, call: Completion.Completion, parse: string -> Literal): Outcome<seq<Value>>
  {
    if size == 0 && call.Returned? && parse(call.text) == Parsed([]) then Failed(BadReply)
    else GroupCategories(size, call, parse)
  }

  /** With a batch size of 1, or with no papers, the last group is empty; if
      the reply for it parses to an empty list, it passes the length check and
      the code as written stops the script with IndexError, where the group
      should add no category. */
  lemma EmptyGroupStops<T>(titles: seq<T>, B: nat, text: string, parse: string -> Literal)
    requires B >= 1 && (B == 1 || |titles| == 0) && parse(text) == Parsed([])
    ensures var k := NumSplits(|titles|, B);
      && |ArraySplit(titles, k)[k - 1]| == 0
      && GroupCategoriesAsWritten(0, Completion.Returned(text), parse) == Failed(BadReply)
      && GroupCategories(0, Completion.Returned(text), parse) == Done([])
  {
    LastGroupEmpty(titles, B);
    SecondColumnEmptyReply();
  }

  /** A group that does not stop the script adds exactly one category per
      paper: the second components of a reply of the right length, and
      'ERROR' for every paper after a syntax error or a length mismatch. */
  lemma GroupCategoriesCases(size: nat, call: Completion.Completion, parse: string -> Literal)
    ensures var r := GroupCategories(size, call, parse);
      && (r.Done? ==> |r.value| == size)
      && (!call.Returned? ==> r == Failed(ClientFailed(call)))
      && (call.Returned? && (parse(call.text).SyntaxErr? || (parse(call.text).Parsed? && |parse(call.text).items| != size)) ==>
            r == Done(Repeat(Str(ERROR), size)))
      && (call.Returned? && parse(call.text).Parsed? && |parse(call.text).items| == size && r.Done? ==>
            forall i :: 0 <= i < size ==> Some(r.value[i]) == Second(parse(call.text).items[i]))
  {
  }

  /** Every group's outcome, in group order. */
  function GroupOutcomes(sizes: seq<nat>, calls: seq<Completion.Completion>, parse: string -> Literal): (r: seq<Outcome<seq<Value>>>)
    requires |sizes| == |calls|
    ensures |r| == |sizes| && forall j :: 0 <= j < |r| ==> r[j] == GroupCategories(sizes[j], calls[j], parse)
  {
    seq(|sizes|, j requires 0 <= j < |sizes| => GroupCategories(sizes[j], calls[j], parse))
  }

  /** The size of each group of `n` papers split into `k` groups. */
  function GroupSizes(n: nat, k: nat): (sizes: seq<nat>)
    requires k >= 1
    ensures |sizes| == k
  {
    seq(k, j requires 0 <= j < k => Size(n, k, j))
  }

  /** The raw category column: the groups' categories one after the other,
      or why the script stopped. */
  function RawCategories(n: nat, B: nat, calls: seq<Completion.Completion>, parse: string -> Literal): Outcome<seq<Value>>
    requires B >= 1 && |calls| == NumSplits(n, B)
  {
    match AllDone(GroupOutcomes(GroupSizes(n, NumSplits(n, B)), calls, parse))
    case Failed(e) => Failed(e)
    case Done(groups) => Done(Flatten(groups))
  }

  /** Every group's outcome as written, in group order. */
  function GroupOutcomesAsWritten(sizes: seq<nat>, calls: seq<Completion.Completion>, parse: string -> Literal): (r: seq<Outcome<seq<Value>>>)
    requires |sizes| == |calls|
    ensures |r| == |sizes| && forall j :: 0 <= j < |r| ==> r[j] == GroupCategoriesAsWritten(sizes[j], calls[j], parse)
  {
    seq(|sizes|, j requires 0 <= j < |sizes| => GroupCategoriesAsWritten(sizes[j], calls[j], parse))
  }

  /** The raw category column as written, with `list(zip(*response))[1]`. */
  function RawCategoriesAsWritten(n: nat, B: nat, calls: seq<Completion.Completion>, parse: string -> Literal): Outcome<seq<Value>>
    requires B >= 1 && |calls| == NumSplits(n, B)
  {
    match AllDone(GroupOutcomesAsWritten(GroupSizes(n, NumSplits(n, B)), calls, parse))
    case Failed(e) => Failed(e)
    case Done(groups) => Done(Flatten(groups))
  }

  /** A group as written agrees with the corrected group except on an empty
      group, where it may stop the script with IndexError instead. */
  lemma GroupAsWrittenAgrees(size: nat, call: Completion.Completion, parse: string -> Literal)
    ensures var w, r := GroupCategoriesAsWritten(size, call, parse), GroupCategories(size, call, parse);
      && (w.Done? ==> w == r)
      && (w != r ==> w == Failed(BadReply) && size == 0)
  {
    SecondColumnEmptyReply();
  }

  /** Every group of `n >= 1` papers split for a batch size `B >= 2` holds at
      least one paper. */
  lemma GroupsNonEmpty(n: nat, B: nat)
    requires B >= 2 && n >= 1
    ensures forall j :: 0 <= j < NumSplits(n, B) ==> GroupSizes(n, NumSplits(n, B))[j] >= 1
  {
    var k := NumSplits(n, B);
    DivShrinks(n, B);
    DivZero(n, k);
  }

  /** The script as written and the corrected script: whenever the one as
      written completes, both give the same column; where they differ, the
      one as written stops with IndexError, which happens only with a batch
      size of 1 or no papers. */
  lemma {:induction false} RawAsWrittenAgrees(n: nat, B: nat, calls: seq<Completion.Completion>, parse: string -> Literal)
    requires B >= 1 && |calls| == NumSplits(n, B)
    ensures var w, r := RawCategoriesAsWritten(n, B, calls, parse), RawCategories(n, B, calls, parse);
      && (w.Done? ==> w == r)
      && (w != r ==> w == Failed(BadReply))
      && (B >= 2 && n >= 1 ==> w == r)
  {
    var sizes := GroupSizes(n, NumSplits(n, B));
    var outs, written := GroupOutcomes(sizes, calls, parse), GroupOutcomesAsWritten(sizes, calls, parse);
    forall j | 0 <= j < |sizes|
      ensures (written[j].Done? ==> written[j] == outs[j]) && (written[j] != outs[j] ==> written[j] == Failed(BadReply) && sizes[j] == 0)
    {
      GroupAsWrittenAgrees(sizes[j], calls[j], parse);
    }
    AllDoneRefined(outs, written, BadReply);
    if B >= 2 && n >= 1 {
      GroupsNonEmpty(n, B);
      assert written == outs;
    }
  }

  /** With a batch size of 1 or no papers, the last group holds no paper. */
  lemma LastSizeZero(n: nat, B: nat)
    requires B >= 1 && (B == 1 || n == 0)
    ensures GroupSizes(n, NumSplits(n, B))[NumSplits(n, B) - 1] == 0
  {
    var k := NumSplits(n, B);
    DivZero(n, k);
  }

  /** An empty group whose reply parses to `[]`: IndexError as written, no
      category when corrected. */
  lemma EmptyReply(call: Completion.Completion, text: string, parse: string -> Literal)
    requires call == Completion.Returned(text) && parse(text) == Parsed([])
    ensures GroupCategoriesAsWritten(0, call, parse) == Failed(BadReply)
    ensures GroupCategories(0, call, parse) == Done([])
  {
    SecondColumnEmptyReply();
  }

  /** The script as written stops on an empty last group whose reply parses
      to `[]`, where the corrected script completes once the earlier groups
      have. */
  lemma LastEmptyReplyStops(n: nat, B: nat, calls: seq<Completion.Completion>, parse: string -> Literal, text: string)
    requires B >= 1 && (B == 1 || n == 0) && |calls| == NumSplits(n, B)
    requires calls[|calls| - 1] == Completion.Returned(text) && parse(text) == Parsed([])
    requires var sizes := GroupSizes(n, NumSplits(n, B));
      forall j :: 0 <= j < |calls| - 1 ==> GroupCategoriesAsWritten(sizes[j], calls[j], parse).Done?
    ensures RawCategoriesAsWritten(n, B, calls, parse) == Failed(BadReply)
    ensures RawCategories(n, B, calls, parse).Done?
  {
    var k := NumSplits(n, B);
    var sizes := GroupSizes(n, k);
    var outs, written := GroupOutcomes(sizes, calls, parse), GroupOutcomesAsWritten(sizes, calls, parse);
    LastSizeZero(n, B);
    EmptyReply(calls[k - 1], text, parse);
    assert written[k - 1] == Failed(BadReply);
    FirstFailure(written, k - 1);
    forall j | 0 <= j < k
      ensures outs[j].Done?
    {
      if j < k - 1 {
        GroupAsWrittenAgrees(sizes[j], calls[j], parse);
      }
    }
  }

  /** The raw column when group `j` is the first to stop the script. */
  lemma RawStopsAt(n: nat, B: nat, calls: seq<Completion.Completion>, parse: string -> Literal, j: nat)
    requires B >= 1 && |calls| == NumSplits(n, B) && j < |calls|
    requires var outs := GroupOutcomes(GroupSizes(n, NumSplits(n, B)), calls, parse);
      outs[j].Failed? && forall g :: 0 <= g < j ==> outs[g].Done?
    ensures RawCategories(n, B, calls, parse) == Failed(GroupOutcomes(GroupSizes(n, NumSplits(n, B)), calls, parse)[j].reason)
  {
    FirstFailure(GroupOutcomes(GroupSizes(n, NumSplits(n, B)), calls, parse), j);
  }

  /** The raw column when every group added its categories. */
  lemma RawAllDone(n: nat, B: nat, calls: seq<Completion.Completion>, parse: string -> Literal, done: seq<seq<Value>>)
    requires B >= 1 && |calls| == NumSplits(n, B) && |done| == |calls|
    requires var outs := GroupOutcomes(GroupSizes(n, NumSplits(n, B)), calls, parse);
      forall g :: 0 <= g < |done| ==> outs[g] == Done(done[g])
    ensures RawCategories(n, B, calls, parse) == Done(Flatten(done))
  {
    NoFailure(GroupOutcomes(GroupSizes(n, NumSplits(n, B)), calls, parse), done);
  }

  /** Summed sizes of the first `j` groups. */
  function SizesUpTo(sizes: seq<nat>, j: nat): nat
    requires j <= |sizes|
  {
    if j == 0 then 0 else SizesUpTo(sizes, j - 1) + sizes[j - 1]
  }

  lemma {:induction false} FlattenCounts(groups: seq<seq<Value>>, sizes: seq<nat>, j: nat)
    requires |groups| == |sizes| && j <= |groups|
    requires forall i :: 0 <= i < |groups| ==> |groups[i]| == sizes[i]
    ensures |Flatten(groups[..j])| == SizesUpTo(sizes, j)
    decreases j
  {
    if j > 0 {
      FlattenCounts(groups, sizes, j - 1);
      assert groups[..j] == groups[..j - 1] + [groups[j - 1]];
      FlattenAppend(groups[..j - 1], groups[j - 1]);
    }
  }

  lemma {:induction false} SizesAddUp(n: nat, k: nat, j: nat)
    requires k >= 1 && j <= k
    ensures SizesUpTo(GroupSizes(n, k), j) == Start(n, k, j)
    decreases j
  {
    if j > 0 {
      SizesAddUp(n, k, j - 1);
    }
  }

  /** Each group adds as many categories as it has papers, so the raw column
      has exactly one category per paper, as the column assignment needs. */
  lemma CategoryPerPaper(n: nat, B: nat, calls: seq<Completion.Completion>, parse: string -> Literal)
    requires B >= 1 && |calls| == NumSplits(n, B)
    ensures RawCategories(n, B, calls, parse).Done? ==> |RawCategories(n, B, calls, parse).value| == n
  {
    var k := NumSplits(n, B);
    var sizes := GroupSizes(n, k);
    var outs := GroupOutcomes(sizes, calls, parse);
    var all := AllDone(outs);
    if all.Done? {
      var groups := all.value;
      forall i | 0 <= i < k
        ensures |groups[i]| == sizes[i]
      {
        GroupCategoriesCases(sizes[i], calls[i], parse);
      }
      FlattenCounts(groups, sizes, k);
      assert groups[..k] == groups;
      SizesAddUp(n, k, k);
      StartEnd(n, k);
    }
  }

  /** The body of the group loop: the categories one group adds, or why the
      script stopped there. */
  method AskGroup(size: nat, response: Completion.Completion, parse: string -> Literal) returns (added: Outcome<seq<Value>>)
    ensures added == GroupCategories(size, response, parse)
    ensures added.Done? ==> |added.value| == size
  {
    if !response.Returned? {
      return Failed(ClientFailed(response));
    }
    match parse(response.text) {
      case SyntaxErr =>
        added := Done(Repeat(Str(ERROR), size));
      case OtherErr =>
        added := Failed(LiteralFailed);
      case Parsed(items) =>
        if |items| != size {
          added := Done(Repeat(Str(ERROR), size));
        } else {
          added := SecondColumn(items);
        }
    }
  }

  /** What the script writes: every paper with its normalised category, and
      the distinct-category counts; `asked` holds the (title, highlight)
      pairs each group's prompt lists. */
  datatype CategoryTables<P> = CategoryTables(categorized: seq<(P, string)>, distinct: seq<Count>, asked: seq<seq<(string, string)>>)

  /** The group loop of `main`: ask for every group's categories in group
      order, keeping the prompt pairs of each group, until a group stops the
      script. */
  method AskGroups(titles: seq<string>, highlights: seq<string>, B: nat,
                   calls: seq<Completion.Completion>, parse: string -> Literal)
    returns (raw: Outcome<seq<Value>>, asked: seq<seq<(string, string)>>)
    requires B >= 1 && |highlights| == |titles|
    requires |calls| == NumSplits(|titles|, B)
    ensures raw == RawCategories(|titles|, B, calls, parse)
    ensures raw.Done? ==>
      var k := NumSplits(|titles|, B);
      |asked| == k && forall j :: 0 <= j < k ==> asked[j] == Zip(ArraySplit(titles, k)[j], ArraySplit(highlights, k)[j])
  {
    var numSplits := NumSplits(|titles|, B);
    var titleGroups := ArraySplit(titles, numSplits);
    var highlightGroups := ArraySplit(highlights, numSplits);
    ghost var outs := GroupOutcomes(GroupSizes(|titles|, numSplits), calls, parse);
    var categories: seq<Value> := [];
    asked := [];
    ghost var done: seq<seq<Value>> := [];
    for j := 0 to numSplits
      invariant |done| == j && |asked| == j
      invariant forall g :: 0 <= g < j ==> outs[g] == Done(done[g])
      invariant categories == Flatten(done)
      invariant forall g :: 0 <= g < j ==> asked[g] == Zip(titleGroups[g], highlightGroups[g])
    {
      var group := Zip(titleGroups[j], highlightGroups[j]);
      asked := asked + [group];
      var added := AskGroup(|titleGroups[j]|, calls[j], parse);
      assert outs[j] == added;
      if added.Failed? {
        RawStopsAt(|titles|, B, calls, parse, j);
        return Failed(added.reason), asked;
      }
      FlattenAppend(done, added.value);
      categories := categories + added.value;
      done := done + [added.value];
    }
    RawAllDone(|titles|, B, calls, parse, done);
    raw := Done(categories);
  }

  /** `main`: group the titles and highlights, collect each group's
      categories in group order, then normalise them without lowercasing. */
  method GetPaperCategories<P>(papers: seq<P>, titles: seq<string>, highlights: seq<string>, B: nat,
                               calls: seq<Completion.Completion>, parse: string -> Literal)
    returns (out: Outcome<CategoryTables<P>>)
    requires B >= 1
    requires |titles| == |papers| && |highlights| == |papers|
    requires |calls| == NumSplits(|papers|, B)
    ensures var raw := RawCategories(|papers|, B, calls, parse);
      && (raw.Failed? ==> out == Failed(raw.reason))
      && (raw.Done? ==> (out.Done? <==> forall i :: 0 <= i < |raw.value| ==> raw.value[i].Str?))
      && (raw.Done? && out.Failed? ==> out.reason == BadReply)
    ensures out.Done? ==>
      var raw := RawCategories(|papers|, B, calls, parse).value;
      var k := NumSplits(|papers|, B);
      && |raw| == |papers|
      && |out.value.categorized| == |papers|
      && (forall i :: 0 <= i < |papers| ==> out.value.categorized[i] == (papers[i], Normalize(raw[i].s, false)))
      && out.value.distinct == Tally(NormalizeAll(raw, false))
      && |out.value.asked| == k
      && (forall j :: 0 <= j < k ==> out.value.asked[j] == Zip(ArraySplit(titles, k)[j], ArraySplit(highlights, k)[j]))
  {
    var raw, asked := AskGroups(titles, highlights, B, calls, parse);
    if raw.Failed? {
      return Failed(raw.reason);
    }
    CategoryPerPaper(|papers|, B, calls, parse);
    var clean := CleanCategories(raw.value, false);
    if clean.Failed? {
      return Failed(clean.reason);
    }
    var categorized := Zip(papers, clean.value);
    return Done(CategoryTables(categorized, Tally(clean.value), asked));
  }
}
