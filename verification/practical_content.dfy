/** src/filter_practical_content.py: for each paper, read its PDF pages up to
    the references, drop the first page, cut ten snippets of at most 500
    characters at evenly spaced offsets, ask the completion client, rewrite
    quotes and parse; any failure of a row gives a fixed ERROR record flagged
    -9999 and never stops the script. Rows whose flag is not 0 are kept. */
module PracticalContent {

  import opened Values
  import opened Seqs
  import opened Text
  import opened Batch
  import Completion

  /** Page collection stops after the first page mentioning this word. */
  const REFERENCES: string := "References"

  const SNIPPETS: nat := 10
  const SNIPPET_LENGTH: nat := 500
  const SEPARATOR: string := "\n----------\n"

  /** The reply must be a list of this many answers. */
  const REPLY_ITEMS: nat := 5

  /** A downloaded PDF: the text of its pages in order, or a failure while
      downloading, opening or reading it. */
  datatype Pdf = Pages(pages: seq<string>) | Unreadable

  /** The pages the page loop keeps. */
  function UpToReferences(pages: seq<string>): seq<string>
    decreases |pages|
  {
    if pages == [] then []
    else if Contains(pages[0], REFERENCES) then [pages[0]]
    else [pages[0]] + UpToReferences(pages[1..])
  }

  /** The kept pages are a prefix of the document; no kept page but the last
      mentions "References"; the loop stops early only right after a page
      that does; and a document without such a page is kept whole. */
  lemma {:induction false} UpToReferencesStops(pages: seq<string>)
    ensures var r := UpToReferences(pages);
      && |r| <= |pages| && r == pages[..|r|]
      && (forall j :: 0 <= j < |r| - 1 ==> !Contains(r[j], REFERENCES))
      && (|r| < |pages| ==> |r| > 0 && Contains(r[|r| - 1], REFERENCES))
      && ((forall j :: 0 <= j < |pages| ==> !Contains(pages[j], REFERENCES)) ==> r == pages)
    decreases |pages|
  {
    if pages != [] && !Contains(pages[0], REFERENCES) {
      UpToReferencesStops(pages[1..]);
      var r, rest := UpToReferences(pages), UpToReferences(pages[1..]);
      assert r == [pages[0]] + rest;
      assert forall j :: 0 < j < |r| ==> r[j] == rest[j - 1];
      assert pages[..|r|] == [pages[0]] + pages[1..][..|rest|];
    }
  }

  /** One step of the page loop's specification. */
  lemma UpToReferencesStep(pages: seq<string>, i: nat)
    requires i < |pages|
    ensures UpToReferences(pages[i..]) ==
      if Contains(pages[i], REFERENCES) then [pages[i]] else [pages[i]] + UpToReferences(pages[i + 1..])
  {
    assert pages[i..][0] == pages[i];
    assert pages[i..][1..] == pages[i + 1..];
  }

  /** The page loop: append each page, and stop right after the first one
      that mentions "References". */
  method CollectPages(pages: seq<string>) returns (text: seq<string>)
    ensures text == UpToReferences(pages)
  {
    text := [];
    for i := 0 to |pages|
      invariant text == pages[..i]
      invariant UpToReferences(pages) == text + UpToReferences(pages[i..])
    {
      UpToReferencesStep(pages, i);
      assert pages[..i + 1] == pages[..i] + [pages[i]];
      text := text + [pages[i]];
      if Contains(pages[i], REFERENCES) {
        break;
      }
    }
  }

  /** `text[1:]`: everything but the first page. */
  function Tail(pages: seq<string>): (r: seq<string>)
    ensures |pages| > 0 ==> r == pages[1..]
    ensures |pages| == 0 ==> r == []
  {
    if |pages| == 0 then [] else pages[1..]
  }

  /** The text the snippets are cut from: the kept pages but the first, one
      per line. */
  function PaperText(pages: seq<string>): string
  {
    Join(Tail(UpToReferences(pages)), "\n")
  }

  /** The first kept page never reaches the text: with at most one kept page
      (in particular when the first page already mentions "References") the
      text is empty; otherwise it starts with the second kept page and holds
      the remaining kept pages with one newline between each two. */
  lemma PaperTextShape(pages: seq<string>)
    ensures var kept := UpToReferences(pages);
      && (|kept| <= 1 ==> PaperText(pages) == "")
      && (|pages| > 0 && Contains(pages[0], REFERENCES) ==> PaperText(pages) == "")
      && (|kept| >= 2 ==> |kept[1]| <= |PaperText(pages)| && PaperText(pages)[..|kept[1]|] == kept[1]
                          && |PaperText(pages)| == TotalLength(kept[1..]) + |kept| - 2)
  {
    var kept := UpToReferences(pages);
    if |kept| >= 2 {
      var rest := kept[1..];
      JoinLength(rest, "\n");
      if |rest| > 1 {
        assert Join(rest, "\n") == rest[0] + ("\n" + Join(rest[1..], "\n"));
      }
    }
  }

  /** The ten snippets: snippet `i` is `text[i * n : i * n + 500]` with
      `n = len(text) // 10`. */
  function SnippetsOf(text: string): (r: seq<string>)
    ensures |r| == SNIPPETS
  {
    var n := |text| / SNIPPETS;
    seq(SNIPPETS, i requires 0 <= i < SNIPPETS => Slice(text, i * n, i * n + SNIPPET_LENGTH))
  }

  /** Snippet `i` starts at least `n` characters before the end of the text,
      so every snippet starts inside it. */
  lemma OffsetInside(len: nat, i: nat)
    requires i < SNIPPETS
    ensures i * (len / SNIPPETS) + len / SNIPPETS <= len
  {
    var n := len / SNIPPETS;
    assert i * n + n == (i + 1) * n;
    assert (i + 1) * n <= SNIPPETS * n;
  }

  /** Each snippet is the text found at offset `i * n`, and it is 500
      characters long or runs to the end of the text. */
  lemma SnippetsInText(text: string)
    ensures var s, n := SnippetsOf(text), |text| / SNIPPETS;
      forall i :: 0 <= i < SNIPPETS ==>
        && OccursAt(text, s[i], i * n)
        && |s[i]| == if i * n + SNIPPET_LENGTH <= |text| then SNIPPET_LENGTH else |text| - i * n
  {
    var s, n := SnippetsOf(text), |text| / SNIPPETS;
    forall i | 0 <= i < SNIPPETS
      ensures OccursAt(text, s[i], i * n)
      ensures |s[i]| == if i * n + SNIPPET_LENGTH <= |text| then SNIPPET_LENGTH else |text| - i * n
    {
      OffsetInside(|text|, i);
    }
  }

  /** A text of at least 5000 characters gives ten full snippets. */
  lemma FullSnippets(text: string)
    requires |text| >= SNIPPETS * SNIPPET_LENGTH
    ensures forall i :: 0 <= i < SNIPPETS ==> |SnippetsOf(text)[i]| == SNIPPET_LENGTH
  {
    var s, n := SnippetsOf(text), |text| / SNIPPETS;
    SnippetsInText(text);
    forall i | 0 <= i < SNIPPETS
      ensures |s[i]| == SNIPPET_LENGTH
    {
      OffsetInside(|text|, i);
      OffsetInside(|text|, SNIPPETS - 1);
      assert i * n <= (SNIPPETS - 1) * n by {
        assert (SNIPPETS - 1) * n == i * n + (SNIPPETS - 1 - i) * n;
      }
    }
  }

  /** The snippet loop. */
  method Snippets(text: string) returns (snippets: seq<string>)
    ensures snippets == SnippetsOf(text)
  {
    snippets := [];
    var n := |text| / SNIPPETS;
    for i := 0 to SNIPPETS
      invariant snippets == SnippetsOf(text)[..i]
    {
      var subText := Slice(text, i * n, i * n + SNIPPET_LENGTH);
      snippets := snippets + [subText];
    }
  }

  /** The snippet block of the prompt. */
  function Block(snippets: seq<string>): string
  {
    Join(snippets, SEPARATOR)
  }

  /** The block holds the ten snippets and exactly nine separators. */
  lemma BlockLength(text: string)
    ensures |Block(SnippetsOf(text))| == TotalLength(SnippetsOf(text)) + (SNIPPETS - 1) * |SEPARATOR|
  {
    JoinLength(SnippetsOf(text), SEPARATOR);
  }

  /** The snippet block a row puts into its prompt; an unreadable PDF skips the prompt. */
  function Asked(pdf: Pdf): Option<string>
  {
    match pdf
    case Unreadable => None
    case Pages(pages) => Some(Block(SnippetsOf(PaperText(pages))))
  }

  /** One row's record: any failure, from the download to the parse, gives
      the same ERROR record. */
  function ContentRecord(pdf: Pdf, call: Completion.Completion, parse: string -> Literal): (r: Record)
    ensures |r| == REPLY_ITEMS
  {
    if pdf.Unreadable? || !call.Returned? then ErrorFields(REPLY_ITEMS - 1)
    else
      match parse(QuoteRewrite(call.text))
      case Parsed(items) => if |items| == REPLY_ITEMS then items else ErrorFields(REPLY_ITEMS - 1)
      case SyntaxErr => ErrorFields(REPLY_ITEMS - 1)
      case OtherErr => ErrorFields(REPLY_ITEMS - 1)
  }

  /** A row's record is the parsed reply exactly when the PDF was read, the
      client returned, and the rewritten reply parses to five answers; every
      other row gets `['ERROR' x 4, -9999]`, and an unreadable PDF asks nothing. */
  lemma ContentRecordCases(pdf: Pdf, call: Completion.Completion, parse: string -> Literal)
    ensures var r, ok := ContentRecord(pdf, call, parse),
        pdf.Pages? && call.Returned? && parse(QuoteRewrite(call.text)).Parsed?
        && |parse(QuoteRewrite(call.text)).items| == REPLY_ITEMS;
      && (ok ==> r == parse(QuoteRewrite(call.text)).items)
      && (!ok ==> r == [Str(ERROR), Str(ERROR), Str(ERROR), Str(ERROR), Int(SENTINEL)])
    ensures Asked(pdf).None? <==> pdf.Unreadable?
  {
  }

  /** What the script writes: every paper with its record, and the practical
      rows; `asked` holds, per row, the snippet block its prompt carried. */
  datatype ContentTables<P> = ContentTables(all: seq<Joined<P>>, practical: seq<Joined<P>>, asked: seq<Option<string>>)

  /** The body of the main loop for one paper: the record it appends and the
      snippet block its prompt carries, if a prompt is sent. */
  method AskContent(pdf: Pdf, call: Completion.Completion, parse: string -> Literal) returns (record: Record, block: Option<string>)
    ensures record == ContentRecord(pdf, call, parse)
    ensures block == Asked(pdf)
  {
    if pdf.Unreadable? {
      return ErrorFields(REPLY_ITEMS - 1), None;
    }
    var pages := CollectPages(pdf.pages);
    var text := Join(Tail(pages), "\n");
    var snippets := Snippets(text);
    block := Some(Block(snippets));
    record := ErrorFields(REPLY_ITEMS - 1);
    if call.Returned? {
      var response := QuoteRewrite(call.text);
      match parse(response) {
        case Parsed(items) =>
          if |items| == REPLY_ITEMS {
            record := items;
          }
        case SyntaxErr =>
        case OtherErr =>
      }
    }
  }

  /** `main`: one record per paper, in row order; no row stops the script. */
  method FilterPracticalContent<P>(papers: seq<P>, pdfs: seq<Pdf>, calls: seq<Completion.Completion>, parse: string -> Literal)
    returns (out: ContentTables<P>)
    requires |pdfs| == |papers| && |calls| == |papers|
    ensures |out.all| == |papers| && |out.asked| == |papers|
    ensures forall i :: 0 <= i < |papers| ==> out.all[i] == Joined(papers[i], ContentRecord(pdfs[i], calls[i], parse))
    ensures forall i :: 0 <= i < |papers| ==> out.asked[i] == Asked(pdfs[i])
    ensures out.practical == Practical(out.all)
  {
    ghost var records := seq(|papers|, j requires 0 <= j < |papers| => ContentRecord(pdfs[j], calls[j], parse));
    ghost var blocks := seq(|papers|, j requires 0 <= j < |papers| => Asked(pdfs[j]));
    var output: seq<Record> := [];
    var asked: seq<Option<string>> := [];
    for i := 0 to |papers|
      invariant output == records[..i] && asked == blocks[..i]
    {
      var record, block := AskContent(pdfs[i], calls[i], parse);
      output := output + [record];
      asked := asked + [block];
    }
    assert output == records && asked == blocks;
    var all := JoinRows(papers, output);
    return ContentTables(all, Practical(all), asked);
  }
}
