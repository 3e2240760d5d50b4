# paper_reader, modelled in Dafny

paper_reader is a set of batch scripts. They scrape a paperdigest listing of machine-learning papers. They ask a chat-completion API to summarise, categorise and judge the practicality of each paper, from its abstract or from snippets of its PDF. They pass the results between runs as CSV files. This project models the sequential logic between the network and the DataFrame calls, and proves properties of it:

- **the completion client** (`src/utils.py`, module `Completion`):
  - a bounded retry loop over the endpoint's answers;
  - read timeouts and content-less 429/503 responses are retried;
  - it gives up once the counter exceeds 5.
- **record assembly** (modules `AbstractInfo`, `PracticalAbstracts`, `PracticalContent`, `PaperCategories`):
  - each reply is parsed, optionally after a quote-neutralising rewrite, and checked for its exact length;
  - it becomes either a typed record or a fixed ERROR record flagged -9999;
  - there is one record per row (or per group of titles), in order;
  - an exception the script does not catch stops the whole run (`Batch.Outcome`).
- **category clean-up and distinct counts** (module `Categories`):
  - delete `-` and spaces, optionally lowercase, and drop one trailing `s` unless the label ends in `ss`;
  - count the distinct labels in sorted order, as `np.unique(..., return_counts=True)` does.
- **index arithmetic**:
  - `n // B + 1` groups and `np.array_split` (module `Grouping`);
  - collecting PDF pages up to "References" and cutting ten 500-character snippets (`PracticalContent`);
  - extracting the OpenReview slug with `forum-id-(.+?)-` (module `References`).
- **row filters**:
  - the `flag != 0` selection (`Batch`);
  - the keep-table `dropna` and category membership (module `Desirable`).

How the outside world is modelled:

- The network is a parameter:
  - the completion endpoint is the sequence of its answers to successive POSTs;
  - each batch script receives one completion result per call;
  - page fetches, PDFs and the listing page are given as already-extracted strings or failure markers.
- `ast.literal_eval` is a parameter `parse: string -> Literal`. It returns a parsed list, a syntax error, or another error.
- The seeded shuffle is a parameter: a permutation of the row indices.
- `B`, the titles-per-prompt constant, is a parameter `B >= 1`. `src/config.py` does not define it.

## Model

| member | source | states |
|---|---|---|
| `Values.ErrorFields` | src/get_info_from_abstract.py:115 | The error record's tail: `k` copies of 'ERROR' followed by the -9999 flag, `k + 1` fields in all. |
| `Text.Contains` | src/filter_practical_content.py:42 | Defines Python's `pat in s`: `pat` occurs at some position of `s`. |
| `Text.EndsWith` | src/get_info_from_abstract.py:137 | Defines `s.endswith(suffix)`: the last `len(suffix)` characters of `s` are `suffix`. |
| `Text.Replace` | src/get_info_from_abstract.py:105 | Defines Python's `s.replace(pat, rep)`: scanning left to right, every occurrence that does not overlap an earlier replaced one becomes `rep`. |
| `Text.ReplaceLength` | src/get_info_from_abstract.py:105 | Each replaced occurrence changes the length by `len(rep) - len(pat)`. |
| `Text.CountZeroIffAbsent` | src/get_info_from_abstract.py:105 | The replacement rewrites at least one occurrence exactly when `pat in s`. |
| `Text.ReplaceAbsent` | src/get_info_from_abstract.py:105 | Text in which the pattern does not occur comes back unchanged. |
| `Text.ReplaceChars` | src/get_info_from_abstract.py:136 | Every character of the result comes from the text or from the replacement. |
| `Text.DeleteRemoves` | src/get_info_from_abstract.py:136 | Replacing a one-character pattern by the empty string leaves no occurrence of that character. |
| `Text.LengtheningReplace` | src/get_info_from_abstract.py:105 | A replacement by a longer string never shortens the text. It keeps the length, and then the whole text, exactly when the pattern is absent. |
| `Text.TwoReplacesUnchanged` | src/get_info_from_abstract.py:105 | Two lengthening replacements in a row leave the text unchanged exactly when neither pattern occurs in it. |
| `Text.Join` | src/filter_practical_content.py:44 | Defines `sep.join(xs)`: the pieces in order with `sep` between each two, and the empty string for no pieces. |
| `Text.JoinLength` | src/filter_practical_content.py:55 | A join of `k >= 1` pieces is the pieces' total length plus exactly `k - 1` separators long. |
| `Text.Slice` | src/filter_practical_content.py:53 | Python's `s[lo:hi]` for non-negative bounds: the ordinary slice within bounds, the rest of the text when `hi` runs past the end, and never longer than the text or than `hi - lo`. |
| `Text.Lower` | src/get_info_from_abstract.py:136 | `str.lower()` on ASCII: the same length, every capital becomes its lowercase letter, every other character is kept, and no capital is left. |
| `Completion.Body` | src/utils.py:31-39 | Every POST body names gpt-3.5-turbo-1106 and temperature 0, carries the given max_tokens, and has the system message followed by the user message. |
| `Completion.Retryable` | src/utils.py:42-55 | Defines the answers the loop retries, each adding one to `acc`: a read timeout, or a response without content whose status is 429 or 503. |
| `Completion.Verdict` | src/utils.py:47-58 | An answer that is not retried never ends the call as "Model is overloaded.". |
| `Completion.CallFrom` | src/utils.py:28-58 | Defines the rest of a call once `acc` retryable failures are counted: overloaded once `acc > 5`, one more round after a timeout or a content-less 429/503, and otherwise the verdict of the current answer. |
| `Completion.Call` | src/utils.py:26-62 | Defines a whole call as the loop started with `acc = 0`. |
| `Completion.CallFromEnds` | src/utils.py:28-58 | From any counter value reached by retries, the call ends within the six attempts. Every answer but the last was retried. The call ends overloaded exactly when all six were retried, and otherwise as the last answer dictates. |
| `Completion.CallEnds` | src/utils.py:26-62 | A call issues between one and six POSTs. Every answer before the last was a timeout or a content-less 429/503. The call raises "Model is overloaded." exactly when the first six answers were all retried. Otherwise it ends as the last answer dictates. |
| `Completion.CallFromStopsAt` | src/utils.py:40-58 | Retried answers only advance the counter: from any earlier counter, the first final answer decides the call. |
| `Completion.StopsAtFirstFinalAnswer` | src/utils.py:28-58 | The first answer among the first six that is not retried decides the result, and no POST follows it. |
| `Completion.ReturnsFirstContent` | src/utils.py:47-62 | The first response carrying content ends the call with exactly that text, after exactly that many POSTs. |
| `Completion.FatalStatusStops` | src/utils.py:50-58 | A content-less response whose status is neither 429 nor 503 raises "Response code ..." at once, with no further POST. |
| `Completion.NullContentRaises` | src/utils.py:47-61 | Null content is never returned; the call raises "Maximum retries reached.". |
| `Completion.SixTimeoutsOverload` | src/utils.py:26-46 | Six read timeouts in a row give six POSTs, then "Model is overloaded.". |
| `Completion.ThreeRateLimitsThenText` | src/utils.py:50-55 | Three 429s and then content give the content on the fourth POST. |
| `Completion.PromptChatGpt` | src/utils.py:9-62 | The loop returns or raises exactly what the call's specification says. It posts as many identical bodies as that specification's attempt count. |
| `Batch.AllDone` | src/get_info_from_abstract.py:95-115 | A row loop either yields one value per row, in row order, or stops with the reason of the first row that raised, all rows before it having succeeded. |
| `Batch.FirstFailure` | src/filter_practical_abstracts.py:33-77 | When the rows before `i` succeeded and row `i` raised, the script stops with row `i`'s reason. |
| `Batch.NoFailure` | src/get_info_from_abstract.py:96-115 | When every row succeeded, the output is exactly the rows' records. |
| `Batch.AllDoneRefined` | src/get_paper_categories.py:61-83 | When a second run over the same rows agrees with the first on every row it completes, and otherwise stops for one reason `e`, the two scripts agree whenever the second completes, and where they differ the second stops for `e`. |
| `Batch.QuoteRewrite` | src/get_info_from_abstract.py:105 | Defines the rewrite as the two `str.replace` calls in order: first `\n "` to `\n """`, then `",\n` to `""",\n`. |
| `Batch.QuoteRewriteUnchanged` | src/get_info_from_abstract.py:105 | The rewrite leaves a reply unchanged exactly when neither the newline-space-quote pattern nor the quote-comma-newline pattern occurs in it. |
| `Batch.JoinRows` | src/get_info_from_abstract.py:124-127 | The concatenated frame pairs input row `i` with record `i`. |
| `Batch.WithColumn` | src/get_info_from_abstract.py:140 | Assigning a column replaces field `f` of record `i` by entry `i` of the column, and changes no other field, record length or record count. |
| `Batch.FlagNotZero` | src/get_info_from_abstract.py:148 | Defines the `abs_binary != 0` test on one joined row: its last field is not the integer 0, so -9999, strings and non-zero numbers pass. |
| `Batch.Practical` | src/get_info_from_abstract.py:148 | Defines `query('abs_binary != 0')` as the filter on the record's last field not being the integer 0. |
| `Batch.PracticalRows` | src/get_info_from_abstract.py:148 | The `!= 0` selection keeps rows unchanged and in order. A row is kept exactly when its flag is not 0, so -9999 error rows are kept. Every copy of a kept row survives: its multiplicity is unchanged, and a dropped row's is 0. |
| `Categories.Squeeze` | src/get_info_from_abstract.py:136 | Defines the deletion of every `-` and then every space, followed by lowercasing when asked (lowercasing is left out at src/get_paper_categories.py:89). |
| `Categories.Normalize` | src/get_info_from_abstract.py:136-138 | Defines the normal form: the squeezed label, less one trailing `s` when it ends in `s` but not `ss`. |
| `Categories.SqueezeShape` | src/get_info_from_abstract.py:136 | After the deletions no `-` or space is left, and no capital letter is left when lowercasing. |
| `Categories.NormalizeShape` | src/get_info_from_abstract.py:136-138 | The normalised label holds no `-`, no space, and (when lowercasing) no capital. It is the squeezed label minus exactly one final `s` when that label ends in `s` but not `ss`, and the squeezed label otherwise. |
| `Categories.DropsOnce` | src/get_info_from_abstract.py:137-138 | After one trailing `s` is dropped, the label no longer qualifies for another drop. |
| `Categories.SqueezeSqueezed` | src/get_info_from_abstract.py:136 | Squeezing a label with no `-`, no space and no capital changes nothing. |
| `Categories.NormalizeIdempotent` | src/get_info_from_abstract.py:136-138 | Normalising a normalised label changes nothing. |
| `Categories.NormalizeAll` | src/get_paper_categories.py:88-92 | The cleaned column has one normalised label per raw label, in order. |
| `Categories.CleanCategories` | src/get_info_from_abstract.py:134-140 | The loop succeeds exactly when every category is a string; otherwise it raises AttributeError. On success it yields exactly `NormalizeAll`: one normal form per category, in order. |
| `Categories.BelowIrreflexive` | src/get_info_from_abstract.py:151 | The sort order used for distinct labels is strict. |
| `Categories.BelowTransitive` | src/get_info_from_abstract.py:151 | The sort order is transitive. |
| `Categories.BelowTotal` | src/get_info_from_abstract.py:151 | Any two different labels are ordered one way or the other. |
| `Categories.Tally` | src/get_info_from_abstract.py:151 | Defines `np.unique(..., return_counts=True)` as counting the labels one at a time into a table sorted by code points. |
| `Categories.InsertCounts` | src/get_info_from_abstract.py:151 | Counting one more label keeps the table sorted and adds one to that label's count only. |
| `Categories.TallyInvariant` | src/get_info_from_abstract.py:151 | The distinct table is sorted. Its counts add up to the number of labels, and each label's count is its number of occurrences. |
| `Categories.DistinctCounts` | src/get_info_from_abstract.py:151-152 | Distinct categories come out strictly increasing, so without duplicates. Every occurring label is listed. Each count is its number of occurrences and at least 1. The counts sum to the number of rows. |
| `Grouping.NumSplits` | src/get_paper_categories.py:51 | `n // B + 1` is the least group count `k` with `n < k * B`. |
| `Grouping.StartClosed` | src/get_paper_categories.py:56 | The division points are numpy's `j * (n // k) + min(j, n % k)`. |
| `Grouping.Piece` | src/get_paper_categories.py:56 | Group `j` holds `n // k` entries, plus one for the first `n % k` groups. |
| `Grouping.Size` | src/get_paper_categories.py:56 | Defines numpy's `array_split` size of group `j` out of `k`: `n // k`, plus one for each of the first `n % k` groups. |
| `Grouping.ArraySplit` | src/get_paper_categories.py:56 | There are exactly `k` groups, sized as above. |
| `Grouping.FlattenSplit` | src/get_paper_categories.py:56 | Concatenating the groups gives back the original title sequence. |
| `Grouping.SizesBalanced` | src/get_paper_categories.py:56 | Group sizes differ by at most one, and larger groups come first. |
| `Grouping.GroupsFit` | src/get_paper_categories.py:51-53 | With `n // B + 1` groups, every group holds at most `B` titles, as the log message states. |
| `Grouping.LastGroupEmpty` | src/get_paper_categories.py:51-56 | The last group is the smallest. It is empty exactly when `B == 1` or there are no papers. |
| `Grouping.SplitAligned` | src/get_paper_categories.py:56-57 | Title and highlight groups have the same sizes, and splitting the paired column pairs group `j` of each. |
| `AbstractInfo.AbstractText` | src/get_info_from_abstract.py:97-100 | Defines the abstract used in the prompt: the fetched text, the fallback sentence after an IndexError, and a stop on any other exception. |
| `AbstractInfo.AbstractRecord` | src/get_info_from_abstract.py:97-115 | Every record a row produces has seven fields. The first is the fetched abstract, or the fallback sentence. |
| `AbstractInfo.AbstractRecordCases` | src/get_info_from_abstract.py:97-115 | A row stops the script exactly when the fetch raises something other than IndexError, the client raises, or parsing raises something other than SyntaxError. A six-item reply gives `[abstract] + reply`. Any other parsed reply, or a syntax error, gives `'ERROR'` x 5 and -9999. |
| `AbstractInfo.MissingAbstractFallsBack` | src/get_info_from_abstract.py:97-100 | An IndexError while fetching substitutes the fallback sentence, and the row is still processed. |
| `AbstractInfo.AbstractRecords` | src/get_info_from_abstract.py:96-115 | Row `i`'s outcome is the row function applied to row `i`'s fetch and call. |
| `AbstractInfo.Records` | src/get_info_from_abstract.py:95-115 | A completed loop has one seven-field record per row. |
| `AbstractInfo.AskAbstract` | src/get_info_from_abstract.py:97-115 | One pass of the main loop ends exactly as the row function says. |
| `AbstractInfo.CollectRecords` | src/get_info_from_abstract.py:95-115 | The main loop appends exactly one record per row, in order, or stops at the first row that raises. |
| `AbstractInfo.GetInfoFromAbstract` | src/get_info_from_abstract.py:89-152 | The whole script, stage by stage: it stops on the first raising row or on a non-string category. Otherwise its outputs are the papers joined to their records with lowercased normal-form categories, the `!= 0` rows of that table, and the distinct counts of those categories. |
| `PracticalAbstracts.PracticalRecord` | src/filter_practical_abstracts.py:35-77 | Every record a row produces has six fields, the first being the fetched abstract. |
| `PracticalAbstracts.PracticalRecordCases` | src/filter_practical_abstracts.py:35-77 | Any fetch or client failure stops the script, and so does a parse error other than SyntaxError. The raw reply is parsed without the rewrite. A five-item reply gives `[abstract] + reply`. Otherwise the record is `[abstract, 'ERROR' x 4, -9999]`. |
| `PracticalAbstracts.PracticalRecords` | src/filter_practical_abstracts.py:33-77 | Row `i`'s outcome is the row function applied to row `i`'s fetch and call. |
| `PracticalAbstracts.FilterPracticalAbstracts` | src/filter_practical_abstracts.py:26-89 | One record per paper, in row order, joined to its paper, or the first raising row's reason. |
| `PracticalContent.UpToReferencesStops` | src/filter_practical_content.py:39-43 | The kept pages are a prefix of the document, and no kept page but the last mentions "References". Collection stops early only right after such a page, which is kept. With no such page, every page is kept. |
| `PracticalContent.CollectPages` | src/filter_practical_content.py:37-43 | The page loop with its `break` keeps exactly those pages. |
| `PracticalContent.UpToReferences` | src/filter_practical_content.py:39-43 | Defines the pages the page loop keeps: every page up to and including the first that contains `References`. |
| `PracticalContent.PaperText` | src/filter_practical_content.py:44 | Defines the text as the kept pages except the first, joined with `\n`. |
| `PracticalContent.Tail` | src/filter_practical_content.py:44 | `text[1:]`: the pages after the first, or none when there is no page. |
| `PracticalContent.PaperTextShape` | src/filter_practical_content.py:39-44 | The first kept page never reaches the text. With at most one kept page, including a first page that already mentions `References`, the text is empty. Otherwise the text starts with the second kept page, and its length is the summed lengths of the kept pages after the first, plus one newline between each two of them. |
| `PracticalContent.OffsetInside` | src/filter_practical_content.py:51-53 | Each snippet offset `i * n` lies at least `n` characters before the end of the text, so every snippet starts inside the text. |
| `PracticalContent.SnippetsOf` | src/filter_practical_content.py:50-54 | There are exactly ten snippets. |
| `PracticalContent.SnippetsInText` | src/filter_practical_content.py:50-54 | Snippet `i` is the text found at offset `i * (len(text) // 10)`. It is 500 characters long, or runs to the end of the text. |
| `PracticalContent.FullSnippets` | src/filter_practical_content.py:50-54 | A text of at least 5000 characters gives ten snippets of exactly 500 characters. |
| `PracticalContent.Snippets` | src/filter_practical_content.py:50-54 | The snippet loop produces exactly those ten snippets. |
| `PracticalContent.BlockLength` | src/filter_practical_content.py:55 | The joined block holds the snippets and exactly nine separators. |
| `PracticalContent.Block` | src/filter_practical_content.py:55 | Defines the snippet block: the snippets joined with `\n----------\n`. |
| `PracticalContent.Asked` | src/filter_practical_content.py:34-66 | Defines the snippet block a row's prompt carries: none when the PDF cannot be read, otherwise the block of the text's ten snippets. |
| `PracticalContent.ContentRecord` | src/filter_practical_content.py:45-101 | Every row's record has five fields. |
| `PracticalContent.ContentRecordCases` | src/filter_practical_content.py:45-101 | The record is the parsed reply exactly when the PDF was read, the client returned, and the rewritten reply parses to five items. Otherwise it is `['ERROR' x 4, -9999]`. An unreadable PDF sends no prompt. |
| `PracticalContent.AskContent` | src/filter_practical_content.py:34-101 | One pass of the main loop appends exactly the record `ContentRecord` specifies, and sends the snippet block `Asked` specifies, or no prompt for an unreadable PDF. |
| `PracticalContent.FilterPracticalContent` | src/filter_practical_content.py:26-124 | Exactly one record per paper, in row order, and no row stops the script. Each prompt carries its row's snippet block. The practical output is the `!= 0` rows. |
| `PaperCategories.SecondColumnAsWritten` | src/get_paper_categories.py:80 | Defines `list(zip(*response))[1]` as written: an empty reply raises IndexError; otherwise every pair must have a second component. |
| `PaperCategories.Second` | src/get_paper_categories.py:80 | Defines what `zip` takes as the second item of one reply element: the second character of a string, the second entry of a list, and nothing for a shorter or non-iterable element. |
| `PaperCategories.SecondColumn` | src/get_paper_categories.py:80 | The corrected reading of line 80 (see "## Findings"): the second components of the parsed pairs, one per pair and in order, when every pair has one, so an empty reply gives no categories. Otherwise the script stops. |
| `PaperCategories.SecondColumnEmptyReply` | src/get_paper_categories.py:80 | The expression as written agrees with the corrected one on every non-empty reply, and raises on the empty one. |
| `PaperCategories.EmptyGroupStops` | src/get_paper_categories.py:51-80 | With `B == 1` or no papers, the last group is empty. A reply parsing to `[]` then passes the length check and stops the script as written, where the corrected group adds nothing. |
| `PaperCategories.GroupCategories` | src/get_paper_categories.py:75-83 | Defines one group's categories with the corrected line 80: a client error or a non-SyntaxError parse failure stops the script, and a syntax error or a length mismatch gives `'ERROR'` per paper. |
| `PaperCategories.GroupCategoriesAsWritten` | src/get_paper_categories.py:75-83 | Defines the same group with line 80 as written. |
| `PaperCategories.GroupAsWrittenAgrees` | src/get_paper_categories.py:75-83 | A group as written agrees with the corrected group whenever it completes. Where they differ, the group as written stops with IndexError, and the group is empty. |
| `PaperCategories.GroupCategoriesCases` | src/get_paper_categories.py:75-83 | A group that does not stop the script adds exactly `len(titles)` categories: the second components of a right-length reply, or 'ERROR' for each paper after a syntax error or a length mismatch. A raised client error stops the script. |
| `PaperCategories.GroupOutcomes` | src/get_paper_categories.py:61-83 | Group `j`'s outcome is the group function applied to its size and call. |
| `PaperCategories.GroupSizes` | src/get_paper_categories.py:56 | Defines the group sizes: `k` of them, group `j` holding its `np.array_split` size `Grouping.Size(n, k, j)`. |
| `PaperCategories.RawCategories` | src/get_paper_categories.py:51-83 | Defines the raw category column with the corrected line 80: the groups' categories in group order, or the first group's reason to stop. |
| `PaperCategories.GroupOutcomesAsWritten` | src/get_paper_categories.py:61-83 | Group `j`'s outcome as written is the as-written group function applied to its size and call. |
| `PaperCategories.RawCategoriesAsWritten` | src/get_paper_categories.py:51-83 | Defines the raw category column with line 80 as written. |
| `PaperCategories.RawAsWrittenAgrees` | src/get_paper_categories.py:51-83 | The script as written and the corrected script give the same column whenever the one as written completes. Where they differ, the one as written stops with IndexError. With `B >= 2` and at least one paper, they always agree. |
| `PaperCategories.LastEmptyReplyStops` | src/get_paper_categories.py:51-83 | With `B == 1` or no papers, when the earlier groups complete and the empty last group's reply parses to `[]`, the script as written stops with IndexError, while the corrected script completes. |
| `PaperCategories.CategoryPerPaper` | src/get_paper_categories.py:83-94 | The collected categories number exactly the papers, as the column assignment requires. |
| `PaperCategories.AskGroup` | src/get_paper_categories.py:75-83 | One pass of the group loop ends exactly as the group function says. When it does not stop the script, it adds exactly one category per paper of the group. |
| `PaperCategories.AskGroups` | src/get_paper_categories.py:51-83 | The group loop yields the raw column: all groups' categories in group order, or the reason of the first group that stops the script. On success, each prompt lists its group's (title, highlight) pairs, row-aligned. |
| `PaperCategories.GetPaperCategories` | src/get_paper_categories.py:46-101 | The whole script. It stops with the first raising group, or on a non-string category. Otherwise it outputs each paper with the normal form (not lowercased) of its category, the distinct counts, and per group the aligned (title, highlight) pairs of its prompt. |
| `References.GroupEnd` | src/get_paper_references.py:42 | The lazy group ends at the first `-` after its first character, unless a newline comes first. |
| `References.SlugAt` | src/get_paper_references.py:42 | Defines a match of `forum-id-(.+?)-` from position `i` to the closing `-` at `j`, independently of the search: the marker, then a group of at least one character with no newline and no `-` after its first character, then `-`. |
| `References.MatchEnd` | src/get_paper_references.py:42 | A match at a `forum-id-` position is found exactly when one exists. |
| `References.SearchFrom` | src/get_paper_references.py:42 | The search returns the leftmost matching position, or reports that none exists. |
| `References.Slug` | src/get_paper_references.py:42 | Defines `re.search('forum-id-(.+?)-', href)[1]` as the group of the first match the scan finds, or none. |
| `References.SlugIsLeftmostMatch` | src/get_paper_references.py:42 | The slug is the group of the leftmost match. It is absent exactly when no match exists. |
| `References.SlugShape` | src/get_paper_references.py:42 | A slug is non-empty and holds no newline. Only its first character can be `-`. |
| `References.PaperFor` | src/get_paper_references.py:40-45 | A link without a slug stops the script. Otherwise the URL is the forum prefix followed by the slug, the title is kept, and the highlight is the blurb without its first two characters (empty for a shorter blurb). |
| `References.PapersFor` | src/get_paper_references.py:39-45 | Row `i`'s outcome is the row function applied to cell `i`. |
| `References.GetPaperReferences` | src/get_paper_references.py:28-48 | A non-200 status raises before any row is read. Otherwise the output is one tuple per cell in document order, shuffled by the permutation, with nothing added or dropped. |
| `Seqs.PermuteKeepsRows` | src/get_paper_references.py:48 | Reordering by a permutation keeps every row with its multiplicity. |
| `Desirable.DropNaRows` | src/filter_desirable_categories.py:21 | `dropna` keeps, in order, exactly the rows that miss no value, each with its multiplicity; an incomplete row's multiplicity becomes 0. |
| `Desirable.KeepList` | src/filter_desirable_categories.py:21-25 | The keep list holds exactly the categories of complete rows. |
| `Desirable.DropNa` | src/filter_desirable_categories.py:21 | Defines `dropna(axis=0)` as the filter on rows with both a category and a count. |
| `Desirable.Complete` | src/filter_desirable_categories.py:21 | Defines the rows `dropna(axis=0)` keeps: both the category and the count are present. |
| `Desirable.FilterDesirable` | src/filter_desirable_categories.py:25 | Defines `paper_df[np.isin(category, keep)]` as the filter on papers whose category is in the keep list. |
| `Desirable.Wanted` | src/filter_desirable_categories.py:25 | Defines the `np.isin` mask for one paper: its category is present and occurs in the keep list. |
| `Desirable.FilterDesirableSelects` | src/filter_desirable_categories.py:25 | A paper is kept exactly when its category is that of a complete row. Kept papers keep their order, their fields and their multiplicity. |

## Left out

- HTTP is not modelled: `requests.get`, `requests.post`, timeouts and `time.sleep`. The completion endpoint is a sequence of answers. Page, PDF and listing fetches are given as extracted strings or failure markers.
- HTML parsing, XPath and the abstract-extraction regexes are not modelled.
  - `src/get_info_from_abstract.py:160-170` is represented only by its three outcomes: the abstract, an IndexError from an empty XPath result, or any other exception.
  - In `src/get_paper_references.py`, a missing title, link or blurb node (an IndexError on `[0]`) is not modelled.
- PDF text extraction (`fitz`) is not modelled. A document is its page texts, or "unreadable" for any failure while downloading, opening or reading it.
- The Python literal grammar is not modelled. `parse` stands for `ast.literal_eval`, and its results are limited to a parsed list, SyntaxError or any other exception.
  - Non-list literals are left out: tuples, strings and dicts, whose `[abstract] + response` would raise TypeError.
  - Integer-like values other than `int` are left out as well: a flag of `False` or `0.0` compares equal to 0 in the `!= 0` selection, whereas `Values.Scalar` is always kept.
- pandas and numpy are modelled only where they decide content: `concat(axis=1)` of equal-length frames, `query('... != 0')`, `np.array_split`, `np.unique(..., return_counts=True)`, `dropna(axis=0)` and `np.isin`.
  - The CSV round trip is not modelled: which cells read back as NaN, and numeric parsing of category strings.
  - Logging is not modelled, including `sum(abs_binary)` at `src/filter_practical_abstracts.py:91`, which can raise TypeError on a column mixing strings and numbers.
- Categories.Normalize: `str.lower()` is modelled as ASCII lowercasing. Unicode case mapping is not modelled.
- Text.Replace: requires a non-empty pattern. Python's `str.replace` with an empty pattern inserts `rep` between characters, and no script passes one.
- The prompt text is not modelled. Each batch script takes the completion result of every call as an input. The modelled part of each prompt is exposed as data: the snippet block, and the title/highlight pairs of each group.
- The output file names are not modelled. `src/config.py` defines neither `TITLES_PER_PROMPT` nor `ABSTRACTS_FILENAME` (read by `src/filter_practical_abstracts.py:93`, so that script as given ends in AttributeError after its loop), nor `CATEGORIZED_DATA_FILENAME`. The batch size is a parameter `B >= 1`.
- The exception types are merged. Every uncaught exception becomes a `Batch.Reason`: a client error with its kind, a fetch failure, a literal error, an unusable reply (IndexError, TypeError or AttributeError), a bad listing status, or a missing slug. Exception messages are not modelled.
- The seeded `DataFrame.sample(frac=1, random_state=2112)` is not modelled. The model takes its permutation as a parameter.
- PaperCategories.GroupCategories: models line 80 of src/get_paper_categories.py as corrected (see "## Findings"). An empty group whose reply parses to `[]` adds nothing, where the code as written raises IndexError. The as-written reading is `PaperCategories.GroupCategoriesAsWritten`.
- PaperCategories.GroupOutcomes: built on the corrected group, as above.
- PaperCategories.RawCategories: the corrected script. The script as written is `PaperCategories.RawCategoriesAsWritten`, and `PaperCategories.RawAsWrittenAgrees` relates the two: they differ only where the one as written stops with IndexError, which needs `B == 1` or no papers.
- PaperCategories.AskGroup: follows the corrected line 80, as above.
- PaperCategories.AskGroups: follows the corrected line 80, as above.
- PaperCategories.GetPaperCategories: its ensures describe the corrected script. With `B == 1` or no papers, a `[]` reply for the empty last group makes the code as written stop before writing anything (`PaperCategories.LastEmptyReplyStops`), where this method completes.

## Findings

| source | as written | input that shows it | evidently intended | confidence | as-written member | corrected member |
|---|---|---|---|---|---|---|
| src/get_paper_categories.py:80 | `list(zip(*response))[1]` indexes the transposed reply, and `zip()` of an empty reply is empty, so an empty group whose reply parses to `[]` passes the length assertion and raises IndexError, stopping the script | no papers (`n = 0`), or `B = 1`: `n // B + 1` groups then outnumber the papers and the last group is empty; its reply `[]` parses to an empty list (`PaperCategories.EmptyGroupStops`) | a group adds one category per paper, so an empty group adds none | not executed | `PaperCategories.SecondColumnAsWritten` | `PaperCategories.SecondColumn` |
