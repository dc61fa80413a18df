# arxiv-sanity-bot, modelled in Dafny

A model of the paper-gathering and summarizing core of arxiv-sanity-bot. The bot finds recent machine-learning papers, ranks them, and tweets a short summary of each with the first figure of the paper. The model covers:

- **The ranking pipeline** (`RankedPapers`, `Schemas`). It extracts fields from feed JSON and adapts alphaXiv and HuggingFace items into records. It runs the paginated alphaXiv loop with its vote-percentile cut and the day-by-day HuggingFace loop. It merges the two lists into scored records, sorts them by `(-score, average_rank)`, and keeps the papers inside an inclusive publication window.
- **The text and identifier helpers** (`PyStrings`, `Sanitize`, `ArxivSanity`, `ArxivApi`):
  - both `sanitize_text` variants;
  - both arXiv-identifier extractors;
  - `get_url`;
  - the arxiv-sanity page-batch download with its strict time filter and score sort;
  - the arXiv API pagination loop with its inclusive window, the strict re-filter, the inner join with scores, and the score sort.
- **The first-figure choice** (`ExtractImage`). This is the image-or-graph selection rule, the per-page image search and the output file name.
- **The two length-budgeted LLM summarizers** (`Chat`, `OpenAI`, `ChatGPT`). Each runs bounded retry and shorten rounds and fails fatally on exhaustion.

Everything the code reaches over the network or the file system is a parameter of the model, an oracle the caller supplies:

- alphaXiv pages and HuggingFace days, as `nat -> PageResult` and `nat -> DayResult`;
- arXiv API responses, as a sequence, where a request past its end fails;
- the arxiv-sanity batch download, and the Altmetric score lookup;
- the PDF image and graph extractors;
- LLM completions, as `client(callNumber, history)`.

Publication dates go through an opaque `parse: string -> Option<int>` into timestamps. The alphaXiv vote percentile is an opaque `threshold: seq<int> -> real`.

Python's `sorted` is a stable sort and is modelled as a stable insertion sort (`Sorting.StableSort`). Its contract gives order, permutation, and the original order within each class of equal keys. pandas' `sort_values` is not stable, so the results of the two older fetchers promise only order and the multiset of rows.

Where the code and its design description disagree, the model follows the code:

- The alphaXiv loop applies no date narrowing. The percentile is taken over every fetched paper that has votes.
- An item whose id is falsy is skipped silently (`_from_alphaxiv` returns `None`). It is not a fatal error.
- A present id whose title, abstract or date is missing does not give an empty field. The `or ""` default fails pydantic's `min_length=1` check, and the page fetch raises.
- In the arXiv API fetcher, a parse failure on any entry ends the whole fetch with what was gathered so far. This happens because the `try` wraps the entire page.

## Model

| member | source | states |
|---|---|---|
| Config.AllowedCharacters | arxiv_sanity_bot/config.py:22 | A character is allowed exactly when it is a lower- or upper-case ASCII letter, a digit, or one of `.,!?'- ` |
| PyStrings.SplitJoin | arxiv_sanity_bot/sanitize_text.py:8 | Splitting the space-join of whitespace-free non-empty words gives back exactly those words (`" ".join(s.split())` inverts) |
| PyStrings.CollapseKeepsNonSpaces | arxiv_sanity_bot/sanitize_text.py:8 | Collapsing whitespace keeps every non-whitespace character, in order |
| PyStrings.CollapseIdempotent | arxiv_sanity_bot/sanitize_text.py:15 | Collapsing whitespace twice equals collapsing it once; the result has no leading, trailing or doubled space |
| PyStrings.StripIdempotent | arxiv_sanity_bot/models/chatGPT.py:31 | `strip()` removes all leading and trailing whitespace: stripping again changes nothing, and a string without edge whitespace is kept as is |
| PyStrings.SplitInterleave | arxiv_sanity_bot/sanitize_text.py:8 | Non-empty whitespace-free words set apart by whitespace runs (any or none at either end) split back into exactly those words |
| PyStrings.SplitSameShape | arxiv_sanity_bot/sanitize_text.py:8 | Two strings with whitespace at the same positions and the same other characters split into the same words |
| PyStrings.SplitJoinNonEmpty | arxiv_sanity_bot/sanitize_text.py:12-15 | Space-joining whitespace-free pieces, some possibly empty, and splitting again gives the non-empty pieces in order |
| PyStrings.ParseShowInt | arxiv_sanity_bot/schemas.py:30 | Every integer written in decimal, with a `-` when negative, reads back as itself |
| Sanitize.SanitizeText | arxiv_sanity_bot/sanitize_text.py:4-15 | Every output character is allowed, and the output is single-spaced: no whitespace but the space, no leading, trailing or double space |
| Sanitize.ReplaceNewlines | arxiv_sanity_bot/sanitize_text.py:5 | Same length; every newline becomes a space and every other character is unchanged |
| Sanitize.SplitReplaceNewlines | arxiv_sanity_bot/sanitize_text.py:5-8 | Replacing newlines by spaces changes no word of the split |
| Sanitize.KeepAllowedJoin | arxiv_sanity_bot/sanitize_text.py:8-12 | Dropping disallowed characters from a space-joined text drops them from each word and keeps the single-space separators |
| Sanitize.SanitizeWords | arxiv_sanity_bot/sanitize_text.py:4-15 | The result is the input's words, each with its disallowed characters dropped, the words left empty dropped, joined by single spaces |
| Sanitize.SanitizeKeepsAllowedText | arxiv_sanity_bot/sanitize_text.py:8-15 | The output's non-space characters are exactly the input's allowed non-whitespace characters, in input order |
| Sanitize.SanitizeEmpty | arxiv_sanity_bot/sanitize_text.py:8-15 | The output is empty exactly when the input has no allowed non-whitespace character (empty, blank and wholly disallowed inputs) |
| Sanitize.SanitizeIdempotent | arxiv_sanity_bot/sanitize_text.py:4-15 | Sanitizing sanitized text returns it unchanged |
| ArxivSanity.SanitizeText | arxiv_sanity_bot/arxiv_sanity/abstracts.py:12-25 | Every output character is allowed and its only whitespace is the space; collapsing its output gives the other variant's result |
| ArxivSanity.SanitizeKeepsAllowedText | arxiv_sanity_bot/arxiv_sanity/abstracts.py:12-25 | Its non-space characters are the input's allowed non-whitespace characters, in order, as in the other variant |
| ArxivSanity.SanitizeLeavesDoubleSpace | arxiv_sanity_bot/arxiv_sanity/abstracts.py:20-25 | On `"a # b"` it returns `"a  b"`, which is not single-spaced, where the other variant returns `"a b"` |
| ArxivSanity.SanitizeWords | arxiv_sanity_bot/arxiv_sanity/abstracts.py:12-25 | The result is the input's words, each with its disallowed characters dropped, joined by single spaces; a word left empty leaves a double space |
| ArxivSanity.SanitizeTextExample | tests/test_arxiv_sanity.py:14-17 | The test's input, written as its whitespace runs and words, gives its words joined by single spaces with the trailing `#@*%&` dropped |
| ArxivSanity.ExtractArxivNumber | arxiv_sanity_bot/arxiv_sanity/abstracts.py:28-32 | The result is the suffix of the href after its last `/` (the whole href when it has none) and contains no `/` |
| ArxivSanity.ExtractFromLink | arxiv_sanity_bot/arxiv_sanity/abstracts.py:32 | Any slash-free identifier is recovered from `prefix + "/" + id` |
| ArxivSanity.ExtractArxivNumberExample | tests/test_arxiv_sanity.py:20-31 | `http://arxiv.org/abs/2303.11177` gives `2303.11177` |
| ArxivSanity.DownloadAllPages | arxiv_sanity_bot/arxiv_sanity/abstracts.py:79-93 | Batches of `chunk_size` consecutive pages starting at 1 cover pages `1..max_pages` exactly once, overshooting by less than one batch; the rows are the batches' downloads concatenated in order |
| ArxivSanity.GetAllAbstracts | arxiv_sanity_bot/arxiv_sanity/abstracts.py:74-110 | The result is the downloaded rows published strictly after `after`, as a multiset, ordered by score, highest first; no download gives no rows |
| ArxivApi.ExtractArxivId | arxiv_sanity_bot/arxiv/arxiv_abstracts.py:26-27 | A returned identifier is a non-empty run of digits and dots |
| ArxivApi.ExtractArxivIdFails | arxiv_sanity_bot/arxiv/arxiv_abstracts.py:27 | The match fails exactly when no `abs/` has at least one character before it, no newline between it and the start of the string, and a digit or dot after it |
| ArxivApi.ExtractArxivIdAt | arxiv_sanity_bot/arxiv/arxiv_abstracts.py:27 | The greedy `.+` picks the last `abs/` that matches, and the id is the maximal digit-and-dot run after it |
| ArxivApi.ExtractFromAbsLink | arxiv_sanity_bot/arxiv/arxiv_abstracts.py:26-27 | For any one-line non-empty prefix, any digit-and-dot id and any `vN` suffix (or none), `prefix + "abs/" + id + suffix` gives `id` |
| ArxivApi.ExtractArxivIdVersionExample | tests/test_arxiv.py:25-31 | `http://arxiv.org/abs/0000.00000v99` gives `0000.00000` |
| ArxivApi.ExtractFromUrl | arxiv_sanity_bot/arxiv/arxiv_abstracts.py:104-105 | `get_url(id)` is a link from which `_extract_arxiv_id` reads `id` back, with or without a version suffix |
| ArxivApi.GetUrlExample | arxiv_sanity_bot/ranking/ranked_papers.py:343-344 | `get_url` (the same function in both modules) builds `https://arxiv.org/abs/<id>` |
| ArxivApi.ReadEntry | arxiv_sanity_bot/arxiv/arxiv_abstracts.py:146-163 | An entry is skipped exactly when its date parses and lies outside `[after, before]`; it is kept exactly when its date lies inside and id, title and summary are present with an extractable id; a kept row carries the extracted id, the stripped title and summary, the published text and the categories |
| ArxivApi.ScanPageComplete | arxiv_sanity_bot/arxiv/arxiv_abstracts.py:146-163 | A page scan raises exactly when some entry raises; when none raises, the row of every kept entry is among the page's rows |
| ArxivApi.ScanPageExact | arxiv_sanity_bot/arxiv/arxiv_abstracts.py:146-163 | A page yields exactly the rows of its kept entries before the first entry that raises, in feed order; rows appended before the exception stay |
| ArxivApi.KeptRows | arxiv_sanity_bot/arxiv/arxiv_abstracts.py:146-163 | The rows of a page's kept entries: each kept entry's row is among them and each of them is a kept entry's row |
| ArxivApi.FirstRaised | arxiv_sanity_bot/arxiv/arxiv_abstracts.py:146-163 | The position of the first entry whose reading raises, or the page length when none does |
| ArxivApi.ScanPageRowsOk | arxiv_sanity_bot/arxiv/arxiv_abstracts.py:146-163 | Every row gathered from a page lies in the inclusive window |
| ArxivApi.HarvestRowsOk | arxiv_sanity_bot/arxiv/arxiv_abstracts.py:123-175 | Every row gathered over all pages lies in the inclusive window |
| ArxivApi.HarvestKeepsPage | arxiv_sanity_bot/arxiv/arxiv_abstracts.py:123-175 | The rows of the page a request received stay at the front of the result whatever later requests do |
| ArxivApi.HarvestStopsAt | arxiv_sanity_bot/arxiv/arxiv_abstracts.py:143-173 | The fetch makes one request per full, error-free page and stops at the first empty, short or failing page |
| ArxivApi.HarvestRequests | arxiv_sanity_bot/arxiv/arxiv_abstracts.py:123-173 | Every request but the last received a full page without errors |
| ArxivApi.FetchFromArxiv3 | arxiv_sanity_bot/arxiv/arxiv_abstracts.py:108-175 | Returns the rows of the harvest; requests start at 0 and advance by `max_results`; every row is in the window |
| ArxivApi.JoinPairs | arxiv_sanity_bot/arxiv/arxiv_abstracts.py:55 | Inner join on the identifier: every output pairs a left row with one of its scores, and every such pair appears |
| ArxivApi.MatchesPairs | arxiv_sanity_bot/arxiv/arxiv_abstracts.py:55 | The rows one left row joins to pair it with one of its scores, and every score of that row is among them |
| ArxivApi.MatchesAreFilter | arxiv_sanity_bot/arxiv/arxiv_abstracts.py:55 | A left row appears once per score row with its identifier, those scores in their order: duplicates multiply |
| ArxivApi.JoinAppend | arxiv_sanity_bot/arxiv/arxiv_abstracts.py:55 | The join of a concatenation is the concatenation of the joins, so the output follows the left order |
| ArxivApi.RankRecent | arxiv_sanity_bot/arxiv/arxiv_abstracts.py:41-60 | Keeps the rows strictly inside `(after, before)`, joins them with their scores, and orders them by score, highest first (as a multiset) |
| ArxivApi.GetAllAbstracts | arxiv_sanity_bot/arxiv/arxiv_abstracts.py:30-60 | Fetches with `chunk_size * max_pages` results per request; the result is the joined rows strictly inside the window, score-sorted, each with a well-formed identifier |
| ExtractImage.SelectFirstImage | arxiv_sanity_bot/arxiv/extract_image.py:63-67 | With both page numbers, the image is chosen when its page is not later than the graph's, the graph otherwise; the result is one of the two files |
| ExtractImage.SelectGraph | arxiv_sanity_bot/arxiv/extract_image.py:70-72 | The graph file, whatever the image and the page numbers |
| ExtractImage.SelectImage | arxiv_sanity_bot/arxiv/extract_image.py:75-77 | The image file, whatever the graph and the page numbers |
| ExtractImage.NoImageOrGraph | arxiv_sanity_bot/arxiv/extract_image.py:80-82 | No file |
| ExtractImage.SelectImageOrGraph | arxiv_sanity_bot/arxiv/extract_image.py:85-104 | The result is one of the two files or none, and none exactly when neither file is present |
| ExtractImage.EarlierPageWins | tests/test_extract_image.py:104-129 | Two distinct files: the image is chosen if and only if its page is not later than the graph's |
| ExtractImage.LoneFileChosen | arxiv_sanity_bot/arxiv/extract_image.py:70-77 | A lone graph or a lone image is chosen whatever the page numbers |
| ExtractImage.MissingPageFallsBack | arxiv_sanity_bot/arxiv/extract_image.py:67 | With both files and a page number missing, the result is `image_file or graph_file` |
| ExtractImage.SelectionExamples | tests/test_extract_image.py:104-168 | The test's five cases |
| ExtractImage.SearchFirstImageInPages | arxiv_sanity_bot/arxiv/extract_image.py:119-137 | Returns the file of the first page whose image was saved, pages whose listing raises being skipped; the page index is the last one visited, −1 only without pages |
| ExtractImage.ExtractFirstImage | arxiv_sanity_bot/arxiv/extract_image.py:18-52 | Without a PDF, nothing; otherwise `<arxiv_id>_image1.jpg` exactly when an image or a graph was found |
| Schemas.AverageRank | arxiv_sanity_bot/schemas.py:39-42 | The mean of the present ranks, infinite when both are absent, and between the smaller and the larger rank |
| Schemas.PaperLeTotalPreorder | arxiv_sanity_bot/schemas.py:44-45 | The order by `sort_key` is total and transitive, as a sort needs |
| Schemas.OrderingTiers | arxiv_sanity_bot/schemas.py:44-45 | Score 2 comes strictly before score 1; within a score the lower average rank comes first and an infinite one last |
| RankedPapers.ExtractField | arxiv_sanity_bot/ranking/ranked_papers.py:69-85 | The first listed name present at top level wins, whatever its value; only when none is present are the nested objects searched, in order; otherwise none |
| RankedPapers.ExtractFieldExamples | tests/test_ranked_papers.py:56-70 | The test cases: top-level, nested, fallback and missing fields |
| RankedPapers.EmptyTopLevelWins | arxiv_sanity_bot/ranking/ranked_papers.py:74-76 | An empty top-level value shadows a good nested one |
| RankedPapers.FromAlphaxiv | arxiv_sanity_bot/ranking/ranked_papers.py:31-45 | Skipped exactly when the id is missing or falsy; built exactly when id, title, abstract and date are non-empty strings and the votes coerce to an integer or `None`, with those values; rejected otherwise |
| RankedPapers.FromHuggingface | arxiv_sanity_bot/ranking/ranked_papers.py:48-58 | The same for the HuggingFace field names, without votes |
| RankedPapers.MissingTitleRejected | arxiv_sanity_bot/ranking/ranked_papers.py:53-58 | A present id without a title gives a validation failure, not an empty title |
| RankedPapers.EmptyFieldRejected | arxiv_sanity_bot/schemas.py:22-26 | For either adapter, a present id with a missing or empty title, abstract or date is rejected by the non-empty constraint, never built with an empty field |
| RankedPapers.VotesField | arxiv_sanity_bot/ranking/ranked_papers.py:36-37 | No `metrics` gives 0 votes and a non-object one fails; otherwise an absent count gives 0 and a present one goes through pydantic's lax coercion to an integer or `None` |
| RankedPapers.LaxOptionalInt | arxiv_sanity_bot/schemas.py:30 | `null` is `None`; integers stay; booleans become 1 and 0; a decimal string becomes its value; lists, objects and other strings fail |
| RankedPapers.LaxVotes | arxiv_sanity_bot/schemas.py:30 | A vote count sent as the decimal string of `n` reads as `n`, and one sent as a boolean reads as 1 or 0 |
| RankedPapers.FromHuggingfaceExample | tests/test_ranked_papers.py:85-93 | Any item of the test's shape, with id, title and summary nested under `paper` and the date at the top level, is adapted into the record of those values |
| RankedPapers.AdaptPage | arxiv_sanity_bot/ranking/ranked_papers.py:110-116 | A page fails exactly when one of its items is rejected; otherwise it yields the built records in feed order |
| RankedPapers.VoteCut | arxiv_sanity_bot/ranking/ranked_papers.py:149-161 | The result is a subsequence of the fetched papers, each with votes at or above the threshold, at most `max_papers` long, and empty when no paper has votes |
| RankedPapers.VoteCutExact | arxiv_sanity_bot/ranking/ranked_papers.py:149-161 | The cut is exactly the first `max_papers` of the papers, in fetch order, whose votes reach the threshold computed over the votes of the papers that have them |
| RankedPapers.VoteCutKeepsTopVoted | arxiv_sanity_bot/ranking/ranked_papers.py:155-161 | A threshold no larger than the largest vote keeps at least one paper |
| RankedPapers.VoteCutExample | tests/test_ranked_papers.py:107-121 | Votes 10, 5 and 1 and a threshold between 5 and 10 keep only the first paper |
| RankedPapers.FetchAlphaxivPapers | arxiv_sanity_bot/ranking/ranked_papers.py:124-161 | Requests pages 0, 1, … only while fewer than `max_papers` are gathered, at most `ceil(max_papers / page_size)` of them, stopping at the first empty page; a failing page fails the fetch; the result is the vote cut of what was gathered |
| RankedPapers.FetchHfPapersDateRange | arxiv_sanity_bot/ranking/ranked_papers.py:194-218 | One request per day, `days` in all; the result is the successful days' records, today first; a day that raises anything but an API error ends the fetch |
| RankedPapers.UniformDays | tests/test_ranked_papers.py:124-132 | Days that all answer the same list give that many copies of it |
| RankedPapers.ApiErrorDayContributesNothing | arxiv_sanity_bot/ranking/ranked_papers.py:209-215 | A day failing with an API error contributes what an empty day would |
| RankedPapers.MergeAndScore | arxiv_sanity_bot/ranking/ranked_papers.py:221-256 | The result is the stable sort by `sort_key` of the merged records in the dict's insertion order |
| RankedPapers.MergeDistinct | arxiv_sanity_bot/ranking/ranked_papers.py:225-256 | Exactly one record per distinct id of the two inputs |
| RankedPapers.MergeMembers | arxiv_sanity_bot/ranking/ranked_papers.py:227-254 | Each record is its id's merged record: the ranks are the positions of the id's last occurrence in each list; title, abstract and date come from the last alphaXiv occurrence or else the first HuggingFace one |
| RankedPapers.MergeScores | arxiv_sanity_bot/ranking/ranked_papers.py:239-254 | Score 2 if and only if source BOTH, if and only if the id is in both lists or twice in the HuggingFace list |
| RankedPapers.MergeOrdering | arxiv_sanity_bot/ranking/ranked_papers.py:256 | The output is sorted by `(-score, average_rank)`, and records with equal keys keep their insertion order |
| RankedPapers.MergeWithItself | arxiv_sanity_bot/ranking/ranked_papers.py:239-243 | Merging a list with itself gives one record per distinct id, each scored 2 from both sources |
| RankedPapers.MergeScenario | tests/test_ranked_papers.py:135-150 | The test's two feeds with one shared paper: the shared paper first with score 2, then the others in insertion order |
| RankedPapers.FilterByDateRange | arxiv_sanity_bot/ranking/ranked_papers.py:266-289 | Keeps, in order, exactly the papers whose date parses and lies within `[after, before]`; unparseable dates are dropped |
| RankedPapers.GetAllAbstracts | arxiv_sanity_bot/ranking/ranked_papers.py:310-340 | An empty window gives nothing without fetching. Otherwise the alphaXiv pages requested obey the fetcher's bounds; the call fails exactly when the last alphaXiv page or one of the seven days raised, with that error, asking for no day after an alphaXiv failure; on success the result is the window filter of the merge of the alphaXiv cut and the seven days |
| OpenAI.CallOpenAI | arxiv_sanity_bot/models/openai.py:94-117 | At most 10 attempts; the first completion that does not raise decides, its content stripped (absent content raises); 10 raising attempts give `FatalError` |
| OpenAI.RoundHistoryGrows | arxiv_sanity_bot/models/openai.py:26-38 | Round `k` sends `2 + 2k` messages, every history extends the earlier ones, and round `k` ends with the rejection of the previous summary |
| OpenAI.RoundHistoryNext | arxiv_sanity_bot/models/openai.py:53-61 | Rejecting one more summary appends the assistant's summary and the too-long notice to the history |
| OpenAI.SummarizeAbstract | arxiv_sanity_bot/models/openai.py:23-69 | The run is `Summarized`: at most 10 rounds. Each round starts right after the call that answered the previous one, and its summary is the stripped answer of its first call that does not raise. Every summary but the last is over the budget. It returns the last summary exactly when that one fits. Otherwise the next round's `_call_openai` failed (no content, or 10 raising attempts), or 10 summaries were too long (`FatalError`) |
| OpenAI.SummarizedUnique | arxiv_sanity_bot/models/openai.py:40-69 | The client's answers determine the run: two runs that both meet `Summarized` have the same outcome, call count, summaries and answering calls |
| OpenAI.SummarizedOutcome | arxiv_sanity_bot/models/openai.py:40-69 | At least one call per round; a result exactly when the last summary fits, and it is that summary; `FatalError` after 10 summaries over the budget; `Raised` only from a round's call returning no content |
| OpenAI.FirstAnswerUnique | arxiv_sanity_bot/models/openai.py:94-114 | Within one `_call_openai`, the first completion that does not raise is a single call with a single answer |
| OpenAI.CallFailedUnique | arxiv_sanity_bot/models/openai.py:94-117 | A failing `_call_openai` fails at one call and in one way: no content at that call, or `FatalError` after the tenth raise |
| OpenAI.AnswerOrFailure | arxiv_sanity_bot/models/openai.py:94-117 | A `_call_openai` cannot both return an answer and fail |
| OpenAI.AnsweredAgree | arxiv_sanity_bot/models/openai.py:40-61 | Two chains of rounds over the same client agree on every round both reached |
| OpenAI.RoundStartsGrow | arxiv_sanity_bot/models/openai.py:40-43 | Round `k` starts at least `k` calls after the first: every round makes at least one call |
| OpenAI.GenerateBotSummary | arxiv_sanity_bot/models/openai.py:71-92 | One `_call_openai` on a fresh two-message history: the result is the last attempt's stripped answer, the exception of a missing content, or `FatalError` after 10 raising attempts |
| ChatGPT.SummarizeAbstract | arxiv_sanity_bot/models/chatGPT.py:8-53 | At most 10 calls, each with the same fresh two-message history; each reply is stripped before the check; the first summary within the budget is returned; 10 too-long summaries exit with status −1 |

## Left out

- HTTP requests, `tenacity` retries, and sleeps with random delays are left out. Each request's final outcome is an oracle value.
- `datetime.fromisoformat`, the `"Z"` replacement, and timezone coercion are left out. Dates go through the opaque `parse` to integer timestamps.
- `np.percentile` is floating-point interpolation. It is the opaque `threshold` over the vote list.
- `average_rank` is a float. It is modelled as an exact real, with a separate `Infinity` value.
- pandas DataFrames are lists of rows. The `datetime.now()` fallback in `_papers_to_dataframe` and the DataFrame projection are not modelled.
- The default `after = now() - 48h` of the arxiv-sanity `get_all_abstracts` is left out: `after` is always given.
- ArxivSanity.DownloadAllPages: pages are represented by their numbers rather than by the arxiv-sanity URLs built from them.
- ArxivSanity.DownloadAllPages: `chunk_size > 0` is required, because `range` with step 0 raises. A negative step is not modelled.
- ArxivSanity.GetAllAbstracts and ArxivApi.GetAllAbstracts promise only score order and the multiset of rows, because pandas' default sort is not stable.
- ArxivApi.ExtractArxivId: the regular expression is modelled for inputs that match it. The `.groups()` call on a failed match (an `AttributeError`) is the `None` result.
- ArxivApi.ReadEntry: `primary_category` terms are taken as given by the entry.
- RankedPapers.VotesField: pydantic's lax `int` also accepts numeric strings with surrounding whitespace, `_` separators or a zero fraction (`"12.0"`), and float votes; the model rejects such strings, and its JSON has no floats.
- ArxivSanity.SanitizeTextExample states the test's input as its whitespace runs and words (`Interleave`) and the expected output as `" ".join` of its words, not as the two literal strings.
- `get_url` has no contract of its own; `ArxivApi.ExtractFromUrl` and `ArxivApi.GetUrlExample` state what it builds.
- The Altmetric score lookup and the arxiv-sanity browser rendering are oracles: `gather_scores` and `bulk_download` are not part of this model.
- `extract_graph.py`, `image_validation.py`, `_save_first_image`, `_convert_to_jpeg`, `download_paper` and the pypdf reader are left out, because they are PDF and image library calls. Pages are abstract outcomes, and the extractors are oracles.
- Logging, the printed histories, and the `InfoEvent` and `RetryableErrorEvent` records are left out, because they have no effect on results. `FatalErrorEvent`'s `sys.exit(-1)` is modelled as the `Exited(-1)` outcome.
- Prompt wording is not modelled. Each message content is a constructor carrying the values the prompt interpolates.
- The Twitter client, the Firestore store, the CLI orchestration and the asynchronous scrapers are outside this model.

## Findings

| source | as written | input that shows it | evidently intended | confidence | as-written member | corrected member |
|---|---|---|---|---|---|---|
| arxiv_sanity_bot/arxiv_sanity/abstracts.py:20-25 | Disallowed characters are dropped after the whitespace collapse, with no collapse afterwards | `"a # b"` gives `"a  b"`, which has a double space | A single-spaced result, as `sanitize_text.py:15` produces with its final collapse | not executed | ArxivSanity.SanitizeLeavesDoubleSpace | Sanitize.SanitizeText |
