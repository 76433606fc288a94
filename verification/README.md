# Document splitting and LLM extraction, modelled in Dafny

This project models the document-processing core of a small toolkit that turns raw text dumps
into structured records with a local language model.

- **Page and record segmentation** (`splitdoc.py`) has three parts:
  - `line_matches` finds the first marker phrase a line matches.
  - `text_to_pages` cuts the line stream into pages after each page-marker line, then strips the pages and drops the empty ones.
  - `group_pages_to_records` groups pages into records. A new record starts at each page that matches a record phrase.
- **Extraction** (`llm_extract.py`) has six parts:
  - `clean_document` collapses the first eight runs of newlines, then the first eight runs of blanks, and strips the text. The limit of eight comes from `re.M` landing in the `count` position (see Findings). It then drops blank lines and lines of 100 characters or more. While the model's tokenizer counts more than 3072 tokens, it removes the five words before the last fifty, for at most 200 attempts.
  - `scrape_via_prompt` builds the prompt.
  - `execute` accumulates the completion stream until a chunk carries a finish reason.
  - The text handed to `json.loads` is the response, continued from the prompt's last fence, up to the next fence.
  - `upsert_result` and `run` form a resumable loop. The loop skips ids already scraped on a continued run and skips blank texts. It upserts one result per id and writes the results after each extraction.
  - `parse_input_documents` validates the input JSON and maps it to documents.

Modules, one per concern:

| module | file | models |
|---|---|---|
| `Basics` | basics.dfy | `Option`, `Result` |
| `Text` | text.dfy | `str.strip`, `str.split("\n")`, `sep.join`, concatenation |
| `Pages` | pages.dfy | `line_matches`, `text_to_pages` |
| `Records` | records.dfy | `group_pages_to_records` |
| `Cleaning` | cleaning.dfy | `clean_document` |
| `JsonValue` | json.dfy | decoded JSON values, truthiness, `len` |
| `Extraction` | extraction.dfy | `execute`, the prompt template, the JSON text of a response |
| `Runs` | runs.dfy | `upsert_result`, `scrape_via_prompt`, `run` |
| `Input` | input.dfy | `parse_input_documents` |

The model cannot see some collaborators, so they become parameters:
- the regular-expression test of a line against a phrase (`Matcher`);
- the model's token count for a text;
- the model's completion stream for a prompt;
- the JSON decoder.

File contents are values:
- input lines are a `seq<string>` (each line as `readlines` returns it);
- the prior output file is a `seq<ExtractionResult>`;
- each write of the output file is recorded as a snapshot in `RunState.writes`.

The `pages` metadata of the record-phrase table (splitdoc.py:13-18) has no effect. `record_data` (splitdoc.py:73) is looked up and never used, so `grab_pages` never leaves 0 (`Records.GrabStaysZero`, `Records.MetadataIgnored`).

The loop lemmas are stated over a `Job`, which holds the scrape and decode functions, so they hold for any scrape. `Runs.RunJob` builds the job `run` uses: `scrape_via_prompt` with the cleaning as written, and the decoder with `None` mapped to null.

## Model

| member | source | states |
|---|---|---|
| Pages.LineMatches | splitdoc.py:29-34 | no result exactly when no phrase matches; otherwise the result is a matching phrase and no earlier phrase in table order matches |
| Pages.PageStep | splitdoc.py:43-48 | the line and a newline go onto the end of the last buffer, and when the line opens a page an empty buffer follows it. Every buffer before the last is unchanged |
| Pages.LineMatchesFirst | splitdoc.py:29-34 | a phrase that matches, with no earlier phrase matching, is the phrase returned |
| Pages.Opens | splitdoc.py:47 | a line opens a page exactly when the first phrase it matches is non-empty |
| Pages.PageBuffers | splitdoc.py:38-48 | no lines give no buffers. Otherwise there is one buffer for the first line plus one per later line that opens a page |
| Pages.PageBuffersCover | splitdoc.py:38-48 | where the pages are cut: the first buffer starts at the first line, every other buffer starts just after a later line that opens a page, and every such line is followed by a buffer start. Each buffer holds exactly the lines from its start up to and including the next opening line, the first line bare and every other one followed by a newline |
| Pages.PageBuffersConcat | splitdoc.py:43-46 | the buffers, concatenated, are the first line followed by every later line with a newline after it: no text is lost, duplicated or reordered |
| Pages.LastBufferEmptyIff | splitdoc.py:46-48 | the last buffer is empty exactly when the last line matched a page marker |
| Pages.TrailingMarkerBufferDropped | splitdoc.py:46-50 | the empty buffer opened by a final marker line yields no page |
| Pages.StripAll | splitdoc.py:50 | every page is the strip of its buffer, and carries no surrounding whitespace |
| Pages.NonEmpty | splitdoc.py:50 | a string is kept exactly when it is given and non-empty, and a single string is kept exactly when it is non-empty. Nothing kept is empty, and nothing is added |
| Pages.NonEmptyAppend | splitdoc.py:50 | filtering a concatenation filters each part |
| Pages.NonEmptyKeepsStripped | splitdoc.py:50 | filtering keeps pages stripped |
| Pages.TextToPages | splitdoc.py:37-52 | no lines give no pages. Every page is non-empty and its own strip. Every non-blank buffer gives its strip as a page, and every page is the strip of some buffer |
| Records.GroupStep | splitdoc.py:69-83 | a positive counter drops by one and a counter at rest stays. Groups before the last are kept and the last only grows. At most two groups are opened, each numbered with this page. The page and a newline land in a new group exactly when the page opens one, and otherwise extend the last group |
| Records.GroupFold | splitdoc.py:57-83 | no pages give no groups. Group 1 is numbered 1 and begins with the first page. Every group is numbered with one of the pages |
| Records.GroupPages | splitdoc.py:55-85 | there are no groups exactly when there are no pages |
| Records.GrabStaysZero | splitdoc.py:59-83 | the `grab_pages` counter is 0 after every page, so the grab branch never opens a group |
| Records.MetadataIgnored | splitdoc.py:69-77 | markers with the same phrases group pages identically, whatever their page-count metadata |
| Records.StepAtRest | splitdoc.py:69-78 | with the counter at 0, a page opens a group when it matches a phrase and otherwise extends the last group |
| Records.FoldStep | splitdoc.py:60-78 | the groups for one more page are the previous groups opened or extended by that page |
| Records.OpenOrExtend | splitdoc.py:72-78 | a page adds one group exactly when it opens one |
| Records.GroupCount | splitdoc.py:63-77 | the number of groups is 1 plus the number of pages after the first that match a record phrase |
| Records.GroupsConcat | splitdoc.py:63-78 | the group texts, concatenated, are the first page followed by every later page with a newline after it |
| Records.StartsOfStep | splitdoc.py:72-77 | a step adds the page's 1-based number to the start pages exactly when it opens a group |
| Records.StartsOpen | splitdoc.py:72-77 | opening a group at a matching page keeps the start pages well formed |
| Records.StartsExtend | splitdoc.py:78 | extending with a non-matching page keeps the start pages well formed |
| Records.GroupStarts | splitdoc.py:63-77 | the first group starts at page 1 and start pages increase. Every later start is a matching page, and every matching page after the first starts a group |
| Records.CoversOpen | splitdoc.py:72-78 | opening a group keeps every group holding exactly the text of its pages |
| Records.CoversExtend | splitdoc.py:78 | extending the last group keeps every group holding exactly the text of its pages |
| Records.GroupCovers | splitdoc.py:63-78 | each group holds exactly the text of the pages from its start up to the next group's start, each later page followed by a newline |
| Records.GroupsNonBlank | splitdoc.py:63-78 | when no page is blank, no group text is blank |
| Text.Strip | splitdoc.py:50 | the result is a slice of the input with only whitespace cut off before and after it, and with no surrounding whitespace left. It is empty exactly when the input is blank |
| Text.StripIdempotent | splitdoc.py:50 | stripping twice is stripping once |
| Text.SplitLines | llm_extract.py:81 | splitting on newlines gives at least one piece, none holding a newline |
| Text.JoinSplitLines | llm_extract.py:81 | joining the pieces with newlines gives back the text |
| Text.SplitJoinLines | llm_extract.py:81 | splitting newline-joined pieces that hold no newline gives back the pieces |
| Cleaning.SplitRuns | llm_extract.py:86 | the words hold no blank; only the first and the last may be empty; the first is empty exactly when the text starts with a blank; the empty text gives one empty word. Where the words are cut is fixed by `SplitRunsRun` and `SplitRunsPrefix` |
| Cleaning.SplitRunsErase | llm_extract.py:86 | the words, concatenated, are the text without its blanks: no character is lost or reordered |
| Cleaning.SplitRunsRun | llm_extract.py:86 | a maximal run of blanks at the front of the text is a cut: the words are an empty word and then the words of the text after the run |
| Cleaning.SplitRunsPrefix | llm_extract.py:86 | text without blanks at the front of the text belongs to the first word. With `SplitRunsRun` and the empty text this fixes the split of every text |
| Cleaning.SplitJoinRuns | llm_extract.py:86-92 | splitting words joined with single blanks gives back the words |
| Cleaning.CollapseAll | llm_extract.py:75-78 | an unlimited substitution leaves no two neighbouring class characters, and every class character left is the replacement. The characters outside the class are kept, in order. It keeps the first character's class and is no longer than the input. Where the replacements go is fixed by `CollapseAllRun` and `CollapseAllFree` |
| Cleaning.CollapseAllRun | llm_extract.py:75-78 | a maximal run of the class at the front of the text becomes one replacement character |
| Cleaning.CollapseAllFree | llm_extract.py:75-78 | text without class characters at the front of the text is kept as it is |
| Cleaning.CollapseIsSplitJoin | llm_extract.py:75-78 | collapsing every run equals splitting at the runs and joining with the replacement |
| Cleaning.CollapseIdempotent | llm_extract.py:75-78 | collapsing twice is collapsing once |
| Cleaning.CollapseFirstSplit | llm_extract.py:75-78 | a substitution limited to `n` runs collapses the text up to the end of the `n`-th run as the unlimited one does, and leaves the text after that run unchanged |
| Cleaning.CollapseFirstAll | llm_extract.py:75-78 | a limit of at least the number of runs gives the unlimited substitution |
| Cleaning.NormaliseAsWritten | llm_extract.py:75-79 | the substitutions as written, then the strip, leave no surrounding whitespace |
| Cleaning.NinthBlankRunKept | llm_extract.py:75-79 | after eight single blanks the as-written substitution leaves a doubled blank, which the intended one removes |
| Cleaning.Normalise | llm_extract.py:75-79 | the intended substitutions, then the strip, leave no surrounding whitespace |
| Cleaning.NormaliseShape | llm_extract.py:75-79 | normalised text is stripped, has no two neighbouring newlines, no two neighbouring blanks, and no tab |
| Cleaning.NormaliseIdempotent | llm_extract.py:75-79 | normalising twice is normalising once |
| Cleaning.KeptLines | llm_extract.py:81 | every kept line is a non-blank line shorter than 100 characters from the input, and every such input line is kept |
| Cleaning.KeptLinesAppend | llm_extract.py:81 | the kept lines of a concatenation are the kept lines of each part, in order |
| Cleaning.FilterLines | llm_extract.py:81 | the filtered text is empty when no line is kept; otherwise its lines are exactly the kept lines |
| Cleaning.FilterLinesIdempotent | llm_extract.py:81 | filtering twice is filtering once |
| Cleaning.TrimTokens | llm_extract.py:89-92 | fifty words or fewer are unchanged. Otherwise five words go, or all but the last fifty when fewer than 55 remain; the last fifty and the words before the dropped five stay |
| Cleaning.TrimKeepsSeparated | llm_extract.py:86-92 | a trimmed word list is still one the split can return |
| Cleaning.TrimStep | llm_extract.py:86-92 | the words of a trimmed text are the trimmed words of the text, and they are joined by single spaces: collapsing its blanks changes nothing |
| Cleaning.TrimStepStalls | llm_extract.py:84-92 | once fifty words or fewer remain, a trim only normalises blanks, and a second trim changes nothing |
| Cleaning.TrimTimesKeepsEnd | llm_extract.py:89-92 | any number of trims keeps the last fifty words of a list |
| Cleaning.TrimTimesCount | llm_extract.py:89-92 | each trim removes five words until fifty remain |
| Cleaning.TrimmedWords | llm_extract.py:86-92 | the words of a text trimmed `n` times are its words trimmed `n` times |
| Cleaning.TrimmedKeepsEnd | llm_extract.py:84-92 | however many trims are made, the last fifty words are those of the untrimmed text |
| Cleaning.TrimmedTokenCount | llm_extract.py:84-92 | after `n` trims a text of more than fifty words has 5·`n` fewer words, or fifty |
| Cleaning.TrimLoop | llm_extract.py:83-84 | a text within the budget is returned unchanged |
| Cleaning.TrimLoopFirstFit | llm_extract.py:83-94 | the loop returns the first iterate that fits the budget, or the 200th when none fits, and every earlier iterate is over budget |
| Cleaning.TrimToBudget | llm_extract.py:83-94 | the in-place loop makes at most 200 attempts and ends within budget or at the limit. Every earlier iterate is over budget, and the result is the functional loop's |
| Cleaning.TrimmedFits | llm_extract.py:83-94 | the trim loop returns the first trim that fits, or the 200th, and keeps the last fifty words |
| Cleaning.CleanDocument | llm_extract.py:73-94 | with the substitutions as written: when the normalised, filtered text fits the budget it is the cleaned document |
| Cleaning.CleanDocumentFits | llm_extract.py:73-94 | the cleaned document is the first trim of the filtered text that fits, or the 200th. Its last fifty words are those of the filtered text |
| Cleaning.CleanDocumentIntended | llm_extract.py:73-94 | with every run collapsed: when the normalised, filtered text fits the budget it is the cleaned document |
| Cleaning.CleanDocumentAgrees | llm_extract.py:75-79 | with at most eight runs of newlines, and then at most eight of blanks, the cleaning as written and as intended agree |
| JsonValue.Len | llm_extract.py:219 | `len` is defined exactly for strings, arrays and objects, and is 0 exactly when the value is falsy |
| Extraction.Accumulate | llm_extract.py:123-128 | the response begins with the first chunk's text and is a prefix of all the chunk texts, concatenated |
| Extraction.AccumulateStopsAtFinish | llm_extract.py:123-128 | chunks after the first finishing chunk never reach the response |
| Extraction.AccumulateAll | llm_extract.py:123-128 | without a finishing chunk the response is every chunk's text, in order |
| Extraction.Execute | llm_extract.py:123-128 | the loop over the stream returns the accumulated response |
| Extraction.Prompt | llm_extract.py:139 | the prompt's length is that of its parts. It starts with the document head, then holds the cleaned document, the schema head and the schema, in that order, and ends with the instruction, a fence, a newline and a brace |
| Extraction.PromptInjective | llm_extract.py:139 | documents of the same length give the same prompt only with the same document and schema |
| Extraction.UpToFence | llm_extract.py:188 | the result is the longest prefix with no fence in it: a prefix of the text, followed by a fence when shorter |
| Extraction.FencePieces | llm_extract.py:188 | splitting at fences gives at least one piece, the first being the text up to the first fence |
| Extraction.FencePiecesJoin | llm_extract.py:188 | the pieces joined with fences give back the text |
| Extraction.ContinuedPieces | llm_extract.py:188 | the continued response has a second piece: a newline, a brace and the response up to its first fence |
| Extraction.JsonText | llm_extract.py:188 | the decoder receives a newline, a brace, and the response up to its first fence |
| Runs.FindId | llm_extract.py:144-148 | the index of the first result with the id, or the number of results when there is none |
| Runs.Upsert | llm_extract.py:144-153 | the results grow by one exactly when the id is new |
| Runs.UpsertShape | llm_extract.py:144-153 | an upsert replaces the first result with the same id, or appends when there is none |
| Runs.UpsertIds | llm_extract.py:144-153 | an upsert adds the result's id to the ids and nothing else |
| Runs.UpsertKeepsUnique | llm_extract.py:144-153 | unique ids stay unique |
| Runs.UpsertFinds | llm_extract.py:144-153 | after an upsert, looking the id up finds the result |
| Runs.UpsertKeepsOthers | llm_extract.py:144-153 | results with other ids are kept |
| Runs.UpsertIdempotent | llm_extract.py:144-153 | upserting the same result twice is upserting it once |
| Runs.UpsertElems | llm_extract.py:144-153 | after an upsert the result is present, and every other result was there before |
| Runs.Triage | llm_extract.py:169-181 | an already scraped id is skipped only on a continued run, and a falsy text is skipped. A non-empty string is extracted; any other truthy text fails |
| Runs.Ask | llm_extract.py:138-141 | the prompt holds the cleaned document after its head and the schema after its head, and ends with the continuation; the response is what the stream gives for that prompt |
| Runs.ScrapeViaPrompt | llm_extract.py:138-141 | the prompt carries the cleaned document, which is the filtered text itself when that fits the budget, and the schema it is given. The response is what the stream gives for that prompt |
| Runs.Decode | llm_extract.py:187-190 | the decoded value is the decoder's, or null when decoding fails |
| Runs.RunStep | llm_extract.py:169-211 | after an error nothing changes. Otherwise the document sets the error exactly when it fails, and the error names it. A skipped document changes nothing. An extracted one upserts its result, adds its id and appends the new results to the writes |
| Runs.RunDocs | llm_extract.py:169-211 | the loop writes at most once per document |
| Runs.Run | llm_extract.py:156-211 | a run ends with an error exactly when some document is neither skipped nor a string, and the error names the first such document |
| Runs.FirstFailure | llm_extract.py:169-180 | the index of the first document that fails, or the number of documents |
| Runs.RunDocsFailure | llm_extract.py:169-180 | the run ends with the error of the first document that fails, holding the state reached on the documents before it. A run with no failing document ends without error |
| Runs.RunDocsWrites | llm_extract.py:205-211 | the last write holds the final results. With no write the results are the prior ones; without error there is one write per extracted document |
| Runs.RunDocsWritesPrefix | llm_extract.py:205-211 | the writes over the first `k` documents are a prefix of the writes over all of them |
| Runs.RunDocsProvenance | llm_extract.py:169-207 | every result is a prior result or the result of an extracted document for its id and text |
| Runs.RunResultsFrom | llm_extract.py:180-207 | every result a run adds carries the model's options, the prompt and response of `scrape_via_prompt` for its text, and the decoding of that response |
| Runs.RunSkipsScraped | llm_extract.py:163-180 | a document is skipped as scraped exactly when the run continues and its id is a prior one. Otherwise a string text is extracted and written, even when the run already extracted that id |
| Runs.RunDocsSaves | llm_extract.py:169-211 | a document extracted after documents none of which fails leaves no error, and its result is among the results last written |
| Runs.RunDecodeFailure | llm_extract.py:186-211 | a response the decoder refuses is saved with null data and the model's options, and the run goes on without error |
| Runs.RunDocsKeeps | llm_extract.py:158-205 | results only grow, keep every prior id, and keep ids unique |
| Runs.RunDocsIds | llm_extract.py:164-205 | without error, the result ids are the prior ids and the ids of the extracted documents |
| Runs.RunDocsAllSkip | llm_extract.py:169-178 | when every document is skipped, nothing changes and nothing is written |
| Runs.RunDocsLastWins | llm_extract.py:144-153 | the result of the last extraction of an id is among the final results |
| Runs.ContinuedRunSkipsAll | llm_extract.py:164-172 | when no document's text is refused, the run ends without error, and continuing from its results skips every document, changes nothing and writes nothing |
| Input.ReadDocument | llm_extract.py:225-228 | an element yields a document exactly when it is an object holding both keys, with the id and the text under them. The error names the element's index |
| Input.ReadDocuments | llm_extract.py:224-228 | the documents are produced exactly when every element is readable, one per element, in order. Otherwise the result is the first unreadable element's error |
| Input.ParseInputDocuments | llm_extract.py:215-229 | the input is accepted exactly when it is a non-empty array of objects holding both keys. Each whole-input check fails with its own error |

## Left out

- The regular-expression engine. `line_matches` compiles each phrase as `.*` + phrase + `.*`, matches case-insensitively and lets any whitespace run match a space. The model takes this test as the `Matcher` parameter. Regex metacharacters in a phrase are left to that parameter too.
- File and console I/O. The model leaves out the reading of files, progress printing, `json.dumps` formatting and the `__main__` blocks. A write of the output file is recorded as a snapshot of the results.
- Command-line parsing. `--n_ctx`, `--n_tokens` and `--n_gpu` are parsed but never used by the code.
- `load_model` and the model itself. The tokenizer, including the UTF-8 encoding it is given, is a token-count parameter. The completion stream is a chunk-sequence parameter; what it produces for `max_tokens`, `stop`, `temperature` and `echo` is the stream's business.
- The `response is None` branch of `run`. `execute` always returns a string, so this branch is unreachable.
- Python's numeric equality across `int`, `float` and `bool` (`1 == 1.0 == True`). JSON numbers are integers here, and ids compare structurally.
- Floating-point JSON numbers, because JSON values model integers only.
- Unhashable ids. An array or object id would make `pk in already_scraped` raise, but here it simply compares structurally.
- Prior results without an `"id"` key or of another shape. The prior output file is given as well-formed results.
- Exceptions from `json.loads` other than `JSONDecodeError`. The decoder parameter's `None` stands for a decode error.
- Runs.Triage: it does not distinguish which `TypeError` a truthy non-string text raises (from `len` or from the substitutions); both end the run as `TextNotString`.
- Input.ParseInputDocuments: under `python -O` the asserts are skipped, and that mode is not modelled. A `len` of a number, boolean or null raises `TypeError`, reported here as `NotSized`.
- Text.IsSpace: `str.strip` and `str.isspace` are modelled on the whitespace characters of the Basic Multilingual Plane listed in `IsSpace`.
- Cleaning.TrimToBudget: it takes the trim pass as a parameter and is proved equal to `TrimLoop`. `CleanDocument` runs `TrimLoop` with `TrimStep`, the code's pass.
- `combine_jsons.py` is not part of this model.

## Findings

| source | as written | input that shows it | evidently intended | confidence | as-written member | corrected member |
|---|---|---|---|---|---|---|
| llm_extract.py:75-79 | `re.sub(pattern, repl, text, re.M)` passes `re.M` (the integer 8) in the position of `count`, so each substitution replaces only the first eight runs | eight words each followed by one blank, then `x  x` (two blanks between the last two words): the as-written cleaning keeps the doubled blank | `flags=re.M`, with every run of blanks and of newlines collapsed (the newline case is masked by the later blank-line filter) | high; not executed | Cleaning.NormaliseAsWritten, Cleaning.NinthBlankRunKept, Cleaning.CleanDocument | Cleaning.Normalise, Cleaning.NormaliseShape, Cleaning.CleanDocumentIntended, Cleaning.CleanDocumentAgrees |
