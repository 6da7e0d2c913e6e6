# gpt_translate, modelled in Dafny

gpt_translate translates markdown documentation pages with a chat-completion
service. This project models the text processing and bookkeeping around the
service calls and proves what that code promises. The service itself becomes
an oracle: a `translate: string -> string` function, or a scripted list of
responses.

The model covers these parts:

- **Loader** (`Loader.dfy`). HTML comment removal is modelled as a left-to-right
  scan with the same minimal-match semantics as the `<!--.*?-->` substitution.
  `split_markdown` is the line loop with its code-fence flag. It is proved
  against a specification (`Chunks`) that cuts the lines at every heading outside
  a fence.
- **Prompts** (`Prompts.dfy`). This covers the glossary filter loop, the
  two-message `format`, the language lookup in `LANGUAGES_DICT`, and the
  "language is the glossary file's stem" rule.
- **Utils** (`Utils.dfy`):
  - `remove_after`, the separator loop;
  - `longer_create`, modelled over a scripted response list. It appends to the
    caller's message list in place, modelled as the `Conversation` class;
  - `concat_md_chunks`.
- **Validators** (`Validate.dfy`, `Evaluate.dfy`):
  - the link diff and the field-wise front-matter comparison;
  - the Tabs regular expression. It is modelled twice: as a language, with
    `PatternFound` meaning "some substring is in it", and as the scan that
    decides it. The two are proved equivalent.
- **Translator** (`Translate.dfy`):
  - `translate_content`;
  - `translate_page`, specified field by field together with the list of texts
    sent to the service;
  - `translate_file`;
  - the retry loop of `_translate_file`;
  - the filter, sort, partition and failure report of `_translate_files`.
- **Legacy packer** (`LegacyTranslate.dfy`). `translate_splitted_md` is a greedy
  token-budget loop over an abstract token counter.
- **Legacy odd-line remover** (`LegacyUtils.dfy`). `maybe_remove_odd_lines`
  keeps the even-indexed lines of a mostly blank file.
- **Support files.** `Text.dfy` holds the Python string operations the code
  relies on: `strip`, ASCII `lower`, `in`, `find`/`rfind`, `split` on one
  character and `join`. `Paths.dfy` holds `pathlib`'s name, suffix and stem and
  the ordering of paths. `Pages.dfy` holds the page, header and link records.

Where the tests and the code disagree, the model follows the code:

- tests/test_loader.py:19-27 expects one more empty line than the code
  produces. The substitution removes the comment and leaves the comment's line
  empty. So `"\nSome content\n<!-- ... -->\nMore content\n"` becomes
  `"\nSome content\n\nMore content\n"`, with one empty line between the two
  lines of text, where the test expects two (`Loader.RemoveOneComment`).
- tests/test_prompts.py:27 expects `key1: value1` to be dropped for the query
  `prefix_key1 and prefix_key2 are special`. `key1` is a substring of that
  query, so the code keeps the line (`Prompts.KeyValueLine`).

## Model

| member | source | states |
|---|---|---|
| Loader.RemoveComments | src/gpt_translate/loader.py:5-12 | the output is never longer than the input |
| Loader.RemoveCommentsNoOpener | src/gpt_translate/loader.py:7-10 | text without `<!--` is returned unchanged |
| Loader.RemoveCommentsKeepsPrefix | src/gpt_translate/loader.py:7-10 | text before the first `<!--` is kept verbatim, in order, and the rest is processed on its own |
| Loader.RemoveCommentsDropsComment | src/gpt_translate/loader.py:7-10 | a comment that runs from `<!--` to the first `-->` after it is replaced by nothing, and the scan resumes right after it, across line breaks |
| Loader.RemoveCommentsKeepsUnclosed | src/gpt_translate/loader.py:7-10 | a `<!--` with no later `-->` stays in the output, together with everything after it |
| Loader.RemoveOneComment | src/gpt_translate/loader.py:7-10 | exactly one comment is deleted and the text around it is joined with nothing in between |
| Loader.LeadingHashes | src/gpt_translate/loader.py:16 | counts the run of `#` at the start of a line, which decides whether the line is a heading (one to six `#`, a space, then text) |
| Loader.SplitMarkdown | src/gpt_translate/loader.py:15-43 | the line loop returns exactly `Chunks(content)`: the stripped joins of the runs that start at headings outside a fence |
| Loader.WalkLine | src/gpt_translate/loader.py:24-37 | one iteration (fence toggle first, then the heading test) keeps the loop state equal to the specification's closed chunks, open run and fence flag |
| Loader.RunsCoverLines | src/gpt_translate/loader.py:23-41 | the runs are non-empty, there is at least one, and together they are the input lines in order |
| Loader.RunsStartAtHeadings | src/gpt_translate/loader.py:28-33 | every run after the first begins with a heading that is not inside a fence |
| Loader.ChunkCount | src/gpt_translate/loader.py:28-41 | the number of chunks is one plus the number of splitting headings |
| Loader.FencedHeadingNeverSplits | src/gpt_translate/loader.py:24-28 | a heading inside a fence never starts a chunk |
| Loader.ChunksOfEmpty | src/gpt_translate/loader.py:23-43 | an empty document gives one empty chunk, which is not dropped |
| Prompts.FilterDictionary | src/gpt_translate/prompts.py:5-13 | the loop returns the `"\n"`-join of the kept glossary lines |
| Prompts.KeptLinesAreSelected | src/gpt_translate/prompts.py:7-13 | the kept lines are a subsequence of the glossary lines, unmodified and in order, and a line is kept iff its lowercased key occurs in the lowercased query |
| Prompts.KeyValueLine | src/gpt_translate/prompts.py:10-11 | a `key: value` line is kept iff the lowercased key is a substring of the lowercased query |
| Prompts.KeyOnlyLine | src/gpt_translate/prompts.py:10-11 | a line without `:` is kept iff the whole lowercased line occurs in the lowercased query |
| Prompts.EmptyKeyAlwaysKept | src/gpt_translate/prompts.py:10-11 | an empty line, or a line starting with `:`, is kept for every query |
| Prompts.FilteredWhole | src/gpt_translate/prompts.py:7-13 | when every line is kept, the glossary comes back unchanged |
| Prompts.FilteredNothing | src/gpt_translate/prompts.py:7-13 | when no line is kept, the result is `""` |
| Prompts.FilteredEmptyDictionary | src/gpt_translate/prompts.py:7-13 | an empty glossary gives `""` |
| Prompts.PromptTemplate.Format | src/gpt_translate/prompts.py:48-58 | fails iff the language is not in `LANGUAGES_DICT`; otherwise returns exactly a system message and a user message, the system one built from the language name and the glossary filtered by the chunk |
| Prompts.FromFilesLanguage | src/gpt_translate/prompts.py:31-39 | a glossary file `<dir>/<code>.<ext>` gives language `code`, and formatting then succeeds iff `code` is es, ja, fr or de |
| Utils.TrimAtSeparatorMeaning | src/gpt_translate/utils.py:161-172 | the first separator in preference order that occurs anywhere wins; the text is cut right after that separator's last occurrence; when none occurs, the text is unchanged and no separator is reported |
| Utils.TrimKeepsPrefix | src/gpt_translate/utils.py:161-172 | the trimmed text is a prefix of the input |
| Utils.RemoveAfter | src/gpt_translate/utils.py:161-172 | the for/break loop computes the trimming that `TrimAtSeparatorMeaning` describes |
| Utils.ReasonOf | src/gpt_translate/utils.py:145-146 | a finish reason counts as truncation iff it is exactly `"length"` |
| Utils.Conversation.constructor | src/gpt_translate/utils.py:130-131 | the conversation holds the caller's message list |
| Utils.LongerCreate | src/gpt_translate/utils.py:126-157 | returns the trimmed texts of the `"length"` responses, followed by the first final response. It appends one assistant message per `"length"` response to the caller's list, in place. The k-th request carries the original messages plus the first k continuations |
| Utils.StitchedPieces | src/gpt_translate/utils.py:146-157 | the stitched text is the concatenation of the kept prefix of each truncated response, followed by the content of the first final response |
| Utils.ContinuationsPieces | src/gpt_translate/utils.py:148-149 | the k-th appended message is `assistant` with the trimmed text of the k-th response |
| Utils.ConcatMdChunks | src/gpt_translate/utils.py:233-234 | the join starts with the first chunk, ends with the last, and its length is the chunks' total length plus one separator per seam |
| Utils.ConcatMdChunksSnoc | src/gpt_translate/utils.py:233-234 | no chunks give `""`, one chunk gives itself, and each further chunk is appended after exactly one separator |
| Utils.ConcatMdChunksDefault | src/gpt_translate/utils.py:233 | with the default separator `"\n\n"`, consecutive chunks are kept apart by a blank line |
| Utils.ConcatMdChunksSplit | src/gpt_translate/utils.py:233-234 | joining with a one-character separator that no chunk contains, then splitting on it, gives the chunks back |
| Validate.ValidateLinks | src/gpt_translate/validate.py:8-22 | `links_match` holds iff every original link is in the translation and every translated link is in the original, iff both lists are empty; `total_links` is the number of original links |
| Validate.ValidateLinksLists | src/gpt_translate/validate.py:15-20 | `missing_links` lists the targets of the original links not found in the translation, in order and with duplicates; `extra_links` is the mirror image |
| Validate.PermutedLinksMatch | src/gpt_translate/validate.py:15-18 | a translation whose links are a permutation of the original's matches |
| Validate.ValidateHeaders | src/gpt_translate/validate.py:26-45 | each of the five flags holds iff that front-matter field is equal on both pages |
| Validate.HeadersCompare | src/gpt_translate/validate.py:32-45 | the comparison is symmetric; a page compared with itself matches on every field; all flags hold iff the five fields agree |
| Validate.ScanFindsPattern | src/gpt_translate/validate.py:48-57 | the left-to-right scan succeeds iff some substring is a Tabs block: `<Tabs`, non-`>` text, `>`, spaces, one or more TabItem blocks, `</Tabs>` |
| Validate.ValidateTabsFormat | src/gpt_translate/validate.py:48-57 | true iff the content contains a Tabs block |
| Validate.ValidateTabs | src/gpt_translate/validate.py:60-67 | `tabs_format_valid` holds iff the translated body contains a Tabs block |
| Validate.PatternNeedsClosedItem | src/gpt_translate/validate.py:51-53 | a match needs a `</TabItem>` followed by optional spaces and then `</Tabs>`, so a block whose last `</TabItem>` is missing fails |
| Validate.NoTabsNoPattern | src/gpt_translate/validate.py:51 | content without `<Tabs` never matches |
| Validate.PatternInContext | src/gpt_translate/validate.py:57 | text before and after a matching block does not change a true result |
| Validate.WrittenOutTabsMatch | src/gpt_translate/validate.py:51-53 | a written-out `<Tabs ...> <TabItem ...>body</TabItem> </Tabs>` block matches whatever its body holds |
| Evaluate.ValidateLinks | src/gpt_translate/evaluate.py:28-43 | `links_match` holds iff no original link is missing and no translated link is extra, iff both lists are empty; `total_links` is the number of original links |
| Evaluate.ValidateHeaders | src/gpt_translate/evaluate.py:46-66 | each `HeadersValidation` flag holds iff that field is equal on both pages |
| Evaluate.ScorersAgreeWithValidators | src/gpt_translate/evaluate.py:28-66 | the evaluation scorers report, field for field, what the validators report on the same pages |
| Paths.Name | src/gpt_translate/translate.py:181 | a path's name has no `/`, ends the path, and follows its last `/` |
| Paths.DotIndex | src/gpt_translate/prompts.py:38 | finds the last dot that is neither the first nor the last character of the name |
| Paths.StemSuffix | src/gpt_translate/prompts.py:38 | stem followed by suffix is the name; the suffix is empty or a dot followed by at least one non-dot character |
| Paths.StemAndSuffixOfFile | src/gpt_translate/prompts.py:38 | `<dir>/<base><.ext>` has stem `base` and suffix `.ext` |
| Paths.PathLessAsymmetric | src/gpt_translate/translate.py:247 | the path order used for sorting is asymmetric |
| Paths.PathLessTotal | src/gpt_translate/translate.py:247 | of two different paths, one is less than the other |
| Text.StripEmptyIff | src/gpt_translate/utils.py:189-190 | `strip()` gives `""` iff the text is all whitespace |
| Text.RFind | src/gpt_translate/utils.py:167 | finds the last occurrence, and none only when the pattern does not occur |
| Translate.TranslateContent | src/gpt_translate/translate.py:39-49 | fails iff the prompt's language is unknown, and then sends nothing; otherwise the first request is the prompt formatted for the given markdown, each later request adds one continuation, the content is the stitched completion and the token count is that of the content |
| Translate.TranslatePage | src/gpt_translate/translate.py:91-150 | the page returned and the texts sent to the service, in the order sent: body, description, title, support items |
| Translate.TranslateHeaderItem | src/gpt_translate/translate.py:105-126 | a title or description is sent and replaced iff it is non-empty and its flag is set |
| Translate.TranslateMetadata | src/gpt_translate/translate.py:116-135 | the metadata copy with a non-empty `support` list replaced by its translation |
| Translate.TranslateSupport | src/gpt_translate/translate.py:130-135 | each support item is sent and replaced by its translation, in order |
| Translate.TranslatePageBody | src/gpt_translate/translate.py:94-101 | a body shorter than 10 characters once stripped is kept and not sent; a longer one is replaced and is the first text sent; the number of calls adds up per field |
| Translate.TranslatePageHeaderItems | src/gpt_translate/translate.py:105-126 | the description (and likewise the title) is translated iff it is non-empty and its flag is set, and is kept otherwise |
| Translate.TranslatePageMetadata | src/gpt_translate/translate.py:116-135 | the keys are kept and every other key's value is unchanged; a non-empty `support` becomes its items' translations, same length and order |
| Translate.TranslatePageCarriesOver | src/gpt_translate/translate.py:139-150 | the file name and the header's raw body are carried over; the fields the new header is not given are unset |
| Translate.UntranslatedHeaderValidates | src/gpt_translate/translate.py:105-126 | with both header flags off, the front-matter check finds title and description unchanged |
| Translate.TranslateFile | src/gpt_translate/translate.py:74-89 | fails iff comments are not removed (the cleaned text is never assigned); otherwise the page is read from the comment-free text and translated |
| Translate.TranslateFileIntended | src/gpt_translate/translate.py:74-89 | the intended reading: the page is read from the cleaned or the raw text, and the call always succeeds |
| Translate.FirstOk | src/gpt_translate/translate.py:189-209 | finds the first successful attempt in a range, with every earlier one failed |
| Translate.RetryLoop | src/gpt_translate/translate.py:189-223 | the loop returns the first success's pages, or the last failure's message; it makes that many attempts, waits one time fewer, and writes only a successful translation |
| Translate.TranslateFileWithRetries | src/gpt_translate/translate.py:162-223 | fails, before any attempt, iff the file is blank or not `.md`/`.mdx`; an existing output changes nothing; with fewer than one attempt allowed it returns nothing |
| Translate.RetryOutcomes | src/gpt_translate/translate.py:189-223 | the record has no error iff some attempt succeeds, and then holds the pages of the first success; otherwise both pages are None and the error is the last attempt's |
| Translate.KeptInputsSelected | src/gpt_translate/translate.py:239-243 | the input filter keeps, in order, exactly the existing `.md`/`.mdx` paths, as often as they are given |
| Translate.InsertPath | src/gpt_translate/translate.py:247 | inserting into a sorted list keeps it sorted and adds exactly that path |
| Translate.SortPaths | src/gpt_translate/translate.py:247 | the sorted list is ordered and is a permutation of the input |
| Translate.Filter | src/gpt_translate/translate.py:239-243 | the filter keeps only elements the predicate holds for, and is no longer than its input |
| Translate.Correct | src/gpt_translate/translate.py:275 | every kept result has no error |
| Translate.Failed | src/gpt_translate/translate.py:276 | every kept result has an error |
| Translate.Partition | src/gpt_translate/translate.py:275-276 | both lists keep the order of the results, a result is in the list its error decides, and together they hold every result exactly once |
| Translate.TranslateFilesReported | src/gpt_translate/translate.py:237-276 | the intended batch: fails iff the input folder is not a directory; otherwise the files are the filtered inputs, sorted, and each file's result, including `{"error": ...}` for a task that raised, is in the correct list iff it has no error and in the failed list iff it has one, in order |
| Translate.CrashFailed | src/gpt_translate/utils.py:109-111 | a failed entry without `input_file` exists iff some file's task raised |
| Translate.CrashReported | src/gpt_translate/translate.py:278-281 | the report loop meets an entry without `input_file` iff some existing `.md`/`.mdx` input's task raised |
| Translate.TranslateFiles | src/gpt_translate/translate.py:226-283 | as written: fails iff the input folder is not a directory or some kept file's task raised (then with `KeyError`); otherwise the outcome is the intended batch's |
| LegacyTranslate.PackLoop | gpt_translate/translate.py:44-63 | the loop's output, the buffers sent and the buffer left equal the specification's after all chunks |
| LegacyTranslate.TranslateSplittedMd | gpt_translate/translate.py:31-64 | as written: returns the loop's output and drops the final buffer |
| LegacyTranslate.PackMembers | gpt_translate/translate.py:44-62 | the buffer holds the last chunks not yet sent, and its token count is the sum of their counts |
| LegacyTranslate.PackOutput | gpt_translate/translate.py:56-64 | the output is `sep + T(buffer)` for each buffer sent, in order; there is one translation call per overflow |
| LegacyTranslate.PackBufferShape | gpt_translate/translate.py:54-61 | the first buffer is `sep+c1+sep+c2...`, and buffers after a flush start with the chunk itself |
| LegacyTranslate.PackOverBudget | gpt_translate/translate.py:52-62 | a buffer over budget is a single chunk that is over budget on its own |
| LegacyTranslate.SentGrows | gpt_translate/translate.py:56-59 | buffers once sent stay sent, in order |
| LegacyTranslate.FirstChunkOverBudget | gpt_translate/translate.py:44-58 | a first chunk over budget makes the empty buffer the first text sent |
| LegacyTranslate.AllFitNothingTranslated | gpt_translate/translate.py:48-64 | as written: when all chunks fit one budget, nothing is sent and the result is `""` |
| LegacyTranslate.LastBufferNeverSent | gpt_translate/translate.py:48-64 | as written: the chunks of the last buffer, at least the last chunk, are never sent |
| LegacyTranslate.TranslateSplittedMdFlushed | gpt_translate/translate.py:31-64 | the intended packer: the loop followed by a flush of the last buffer |
| LegacyTranslate.FlushedCoversAll | gpt_translate/translate.py:48-64 | with the flush every chunk is in a sent buffer, and the output is still `sep + T(buffer)` per buffer |
| LegacyTranslate.FlushedAllFit | gpt_translate/translate.py:48-64 | with the flush, chunks that all fit are sent as one buffer and its translation is the result |
| LegacyUtils.BlankCount | gpt_translate/utils.py:44 | the blank-line count is at most the number of lines |
| LegacyUtils.EvenLinesIndex | gpt_translate/utils.py:47-50 | a rewrite keeps ⌈n/2⌉ lines, the k-th being line 2k |
| LegacyUtils.MaybeRemoveOddLines | gpt_translate/utils.py:41-53 | an empty file fails (division by zero); otherwise the file is rewritten iff blank lines are strictly more than `pct` of the lines, and then holds the even-indexed lines, else it is unchanged |
| LegacyUtils.AlternatingLosesBlanks | gpt_translate/utils.py:47-50 | a file of alternating text and blank lines loses all its blank lines |

## Left out

- Concurrency: the semaphore fan-out, `gather_with_progress`, `_execute_tasks_with_progress` and every `asyncio.sleep`. Waits between retries are counted, not timed.
- The completion service (`acompletion`, `completion_with_backoff`, the tenacity retries) becomes the `translate` oracle or the scripted `Response` list. `LLMJudge`, `Evaluator` and the weave decorators and datasets are not part of this model.
- `count_tokens` (tiktoken) becomes the `countTokens` parameter.
- File system and git (`get_md_files`, `_copy_images`, `get_modified_files`, `check_file_non_empty`, `delete_empty_files`, `remove_newline`, file reads, writes and `mkdir`) are not part of this model. File contents, existence and directory checks become parameters.
- `file_is_empty` becomes the test `Strip(rawContent) == []` on the given text.
- cli.py, configs.py, roles.py, setup.py and scripts/csv2yaml.py are not part of this model.
- Logging and console output.
- `str.format` placeholder substitution becomes the `render` parameter.
- `lower()` folds ASCII letters only.
- `MDPage`, `Header`, `Link` and `extract_header` are not part of the shown source. They are modelled as plain records with the fields the code uses:
  - front-matter values are strings or lists of strings;
  - link extraction (`extractLinks`) and page parsing (`fromRaw`) are parameters;
  - link equality (`in` on links) is the parameter `eq`, or structural equality;
  - a `Header` built from title, description, metadata and body is taken to leave slug, sidebar and imports unset.
- `list.sort()` on paths is modelled by insertion sort under the same part-by-part order on path components. Relative-path output names (`relative_to`) are left out.
- `evaluate.validate_tabs` passes a bool to an undefined helper and is left out. `validate.validate_tabs` models the working check.
- The regular expression's lazy `.*?` and its search position do not change the boolean result, so only that result is modelled.
- Utils.LongerCreate: requires that the script holds a response whose finish reason is not `"length"`. With only truncated responses the source recurses without end.
- Utils.LongerCreate: the separator list is a parameter; the source always passes the default `["\n\n", "\n", ". ", ", "]`.
- Utils.LongerCreate: `max_tokens` and the other keyword arguments are passed through unchanged, so they are not modelled.
- LegacyUtils.MaybeRemoveOddLines: the float `pct` is the rational `pctNum / pctDen`; `pct=0.5` is `1/2`.
- LegacyTranslate.TranslateSplittedMd: `translate_chunk` with its prompt is the `translate` parameter, and the progress prints are left out.
- Translate.TranslatePage: the `translate` oracle always answers. A `KeyError` from `format` for an unknown language and a service error are not modelled here; `Translate.TranslateContent` models the first.
- Translate.TranslateFile: the `translate` oracle always answers. Failures of a translation are represented only by the `attempt` results of the retry loop (`Translate.RetryLoop`).
- Translate.TranslateFiles: a task's result is a record or a raised error. `_translate_file` returns `None` only with fewer than one retry allowed. `_translate_files` does not pass `max_retries`, so the default of 3 applies and that case does not arise.
- Paths are normalised `/`-separated text. `pathlib` ignores a trailing `/` and repeated `/`, so `Path("a/b.md/").suffix` is `".md"` where `Paths.Suffix` gives `""`, and `"a//b.md"` is split into different parts.
- The legacy `Translator.translate_file` in gpt_translate/translate.py only chains `remove_markdown_comments`, `split_markdown` and `translate_splitted_md`, and is not modelled separately.

## Findings

| source | as written | input that shows it | evidently intended | confidence | as-written member | corrected member |
|---|---|---|---|---|---|---|
| gpt_translate/translate.py:48-64 | the buffer left after the loop is returned untranslated, so the last chunks never reach the output | chunks whose token counts all fit in `max_chunk_tokens`, e.g. one short chunk: the result is `""` | translate the final buffer after the loop | not executed | LegacyTranslate.AllFitNothingTranslated | LegacyTranslate.FlushedAllFit |
| src/gpt_translate/translate.py:278-281 | the report loop reads `result['input_file']`, but a task that raised is stored as `{"error": message}` (src/gpt_translate/utils.py:109-111) | one existing `.md` input whose translation raises, e.g. a blank `docs/a.md`: the report raises `KeyError: 'input_file'` | report every failure and finish the batch | not executed | Translate.TranslateFiles | Translate.TranslateFilesReported |
| src/gpt_translate/translate.py:79-83 | `raw_content_cleaned` is only assigned when `remove_comments` is true | `translate_file(md_file, remove_comments=False)` raises `UnboundLocalError` | read the page from the raw text when comments are kept | not executed | Translate.TranslateFile | Translate.TranslateFileIntended |
