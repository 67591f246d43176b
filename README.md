# Gemini exporter: batch export, modelled in Dafny

This project models the batch-export core of the Gemini conversation
exporter userscript (`src/gemini_exporter.user.js`). The page, the
clock and the browser libraries are inputs to the model. The rest is
modelled and proved:

- **Sidebar crawl.** The sidebar list is scrolled until its height has
  stopped changing (at most 100 scrolls). Each rendered link becomes a
  conversation reference:
  - the title is the first line of the link text, trimmed, or `Untitled`;
  - the URL is kept;
  - the id is the URL after its last `/`.
  
  Links with a repeated id are dropped, keeping the first.
- **Extraction.** The chat container's user-query and model-response rows
  become messages, in document order. User text loses a trailing
  case-insensitive `edit` and the white space after it, and is then
  trimmed. A model row's text is whatever the HTML-to-Markdown converter
  produced. Rows with empty text are dropped.
- **Markdown document.** The document starts with a title heading and an
  "Exported at" line. One `## User` or `## Gemini` section follows for
  each message.
- **Job store.** The store persists three keys: `queue`, `results` and
  `isRunning`. The model covers its transitions:
  - Start: raise the flag, clear the results, crawl, store the queue.
  - Crawl failure or Stop: lower the flag only.
  - Processing step: export the head of the queue as a `.md` file, or as
    an `ERROR_<id>.txt` placeholder. Append exactly one result, drop the
    head, and write both keys back.
  - Finalize: hand the results to the archive, lower the flag, and delete
    the queue and the results.
  - Resume: when the page loads with the flag raised, processing resumes
    from the stored queue.
- **File names.** A success file is named
  `<id>_<sanitised title, ≤ 50 chars>.md`; a failed export becomes
  `ERROR_<id>.txt`. The "Export Current" action uses
  `<sanitised title>.md` for the conversation on screen.

The modules are:

- `Wrappers`: `Option` and `Result`. `Option.GetOr` is the default a
  store read supplies.
- `Text`: JavaScript white space, `trim()`, `split('\n')[0]`,
  `split('/').pop()`, the file-name sanitiser and the `edit` cleanup.
- `Extraction`: the message loop and `generateMarkdown`.
- `Crawl`: the scroll loop, the link mapping, the duplicate filter and
  `crawlSidebar`.
- `BatchJob`: file names, the item a conversation yields, "Export
  Current", and the class `ExportStore` holding the three persistent keys.

### How the inputs stand in for the browser

- **Characters.** A Dafny `char` is a Unicode scalar value. A JavaScript
  string is a sequence of UTF-16 code units, in which a character outside
  the Basic Multilingual Plane (an emoji, say) is a surrogate pair of two
  units. Every character the script looks for lies in that plane: white
  space, `\n`, `/`, ASCII letters and digits. So splitting, trimming and
  the `edit` match give the same result on either reading. The sanitiser
  is the exception: its pattern has no `u` flag and `slice` counts code
  units. The model therefore replaces a surrogate pair by two underscores
  and counts it as two (`Text.CodeUnits`, `Text.SanitizeSurrogatePair`).
  White space is exactly the set matched by `\s` and removed by `trim()`.
- **Scroll heights.** The sidebar's `scrollHeight(i)` is the height read
  after scroll `i`. The links are the anchors rendered once scrolling
  stops.
- **Visits.** Loading a queued conversation is a function
  `ConversationRef -> Visit`. A visit gives the page found (no container,
  or the rows) and the time stamp written into the export.
- **Store.** A key that was never written or was deleted is `None`.
  Reading it yields the default the script gives `GM_getValue`: `[]`,
  `[]` or `false`.

### Behaviour of the script worth knowing

- The store has no `total` key. Progress is only `results.length` done and
  `queue.length` left.
- Stop lowers `isRunning` only. The queue and the results stay in the
  store until the next Start overwrites them (lines 317-320).
- The stabilisation counter compares the first reading with 0 and needs
  two unchanged readings in a row. Heights `100, 150, 150, 150` therefore
  stop after the fourth scroll, not the third (`Crawl.ScrollCountExample`).
- The sanitiser replaces every code unit except ASCII letters and digits
  with `_`, so an emoji becomes `__`. It does not collapse runs and is not
  locale-aware.
- There is no individual-download mode. A batch always ends in a single
  archive.
- The user-text cleanup has no word boundary. A query ending in "credit"
  loses "edit" (`Text.CleanUserTextCutsWordEnding`).
- Success names are distinct for different ids when the ids contain no
  `_` (`BatchJob.FilenamesDistinctWithoutUnderscore`). An id holding `_`
  can produce the same name as another id with a different title:
  `a` + `b c` and `a_b` + `c` both give `a_b_c.md`
  (`BatchJob.SuccessFilenamesCanCollide`). JSZip would then keep only the
  later of the two files.

## Model

| member | source | states |
|---|---|---|
| Text.Trim | src/gemini_exporter.user.js:68 | the result is the slice of the input between leading and trailing runs of JavaScript white space, and neither of its ends is white space |
| Text.TrimEnd | src/gemini_exporter.user.js:96 | the result is a prefix of the input, only white space follows it, and it does not end in white space |
| Text.FirstLine | src/gemini_exporter.user.js:163 | `split('\n')[0]`: a prefix with no newline, followed in the input by a newline when it is shorter than the input |
| Text.LastSegment | src/gemini_exporter.user.js:165 | `split('/').pop()`: a suffix of the URL with no `/`, preceded by a `/` when it is shorter than the URL |
| Text.CodeUnits | src/gemini_exporter.user.js:216 | the JavaScript `length`: at least the number of characters, at most twice it, and equal to it when no character is outside the Basic Multilingual Plane |
| Text.Replacement | src/gemini_exporter.user.js:216 | one character is replaced by as many characters as it has code units, each an ASCII letter, digit or `_` |
| Text.ReplaceUnsafe | src/gemini_exporter.user.js:216 | `replace(/[^a-z0-9]/gi, '_')` on code units: the result has one character per code unit of the input, all ASCII letters, digits or `_` |
| Text.ReplaceUnsafeAppend | src/gemini_exporter.user.js:216 | the replacement of a concatenation is the concatenation of the replacements |
| Text.ReplaceUnsafeAt | src/gemini_exporter.user.js:216 | character k lands at code unit `CodeUnits(s[..k])` of the result: kept when it is an ASCII letter or digit, else `_`, and a surrogate pair gives `_` at the next unit too |
| Text.ReplaceUnsafeInBmp | src/gemini_exporter.user.js:216 | without surrogate pairs the replacement is one-for-one, keeping ASCII letters and digits in place and turning everything else into `_` |
| Text.Sanitize | src/gemini_exporter.user.js:216 | length is min(code units, 50); the result is that prefix of the replaced text, made only of ASCII letters, digits and `_`; without surrogate pairs, each character is kept when it is an ASCII letter or digit and replaced by `_` otherwise |
| Text.SanitizeSurrogatePair | src/gemini_exporter.user.js:216 | "a" followed by an emoji sanitises to "a__": the pair is two code units |
| Text.SanitizeIdempotent | src/gemini_exporter.user.js:330 | sanitising a sanitised title changes nothing |
| Text.StripEditSuffix | src/gemini_exporter.user.js:96 | `replace(/edit\s*$/i, '')`: when the pattern matches at position i the result is the text before i, otherwise the input unchanged |
| Text.MatchEndsAtTrailingSpace | src/gemini_exporter.user.js:96 | any match of `/edit\s*$/i` starts four characters before the trailing white space, so there is at most one |
| Text.CleanUserText | src/gemini_exporter.user.js:96 | the cleaned user text is empty or starts and ends with a non-white-space character |
| Text.CleanUserTextRemovesEdit | src/gemini_exporter.user.js:96 | cleanup is `trim` of the text before the `edit` match when there is one, else `trim` of the text |
| Text.CleanUserTextDropsEditLabel | src/gemini_exporter.user.js:95-96 | "Hi\nEdit " cleans to "Hi" |
| Text.CleanUserTextCutsWordEnding | src/gemini_exporter.user.js:96 | "my credit" cleans to "my cr": the pattern has no word boundary |
| Extraction.UserText | src/gemini_exporter.user.js:95-96 | `innerText \|\| textContent`, cleaned: empty or without white space at either end |
| Extraction.KeptMessagesAppend | src/gemini_exporter.user.js:89-119 | the messages of a concatenation of rows are the messages of the first part followed by those of the second (order is kept) |
| Extraction.RowText | src/gemini_exporter.user.js:93-96 | the text of a user row is empty or has no white space at either end |
| Extraction.KeptMessagesLength | src/gemini_exporter.user.js:89-119 | no more messages than rows |
| Extraction.KeptMessagesNonEmpty | src/gemini_exporter.user.js:113-118 | every kept message has non-empty content (`if (text)`) |
| Extraction.KeptMessagesUserTrimmed | src/gemini_exporter.user.js:93-96 | every kept user message is non-empty with no white space at either end |
| Extraction.KeptMessagesWellFormed | src/gemini_exporter.user.js:113-118 | no more messages than rows; every message has non-empty content; user messages have no white space at either end |
| Extraction.KeptMessagesSingle | src/gemini_exporter.user.js:113-118 | one row yields a message with the row's role exactly when its text is non-empty, and nothing otherwise |
| Extraction.ExtractConversation | src/gemini_exporter.user.js:74-122 | the loop computes the kept messages; no container yields `null` (None) and only then; every message returned has content |
| Extraction.SectionsAppend | src/gemini_exporter.user.js:128-132 | the sections of a concatenation of messages are the sections of each part, in order |
| Extraction.MarkdownExtend | src/gemini_exporter.user.js:128-132 | one more message adds exactly its `## role`, content and rule block at the end of the document |
| Extraction.MarkdownLayout | src/gemini_exporter.user.js:124-134 | the document starts with the header, and the first message's section follows it directly |
| Extraction.GenerateMarkdown | src/gemini_exporter.user.js:124-134 | the `md +=` loop produces header then one section per message, in order |
| Crawl.ScrollsFromBounds | src/gemini_exporter.user.js:148-160 | from scroll i, the loop ends within the 100-scroll bound, at the first stop point after i or at the bound |
| Crawl.ScrollCountSpec | src/gemini_exporter.user.js:144-160 | 1 to 100 scrolls; no earlier scroll was a second unchanged reading in a row; the last one was, or it was the 100th |
| Crawl.ScrollCountUnique | src/gemini_exporter.user.js:144-160 | those three properties determine the scroll count |
| Crawl.ScrollCountExample | src/gemini_exporter.user.js:152-158 | heights 100, 150, 150, ... stop after four scrolls |
| Crawl.ScrollCountEmptyList | src/gemini_exporter.user.js:144-154 | a list whose height stays 0 stops after two scrolls, since the first reading is compared with 0 |
| Crawl.ScrollUntilStable | src/gemini_exporter.user.js:143-160 | the loop with `previousHeight` and `noChangeCount` makes exactly the scroll count characterised above |
| Crawl.LinkTitle | src/gemini_exporter.user.js:163 | the title is the trimmed first line of the link text, or `Untitled` when that is empty; it is never empty, has no newline and no white space at its ends |
| Crawl.TrimKeepsAbsent | src/gemini_exporter.user.js:163 | trimming never introduces a character, so a first line keeps having no newline |
| Crawl.Links | src/gemini_exporter.user.js:162-166 | one reference per anchor, at the same position, with title, URL and last path segment as id |
| Crawl.DedupIds | src/gemini_exporter.user.js:169-178 | the filtered list has exactly the ids of the input |
| Crawl.DedupDistinct | src/gemini_exporter.user.js:169-178 | no id appears twice in the filtered list |
| Crawl.DedupFirstOccurrences | src/gemini_exporter.user.js:169-178 | the filtered list is a subsequence of the input (increasing positions) made only of first occurrences of their ids |
| Crawl.Deduplicate | src/gemini_exporter.user.js:168-178 | the loop over `unique` and the `ids` set computes the filtered list, with every input id and no id twice |
| Crawl.CrawlSidebar | src/gemini_exporter.user.js:138-179 | no sidebar fails with "Sidebar not found"; otherwise, after scrolling, the deduplicated references of the rendered links |
| BatchJob.SuccessFilenameShape | src/gemini_exporter.user.js:216 | a success name is the id, `_`, the sanitised title and `.md`, at most 54 characters longer than the id, and does not end in `.txt` |
| BatchJob.ErrorFilenameShape | src/gemini_exporter.user.js:218 | an error name is `ERROR_`, the id and `.txt`, and does not end in `.md` |
| BatchJob.ItemForKinds | src/gemini_exporter.user.js:213-219 | a conversation yields a `.md` file holding its document exactly when extraction gave messages, and otherwise the `.txt` placeholder with "Failed to extract or empty." |
| BatchJob.SuccessFilenamesDistinct | src/gemini_exporter.user.js:216 | two conversations with the same title and different ids get different success names |
| BatchJob.ErrorFilenamesDistinct | src/gemini_exporter.user.js:218 | different ids give different error names |
| BatchJob.FilenamesDistinctForSameTitle | src/gemini_exporter.user.js:214-219 | two conversations with the same title and different ids get different file names, whatever each one's outcome |
| BatchJob.SuccessFilenamesDistinctWithoutUnderscore | src/gemini_exporter.user.js:216 | different ids, neither containing `_`, give different success names whatever the titles |
| BatchJob.FilenamesDistinctWithoutUnderscore | src/gemini_exporter.user.js:214-219 | different ids, neither containing `_`, give different file names whatever the titles and outcomes |
| BatchJob.SuccessFilenamesCanCollide | src/gemini_exporter.user.js:216 | id `a` with title `b c` and id `a_b` with title `c` both get `a_b_c.md` |
| BatchJob.ProcessedItems | src/gemini_exporter.user.js:213-227 | processing a queue yields one item per conversation, the k-th item being that of the k-th conversation (FIFO), so a failure never ends the batch |
| BatchJob.ProcessedHead | src/gemini_exporter.user.js:214-224 | moving the head's item from the queue to the results keeps results plus what remains to be processed |
| BatchJob.ProcessedSplit | src/gemini_exporter.user.js:181-228 | processing a queue in two runs, the second from where the first stopped, yields the items of a single run |
| BatchJob.CurrentTitle | src/gemini_exporter.user.js:65-72 | with an active sidebar entry: its text trimmed, no longer than it and without white space at either end; otherwise `Gemini_Chat_` followed by the given date |
| BatchJob.ExportCurrent | src/gemini_exporter.user.js:324-335 | a file exists exactly when messages were found; it is the sanitised title plus `.md` (at most 53 characters) holding the document |
| BatchJob.ExportStore.constructor | src/gemini_exporter.user.js:316 | a fresh store has no key written, so it reads as not running with empty queue and results |
| BatchJob.ExportStore.BeginBatch | src/gemini_exporter.user.js:340-341 | Start raises the flag and stores empty results, leaving the queue as it was |
| BatchJob.ExportStore.SaveQueue | src/gemini_exporter.user.js:346 | the crawled links become the queue; the other keys are untouched |
| BatchJob.ExportStore.ClearRunning | src/gemini_exporter.user.js:317-320 | Stop (and the crawl failure at lines 348-350) lowers the flag and touches neither queue nor results |
| BatchJob.ExportStore.Step | src/gemini_exporter.user.js:191-224 | the queue loses its head; the results gain exactly the head's item at the end, earlier results unchanged; queue plus results length is preserved; the flag is untouched |
| BatchJob.ExportStore.FinalizeExport | src/gemini_exporter.user.js:230-245 | the archive holds the stored results; the flag becomes false and queue and results are deleted |
| BatchJob.ExportStore.ProcessQueue | src/gemini_exporter.user.js:181-228 | the archive is the stored results followed by the items of the whole stored queue in order, one per queued conversation, and the store is reset |
| BatchJob.ExportStore.Resume | src/gemini_exporter.user.js:316-322 | with the flag raised the job runs to the same archive as an uninterrupted run from the stored state; without it nothing changes |
| BatchJob.ExportStore.ProcessAcrossReload | src/gemini_exporter.user.js:201-205 | a full page load after any number of steps, followed by the resume on start-up, ends with the archive of an uninterrupted run |
| BatchJob.ExportStore.BatchExportAll | src/gemini_exporter.user.js:337-352 | without a sidebar: no archive, flag lowered, results empty, queue untouched; otherwise the archive holds one item per deduplicated sidebar link, in order, and the store is reset |

## Left out

- DOM queries, events, link clicks and `window.location` navigation and reload are not modelled. They are replaced by the page a visit returns and the sidebar's heights and anchors.
- Timers and waits (`setTimeout`, the 1500/2000/10000 ms delays, `waitForElement`) only affect timing. A `waitForElement` timeout shows up as a page without a container, which is also how its ignored result is used by the script.
- The Turndown HTML-to-Markdown conversion is an external library. A model row carries its output as a string.
- JSZip, the archive's file name and `saveAs` are not modelled. The archive is the list of items handed over. Two items with the same file name would overwrite each other in the zip, and that is not modelled either. Names cannot coincide for ids without `_` or for conversations with the same title (`BatchJob.FilenamesDistinctWithoutUnderscore`, `BatchJob.FilenamesDistinctForSameTitle`). They can coincide when an id holds `_` (`BatchJob.SuccessFilenamesCanCollide`), and the archive would then lose one of the files.
- The `GM_getValue`/`GM_setValue`/`GM_deleteValue` calls are not modelled as an API. The store is an object with three optional fields.
- BatchJob.ExportStore.Step: the two writes at lines 223-224 are one update in the model. A reload between them would lose the head's item, and the model does not claim the checkpoint is atomic.
- Crawl.ScrollUntilStable: `scrollHeight` is read twice per iteration (lines 152 and 158). The model reads it once, assuming the height does not change between the two reads.
- Crawl.CrawlSidebar: the `updateStatus` messages and the number of items found while scrolling are not modelled. Neither changes the returned links.
- The control panel, its styling, `alert`, `confirm` and all status texts are not modelled. A declined `confirm` leaves the store untouched and needs no model.
- Dates are parameters: the `Gemini_Chat_<date>` fallback title (`BatchJob.CurrentTitle`) and the "Exported at" time stamp. The zip name's date is left out with the zip.
- Concurrency between tabs and re-entrant button presses are not modelled. The script assumes one job per browser, and so does the model.
- No Unicode normalisation or case folding is done beyond the ASCII `edit` match, as in the script (a regular expression without the `u` flag). Strings are sequences of scalar values; code units are counted only where the script's result depends on them, in the sanitiser.
