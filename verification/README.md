# Content chunking of the ingestion script

A Dafny model of the chunking pipeline of `ContentProcessor` in
`scripts/ingest_content.py`. It covers these operations:

- **`_clean_text`** collapses whitespace runs, deletes control characters and strips.
- **`_extract_vtt_text`** filters the lines of an already-read WebVTT subtitle file.
- **`_chunk_text`** cuts text into numbered, overlapping windows. It snaps each window back to a sentence end.
- **`_find_sentence_boundary`** tries three sentence-end patterns in a fixed order.
- **`_find_token_boundary`** binary-searches for the widest window within a token budget.
- **`_count_tokens_or_chars`** is abstracted as a `Counter`: characters, or an arbitrary token count.
- **`process_file`** turns the chunks of one file's text into upload records and a summary.

Modules, one per file:

- `Wrappers`: `Option`.
- `Strings`: Python string primitives:
  - the `\s` / `str.strip()` whitespace class;
  - clamped slicing;
  - `split('\n')` and `join`;
  - decimal rendering of an index.
- `Cleaning`: `_clean_text`.
- `Vtt`: the WebVTT line filter. It is a heuristic over the file structure of section 4.1 of the W3C WebVTT specification, not a parser that follows its section 6 rules.
- `Boundaries`: the token count and both boundary searches.
- `Chunking`: `_chunk_text`.
- `Ingest`: `process_file` after text extraction.

The loops of the source are methods:

- `Vtt.ExtractVttText`
- `Boundaries.FindTokenBoundary`
- `Chunking.FindWindowEnd`
- `Chunking.ChunkText`
- `Ingest.ProcessFile`

Each method is proved equal to a specification function. The properties are proved about those functions.

The chunk loop is written once, over an abstract *walk*: the end of the window starting at `s`, the overlap and the text length. It terminates under the precondition `Advances`: every window either reaches the end of the text or ends more than `chunkOverlap` past its start. `Chunking.LoopAdvances` asks this only of texts over budget, the only ones the loop walks. `Chunking.CharModeAdvances` shows this precondition holds in character mode whenever `1 <= chunkSize` and `chunkOverlap < max(1, chunkSize - 199)`. The default 800/100 configuration is one such case. With `chunkSize = 0` the loop makes no progress (`Chunking.ZeroChunkSizeStalls`), so the bound needs `chunkSize >= 1` as well.

The model follows the code, with one exception: `Chunking.ChunkText` stops after the window that reaches the end of the text. The loop as written is modelled beside it (`Chunking.WindowsAsWritten`, `Chunking.ChunkTextAsWritten`), and the difference is proved. See "## Findings".

## Model

| member | source | states |
|---|---|---|
| Strings.Strip | scripts/ingest_content.py:190 | `str.strip()`: no whitespace at either end |
| Strings.StripEmpty | scripts/ingest_content.py:190-191 | the stripped text is empty exactly when the input is all whitespace |
| Strings.StripDropsSpaces | scripts/ingest_content.py:190 | the stripped text is the slice of the input from `StripStart(s)` on, and everything before and after that slice is whitespace |
| Strings.Join | scripts/ingest_content.py:149 | `' '.join(parts)`: the parts' total length plus one separator between each two, starting with the first part |
| Strings.WordsAreWords | scripts/ingest_content.py:151-157 | every piece of `Strings.Words`, the `str.split()` reference that `Cleaning.CleanTextJoinsWords` compares `_clean_text` with, is non-empty and free of whitespace |
| Strings.SplitLines | scripts/ingest_content.py:136 | `split('\n')`: at least one piece, no piece holds a newline, and joining the pieces with newlines gives the input back |
| Strings.NatToStringInjective | scripts/ingest_content.py:194 | distinct chunk indices render as distinct decimal strings |
| Cleaning.CollapseWhitespace | scripts/ingest_content.py:153-154 | the result is empty exactly when the input is, and starts with whitespace exactly when the input does |
| Cleaning.CollapseShape | scripts/ingest_content.py:153-154 | after collapsing, the plain space is the only whitespace left and no two whitespace characters are adjacent: at most one plain space between two non-space characters |
| Cleaning.CollapseKeepsNoControl | scripts/ingest_content.py:153-154 | collapsing whitespace introduces no control character |
| Cleaning.DeleteControl | scripts/ingest_content.py:155-156 | no character of the control class is left |
| Cleaning.DeleteControlNoop | scripts/ingest_content.py:155-156 | text without a control character is left unchanged |
| Cleaning.CleanText | scripts/ingest_content.py:151-157 | no whitespace at either end, no control character, and plain spaces are the only whitespace |
| Cleaning.CleanTextKeepsVisible | scripts/ingest_content.py:151-157 | cleaning drops only whitespace and control characters: all other characters stay, in order |
| Cleaning.CleanTextSingleSpaced | scripts/ingest_content.py:151-157 | on text without control characters, the result never holds two spaces in a row |
| Cleaning.CleanTextJoinsWords | scripts/ingest_content.py:151-157 | on text without control characters, `_clean_text(text)` equals `' '.join(text.split())` |
| Cleaning.CleanTextNotIdempotent | scripts/ingest_content.py:151-157 | `a SP c SP b`, with `c` a control character that is not whitespace (so not `\x0b`, `\x0c`, `\x1c`-`\x1f` or `\x85`) and `a`, `b` neither whitespace nor control characters, cleans to `a SP SP b`, and a second pass gives `a SP b`, so cleaning twice differs from cleaning once |
| Vtt.KeptLines | scripts/ingest_content.py:139-147 | at most one kept line per input line, and every kept line is non-empty, not `WEBVTT`-prefixed, free of `-->` and not all digits |
| Vtt.KeptLinesAppend | scripts/ingest_content.py:139-147 | the filter works line by line and keeps input order: filtering a concatenation concatenates the filtered parts |
| Vtt.ExtractVttText | scripts/ingest_content.py:136-149 | the loop's result is the space-join of the kept lines of `content.split('\n')`; it has no newline and no `-->` |
| Vtt.VttText | scripts/ingest_content.py:136-149 | the extracted subtitle text never holds a newline, and no timing arrow survives, not even across the space that joins two kept lines |
| Vtt.CueTextKept | scripts/ingest_content.py:142-145 | ordinary text, text that merely starts with digits, and a single-dash arrow are kept |
| Vtt.CueTextDropped | scripts/ingest_content.py:142-145 | blank lines, the `WEBVTT` header with or without a title, timing lines and cue numbers are dropped |
| Boundaries.CountPrefixMonotone | scripts/ingest_content.py:85-90 | under a monotone count, a longer prefix never counts less |
| Boundaries.LastFit | scripts/ingest_content.py:216-226 | the reference answer: the widest fitting end in `(start, hi]`, with every wider end failing, or none when nothing fits |
| Boundaries.TokenBoundary | scripts/ingest_content.py:208-228 | character mode gives `start + maxTokens`; otherwise the result is that value or a fitting end in `(start, len]`; in token mode no wider end fits, and whenever some end in `(start, len]` fits, the result is a fitting end in that range |
| Boundaries.FindTokenBoundary | scripts/ingest_content.py:208-228 | the binary search always returns `start + maxTokens` or a fitting end; under a monotone count it returns exactly `TokenBoundary` |
| Boundaries.MatchLen | scripts/ingest_content.py:233 | a match of one of the three patterns has length at most 2 and lies inside the slice |
| Boundaries.Matches | scripts/ingest_content.py:234 | `finditer` from position `i` reports no more spans than there are positions left in the slice |
| Boundaries.MatchesInside | scripts/ingest_content.py:234 | every span `finditer` reports lies inside the slice, at or after the scan position |
| Boundaries.MatchesAreMatches | scripts/ingest_content.py:234 | every reported span is a match of the pattern |
| Boundaries.MatchesOrdered | scripts/ingest_content.py:234 | reported spans are in order and do not overlap |
| Boundaries.MatchesEmpty | scripts/ingest_content.py:234-235 | nothing is reported exactly when the pattern matches nowhere in the slice |
| Boundaries.MatchesLastIsLast | scripts/ingest_content.py:236-238 | nothing matches after the last reported span |
| Boundaries.FirstPatternLastEnd | scripts/ingest_content.py:233-238 | the end of the last match of the first matching pattern lies in `(0, len(slice)]` |
| Boundaries.SentenceBoundary | scripts/ingest_content.py:230-240 | the result is `maxEnd`, or lies in `(searchStart, maxEnd]` and inside the text |
| Boundaries.PeriodWins | scripts/ingest_content.py:230-240 | a `.` followed by whitespace or the slice end decides: the result is the end of the last `.`-plus-whitespace match (just past the `.` only at the slice end), even if a `!` or `?` comes later |
| Boundaries.ExclaimOrQuestionWins | scripts/ingest_content.py:230-240 | without such a `.`, the result is the end of the last `!`/`?`-plus-whitespace match (just past the mark only at the slice end) |
| Boundaries.BlankLineLast | scripts/ingest_content.py:230-240 | with neither punctuation pattern matching, the result is the end of the last of the non-overlapping `\n\n` matches found left to right: right after a `\n\n`, with no `\n\n` starting at or after it |
| Boundaries.NoSentenceEnd | scripts/ingest_content.py:230-240 | when no pattern matches, the result is `maxEnd` |
| Chunking.ChunkId | scripts/ingest_content.py:194 | the id is the document id, `_chunk_`, then decimal digits that read back as the index |
| Chunking.ChunkIdInjective | scripts/ingest_content.py:194 | `f"{doc_id}_chunk_{i}"` determines `i` |
| Chunking.WindowEnd | scripts/ingest_content.py:176-188 | the nominal end, or a snapped end in `(start, nominal]`, less than 200 before nominal and inside the text |
| Chunking.FindNominalEnd | scripts/ingest_content.py:176-180 | the loop's unsnapped end, the token binary search or `start + chunk_size`, equals `NominalEnd` |
| Chunking.FindWindowEnd | scripts/ingest_content.py:176-188 | the loop's end computation, with the token binary search, equals `WindowEnd` |
| Chunking.WindowsFrom | scripts/ingest_content.py:174-204 | the windows start with the given one and every window starts inside the text |
| Chunking.WindowsChain | scripts/ingest_content.py:174-204 | each window ends where `WindowEnd` says; each next one starts `chunk_overlap` before the previous end; only the last window stops the loop |
| Chunking.Emit | scripts/ingest_content.py:190-199 | the records so far are kept as a prefix, and each visited window adds at most one record |
| Chunking.ChunkTextSpec | scripts/ingest_content.py:159-206 | a text within budget gives one chunk holding the whole text; a longer one gives at most one chunk per visited window |
| Chunking.ChunkText | scripts/ingest_content.py:159-206 | the loop returns exactly `ChunkTextSpec`, numbered 0, 1, 2, … with ids `doc_id_chunk_i` |
| Chunking.EmitNumbered | scripts/ingest_content.py:190-199 | emission keeps records numbered without gaps: a skipped window does not use up an index |
| Chunking.ChunkTextNumbered | scripts/ingest_content.py:190-199 | the chunks are numbered 0, 1, 2, … with ids `doc_id_chunk_i` |
| Chunking.EmitSound | scripts/ingest_content.py:190-199 | every emitted record is the non-empty stripped text of one of the visited windows |
| Chunking.EmitComplete | scripts/ingest_content.py:190-199 | every visited window whose stripped text is non-empty gets a record |
| Chunking.EmitOrdered | scripts/ingest_content.py:190-199 | records follow the windows' order: start positions strictly increase |
| Chunking.WindowsStartsIncrease | scripts/ingest_content.py:201-204 | window starts strictly increase |
| Chunking.WindowsCover | scripts/ingest_content.py:171-204 | with a non-negative overlap, every position of the text lies in some visited window |
| Chunking.ChunkTextShortText | scripts/ingest_content.py:161-168 | a text within budget yields one chunk: the whole unstripped text, index 0, id `doc_id_chunk_0`, positions 0 and `len(text)` |
| Chunking.ChunkTextLongText | scripts/ingest_content.py:171-204 | a longer text yields chunks equal to `text[start:end].strip()`, each non-empty, each with `start < end` and `start < len(text)`; starts strictly increase |
| Chunking.ChunkTextCovers | scripts/ingest_content.py:171-204 | with a non-negative overlap, every non-whitespace character lies in the `[start_position, end_position)` of some chunk |
| Chunking.CharModeWindowWidth | scripts/ingest_content.py:176-188 | in character mode, a window is between `max(1, chunk_size - 199)` and `chunk_size` wide |
| Chunking.CharModeAdvances | scripts/ingest_content.py:174-204 | in character mode, `chunk_size >= 1` and `chunk_overlap < max(1, chunk_size - 199)` make the loop terminate |
| Chunking.DefaultConfigAdvances | scripts/ingest_content.py:69-71 | the default 800/100 character configuration terminates on every text |
| Chunking.ZeroChunkSizeStalls | scripts/ingest_content.py:176-204 | with `chunk_size = 0` and `chunk_overlap >= 0`, every window is empty and the loop cannot advance |
| Chunking.TokenModeRepeatsAsWritten | scripts/ingest_content.py:201-204 | as written, in token mode, once the tail from `len - overlap` fits, the window from there ends at `len` and the next start is the same position again; the corrected step stops |
| Chunking.TokenModeLoopExample | scripts/ingest_content.py:201-204 | on `"abc"` with one token per character, budget 2 and overlap 1, the as-written loop visits the starts 0, 1, 2, 2, … |
| Chunking.AsWrittenChain | scripts/ingest_content.py:174-204 | as written, each window ends where the end computation says, the next one starts `chunk_overlap` before that end and inside the text, and the loop stops only after a window whose `end - chunk_overlap` is past the text |
| Chunking.TailFrom | scripts/ingest_content.py:201-204 | the windows visited after a given one start at its `end - chunk_overlap`, inside the text and after its start |
| Chunking.AsWrittenExtends | scripts/ingest_content.py:174-204 | as written, the loop visits the corrected windows and then the tail that follows the last of them |
| Chunking.TailInsideLast | scripts/ingest_content.py:201-204 | once windows reach the end of the text, every tail window starts inside the last one, after its start, and also runs to the end, with starts strictly increasing |
| Chunking.CharModeReachesEnd | scripts/ingest_content.py:176-188 | in character mode, a window that reaches the end is unsnapped, so every later window reaches the end too |
| Chunking.CharModeAdvancesAsWritten | scripts/ingest_content.py:201-204 | in character mode with `chunk_overlap < chunk_size`, the as-written step moves forward whenever the corrected one does |
| Chunking.ChunkTextAsWritten | scripts/ingest_content.py:159-206 | what `_chunk_text` returns as written: a text within budget gives one chunk holding the whole text; a longer one gives at most one chunk per as-written window |
| Chunking.EmitAppend | scripts/ingest_content.py:190-199 | emitting over two runs of windows emits over the first, then continues numbering over the second |
| Chunking.ChunkTextAsWrittenExtends | scripts/ingest_content.py:159-206 | as written, the result is the corrected chunks followed by the records of the tail windows |
| Chunking.CharModeAsWritten | scripts/ingest_content.py:174-204 | in character mode with `chunk_overlap < chunk_size`, the as-written chunks start with the corrected ones, and every extra chunk is the stripped text of a window that starts inside the last corrected window, after its start, and runs to the end of the text |
| Chunking.CharModeTailExample | scripts/ingest_content.py:201-204 | on `"abcde"` with size 4 and overlap 2, the corrected windows are `[0,4)` and `[2,6)`; as written `[4,8)` follows, so 3 chunks (`"abcd"`, `"cde"`, `"e"`) instead of 2 |
| Chunking.CharModeLongTailExample | scripts/ingest_content.py:201-204 | on `"abcde"` with size 4 and overlap 3, the corrected windows are `[0,4)` and `[1,5)`; as written the windows from 2, 3 and 4 follow, so 5 chunks instead of 2 |
| Chunking.CleanedTextHasNoBlankLine | scripts/ingest_content.py:233 | the `\n\n` pattern never matches in any slice of cleaned text |
| Chunking.CharModeChunksWithinBudget | scripts/ingest_content.py:176-190 | in character mode, no chunk's text is longer than `chunk_size` |
| Ingest.RecordsOf | scripts/ingest_content.py:257-274 | one record per chunk, in chunk order, each built from its chunk |
| Ingest.BuildRecords | scripts/ingest_content.py:257-274 | the record loop builds exactly `RecordsOf` the chunks |
| Ingest.ProcessFile | scripts/ingest_content.py:242-288 | the records are built from the chunks of the text under doc id `module_stem`; record `i` has id `module_stem_chunk_i` and index `i`; the summary counts the records and its total equals the sum of their `token_count` fields |
| Ingest.ProcessedIds | scripts/ingest_content.py:251-261 | record ids read `module_stem_chunk_i`, and the index of record `i` is `i` |
| Ingest.TotalTokensAppend | scripts/ingest_content.py:280 | `total_tokens` over two runs of chunks is the sum of their totals |
| Ingest.RecordsCountTokens | scripts/ingest_content.py:271-280 | the summary's `total_tokens` equals the sum of the records' `token_count` fields |
| Ingest.ProcessedIdsDistinct | scripts/ingest_content.py:251-274 | no two records of one file share a `doc_id` |
| Ingest.CharModeRecordsWithinBudget | scripts/ingest_content.py:271-280 | in character mode, each record's `token_count` is at most `chunk_size`, and `total_tokens` is at most `chunk_size` per record |
| Ingest.TotalWithinBudget | scripts/ingest_content.py:280 | a total of counts each within a bound is at most the bound per chunk |

## Left out

- Matches: no lemma states that the scan skips no match between two reported spans, or before the first. That leftmost-first property matters only for the overlapping `\n\n` pattern, and `Chunking.CleanedTextHasNoBlankLine` shows that pattern never matches cleaned text.
- File reading and text extraction are not modelled. `_extract_text_from_file` dispatches on the file suffix, calls `extract_pdf_text`, reads the file, and raises when a suffix is unsupported, when PDF support is missing, or when no text results (scripts/ingest_content.py:92-128). These are file I/O and a foreign PDF library. `Ingest.ProcessFile` starts from the extracted text. The file's name, stem, suffix and size arrive as a `FileInfo` parameter. The unused `modified_time` is omitted.
- `Vtt.ExtractVttText` starts from the file content as a string. Opening the file, and decoding with `errors='ignore'`, are not modelled.
- The tokenizer (tiktoken `cl100k_base`) is foreign. Token mode takes an arbitrary count function. `Chunking.ChunkText` and `Ingest.ProcessFile` require it to be monotone: appending text never lowers the count.
- `Chunking.ChunkText` and `Ingest.ProcessFile` require `LoopAdvances`. It applies only to a text over budget; a text within budget is never excluded. For such a text it asks that every window either reaches the end of the text or ends more than `chunk_overlap` past its start. The source has no such guard. The excluded inputs include those where a window the loop reaches ends at or before `start + chunk_overlap` without reaching the end, so the source's next start does not move forward and it loops forever, such as `chunk_overlap >= chunk_size` in character mode. The condition is stated for every start inside the text, not only the starts the loop reaches, so it also excludes some inputs on which the source stops. The token-mode repetition under "## Findings" is not excluded: the corrected loop stops there.
- A negative `chunk_size` is not modelled: the model's chunk size is a `nat`.
- `Chunking.ChunkTextCovers` and `Chunking.WindowsCover` require `chunk_overlap >= 0`, as the coverage promise does.
- `Ingest.ProcessFile`: logging and the `except` clause that logs and re-raises are not modelled. Given text, nothing in the modelled part raises. The method is `async` in the source but awaits nothing.
- CollapseShape: states at most one plain space between two non-space characters, not that every whitespace run leaves exactly one. That is stated for the whole of `_clean_text` by `Cleaning.CleanTextJoinsWords`, on text without control characters.
- `Vtt.IsCueText` reads `\d` as an ASCII digit. Python's `str` patterns also match other Unicode decimal digits.
- `Strings.IsSpace` is the whitespace set of Python's `str.isspace()`, listed explicitly. No Unicode database is consulted.
- `Chunking.FindWindowEnd` is lines 176-188 of the loop body, split out as a method of its own. It computes the same value.
- The HTTP upload client, the concurrent upload phase, the CLI, directory globbing and statistics printing are not modelled (scripts/ingest_content.py:290-519). They are network, concurrency and console I/O, including a floating-point success rate.
- The `.tsx` pages and components are not part of this model. They are presentation and HTTP glue, and hold no chunking or ticket logic.

## Findings

| source | as written | input that shows it | evidently intended | confidence | as-written member | corrected member |
|---|---|---|---|---|---|---|
| scripts/ingest_content.py:201-204 | After every window the loop sets `start = end - chunk_overlap` and stops only when that start is past the text. In token mode the binary search clamps `end` to `len(text)`, so once the tail fits, with `chunk_overlap > 0`, `start = len(text) - chunk_overlap` repeats forever (with `chunk_overlap <= 0` the next start is at least `len(text)` and line 203 breaks). | token mode counting one token per character, `chunk_size = 2`, `chunk_overlap = 1`, text `"abc"`: the starts are 0, 1, 2, 2, 2, … | stop after the window whose end reaches the end of the text | high; not executed | Chunking.TokenModeLoopExample | Chunking.ChunkText |
| scripts/ingest_content.py:201-204 | In character mode, a window reaching the end of the text is followed by further windows as long as `end - chunk_overlap` stays inside the text. Each starts inside the last window, runs to the end, and its stripped text is emitted again as a chunk of its own. | character mode, `chunk_size = 4`, text `"abcde"`: with `chunk_overlap = 2` the chunks are `"abcd"`, `"cde"`, `"e"` where the first two cover the text; with `chunk_overlap = 3` there are five chunks where two suffice | stop after the window whose end reaches the end of the text | medium; not executed | Chunking.CharModeAsWritten | Chunking.ChunkText |
