# Transcript Query Service — a Dafny model of its core

The service stores spoken-word transcripts with a sentence embedding each.
It answers questions by ranking the stored transcripts by dot-product
score, and it gives a naive two-sentence summary of a stored transcript.
Everything lives in `app.py`. This project models the sequential logic
under its HTTP, database and model-library glue, in three modules:

- `Text` (`text.dfy`) models `summarize_text`. It is a chain of pure string
  functions: Python's `str.strip()` (exactly the characters `str.isspace()`
  accepts), `str.split(".")`, the slice `[:2]`, `". ".join(...)` and a final
  strip. Lemmas cover the round trip of split and join, the number of
  pieces, that stripping is idempotent and keeps every non-space
  character, and the promised properties of the summary.
- `Ranking` (`ranking.dfy`) models the selection step of
  `search_transcripts`:
  - integer dot-product scores over equal-length `seq<int>` embeddings;
  - an argsort, given as any ordering that sorts the scores (ties are left
    open) and witnessed by a stable insertion sort;
  - the slice `[-top_k:]` with Python's clamping rules, the reversal
    `[::-1]`, and the comprehension that pairs `ids[i]` with `contents[i]`
    and `scores[i]`.
- `Transcripts` (`service.dfy`) holds the class `TranscriptService`, which
  owns the `transcripts` table as a `map` from id to `(content, embedding)`:
  - `Save` is `save_transcript`. `uuid4` is modelled as "choose one of the
    2^122 ids not yet in the table".
  - `Ingest` is `ingest_limitless`. The fetched list is an input, and a
    failed fetch is an `Err`. The blank-filtering loop is methods
    `SaveNonBlank` and `IngestNext`.
  - `Summarize` is the lookup of `summarize_transcript`.
  - `ScanAll` is the full-table `SELECT`.
  - `Query` is `search_transcripts`: scan, encode the question, score,
    argsort, take the top `top_k`.

  The embedding model is the function `encode`, fixed when the service is
  built. `Valid()` states that every stored embedding is the encoding of
  its content.

Two helper modules hold what the others share: `Results` (`results.dfy`,
the `Ok`/`Err` result type) and `Ints` (`ints.dfy`, Python's `min`).

The ranking models list semantics, not the code as it runs.
`util.dot_score(...).squeeze()` is a torch tensor, and its `argsort()` is
one too. A tensor refuses the step `-1` of `[::-1]` (app.py:66). So as
written, every search of a table that is not empty raises. `Ranking.Search`
models the evident intent instead: the same expression on a Python list.
See "## Findings". Under that intent, these list-slice behaviours follow:

- `top_k = 0` returns every row, because `[-0:]` is the whole list.
- A negative `top_k` drops the `|top_k|` lowest-scoring rows.

Other details the model keeps from the code:

- `"A. B. C."` summarizes to `"A.  B"`, with two spaces. The piece `" B"`
  keeps its leading space and the glue adds another.
- Scores come back non-increasing, not strictly decreasing. The order of
  equal scores is whatever the argsort chose.
- Neither the question nor saved content is checked for emptiness. Only the
  ingestion loop filters blank entries.
- An embedding length that differs from the question's is an error
  (`DimensionMismatch`), which the vector library raises. An empty table
  answers `[]` before that check.

## Model

| member | source | states |
|---|---|---|
| Text.Strip | app.py:71 | `strip()` leaves the slice of the input that starts at its first non-space character; everything cut off from either end is whitespace; the result has no whitespace at either end |
| Text.IsSpace | app.py:71 | plain definition: exactly the characters of Python's `str.isspace()`, the set that `strip()` removes; `Strip` and `StripEmptyIffBlank` pin its use down |
| Text.StripEmptyIffBlank | app.py:82 | a string strips to `""` exactly when every character of it is whitespace, so `if t.strip():` rejects exactly the empty and all-whitespace entries |
| Text.StripIdempotent | app.py:71-72 | stripping twice is stripping once |
| Text.StripKeepsCount | app.py:71-72 | stripping keeps the number of occurrences of every non-space character |
| Text.Split | app.py:71 | `split(sep)` returns at least one piece, and no piece contains the separator |
| Text.SplitJoin | app.py:71 | joining the pieces of `split(sep)` with `sep` gives back the original string |
| Text.Join | app.py:72 | plain definition of `glue.join(pieces)`: the pieces in order with the glue between neighbours; `SplitJoin` and `JoinFirstTwo` pin it down |
| Text.SplitCount | app.py:71 | there is one more piece than there are separators in the string |
| Text.SummarizeText | app.py:70-72 | the summary has no whitespace at either end |
| Text.JoinFirstTwo | app.py:72 | `". ".join(pieces[:2])` is the text up to the first `.`, then `". "` and the text up to the second `.` when there is a first |
| Text.SummaryIsFirstTwoSentences | app.py:70-72 | the summary is the stripped first-two-sentences of the stripped text |
| Text.FirstTwoDots | app.py:72 | the joined first two pieces hold exactly one `.` if the stripped text has one, and none otherwise |
| Text.SummaryAtMostOneDot | app.py:70-72 | a summary holds at most one `.` |
| Text.SummaryWithoutDot | app.py:70-72 | a text without `.` summarizes to itself stripped |
| Text.DottedStripsToSomething | app.py:72 | a string holding a `.` never strips to `""` |
| Text.SummaryEmptyIffBlank | app.py:70-72 | the summary is `""` exactly when the text is empty or all whitespace |
| Text.SummaryOfThreeSentences | app.py:70-72 | `"A. B. C."` summarizes to `"A.  B"`, with two spaces after the first `.` |
| Ranking.Scores | app.py:65 | one score per row, in row order, each the dot product of the query with that row's embedding |
| Ranking.Dot | app.py:65 | plain definition: the integer dot product of two vectors of equal length, standing in for `util.dot_score`; `Scores` and `SearchIsTopK` state results through it |
| Ranking.Insert | app.py:66 | inserting an index into an order that is ascending by score keeps it ascending, adds exactly that index and grows by one |
| Ranking.InsertDistinct | app.py:66 | inserting a new index keeps the entries of the order distinct |
| Ranking.ArgSortPrefix | app.py:66 | the first `n` indices, each once, in ascending order of score |
| Ranking.ArgSort | app.py:66 | the result is an argsort: every index of the scores exactly once, in non-decreasing order of score |
| Ranking.Reverse | app.py:66 | `[::-1]` has the same length, and entry `j` is entry `len-1-j` of the input |
| Ranking.SliceFrom | app.py:66 | plain definition of Python's `s[start:]` with its clamping of negative and over-long starts; `TopIndices` pins down its use for `[-top_k:]` |
| Ranking.TopIndices | app.py:66 | `order[-top_k:][::-1]` has `ResultCount(n, top_k)` entries (`min(top_k, n)` for positive `top_k`, `n` for `0`, `max(0, n + top_k)` for negative), and entry `j` is `order[n-1-j]` |
| Ranking.Select | app.py:67 | one hit per selected index, pairing `ids[i]`, `contents[i]` and `scores[i]` of the same row |
| Ranking.TopIndicesDescending | app.py:66 | the selected indices are valid, distinct and in non-increasing order of score |
| Ranking.TopIndicesDominate | app.py:66 | every index left out scores at most as high as every index selected |
| Ranking.ReversedSuffixDominates | app.py:66 | the last entries of an argsort, read backwards, score at least as high as every index not among them |
| Ranking.SelectIsTopK | app.py:66-67 | the hits are `ResultCount` rows, none twice, each with its own id, content and score, best first, and none left out scores higher than one kept |
| Ranking.SearchEmptyTable | app.py:60-61 | an empty table answers `[]` whatever `top_k` is |
| Ranking.SearchFailsIffMismatch | app.py:62-65 | a search fails exactly when the table is not empty and some embedding's length differs from the query's |
| Ranking.SearchIsTopK | app.py:62-67 | a successful search of a non-empty table returns the top-`top_k` rows by dot-product score: the right number, distinct rows, ids and contents from the same row, non-increasing scores, and no row left out scoring higher than one returned |
| Ranking.SearchTopZeroReturnsAll | app.py:66 | with `top_k = 0` every row comes back |
| Ranking.SearchAsWritten | app.py:57-68 | as written, a search succeeds only on an empty table, and then answers `[]`; a non-empty table raises, for a mismatched dimension or at the tensor slice |
| Ranking.SearchAsWrittenRaises | app.py:65-66 | wherever the list-semantics search answers a non-empty table, the code as written raises at the tensor slice; on an empty table or a mismatched dimension the two agree |
| Ranking.TwoRowsCounterexample | app.py:65-67 | for the rows scoring `1` and `2` and `top_k = 5`, the intended answer is both rows, best first, while the code as written raises |
| Ranking.Search | app.py:60-67 | the corrected `search_transcripts` after the scan, with list semantics for the slice; it has no ensures of its own: `SearchEmptyTable`, `SearchFailsIffMismatch` and `SearchIsTopK` state its outcomes |
| Transcripts.FreshUuidExists | app.py:51 | while fewer than 2^122 ids are in use, some uuid is free |
| Transcripts.NonBlank | app.py:81-82 | the kept entries are no more than the fetched ones |
| Transcripts.NonBlankKeeps | app.py:81-82 | an entry is kept exactly when it was fetched and does not strip to `""` |
| Transcripts.NonBlankPrefix | app.py:81-83 | one more fetched entry adds itself to the kept ones exactly when it is not blank |
| Transcripts.TranscriptService.IngestedSnoc | app.py:83 | saving one more kept entry under an id not yet used extends an ingestion by that row and that id |
| Transcripts.TranscriptService.constructor | app.py:13-25 | the service starts from a new database: the table is empty and the encoder is the given one |
| Transcripts.TranscriptService.Save | app.py:49-55 | the id is a uuid not used before; the table gains exactly the row `(id, text, encode(text))`; every other row is unchanged; the table grows by one |
| Transcripts.TranscriptService.Ingest | app.py:76-84 | a failed fetch is reported with its message and stores nothing; otherwise one fresh, distinct id per non-blank entry, in input order, each stored with exactly that entry; old rows unchanged, and no other row added |
| Transcripts.TranscriptService.SaveNonBlank | app.py:80-84 | the loop saves exactly the non-blank entries, in order, under distinct new ids, and returns those ids |
| Transcripts.TranscriptService.IngestNext | app.py:81-83 | one turn of the loop: a blank entry leaves the ids and the table as they were; a non-blank one appends one id not used before to the ids and adds exactly the row `(id, entry, encode(entry))` to the table, and the ingestion so far is extended by it |
| Transcripts.TranscriptService.Summarize | app.py:93-97 | an id that is not stored gives not-found, and only such an id does; a stored id gives `summarize_text` of exactly its stored content |
| Transcripts.TranscriptService.ScanStep | app.py:58-59 | taking one more row out of those still to scan keeps the scan a duplicate-free list of stored rows |
| Transcripts.TranscriptService.ScanAll | app.py:58-59 | the scan returns every stored row exactly once, with its content and embedding |
| Transcripts.TranscriptService.RankedScanIsTopK | app.py:62-67 | ranking a full scan whose embeddings fit the query returns the table's top-`top_k` rows |
| Transcripts.TranscriptService.EmptyScan | app.py:60-61 | the scan of an empty table ranks to `[]` |
| Transcripts.TranscriptService.EmptyTableAnswers | app.py:60-61 | an empty table fits every query and is answered by `[]` |
| Transcripts.TranscriptService.MismatchedScan | app.py:65 | a scan holding an embedding of another length than the query's fails |
| Transcripts.TranscriptService.ScoresAreSimilarity | app.py:50-53 | in a table whose embeddings are the encodings of their contents, every hit of a top-`top_k` answer scores the dot product of the query with the encoding of the hit's own content |
| Transcripts.TranscriptService.ScanAnswers | app.py:60-67 | ranking a full scan of a valid table: `[]` for an empty table; failure exactly when some embedding's length differs from the query's; otherwise the top-`top_k` rows, each scored by the similarity of the query to its content |
| Transcripts.TranscriptService.Query | app.py:57-68 | on a valid table: an empty table gives `[]`; the query fails exactly when some stored embedding's length differs from the question's; otherwise it returns `ResultCount(n, top_k)` distinct stored rows with their contents and dot-product scores, best first, none left out scoring higher than one returned, each score the similarity of the question's encoding to the encoding of that row's content |

## Left out

- FastAPI routing, the pydantic request models and HTTP status codes (app.py:11, app.py:27-32, app.py:74-98 around the modelled logic). The `top_k` default of 5 is part of the request model and is not modelled. A failed fetch becomes `Err(message)` in place of the HTTP 500.
- `fetch_limitless_transcripts` (app.py:34-47) is network I/O, an env-var lookup and JSON decoding. Its outcome is the `Result` parameter of `Ingest`.
- `SentenceTransformer.encode` and `util.dot_score` are foreign floating-point code. The encoder is an uninterpreted total function to `seq<int>`, and scores are integer dot products. Rounding, NaN and `float(...)` conversion are not modelled.
- The float32 `tobytes` / `torch_tensor_from_bytes` round trip of stored embeddings (app.py:53, app.py:63). Embeddings are stored as values.
- sqlite: the connection, the cursor, `commit`, durability and atomicity (app.py:15-25, app.py:52-54). The table is an in-memory map, and an inserted row is visible at once.
- The shared cursor with `check_same_thread=False` (app.py:16): concurrent requests are not modelled.
- `uuid4` randomness and the `str()` formatting of a uuid. An id is an integer in `[0, 2^122)`, and `Summarize` takes such an integer, not an arbitrary string.
- Transcripts.TranscriptService.Save: requires fewer than 2^122 stored rows, because the choice of a fresh uuid needs one to exist. The source's id step can only fail on a uuid collision, which is not modelled.
- Transcripts.TranscriptService.Ingest: requires room for a uuid for every fetched entry, for the same reason.
- The order in which the `SELECT` returns rows is chosen nondeterministically. The results never depend on it beyond the order of ties.
- Tie order among equal scores: the argsort is any ordering that sorts the scores, so ties are not pinned. `ArgSort` (stable) is one such ordering and is what `Query` uses.
- Ranking.Search: models `[::-1]` with list semantics, not the tensor library's refusal of a negative step; the as-written behaviour is `Ranking.SearchAsWritten` (see "## Findings"). The 0-dimensional tensor that `.squeeze()` leaves for a single row, which refuses even `[-top_k:]`, is folded into the same error.
- Transcripts.TranscriptService.constructor: models a start over a new, empty database. With `CREATE TABLE IF NOT EXISTS` (app.py:18-24), a restart over an existing `transcripts.db` keeps the earlier rows. Those rows may have been embedded by another encoder, which would break `Valid()`. A restart is not modelled.
- Per-entry encoder failures during ingestion: the code does not catch them and the encoder here cannot fail, so a failure midway through a batch is not modelled.

## Findings

| source | as written | input that shows it | evidently intended | confidence | as-written member | corrected member |
|---|---|---|---|---|---|---|
| app.py:65-66 | `scores` is a torch tensor; `scores.argsort()[-top_k:][::-1]` takes a negative-step slice of a tensor, which the tensor library refuses, so every search of a non-empty table raises | two stored rows whose embeddings fit the question, `top_k = 5` | the reversed top-`top_k` tail of the argsort, as the same expression gives on a Python list | high, not executed | Ranking.SearchAsWritten, Ranking.SearchAsWrittenRaises, Ranking.TwoRowsCounterexample | Ranking.Search, Ranking.SearchIsTopK |
