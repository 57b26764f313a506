# Document question answering: chunking, retrieval, prompt and escaping

This project models the core of a small question-answering web application,
in Dafny. A user uploads a PDF. The server stores its text. Later the user asks
a question about that document. The server then:

1. cuts the text into overlapping windows (`chunk_text`);
2. picks the few windows most similar to the question (`retrieve_relevant_chunks`);
3. builds a prompt from them, or a fallback prompt when none qualifies (`ask`);
4. sends the prompt to a language model.

The browser shows the model's answer after escaping it with `escapeHtml`.

Modules:

- `Slices`: Python's slice expression `s[lo:hi]` (`Slice`). A negative bound
  counts from the end, and every bound is clamped into the sequence
  (`Bound`). `chunk_text` and `retrieve_relevant_chunks` both slice, and `top_k` and the chunk sizes are
  plain integers, so negative values are sliced as Python would slice them.
- `Chunker`: `chunk_text` as a method with a `while` loop, proved equal to a
  closed-form list of windows `Chunks`. Window k is `text[k*step : k*step + chunk_size]`
  with `step = chunk_size - overlap` (`Step`, `Window`), and there are
  ceil(len / step) windows (`ChunkCount`). `ChunkText` is the loop. Lemmas
  cover the window shape, coverage of every character and the round trip
  that glues the windows back into the text.
- `Ranker`: the selection step of `retrieve_relevant_chunks`. The similarity
  scores come from a TF-IDF library, so they are an input, one real number per
  chunk. The ranking `np.argsort(sims)[::-1]` is an input too, constrained to
  be a permutation of the chunk indices with scores that never increase. The
  model keeps the first `top_k` ranked indices and drops those whose score is
  not positive, as the list comprehension does: `Positive` is the filter,
  `Picked` the indices `[i for i in order[:top_k] if sims[i] > 0]`, `Select`
  their chunks and `Retrieve` the whole function with its empty-text case.
- `PromptBuilder`: the two prompts of the `ask` route and how they depend on
  the retrieved chunks. `BuildPrompt` builds either prompt, `Join` is Python's
  `str.join`, and `Header` and `QuestionBlock` are the fixed text around the
  context.
- `EscapeHtml`: `escapeHtml` of `static/app.js` exactly as written. The
  regular expression `/[&<>"]+/g` matches maximal runs of the four
  characters. The replacement table only has keys for single characters, so a
  run of two or more is replaced by the text `undefined`. `Escape` is the
  function as written, with `RunLength` the greedy match and `Replacement`
  the table lookup. The per-character escaping the code evidently intends is
  `EscapeEachChar`, and `Unescape` is how a browser shows the four entities
  (see Findings).

The ranking of equal scores is left open. numpy's default `argsort` is not a
stable sort, and the result is reversed, so the code promises no particular
order among equal scores; a stable tie-break is not what the code does.

## Model

| member | source | states |
|---|---|---|
| Slices.Bound | main.py:73 | a Python slice bound lies in [0, n]; a non-negative bound is clamped to n; a negative bound counts from the end, and one below -n becomes 0 |
| Slices.Slice | main.py:73 | `s[lo:hi]` is never longer than s; for 0 <= lo <= hi it is the clamped Dafny slice; for 0 <= lo < len(s) and lo < hi it is non-empty; with lo = 0 it is the prefix up to the normalised hi |
| Slices.SliceOfSuffix | main.py:73 | slicing the text after d characters is slicing the whole text d further along |
| Chunker.ChunkText | main.py:69-75 | the loop returns exactly the windows `Chunks(text, chunk_size, overlap)`; the empty text returns no window whatever the sizes, and a non-empty text needs chunk_size > overlap for the loop to end |
| Chunker.ChunkCountUnique | main.py:72-74 | the number of loop iterations is the unique c with c*step >= len(text) and (c-1)*step < len(text), i.e. ceil(len(text) / step) |
| Chunker.WindowShape | main.py:73 | window k starts at k*step inside the text, equals `text[start : min(start + chunk_size, len)]`, and has length min(chunk_size, len - start), between 1 and chunk_size |
| Chunker.EmptyIff | main.py:72 | there are no windows exactly when the text is empty |
| Chunker.SingleChunkIff | main.py:69-75 | there is exactly one window iff 0 < len(text) <= chunk_size - overlap, and that window is the whole text |
| Chunker.Coverage | main.py:72-74 | character i of the text appears in window i / step at offset i mod step |
| Chunker.ShiftCount | main.py:72-74 | a text longer than one step has one window more than the text after its first step |
| Chunker.ShiftWindow | main.py:73-74 | window k+1 of a text is window k of the text after its first step |
| Chunker.ChunksShift | main.py:72-74 | dropping the first window leaves the windows of the text after the first step |
| Chunker.UnchunkChunks | main.py:69-75 | round trip: the first `step` characters of every window but the last, followed by the last window, give back the text |
| Chunker.ShortTrailingWindows | main.py:69-75 | with the defaults 1000/200, a 1700-character text gives windows [0:1000], [800:1700] and [1600:1700] |
| Chunker.ThreeWindows | main.py:69-75 | with the defaults, a 2300-character text gives [0:1000], [800:1800] and a 700-character [1600:2300] |
| Chunker.TwoWindowsForShortText | main.py:69-75 | with the defaults, a text of 801 to 1000 characters gives two windows: the whole text and its tail from 800 |
| Ranker.Indices | main.py:88 | the indices 0..n-1 in order, the values argsort permutes |
| Ranker.Positive | main.py:90 | the `if sims[i] > 0` filter keeps only positively scored indices, never adds one, and is no longer than its input |
| Ranker.PositiveComplete | main.py:90 | every positively scored ranked index survives the filter |
| Ranker.PositiveKeepsOrder | main.py:90 | the filter keeps the ranked order: scores still never increase |
| Ranker.InRanking | main.py:88 | every chunk index occurs in the ranking |
| Ranker.FirstRankedHighest | main.py:88 | the first ranked index scores at least as high as any chunk |
| Ranker.TopIsPrefix | main.py:88 | `order[:top_k]` draws from the ranking and, for top_k >= 0, has min(top_k, n) entries |
| Ranker.TopDominates | main.py:88 | an index not among the first top_k ranked scores no higher than any index among them |
| Ranker.Retrieve | main.py:78-90 | the empty text gives no chunk; at most top_k chunks are returned; each is a window of the text |
| Ranker.SelectSpec | main.py:88-90 | the result has one chunk per picked index, at most top_k of them, each index in range, positively scored and distinct, scores non-increasing along the result |
| Ranker.SelectComplete | main.py:88-90 | every positively scored index among the first top_k is picked |
| Ranker.PickedNonEmpty | main.py:88-90 | with top_k >= 1, one positively scored chunk is enough for something to be picked |
| Ranker.SelectEmptyIff | main.py:88-90 | with top_k >= 1, nothing is returned iff no chunk scores above zero |
| Ranker.Insert | main.py:88 | inserting an index into a ranking keeps it in range, adds exactly that index, and keeps scores non-increasing |
| Ranker.RankFirst | main.py:88 | insertion builds a non-increasing permutation of the first n indices |
| Ranker.RankingExists | main.py:88 | every score vector has a ranking, so in the model retrieval is defined for every text and score vector (the program itself can fail earlier, in the vectorizer; see Left out) |
| PromptBuilder.JoinSplit | main.py:168 | `sep.join(parts)` splits at any inner boundary into the join before it, one separator and the join after it |
| PromptBuilder.JoinAround | main.py:168 | every part appears whole in the join, between the earlier parts and the later parts |
| PromptBuilder.ChunkInPrompt | main.py:167-174 | every retrieved chunk appears verbatim in the grounded prompt, after the header and before the question |
| PromptBuilder.PromptShape | main.py:167-179 | both prompts end with `Question: {question}\n\nAnswer:`; the fallback prompt is built exactly when no chunk was retrieved |
| PromptBuilder.AskFallsBackIff | main.py:165-179 | in the model, where scoring succeeds, `ask` with top_k = 4 sends the fallback prompt iff no chunk of the document scores above zero |
| EscapeHtml.RunLength | static/app.js:40 | the greedy `+` matches a maximal run: all special characters, followed by the end or a non-special character |
| EscapeHtml.EscapePlain | static/app.js:38-43 | a string with none of `&<>"` comes back unchanged |
| EscapeHtml.EscapeRunFront | static/app.js:40-42 | a maximal run at the front is replaced as a whole by its table entry or "undefined" |
| EscapeHtml.EscapePlainFront | static/app.js:40 | an ordinary character at the front is kept |
| EscapeHtml.EscapeConcat | static/app.js:40-42 | escaping distributes over a concatenation that does not split a run |
| EscapeHtml.IsolatedSpecial | static/app.js:40-41 | a special character with no special neighbour becomes its entity |
| EscapeHtml.RunCollapses | static/app.js:40-41 | a maximal run of two or more special characters becomes the text "undefined" |
| EscapeHtml.EscapeHasNoMarkup | static/app.js:38-43 | whatever the input, the output holds no `<`, `>` or `"` |
| EscapeHtml.EscapeAmpersands | static/app.js:40-41 | the output holds at most one `&` per special character of the input, and fewer once two special characters are adjacent |
| EscapeHtml.EscapeAgreesIff | static/app.js:40-41 | the code agrees with per-character escaping exactly on inputs whose special characters are never adjacent |
| EscapeHtml.UnescapeFront | static/app.js:41 | decoding the escape of one character followed by any text gives that character back first |
| EscapeHtml.UnescapePlain | static/app.js:41 | text without `&` decodes to itself |
| EscapeHtml.EscapeEachCharRoundTrip | static/app.js:41 | the per-character escaping decodes back to the input |
| EscapeHtml.EscapeEachCharHasNoMarkup | static/app.js:41 | the per-character escaping holds no `<`, `>` or `"` |
| EscapeHtml.EachCharAmpersands | static/app.js:41 | the per-character escaping writes exactly one `&` per special character |
| EscapeHtml.DoubleLessThan | static/app.js:40-41 | `escapeHtml("<<")` is "undefined", which does not decode to "<<", while the per-character escaping round-trips |
| EscapeHtml.LoneLessThan | static/app.js:40-41 | `escapeHtml("a<b")` is "a&lt;b" |
| EscapeHtml.AdjacentPair | static/app.js:40-41 | `escapeHtml("x<>y")` is "xundefinedy" |

## Left out

- TF-IDF scoring (main.py:83-87): the vectorizer and the sparse dot product are a foreign library; the scores are an input, one real number per chunk.
- Ranker.Retrieve: the vectorizer's empty-vocabulary error is not modelled; the model assumes scoring succeeded. `TfidfVectorizer().fit` (main.py:83) raises when neither the chunks nor the question hold a token of two or more word characters (for example a text of blank pages and the question "?"), and `ask` then fails with a server error instead of sending the fallback prompt.
- `np.argsort` (main.py:88): the sort itself is foreign; its reversed result is an input constrained to be a non-increasing permutation, with the order of equal scores left open.
- Floating point: scores are reals, so rounding in the dot products is not modelled; only the comparison `> 0` and the ordering are.
- SQLite storage (main.py:26-65) and the document lookup with its 404 error in `ask` (main.py:159-164): I/O.
- `call_gemini` (main.py:94-125) and returning its reply (main.py:181-182): network I/O.
- The upload route and PDF text extraction (main.py:140-155): file and PDF I/O.
- FastAPI setup, the startup hook and the home page (main.py:1-24, 129-137): framework glue.
- The DOM and `fetch` handlers of static/app.js (lines 1-36): browser I/O.
- Chunker.ChunkText: on a non-empty text with chunk_size <= overlap the source loops forever; the model requires chunk_size > overlap there instead of modelling divergence.
- EscapeHtml.Escape: models string arguments only; the `if (!str) return ''` guard for `null`, `undefined` and other falsy non-strings is not modelled (for the empty string it gives '' as the model does).
- EscapeHtml.Unescape: decodes only the four entities the table writes, not HTML character references in general.

## Findings

| source | as written | input that shows it | evidently intended | confidence | as-written member | corrected member |
|---|---|---|---|---|---|---|
| static/app.js:40-41 | the pattern `/[&<>"]+/g` matches a whole run of special characters and looks the run up in a table keyed by single characters; a run of two or more has no entry, and the replacement becomes the text "undefined" | `"<<"` (escaped to "undefined"; also `"x<>y"` to "xundefinedy", and `"&&"` as in "a && b") | each special character replaced by its own entity, so `"<<"` becomes "&lt;&lt;" and is shown as "<<" | high; not executed | EscapeHtml.DoubleLessThan | EscapeHtml.EscapeEachCharRoundTrip |
