# Local RAG pipeline: chunking, model selection and the query rule

This project models the two pieces of self-contained logic of a small
retrieval-augmented-generation demo and proves what they promise.

* **Splitting** (`splitting.dfy`) models `DocSplitterAgent`: the constructor that
  stores the window size and the overlap (500 and 50 by default) and `split_text`,
  which slides a window of `chunk_size` characters over the text, advancing by
  `chunk_size - chunk_overlap` each step. `SplitText` keeps the source's `while`
  loop and is proved equal to the specification function `Split`. About `Split`
  the model proves: the loop needs a positive step on a non-empty text (with a
  non-positive step the index never reaches the end); an empty text has no
  chunks; there are `ceil(L / step)` chunks, starting exactly at the multiples of
  the step below `L` (`ChunkStart(i, step)`, the loop index after `i` iterations,
  is `i * step`); chunk `i` is `text[i*step .. min(i*step + chunk_size, L)]`,
  non-empty and at most `chunk_size` long; dropping the first `step` characters
  of a chunk leaves a prefix of the next one, and a full chunk shares exactly
  `chunk_overlap` characters with its successor; the text is rebuilt from the
  first `step` characters of every chunk followed by the whole last chunk; and
  the last chunk ends at the end of the text. Python's slice `text[start:end]` is modelled
  exactly (`Slice`), including an `end` below zero, so the loop itself needs only
  the termination precondition; the shape lemmas add `chunk_size > 0` or
  `0 <= chunk_overlap < chunk_size` where they need them.
* **Retrieve** (`retrieve.dfy`) models `PREFERRED_MODELS`, `_pick_available_model`,
  the key lookup of `QueryAgent.__init__` and `QueryAgent.query` from the moment
  the search hits are known. The model listing is an input (`Listing`: failed,
  or a sequence of entries with an optional name and optional supported
  methods), the vector search is the sequence of hits it returned, and
  `generate_content` is an `LlmOracle` object whose prompt log counts the calls.
  The selection rule is proved both as the source's nested loops with early
  return (`PickAvailableModel`) and declaratively on the listing itself
  (`PickFallback`, `PickPreferred`): earliest preference first, then listing
  order, only entries that support `generateContent`, substring matching, the
  last `/`-separated segment, and `"gemini-1.5-flash"` as the fallback. The query
  rule (`QueryOutcome`, implemented by `QueryAgent.Query`) returns the fixed "no
  context" message with no LLM call when there are no hits, and otherwise makes
  exactly one call with the prompt built from the docs and the question.

## Model

| member | source | states |
|---|---|---|
| `Splitting.DocSplitterAgent.constructor` | agents/Splitting.py:4-6 | the splitter stores the given size and overlap; the defaults are 500 and 50 |
| `Splitting.DefaultsTerminate` | agents/Splitting.py:4-6 | the default size and overlap give the step 450, which is positive |
| `Splitting.DocSplitterAgent.SplitText` | agents/Splitting.py:15-23 | the window loop, run under "positive step or empty text", returns exactly `Split` of the text with the stored size and overlap; its index is `ChunkStart(k, step)` after `k` iterations (loop invariant) |
| `Splitting.SliceBetween` | agents/Splitting.py:19-20 | Python's `text[start:end]` with `0 <= start <= end` and `start` within the text is the sub-sequence from `start` to `end` clamped to the length |
| `Splitting.ChunkStartIsProduct` | agents/Splitting.py:17-22 | the loop index after `i` iterations, `ChunkStart(i, step)`, is `i * step` |
| `Splitting.LoopNeverExits` | agents/Splitting.py:18-22 | with a non-positive step and a non-empty text, the index after any number of iterations is at most 0 and so still below the length: the loop does not terminate |
| `Splitting.EmptyTextNoChunks` | agents/Splitting.py:16-23 | an empty text yields no chunks, whatever the size and overlap |
| `Splitting.ChunkCount` | agents/Splitting.py:17-22 | the number of chunks is `ceil(L / step)`: the last start is below `L` and the next would be at or beyond it |
| `Splitting.StartPositions` | agents/Splitting.py:17-22 | index `i` is a chunk index exactly when the index after `i` iterations (`i * step`) is below `L`, so the starts are 0, step, 2·step, … below `L` |
| `Splitting.ChunkAt` | agents/Splitting.py:19-21 | chunk `i` is the slice starting at the index after `i` iterations (`i * step`) of length `chunk_size`; for a positive size it is `text[i*step .. min(i*step + size, L)]`, non-empty and at most `size` long |
| `Splitting.NeighbourOverlap` | agents/Splitting.py:19-22 | for `0 <= overlap < size`, a chunk without its first `step` characters is a prefix of the next chunk, and a full-length chunk shares exactly `overlap` characters with it |
| `Splitting.RoundTrip` | agents/Splitting.py:17-22 | for `0 <= overlap < size`, the first `step` characters of every chunk but the last, then the last chunk, give back the text |
| `Splitting.LastChunkInsidePrevious` | agents/Splitting.py:17-22 | for `0 <= overlap < size`, when the chunk before the last reaches the end of the text, the last chunk is that chunk without its first `step` characters |
| `Splitting.DefaultsOnShortText` | agents/Splitting.py:15-23 | with the defaults, a 460-character text gives exactly two chunks, the whole text and `text[450..]`, the second inside the first |
| `Splitting.LastChunkEnd` | agents/Splitting.py:17-22 | for `0 <= overlap < size` and a non-empty text, the last chunk starts at `(n - 1) * step` and ends exactly at position `L` |
| `Retrieve.ContainsIff` | agents/retrieve.py:31 | the substring test `pref in full` holds exactly when `pref` occurs at some index of `full` |
| `Retrieve.LastSegment` | agents/retrieve.py:32 | `full.split("/")[-1]` is a suffix of the name with no `/`, preceded by a `/` unless it is the whole name |
| `Retrieve.Eligible` | agents/retrieve.py:27 | the filtered list holds exactly the entries whose supported methods include `generateContent` |
| `Retrieve.FirstWhere` | agents/retrieve.py:29-31 | the inner loop stops at the first entry satisfying the test, and finds none only when no entry does |
| `Retrieve.Search` | agents/retrieve.py:28-32 | the nested loops stop at the earliest preference matched by any entry, at the first entry matching it; none means no entry matches any preference |
| `Retrieve.PickFrom` | agents/retrieve.py:27-33 | the chosen name never contains `/` |
| `Retrieve.Pick` | agents/retrieve.py:20-33 | a failed listing gives `"gemini-1.5-flash"`, and no chosen name contains `/` |
| `Retrieve.FilterThenFind` | agents/retrieve.py:27-31 | searching the filtered list finds an entry exactly when searching the whole listing for an eligible entry does, and both find the same entry |
| `Retrieve.PickFallback` | agents/retrieve.py:33 | when no eligible entry contains any preferred string, the result is `"gemini-1.5-flash"` |
| `Retrieve.PickPreferred` | agents/retrieve.py:27-32 | when some eligible entry matches, the result is the last segment of the name of the first eligible entry, in listing order, that matches the earliest preference any eligible entry matches |
| `Retrieve.SearchPreferred` | agents/retrieve.py:28-33 | the nested loops with early return yield the last segment of the entry `Search` stops at, or `"gemini-1.5-flash"` when it finds none |
| `Retrieve.PickAvailableModel` | agents/retrieve.py:20-33 | the source's loops with early return compute `Pick` of the listing |
| `Retrieve.ResolveApiKey` | agents/retrieve.py:40-42 | a non-empty environment key wins, then a non-empty `.env` key; with neither, the missing-key error |
| `Retrieve.Docs` | agents/retrieve.py:59 | the docs are the `content` fields of the hits, one per hit, in hit order |
| `Retrieve.Prompt` | agents/retrieve.py:63-66 | the prompt starts with the answer-only-from-context instruction and ends with `"Q: " + query + "\nA:"` |
| `Retrieve.QueryOutcome` | agents/retrieve.py:58-68 | no hits: the "no context" message and no prompt sent; otherwise exactly one prompt, built from the docs and the question, and the answer is the response text or `"LLM returned no text."` |
| `Retrieve.LlmOracle.Generate` | agents/retrieve.py:67 | one generation call appends its prompt to the log and returns the oracle's response for that call |
| `Retrieve.QueryAgent.constructor` | agents/retrieve.py:35-47 | requires a resolvable key; binds a fresh oracle, with no calls made, to the model `Pick` chooses from the listing |
| `Retrieve.NewQueryAgent` | agents/retrieve.py:40-47 | fails with the missing-key message exactly when no key resolves; otherwise builds an agent as the constructor does |
| `Retrieve.QueryAgent.Query` | agents/retrieve.py:49-68 | returns `QueryOutcome`'s answer and appends its prompts to the oracle's log: zero calls without hits, exactly one with hits |

## The chunk count

The loop yields `ceil(L / (C - O))` chunks (`ChunkCount`). An empty text gives
no chunks at all (`EmptyTextNoChunks`). When the text ends inside the window of
the chunk before the last, the last chunk lies wholly inside that chunk
(`LastChunkInsidePrevious`). For example, a 460-character text with `C = 500`
and `O = 50` gives two chunks: the whole text, and `text[450..]`
(`DefaultsOnShortText`).

## Left out

- PDF text extraction (`extract_text`): a foreign library reading a file.
- Embedding the question and the near-vector search with a limit of 3: a
  pre-trained model and database traffic. The hits are an input; a response
  missing the expected keys is the empty hit sequence; ranking and the limit
  are the database's job.
- Malformed search results and failing calls in `query`: the model assumes that
  every hit has a string `content` and that `generate_content` returns. So it
  does not capture the `KeyError` of a hit without `content` (or one whose
  content is `None`), the exception raised when a key of the search response
  is present with the value `None` instead of missing, or an exception from
  `generate_content` propagating out of `query`.
- The Gemini service: listing models is the `Listing` input, configuring the key
  and building the model handle are the oracle's construction, and the
  response of `generate_content` is the oracle's reply function of the call
  index and the prompt.
- Loading the `.env` file and reading the environment: both values are inputs of
  `ResolveApiKey`. The `RuntimeError` is the `Err` result of `NewQueryAgent`;
  the constructor itself is only called once the key resolves.
- The rendering of the docs list inside the prompt (Python's list repr): the
  agent's `render` function, left uninterpreted.
- The debug prints of `_pick_available_model` and the constructor: output only.
- A listing entry whose name attribute is present but not a string: the model
  reads a missing name as `""` and missing methods as the empty list, as the
  `getattr` defaults do.
- The Streamlit apps, the CLI script, the indexer and the smoke test: UI and
  driver glue around the modelled agents.
