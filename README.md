# AI Knowledge Hub backend: chunking, retrieval and the `/ask` endpoint, verified in Dafny

This project models the retrieval-augmented question-answering core of the AI Knowledge Hub
backend (`backend/main.py`). Its parts are:

- `chunk_text`, which cuts a document into chunks of about `chunk_size` characters, whole words only;
- `find_relevant_chunks`, which chunks every document, scores each chunk against the question,
  sorts the scored chunks by falling score and keeps the first `top_k`;
- the part of `ask_question` that checks the `X-API-Key` header, builds the prompt context and the
  source list from the retrieved chunks, and maps service failures to HTTP errors;
- the request and response records `Document`, `AskRequest` and `AskResponse`.

Files and modules:

- `text.dfy`
  - `Wrappers`: `Option` and `Result`.
  - `Text`: the Python string operations the code relies on, each as a function with the lemmas the
    proofs need. They are `str.split()`, `sep.join`, `startswith`, substring `in` and `lower()`.
    `Lines` (the behaviour of `split("\n")`) is not used by the code; it exists only to state how the
    prompt context reads back line by line (`Ask.ContextReadBack`, `Ask.RankedContextReadBack`).
- `chunking.dfy`
  - `Chunking`: `ChunkText` is the source's loop, written as an imperative method with invariants.
    It is proved equal to `Chunks`, a chunk-by-chunk greedy definition. The lemmas state what the chunks are.
- `schema.dfy`
  - `Schema`: the three pydantic records, as datatypes.
- `ranking.dfy`
  - `Ranking`: `FindRelevantChunks` is the source's loops. It is proved equal to `Ranked`, which is the
    all-chunks list, a stable descending sort (`SortDesc`) and Python slicing (`PrefixSlice`).
  - The lemmas say what the result holds and in what order.
- `ask.dfy`
  - `Ask`: key checking, error mapping, context and sources, and `AskQuestion`, the whole endpoint
    with the two OpenAI calls as parameters.

The outside world enters as parameters:

- The similarity score is an oracle `similarity: nat -> int`. Its argument is the position of a
  chunk in the list of all chunks, so `similarity(i)` stands for the cosine similarity between the
  question's embedding and the `i`-th chunk's embedding.
- The embeddings call and the chat-completion call are each a `Call` value: what the call returned,
  or the message of the exception it raised.

## Model

| member | source | states |
|---|---|---|
| Text.SplitAllSpace | backend/main.py:14 | `text.split()` is empty exactly when every character of the text is whitespace |
| Text.SplitJoin | backend/main.py:14-22 | splitting words joined with single spaces gives the same words back |
| Text.LowerKeepsContains | backend/main.py:186 | if a phrase occurs in a message, the lowercased phrase occurs in the lowercased message |
| Chunking.ChunkText | backend/main.py:12-32 | the loop (the current chunk, its running size counting one per word for the space, closing only a non-empty chunk that would overflow, the final flush) returns exactly the greedy chunking `Chunks(text, chunkSize)` |
| Chunking.ChunksKeepWords | backend/main.py:14-32 | no word is lost, added or reordered: splitting every chunk again gives `text.split()`, and joining the chunks with spaces equals joining the words with spaces |
| Chunking.ChunksWellFormed | backend/main.py:21-30 | every chunk is non-empty, holds at least one word, and is its words joined by single spaces, with no other whitespace |
| Chunking.ChunksEmpty | backend/main.py:19-30 | the result is empty if and only if the text is all whitespace |
| Chunking.ChunkSizeBound | backend/main.py:20-27 | a chunk of two or more words is at most `chunk_size - 1` characters long |
| Chunking.LongChunkIsWord | backend/main.py:21-24 | a chunk of at least `chunk_size` characters is a single word of the text (only an oversize word can overflow) |
| Chunking.ChunksGreedy | backend/main.py:21-24 | a new chunk starts only when the first word of the next chunk would have overflowed the previous chunk |
| Chunking.ChunksSeveral | backend/test_main.py:14-19 | a text of two or more words that, joined by single spaces, reach `chunk_size` characters gives at least two chunks (the test's `len(chunks) > 1`) |
| Chunking.ChunksWithin | backend/test_main.py:14-20 | if no word is longer than `limit`, no chunk is longer than `max(chunk_size - 1, limit)` (the test's "at most 150" for size 100) |
| Ranking.FindRelevantChunks | backend/main.py:51-84 | the nested chunking loops, the scoring loop, the sort and the `[:top_k]` slice return exactly `Ranked(documents, similarity, topK)` |
| Ranking.PassagesFromDocuments | backend/main.py:62-69 | every collected (title, chunk) pair carries the title of a document whose content chunks (at size 500) to that chunk |
| Ranking.SortDescCorrect | backend/main.py:83 | the sort is a permutation of the same length, in non-increasing score order, keeping the input order among equal scores (stable, as `list.sort` is) |
| Ranking.SortDescUnique | backend/main.py:83 | any non-increasing rearrangement that keeps equal scores in input order is exactly `SortDesc`'s result, so the model's sort is the one `list.sort(reverse=True)` yields |
| Ranking.RankedLength | backend/main.py:84 | the result has `min(top_k, n)` entries for non-negative `top_k`, and `max(n + top_k, 0)` for negative `top_k` (Python slicing), where `n` is the number of chunks |
| Ranking.RankedOrdered | backend/main.py:83-84 | the result is in non-increasing score order |
| Ranking.RankedBest | backend/main.py:76-84 | the result is a sub-multiset of the scored chunks, and no scored chunk left out scores higher than any chunk kept |
| Ranking.RankedTiesInOrder | backend/main.py:83-84 | for each score, the kept chunks of that score are a prefix of that score's chunks in document order |
| Ranking.RankedFromDocuments | backend/main.py:62-84 | every returned title is the title of a document whose chunks include the returned chunk |
| Ranking.RankedUniformScores | backend/main.py:83-84 | when every score is equal (as with the identical embeddings of the mocked test), the result is the first `top_k` chunks in document order |
| Ask.CheckApiKey | backend/main.py:124-134 | a missing or empty key gives 400 "X-API-Key header is required"; a key not starting with `sk-` gives 400 with the format message; every key starting with `sk-` passes unchanged, and only those |
| Ask.MapErrorAsWritten | backend/main.py:183-194 | the except-branch exactly as written: the result is either 401 "Invalid OpenAI API key" or 500 with "OpenAI API error: " followed by the message, and a lowercased message containing "invalid" always gives the 401 |
| Ask.MapError | backend/main.py:183-194 | the corrected mapping of the Findings entry (both phrases matched in lowercase): 401 "Invalid OpenAI API key" exactly when the lowercased message contains "incorrect api key" or "invalid"; otherwise 500 with "OpenAI API error: " followed by the message |
| Ask.MapErrorIgnoresCase | backend/main.py:185-186 | a message containing either phrase in any ASCII letter case maps to 401 |
| Ask.MixedCasePhraseNeverFound | backend/main.py:186 | the mixed-case needle "incorrect API key" never occurs in a lowercased message |
| Ask.AsWrittenTestsOnlyInvalid | backend/main.py:186-194 | the error test as written gives 401 exactly when the lowercased message contains "invalid", and 500 with the prefixed message otherwise |
| Ask.AsWrittenMisclassifiesKeyErrors | backend/main.py:183-194 | every message whose lowercase form contains "incorrect api key" but not "invalid" maps to 500 as written, and to the 401 "Invalid OpenAI API key" once corrected |
| Ask.IncorrectKeyMessageMisclassified | backend/main.py:186 | the message "Incorrect API key provided" maps to 500 as written and to 401 once the needle is lowercased |
| Ask.ContextReadBack | backend/main.py:149-152 | with titles and chunks free of line feeds, the context's lines are, for each entry in order, its "From '<title>':" header, its chunk and a blank separator line (none after the last) |
| Ask.RankedContextReadBack | backend/main.py:141-152 | the context built from the retrieved chunks reads back entry by entry whenever no document title holds a line feed |
| Ask.Sources | backend/main.py:176 | the sources hold no duplicates, and a title is a source exactly when some retrieved entry carries it |
| Ask.SourcesAreDocumentTitles | backend/main.py:141-176 | every source is the title of one of the request's documents |
| Ask.SingleDocumentSource | backend/test_main.py:100-124 | a request with a single document whose content is not all whitespace has exactly that document's title as its sources, for every `top_k >= 1` |
| Ask.AskQuestion | backend/main.py:114-194 | the endpoint reaches the service only for a key that passes the check and returns a key error unchanged; a failed service call maps through `MapError`; otherwise the answer is the chat reply to the context of the top three chunks, with `Sources` of those chunks |

## Left out

- `cosine_similarity` and the embedding vectors: floating point is not modelled; the score is an integer-valued oracle indexed by chunk position.
- The OpenAI client, `get_embeddings` and `chat.completions.create` are network calls; each is a parameter giving the reply or the exception message.
- Ask.AskQuestion: the client constructor, the two embeddings calls and the chat call are merged into one embeddings outcome and one chat outcome. A failure in any of them takes the same `except` path, so the error mapping is the same.
- Ask.AskQuestion: a reply whose `message.content` is `None`, and an embeddings reply with a different number of vectors than chunks, are not modelled; the oracle gives one score per chunk.
- Ask.AskQuestion: the prompt's fixed wording, the model names, `max_tokens` and `temperature` are not modelled; the chat outcome is a function of the context and the question.
- Ask.AskQuestion uses the corrected `MapError` (see Findings); the code as written is `MapErrorAsWritten`.
- Ask.Sources: `list(set(...))` has no defined order in Python. The model keeps first-occurrence order and states only the set of titles and the absence of duplicates, which is all the code guarantees.
- Text.Lower: only ASCII letters are lowercased; Python's full Unicode case mapping is not modelled. Both phrases the code looks for are ASCII.
- FastAPI routing, header parsing, pydantic validation and JSON encoding are not modelled, nor are the `/` and `/health` routes. A missing header is `None` and the request is the already-validated `AskRequest`.
- The browser-side document store is not part of this model.

## Findings

| source | as written | input that shows it | evidently intended | confidence | as-written member | corrected member |
|---|---|---|---|---|---|---|
| backend/main.py:186 | `"incorrect API key" in error_message.lower()`: the needle has upper-case letters but the text has been lowercased, so this test never succeeds | the exception message "Incorrect API key provided" maps to 500 "OpenAI API error: Incorrect API key provided" (Ask.IncorrectKeyMessageMisclassified) | a rejected OpenAI key maps to 401 "Invalid OpenAI API key", matching the phrase regardless of case | not executed | Ask.AsWrittenMisclassifiesKeyErrors | Ask.MapError |
