# AI-Interview-Prep backend core, modelled in Dafny

The backend of AI-Interview-Prep ingests a resume and a job description as
PDFs, splits their text into 500-word chunks, and gives every chunk a
bag-of-words frequency vector. A chat session starts with interview questions
that a language model writes from the job description. Each answer the user
gives is graded: the user's two chunks most similar to the answer are
retrieved, a grading prompt is built from them, and the model's reply is parsed
with regular expressions into a score, feedback and citations.

This project models that core:

- the embedder and cosine similarity (`backend/utils/embeddings.js`);
- top-K retrieval (`backend/utils/rag.js`);
- the upload, list and delete routes (`backend/routes/documents.js`);
- the start and query routes with their reply parser (`backend/routes/chat.js`);
- the validation the two Mongoose schemas apply on save (`backend/models/Document.js`, `backend/models/Chat.js`).

Modules, one per file:

| module | models |
|---|---|
| `Wrappers` | `Option` and `Result` |
| `Seqs` | small named sequence facts the proofs use |
| `Text` | the JavaScript string operations the code relies on: `\w`, `\d`, `\s`, `toLowerCase`, `split` on a run-matching regular expression and on one character, `join`, `trim`, literal search, `parseInt` of a digit run |
| `Sorting` | `Array.prototype.sort` with a descending comparator, modelled as a stable insertion sort; `slice(0, k)`; `map` |
| `Models` | the `Document` and `Chat` records and what a save checks (`required`, `enum`, `min`/`max`) |
| `Embeddings` | `generateEmbedding` (a loop-based method, proved equal to a specification function) and `cosineSimilarity`, computed exactly over the integers. The words are counted in a dictionary without a prototype: this is the corrected count of the first Findings row, and `PlainObjectCount` holds the count as written |
| `Rag` | `retrieveRelevantChunks`, as a method with the source's nested loops; its specification function `Retrieval` |
| `Documents` | the 500-word chunker loop, the upload route as a method over the outcomes of its external calls, the list order, and the public id the delete route derives |
| `ReplyParser` | the three regular expressions of the query route: the leftmost match and the greedy or lazy choices a backtracking matcher makes |
| `Chat` | a `ChatStore` class whose session map the `Start` and `Query` methods update, with the prompt-building and parsing steps as functions |
| `PlainObjectCount` | the word count exactly as written, on a plain `{}` that inherits from `Object.prototype` (see Findings) |

The language model is a function parameter `llm: Prompt -> string`. `Prompt`
keeps the parts of each prompt that the route fills in: the job-description
text, or the question, the answer and the context. The model's reply is
otherwise an arbitrary string. The result is that the contracts of `Start` and
`Query` say exactly which text reaches the model and what is done with its
reply.

Cosine similarity involves a square root. It is therefore kept exact as
`Zero | Ratio(dot, normProduct)`, standing for `dot / sqrt(normProduct)`.
Candidates are ranked by `SignedSquare`, which is `v * |v|` of the value `v`.
`SignedSquareOrder` proves that this ranks candidates exactly as their real
similarity values would.

Points where the code does something a reader might not expect. On these
points the model does what the code does; the one place it does not is the
word count of the first Findings row (see `Embeddings.GenerateEmbedding`
under "Left out"):

- Empty text gives one chunk, not zero. `"".split(/\s+/)` is `[""]`, so the upload route builds one chunk with empty text, and the save rejects it (`Documents.EmptyTextOneChunk`, `Documents.EmptyPdfRejected`).
- The upload route splits the parsed text without trimming it. Leading white space gives an empty first word, so the first chunk's text starts with a space. Trailing white space gives an empty last word, which can leave the last chunk empty (`Documents.UploadSaveCondition`, and Findings). `Documents.Upload` stores the chunk texts the code stores, with vectors from the corrected word count. The trimmed split of the Findings fix is `Documents.Words`, and `Documents.UploadValid` proves it always saves.
- `/start` looks up one resume and one job description with `findOne` (`backend/routes/chat.js:19-24`). Any number of stored documents of each type is accepted, and the first match of each is used.
- The question an answer is graded against is `messages[length - 2]` read after the answer is pushed. That is the last message of the history before this query (`Chat.CurrentQuestionIsLastOfHistory`).
- The grading prompt asks for "a score from 1-10" (`backend/routes/chat.js:80`), and the schema allows 1..10. The parser does not clamp the score, so an out-of-range score makes `chat.save()` fail (`Chat.OutOfRangeScoreRejected`).

## Model

| member | source | states |
|---|---|---|
| Text.SplitRuns | backend/utils/embeddings.js:6 | `split` on a run-matching regex: at least one piece; no piece holds a separator; only the first and last can be empty, and they are empty exactly when the text starts or ends with a separator; only `""` splits to `[""]` |
| Text.SplitRunsJoin | backend/routes/documents.js:37-40 | splitting the single-separator join of separator-free pieces (with no empty inner piece) gives the pieces back |
| Text.SplitOn | backend/routes/chat.js:31 | `split('\n')`: at least one piece, none holds the separator, and joining them with it gives the text back |
| Text.SplitOnJoin | backend/routes/chat.js:100 | splitting the join of separator-free pieces gives the pieces back |
| Text.Trim | backend/routes/chat.js:98 | `trim()` yields `""` exactly for blank text; otherwise the result starts and ends with a non-space; it is never longer than the text |
| Text.TrimPadded | backend/routes/chat.js:98 | trimming white space on both sides of a trimmed string gives that string |
| Text.NonBlankKeepsAll | backend/routes/chat.js:31 | `filter(q => q.trim())` keeps a list in which no line is blank unchanged |
| Text.IndexOf | backend/routes/chat.js:95-99 | the first position at or after `from` where a literal occurs, and that it occurs nowhere before it; `None` exactly when it does not occur |
| Text.LowerProperties | backend/utils/embeddings.js:6 | `toLowerCase` keeps the length, leaves no upper-case letter, is idempotent and keeps the word characters |
| Text.DecimalRoundTrip | backend/routes/chat.js:96 | `parseInt` of the decimal numeral of `n` is `n` |
| Sorting.SortDesc | backend/utils/rag.js:25-27 | the sort's result is a permutation of its input, with keys non-increasing |
| Sorting.SortDescStable | backend/utils/rag.js:25-27 | stability: for every key, the elements with that key keep their input order |
| Sorting.MapSortDesc | backend/utils/embeddings.js:14-15 | mapping each element after a stable sort equals sorting the mapped values, when the key factors through the map (sorting words by count and reading the counts is sorting the counts) |
| Sorting.SortedPrefixIsTop | backend/utils/rag.js:27 | after a descending sort, no element that `slice(0, k)` drops outranks a kept one |
| Models.ParseDocType | backend/models/Document.js:9-13 | the `type` enum accepts exactly `resume` and `jd`, and reads back the stored spelling |
| Models.ValidSessionAppend | backend/models/Chat.js:9-28 | appending to a valid session keeps it valid exactly when every appended message is valid |
| Embeddings.KeepLong | backend/utils/embeddings.js:6 | `filter(word => word.length > 2)` keeps only words longer than two characters, taken from its input |
| Embeddings.TokensAreWords | backend/utils/embeddings.js:6 | every token is longer than two characters, consists of word characters and is lower-case |
| Embeddings.TokensIgnoreCase | backend/utils/embeddings.js:6 | a text and its lower-case form have the same tokens |
| Embeddings.TokensOfJoin | backend/utils/embeddings.js:6 | tokens written out with single spaces tokenise back to themselves, in order |
| Embeddings.NoTokens | backend/utils/embeddings.js:6 | the empty text and a text of short words have no tokens |
| Embeddings.Distinct | backend/utils/embeddings.js:9-11 | the keys of the dictionary: the same set of words as the input, with no repeats |
| Embeddings.DistinctInFirstAppearanceOrder | backend/utils/embeddings.js:9-11 | the keys are in order of first appearance: a key before another first occurs before it |
| Embeddings.CountsFor | backend/utils/embeddings.js:15 | one count per key, each the number of times that key occurs |
| Embeddings.CountWords | backend/utils/embeddings.js:7-11 | the counting loop: the keys are the distinct words in creation order, the dictionary holds exactly the words, and each count is the word's number of occurrences |
| Embeddings.GenerateEmbedding | backend/utils/embeddings.js:4-18 | `generateEmbedding` (sort keys by count, keep 100, map to counts) returns `Embedding(text)`: all counts, largest first, cut at 100 |
| Embeddings.CountsByLookup | backend/utils/embeddings.js:14-15 | sorting the keys by count and reading the counts off equals sorting the counts |
| Embeddings.EmbeddingLength | backend/utils/embeddings.js:14 | the vector has one entry per distinct token, up to 100 |
| Embeddings.EmbeddingPositive | backend/utils/embeddings.js:15 | every entry is at least 1, so the `|| 0` fallback is never used |
| Embeddings.EmbeddingNonIncreasing | backend/utils/embeddings.js:14 | the vector never increases |
| Embeddings.EmbeddingDependsOnlyOnCounts | backend/utils/embeddings.js:14-15 | texts whose count multisets agree have equal vectors: which word a count belongs to never shows |
| Embeddings.AnyKeyOrderGivesEmbedding | backend/utils/embeddings.js:14-15 | whatever order the keys come in and however ties are broken, the first 100 counts of a sort by count are the vector |
| Embeddings.CountsSum | backend/utils/embeddings.js:9-11 | each token is counted exactly once: the counts add up to the number of tokens |
| Embeddings.EmbeddingSum | backend/utils/embeddings.js:14-15 | the entries add up to at most the number of tokens, and to exactly that with at most 100 distinct tokens |
| Embeddings.EmbeddingOfShortText | backend/utils/embeddings.js:4-18 | the empty text and a text of short words have the empty vector |
| Embeddings.SumSquares | backend/utils/embeddings.js:22-23 | a squared norm is never negative |
| Embeddings.CosineSimilarity | backend/utils/embeddings.js:20-27 | `Zero` exactly when a norm is 0, so there is never a division by zero; otherwise the dot product's square is at most the product of the squared norms |
| Embeddings.DotOverCommonPrefix | backend/utils/embeddings.js:21 | the `vecB[i] || 0` dot product ranges over the indices the two vectors share |
| Embeddings.DotSymmetric | backend/utils/embeddings.js:21 | the dot product is symmetric even for vectors of different lengths |
| Embeddings.CauchySchwarz | backend/utils/embeddings.js:21-23 | the Cauchy–Schwarz inequality for the dot product and norms as computed |
| Embeddings.CosineSymmetric | backend/utils/embeddings.js:20-27 | similarity is symmetric |
| Embeddings.CosineSelf | backend/utils/embeddings.js:20-27 | a non-zero vector has similarity exactly 1 with itself |
| Embeddings.CosineZeroNorm | backend/utils/embeddings.js:25 | a vector with zero norm has similarity 0 with anything |
| Embeddings.CosineOfCountsNonNegative | backend/utils/embeddings.js:20-27 | count vectors have similarity at least 0 |
| Embeddings.CosineBounded | backend/utils/embeddings.js:26 | every similarity stands for a value in [-1, 1] |
| Embeddings.SignedSquareOrder | backend/utils/rag.js:26 | ranking by `SignedSquare` ranks by the similarity values |
| Rag.CollectCandidates | backend/utils/rag.js:10-22 | the nested `forEach` loops push exactly `Candidates(docs, qv)` |
| Rag.RetrieveRelevantChunks | backend/utils/rag.js:4-28 | the query is embedded once, and the result is the first `topK` of the stable descending sort of all candidates |
| Rag.CandidatesLayout | backend/utils/rag.js:10-22 | exactly one candidate per chunk, document by document and chunk by chunk, with no others |
| Rag.DocCandidatesShape | backend/utils/rag.js:12-20 | each candidate carries its chunk's text, its document's type and id, its chunk index, and the similarity of the query vector with the chunk's vector |
| Rag.CandidateOrigin | backend/utils/rag.js:12-20 | every candidate is the score of an existing chunk |
| Rag.RetrievalLength | backend/utils/rag.js:25-27 | `min(topK, number of chunks)` results for a non-negative `topK` |
| Rag.RetrievalSorted | backend/utils/rag.js:26 | the results are ordered by non-increasing similarity value |
| Rag.RetrievalStable | backend/utils/rag.js:26 | the results with any one similarity are the first candidates with that similarity, in discovery order |
| Rag.SameKeySameValue | backend/utils/rag.js:26 | equal sort keys mean equal similarity values |
| Rag.RetrievalIsTop | backend/utils/rag.js:25-27 | the results are drawn from the candidates, and no candidate left out is more similar than a returned one |
| Rag.RetrievalFromChunks | backend/utils/rag.js:25-27 | every result is the score of an existing chunk |
| Rag.RetrievalWithoutChunks | backend/utils/rag.js:8-27 | no chunks, no results |
| Documents.Words | backend/routes/documents.js:37 | the trimmed split of the Findings fix (the route itself does not trim): `[""]` exactly for blank text, otherwise no word is empty |
| Documents.NumWindowsBound | backend/routes/documents.js:39 | the loop `i += 500` runs for `k` exactly when `500 * k` is below the length |
| Documents.Windows | backend/routes/documents.js:39-40 | there are `ceil(n / 500)` windows, each `words.slice(500k, 500k + 500)` |
| Documents.ChunkText | backend/routes/documents.js:38-43 | the chunker loop pushes exactly `ChunksFor(words)`, one chunk per window |
| Documents.ChunkAt | backend/routes/documents.js:40-42 | chunk `k` is window `k` joined by single spaces, with that text's vector |
| Documents.ChunkEmbeddings | backend/routes/documents.js:41 | each chunk carries the vector of its own text |
| Documents.WindowsCoverWords | backend/routes/documents.js:39-40 | the windows put back together are the word list: nothing is dropped, repeated or reordered |
| Documents.WindowSizes | backend/routes/documents.js:39-40 | every window but the last holds 500 words and the last holds 1 to 500 |
| Documents.ChunkCount | backend/routes/documents.js:37-43 | there are `ceil(words / 500)` chunks, and at least one |
| Documents.EmptyTextOneChunk | backend/routes/documents.js:37-43 | empty text gives one chunk with empty text and an empty vector, not zero chunks |
| Documents.ChunkTextSplitsToWindow | backend/routes/documents.js:40 | splitting a chunk's text on white space gives back its window |
| Documents.ChunkTextsJoin | backend/routes/documents.js:40 | the chunk texts joined by spaces are the words joined by spaces |
| Documents.ChunksOfTextValid | backend/models/Document.js:22-31 | with the trimmed word list, every chunk of a non-blank text has non-empty text |
| Documents.TrailingSpaceEmptyChunk | backend/routes/documents.js:37-43 | as written, text that ends in white space and whose split has `500m + 1` pieces gets an empty last chunk, and the save rejects it |
| Documents.FiveHundredWordsAndASpace | backend/routes/documents.js:37-43 | as written, 500 words each followed by a space give two chunks, the second empty |
| Documents.RequestedType | backend/routes/documents.js:20-23 | a type is accepted exactly when it is `resume` or `jd` |
| Documents.Upload | backend/routes/documents.js:14-75 | the checks in order: the file, the type, the parse, the store. Success comes exactly when all pass and the document built from the chunks of `text.split(/\s+/)`, untrimmed, passes the save's validation, and the stored document is that one |
| Documents.SplitChunksValid | backend/routes/documents.js:37-43 | as written, every chunk has text exactly unless the text is empty, or ends in white space and splits into `500m + 1` pieces; leading white space never empties a chunk |
| Documents.UploadSaveCondition | backend/routes/documents.js:37-64 | as written, the save succeeds exactly when the file name and URL are present and the text is neither empty nor ends in white space with a split of `500m + 1` pieces |
| Documents.EmptyPdfRejected | backend/routes/documents.js:27-30 | a PDF with no text, or with empty text, is rejected by the save |
| Documents.UploadValid | backend/routes/documents.js:58-64 | a non-blank text, a file name and a URL always pass the save, with the corrected word list |
| Documents.OwnedBy | backend/routes/documents.js:82 | `find({ userId })` returns exactly the owner's documents |
| Documents.FindByType | backend/routes/chat.js:19-20 | `findOne({ userId, type })`: a match if there is one, and `None` exactly when there is none |
| Documents.ListDocuments | backend/routes/documents.js:80-90 | the owner's documents, summarised, newest first, as a permutation |
| Documents.ListedAreOwned | backend/routes/documents.js:82-84 | an entry is listed exactly when it summarises one of the owner's documents |
| Documents.PublicId | backend/routes/documents.js:107 | the public id holds neither `/` nor `.` |
| Documents.DestroyTarget | backend/routes/documents.js:108 | the destroy target is `documents/` followed by a name without `/`, possibly empty |
| Documents.PublicIdOfUrl | backend/routes/documents.js:107 | for `<base>/<name>.<ext>`, and for `<base>/<name>`, the public id is `name` |
| Documents.DeleteDocument | backend/routes/documents.js:95-117 | not found exactly when the caller owns no document with that id |
| Documents.DeleteRemovesOne | backend/routes/documents.js:97-111 | an entitled delete removes exactly that document, keeps the rest in order, and destroys its stored file |
| Documents.DeleteOthersDocument | backend/routes/documents.js:97-104 | another user's document is never deleted |
| ReplyParser.FirstScoreMatch | backend/routes/chat.js:95 | the leftmost position where `/Score:\s*(\d+)/` matches, with no match before it; `None` when it matches nowhere |
| ReplyParser.ScoreOf | backend/routes/chat.js:95-96 | `None` exactly when the pattern matches nowhere, in particular when the text has no `Score:` |
| ReplyParser.CitationsAfter | backend/routes/chat.js:97 | where the lazy group stops: the first `Citations:` at or after the start, or the end of the text |
| ReplyParser.FeedbackOf | backend/routes/chat.js:97-98 | the whole reply when it has no `Feedback:`; otherwise a trimmed capture |
| ReplyParser.CitationsOf | backend/routes/chat.js:99-100 | non-blank lines without line breaks; none when the text has no `Citations:` |
| ReplyParser.ScoreDigits | backend/routes/chat.js:95 | the captured group is the whole digit run after the label and its white space: non-empty, all digits, and followed by a non-digit or the end |
| ReplyParser.ScoreAfterPreamble | backend/routes/chat.js:95-96 | after any preamble in which the pattern does not match, `Score:`, any white space, the numeral of `n` and a non-digit parse to `n` |
| ReplyParser.ScoreOfNumeral | backend/routes/chat.js:95-96 | `Score: <numeral of n>` followed by a non-digit parses to `n` |
| ReplyParser.ScoreSevenOfTen | backend/routes/chat.js:85 | the prompt's own layout `Score: 7/10` gives 7 |
| ReplyParser.ScoreOutOfRange | backend/routes/chat.js:96 | `Score: 0` and `Score: 12` parse to 0 and 12, both outside the schema's range |
| ReplyParser.FeedbackRoundTrip | backend/routes/chat.js:97-98 | a trimmed feedback without `Citations:` is recovered from the prompt's layout, after any text without an `F` |
| ReplyParser.CitationsRoundTrip | backend/routes/chat.js:99-100 | citation lines that are not blank are recovered from the prompt's layout |
| ReplyParser.SectionsRoundTrip | backend/routes/chat.js:97-100 | feedback and citations are both recovered after any text without an `F` or a `C` |
| ReplyParser.FormatRoundTrip | backend/routes/chat.js:84-100 | a reply laid out exactly as the grading prompt asks parses back to its score, feedback and citations |
| ReplyParser.ExampleReply | backend/routes/chat.js:95-100 | a reply without a score line gives no score, the feedback sentence, and one citation per line |
| Chat.JdTextOfUpload | backend/routes/chat.js:27 | for a job description stored by the upload route, the model is given the words of its untrimmed split joined by single spaces |
| Chat.QuestionsOf | backend/routes/chat.js:31 | at most four questions, none blank and none holding a line break |
| Chat.QuestionsFromLines | backend/routes/chat.js:31 | for a reply made of lines, the questions are its first four non-blank lines, in order and untrimmed |
| Chat.QuestionsRoundTrip | backend/routes/chat.js:31 | up to four non-blank lines written one per line come back unchanged |
| Chat.BlankLineDropped | backend/routes/chat.js:31 | a blank line between two questions is dropped |
| Chat.QuestionMessages | backend/routes/chat.js:36 | one assistant message per question, in order |
| Chat.StartSessionValid | backend/routes/chat.js:34-37 | `Chat.create` accepts every session `/start` builds |
| Chat.CurrentQuestion | backend/routes/chat.js:69 | the question is never empty |
| Chat.CurrentQuestionIsLastOfHistory | backend/routes/chat.js:62-69 | the question is the last message of the history before the query, or the default when there is none or it is empty |
| Chat.ContextOfRetrieval | backend/routes/chat.js:65-68 | the context is empty with no chunks, one text with one chunk, and otherwise the two most similar texts, the more similar first, separated by a blank line |
| Chat.Grade | backend/routes/chat.js:62-91 | the model is asked about the current question, the answer and the context of the owner's most similar chunks |
| Chat.QuerySaveValid | backend/routes/chat.js:103-111 | the save accepts the two new messages exactly when the answer and the reply are non-empty and the parsed score, if any, lies in 1..10 |
| Chat.GradedMessageValid | backend/models/Chat.js:15-23 | the graded message passes the schema exactly when the reply is non-empty and its score lies in range |
| Chat.OutOfRangeScoreRejected | backend/routes/chat.js:95-111 | a reply whose score line reads 0 or more than 10 makes the save fail |
| Chat.ChatStore.constructor | backend/models/Chat.js:3-35 | the empty collection is valid |
| Chat.ChatStore.Start | backend/routes/chat.js:16-46 | fails, changing nothing, exactly when the resume or the job description is missing; otherwise stores under a fresh id one assistant message per question line, at most four, none blank, with no score, and keeps the store valid |
| Chat.ChatStore.Query | backend/routes/chat.js:51-122 | not found, changing nothing, exactly when the caller does not own the session; otherwise the session gains the user message and the graded reply, and is stored exactly when it passes validation; the store stays valid |
| PlainObjectCount.CountWordsInObject | backend/utils/embeddings.js:7-11 | the loop over a plain object computes `CountAll(words)` |
| PlainObjectCount.AgreesOnOrdinaryWords | backend/utils/embeddings.js:7-11 | without `constructor` and `__proto__`, the object count has the corrected count's keys, key order and values |
| PlainObjectCount.ConstructorBecomesString | backend/utils/embeddings.js:10 | as written, the text `constructor` gives a count that is the string of `Object` with `1` appended; the intended vector is `[1]` |
| PlainObjectCount.ProtoDropped | backend/utils/embeddings.js:10 | as written, the text `__proto__` is not counted at all; the intended vector is `[1]` |
| PlainObjectCount.StringCountGrows | backend/utils/embeddings.js:10 | once a count is a string, every later occurrence appends another `1` |

## Left out

- The PDF parser, the file store (Cloudinary) and the database are not modelled. Their outcomes are parameters: `ParseOutcome`, `StoreOutcome`, the document list, and the session map of `ChatStore`.
- HTTP status codes, response bodies, authentication and request parsing are not modelled. The upload file's buffer is not modelled; only its original name is.
- Exceptions from external calls are not modelled. This covers the 500 paths of every route, a model call that throws, and a store that fails after the upload.
- `Chat.create` in `/start` is not modelled as a failure branch, because `Chat.StartSessionValid` proves its validation always passes.
- The language model: the wording of both prompts is not modelled; `Prompt` holds only the parts the route fills in. The model is a function parameter, so the same prompt always gets the same reply. Sampling and nondeterminism are left out.
- Ids, `createdAt` and timestamps are parameters or counters, not ObjectIds or clock readings.
- Floating point is not modelled. `Embeddings.CosineSimilarity` keeps the similarity as an exact ratio: rounding, and ties that floating point would break differently, are not modelled.
- `Text.Lower` handles ASCII only. `toLowerCase` of other letters, and Unicode case mapping that changes the length, are not modelled.
- The character classes are not modelled for the `u` flag, and no Unicode normalisation is modelled.
- `Text.DecimalString`: `parseInt` of a very long digit run loses precision in floating point. That is not modelled.
- `Embeddings.GenerateEmbedding`, and through it `Documents.Upload`, `Rag.RetrieveRelevantChunks` and `Chat.ChatStore.Query`, uses the corrected word count. With the token `constructor` in a text, the source's count is a string, so its upload fails to cast the vector to numbers and its similarities for that query are NaN, which leaves the retrieval order to the engine. The token `__proto__` is not counted by the source. Both are modelled only in `PlainObjectCount`.
- `Embeddings.CountWords`: `Object.keys` lists integer-like keys first, in numeric order. The key order is modelled as creation order. This does not change the vector, because `Embeddings.AnyKeyOrderGivesEmbedding` proves the vector is the same for every key order.
- `Documents.ListDocuments`: the database does not promise an order among equal `createdAt` values. The model uses the stable order.
- `Rag.RetrievalLength` is stated for a non-negative `topK` only. A negative `topK` is modelled by `Sorting.SliceEnd`, but its length is not stated.
- `Chat.ChatStore.Query`: a request body without a `message` field, or with a non-string one, is not modelled; the answer is always a string. The source also computes `aiResponse.split('\n')` into a variable it never uses; that is not modelled.
- `Chat.ChatStore.Start`: if several resumes or job descriptions are stored, the first stored one of each is used. The database order stands for "first".

## Findings

| source | as written | input that shows it | evidently intended | confidence | as-written member | corrected member |
|---|---|---|---|---|---|---|
| backend/utils/embeddings.js:7-10 | the counts live in a plain `{}`, so the token `constructor` reads the inherited `Object` function, and `(wordCount[word] \|\| 0) + 1` becomes the string `"function Object() { [native code] }1"`; the token `__proto__` goes to the prototype's setter and is dropped | a document or answer containing the word `constructor` (for example a resume listing C++ skills) or `__proto__` | each token counted from 0: the vector of `constructor` alone is `[1]` (a null-prototype object or a `Map`) | high for the string count, which makes `Document.create` fail to cast the vector to numbers; not executed | PlainObjectCount.ConstructorBecomesString | Embeddings.CountWords |
| backend/routes/documents.js:37 | `text.split(/\s+/)` on text that ends in white space gives an empty last word; when that word is alone in the last window, the last chunk's text is `""` and `Document.create` rejects the whole upload for a missing chunk text | 500 words each followed by one space (any text whose split has `500m + 1` pieces, the last empty) | split the trimmed text, so that every chunk of non-blank text has words (`text.trim().split(/\s+/)`) | high; not executed | Documents.FiveHundredWordsAndASpace | Documents.UploadValid |
