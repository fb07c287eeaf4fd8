# Retrieval path of a PDF question-answering backend, in Dafny

The backend answers questions about one uploaded PDF. Two parts of it hold
logic of their own, and this project models both:

- **Ingestion** (`backend/utils/embedUtils.js`). `splitText` cuts the
  extracted text into pages at form-feed characters. It walks each page with
  a 500-character window that moves 400 characters per step, so neighbouring
  windows share up to 100 characters, fewer when the later window reaches the
  end of the page (see `Chunker.WindowOverlap`). Each window becomes a chunk
  tagged with its 1-based page number. `embedChunksAndStore` then goes
  through the chunks in
  order. For each one it awaits an embedding and adds one record to the
  `pdf-chunks` collection: id `String(i)`, the chunk text, the embedding and
  `{ page }`.
- **Answering** (`backend/services/chatService.js`). `chatWithPDF` embeds the
  question, queries the collection, and takes the citations from the page
  field of the first query's metadata, in ranked order. It joins the first
  query's documents with newlines into the context of a fixed prompt and
  returns the first chat choice with those citations. Every failure gives
  the same response: status 500 with error `Failed to process chat`.

Files:

- `js_text.dfy` (module `JsText`): the JavaScript string built-ins used by
  the code: `slice`, `split`, `join` and `String(n)`. Each comes with its
  partner: join undoes split, split undoes join, and a decimal string reads
  back as its number.
- `chunker.dfy` (module `Chunker`): `splitText` as an imperative method. Its
  `forEach` loop calls a second method, which holds the window loop that the
  callback runs. It is proved equal to the specification function `Chunks`,
  and the window, coverage, overlap and page-order properties are proved
  about `Chunks`.
- `provider.dfy` (module `Provider`): the shapes of what the embedding
  service returns.
- `ingest.dfy` (module `Ingest`): the collection as a class whose record list
  grows with each `add`, and the storing loop as a method. The method's
  postcondition ties the new record list to the function `StoredEntries`.
- `chat.dfy` (module `Chat`): `chatWithPDF` as a function over its remote
  services, which are passed in as parameters.
- `wrappers.dfy` (module `Wrappers`): `Option`.

## Behaviour worth knowing

These follow from the code as written, and the model keeps them:

- **Windows per page.** The loop runs while the window start is below the
  page length, so a page of `L` characters gives `ceil(L / 400)` windows. A
  450-character page gives two chunks, `[0, 450)` and `[400, 450)`. A
  900-character page gives three chunks, and the last one, `[800, 900)`, is
  already inside the chunk before it. See `Chunker.TwoPageScenario` and
  `Chunker.RedundantLastWindow`.
- **Short windows.** A window is exactly 500 characters long precisely when
  the page reaches 500 characters past its start. So the second-to-last
  window of a page can be short too: on an 850-character page, window 1 has
  450 characters. See `Chunker.WindowLength` and
  `Chunker.ShortWindowBeforeLast`.
- **Empty pages.** Only pages of length zero give no chunks. A page that
  holds only whitespace still gives chunks, because nothing trims it.
- **No replacement, no classification.** The collection is fetched or
  created by name and only ever appended to. It is never cleared on a new
  upload. There is no failure classification: the first failed embedding
  rejects the ingestion, and the records added before it stay. Chat
  failures are not told apart.

## Model

| member | source | states |
|---|---|---|
| JsText.Slice | backend/utils/embedUtils.js:31 | `slice` clamps both ends to the length. The result is the contiguous run of the string starting at `start`, with length `min(end, len) - start`, or empty |
| JsText.Split | backend/utils/embedUtils.js:26 | `split('\f')` gives at least one piece, and no piece contains the separator |
| JsText.Join | backend/services/chatService.js:23 | `join('\n')` of no pieces is empty and of one piece is that piece. The result holds a separator iff there are two or more pieces or some piece holds one, so a single document gives a context without an added newline |
| JsText.SplitCount | backend/utils/embedUtils.js:26 | the number of pages is the number of form feeds plus one |
| JsText.JoinSplit | backend/utils/embedUtils.js:26 | joining the pages with the separator gives back the text exactly, so splitting loses no character |
| JsText.SplitJoin | backend/services/chatService.js:23 | splitting a join recovers the pieces when none of them contains the separator |
| JsText.JoinPieceAt | backend/services/chatService.js:23 | each piece sits in the join at its offset, in order, with exactly one separator between consecutive pieces and nothing after the last |
| JsText.JoinLength | backend/services/chatService.js:23 | a join is as long as its pieces plus one separator per gap |
| JsText.DecimalString | backend/utils/embedUtils.js:15 | `String(i)` is a non-empty string of decimal digits with no leading zero |
| JsText.DecimalRoundTrip | backend/utils/embedUtils.js:15 | the decimal representation reads back as the number |
| JsText.DecimalStringInjective | backend/utils/embedUtils.js:15 | distinct indices get distinct ids |
| Chunker.NumWindows | backend/utils/embedUtils.js:30 | the number of window starts below `L` is `ceil(L / 400)`. It is zero exactly for an empty page |
| Chunker.Window | backend/utils/embedUtils.js:30-31 | window `k` has at most 500 characters, lies inside the page, and character `j` of it is character `400k + j` of the page |
| Chunker.PageChunks | backend/utils/embedUtils.js:29-33 | a page gives `ceil(L / 400)` chunks, chunk `k` being window `k`, all tagged with the page number |
| Chunker.Chunks | backend/utils/embedUtils.js:23-37 | the output of `splitText`: page tags never decrease, every tag names an existing page, and the chunks tagged `p` are exactly the windows of page `p` in order |
| Chunker.EveryPageChunked | backend/utils/embedUtils.js:29-33 | for every page `p`, the chunks tagged `p` are that page's windows |
| Chunker.SplitText | backend/utils/embedUtils.js:23-37 | the loops push exactly the chunks of `Chunks(text)`: pages in order, windows in order within a page, tag `pageIndex + 1` |
| Chunker.PushPageChunks | backend/utils/embedUtils.js:29-33 | the `forEach` callback appends exactly the window chunks of its page, in window order, all tagged with the page number, and keeps what was pushed before |
| Chunker.WindowStart | backend/utils/embedUtils.js:30 | the loop test `i < pageText.length` at `i = 400k` holds exactly for the `k` below `ceil(L / 400)` |
| Chunker.WindowText | backend/utils/embedUtils.js:30-31 | window `k` starts at `400k`, inside the page, and is the contiguous slice `[400k, min(400k + 500, L))` |
| Chunker.WindowLength | backend/utils/embedUtils.js:24-31 | a window is 1 to 500 characters long, and exactly 500 iff `400k + 500 <= L`. Every window but the last is longer than 400; the last is at most 400 |
| Chunker.ShortWindowBeforeLast | backend/utils/embedUtils.js:30-31 | on an 850-character page the middle of three windows has only 450 characters |
| Chunker.WindowOverlap | backend/utils/embedUtils.js:24-31 | what window `k` holds past offset 400 is the start of window `k + 1`, and this shared part is `min(100, L - 400(k + 1))` long |
| Chunker.RedundantLastWindow | backend/utils/embedUtils.js:30-31 | a last window of at most 100 characters is exactly the tail of the window before it |
| Chunker.Coverage | backend/utils/embedUtils.js:30-31 | the first 400 characters of every chunk but the last, followed by the whole last chunk, rebuild the page text exactly |
| Chunker.ChunksOfPage | backend/utils/embedUtils.js:29-33 | the chunks tagged `p` are exactly the windows of page `p`, in window order |
| Chunker.PagesInRange | backend/utils/embedUtils.js:29-32 | every tag lies between 1 and the number of pages |
| Chunker.PagesOrdered | backend/utils/embedUtils.js:29-33 | page tags never decrease along the output |
| Chunker.ChunkOrigin | backend/utils/embedUtils.js:26-33 | every output chunk is some window `k` of some page `pi`, tagged `pi + 1` |
| Chunker.ChunksStayOnPage | backend/utils/embedUtils.js:26-32 | no chunk contains a form feed, so none spans two pages. Tags lie in `1 .. (number of form feeds + 1)` |
| Chunker.EmptyPages | backend/utils/embedUtils.js:30 | a text whose pages are all empty (the empty text, or only form feeds) gives no chunks |
| Chunker.TwoPageScenario | backend/utils/embedUtils.js:23-37 | pages of 450 and 900 characters give the five chunks `[0,450)`, `[400,450)` of page 1 and `[0,500)`, `[400,900)`, `[800,900)` of page 2 |
| Chunker.TwoPageWindows | backend/utils/embedUtils.js:29-33 | the same five chunks, for any two pages of 450 and 900 characters |
| Ingest.Collection.constructor | backend/utils/embedUtils.js:10 | a new collection has the given name and no records |
| Ingest.Collection.Add | backend/utils/embedUtils.js:14-19 | one `add` appends exactly its record and changes nothing else |
| Ingest.FirstFailureFrom | backend/utils/embedUtils.js:12-13 | the index of the first chunk from `from` on whose embedding fails, or the chunk count. Everything before it embeds |
| Ingest.StoredCount | backend/utils/embedUtils.js:12-20 | the chunks before the first failed embedding all embed, and the chunk at that count fails, unless every chunk embedded |
| Ingest.StoredEntries | backend/utils/embedUtils.js:14-19 | the records of the first `n` chunks: exactly `n` of them, record `i` holding the text of chunk `i` as document and its page as metadata (the full record is `Ingest.StoredEntryAt`) |
| Ingest.EmbedChunksAndStore | backend/utils/embedUtils.js:8-21 | the collection's records become the old records followed by one record per chunk before the first failed embedding. The call resolves iff all chunks were stored, and otherwise rejects with the failing embedding's error |
| Ingest.StoredEntryAt | backend/utils/embedUtils.js:12-19 | record `i` has id `String(i)`, document `chunks[i].text`, the embedding of that text and metadata page `chunks[i].page`. There is exactly one record per stored chunk |
| Ingest.StoredIdsDense | backend/utils/embedUtils.js:15 | the stored ids are decimal strings, pairwise distinct, and id `i` reads back as `i`, so the ids are exactly `0 .. n-1` |
| Ingest.StoredPagesOrdered | backend/utils/embedUtils.js:9-19 | stored records keep the chunker's page order. Their pages lie in `1 .. (form feeds + 1)` and no document holds a form feed |
| Ingest.AllChunksStored | backend/utils/embedUtils.js:12-20 | when every embedding succeeds, every chunk gets exactly one record |
| Chat.Citations | backend/services/chatService.js:22 | `map(meta => meta.page)` fails exactly when some metadata slot is `null`. Otherwise it has the same length and order, and element `j` is `metadatas[0][j].page` |
| Chat.Ground | backend/services/chatService.js:21-31 | only `documents[0]` and `metadatas[0]` are read. The step fails iff one of the lists is missing or a slot is `null`. The citations are the pages, and the prompt is the template around the newline-joined documents |
| Chat.Prompt | backend/services/chatService.js:25-31 | the filled template opens with the instruction and `Context:` and ends with the question and a newline, around the context and `Question: ` (the full layout is `Chat.PromptLayout`) |
| Chat.Request | backend/services/chatService.js:33-37 | the request sends the prompt as the content of a single `user` message to `gpt-4` at temperature 0.2 |
| Chat.ChatWithPDF | backend/services/chatService.js:13-45 | every failing step gives the one response `ServerError(500, "Failed to process chat")` |
| Chat.AnsweredIff | backend/services/chatService.js:13-41 | the response is `{ answer, citations }` iff every step succeeds. Then the answer is the first choice and the citations are the ranked metadata pages |
| Chat.OnlyFirstListsUsed | backend/services/chatService.js:21-22 | results that agree on `documents[0]` and `metadatas[0]` give the same response |
| Chat.CitationsIgnoreAnswer | backend/services/chatService.js:22-41 | the citations do not depend on the generated text: two chat services that both answer give the same citations |
| Chat.PromptLayout | backend/services/chatService.js:25-31 | the prompt is the instruction, then `Context:` and the context verbatim, then `Question: ` and the question verbatim, then a newline |
| Chat.InstructionAsksForPageCitations | backend/services/chatService.js:25 | the instruction asks for citations in the form `[Page X]` |
| Chat.PromptInjective | backend/services/chatService.js:25-31 | among contexts of one length, the prompt determines both the context and the question |
| Chat.ContextHoldsDocuments | backend/services/chatService.js:23 | the context contains every retrieved document in ranked order, each but the last followed by one newline |
| Chat.ContextOfFewDocuments | backend/services/chatService.js:23 | with exactly one document the context is that document, with no separator. With none it is empty |
| Chat.ContextRecoversDocuments | backend/services/chatService.js:23 | when no document contains a newline, splitting the context at newlines gives back the documents |

## Left out

- Strings are sequences of UTF-16 code units in JavaScript, while a Dafny `char` is a Unicode scalar value, so a `char` stands for one code unit only in text within the Basic Multilingual Plane. A character outside it is one `char` in the model but length 2 in the source, so on such text the model's lengths and window offsets differ from the source's, and the source's splitting of a surrogate pair across two windows is not represented.
- `getEmbedding` (`backend/utils/embedUtils.js:39-45`) and the chat-completion call are remote OpenAI calls. They are the function parameters `embed` and `complete`, and they are assumed to answer the same way every time they are asked the same thing. The model name `text-embedding-3-small` and the shape of the embedding response are not modelled.
- Fetching and querying the Chroma collection (`getOrCreateCollection`, `getCollection`, `query`) is external. Ingestion takes an already fetched collection; a failure to fetch it is not modelled. Answering takes the query as a parameter that may fail. The nearest-neighbour ranking, and whether the result has at most `nResults` entries, are not modelled.
- Ingest.Collection.Add: records the record as built. What Chroma keeps is not modelled: the `metadata` key where its API expects `metadatas`, and ids repeated from an earlier upload into the same never-cleared collection.
- A failure of `collection.add` itself is not modelled. Only a failed embedding stops ingestion.
- Text extraction from the PDF (`backend/services/pdfService.js`), the Express routes and the frontend are not part of this model. So whether extracted text really marks page breaks with form feeds is not covered.
- Await sequencing is modelled as plain sequential code. The logging in the `catch` clauses is not modelled.
- A request body without a string `question` and a `null` message content in the chat reply are not modelled: the question and the answer are strings.
- A query result is modelled as lists of document strings and metadata slots. A `null` document, which `join` would print as empty, is not modelled.
