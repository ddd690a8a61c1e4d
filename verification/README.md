# Enterprise AI copilot: a verified model of its core

A Dafny 4.11 model of the algorithmic core of the knowledge copilot, with proofs.
`dafny verify dfyconfig.toml` checks the whole project.

| file | models |
|---|---|
| `Collections.dfy`, `Ordering.dfy`, `Text.dfy` | Python and JavaScript list, dictionary and string operations the rest relies on: slicing, first-occurrence de-duplication, insertion-ordered dictionaries, stable sorting, trimming, splitting, joining |
| `GraphCore.dfy`, `EntityIds.dfy`, `GraphOps.dfy`, `GraphUpserts.dfy`, `GraphStore.dfy` | names and ids, the tenant-keyed in-memory knowledge graph (a class whose dictionaries the methods update) and everything a run of upserts keeps |
| `GraphWalk.dfy` | breadth-first traversal for any source of one-hop rows, with its correctness |
| `Neo4jStore.dfy`, `GraphRetriever.dfy`, `GraphQueries.dfy` | the database-backed walk, many-seed retrieval, graph building |
| `Json.dfy`, `ChatStream.dfy` | the server's event printer and the client's incremental parser, JSON text included (RFC 8259; framing as in section 9.2.5 of the WHATWG HTML standard) |
| `Chunkers.dfy`, `ChunkMerging.dfy`, `SentenceEnds.dfy`, `ChildLengths.dfy`, `WindowChunkers.dfy`, `SentenceCuts.dfy`, `Cleaner.dfy`, `CleanedText.dfy` | the text pipeline |
| `Fusion.dfy`, `Evidence.dfy` | Reciprocal Rank Fusion, hybrid retrieval, evidence pooling and citations |
| `Markdown.dfy`, `MarkdownMeaning.dfy` | the chat view's Markdown block loop and inline tokeniser |
| `SqlGuard.dfy` | the SQL token guard and the retry loop of the SQL agent |

How to read it: a loop of the source is a method, proved equal to a function of its inputs
or of the old state; what the source promises is then proved about that function. What the
code reaches outside itself is a parameter: `str.lower` and the class of Unicode decimal digits
are function values, extractor output, search hits, similarities, lexed tokens and
model answers are arguments, and the Neo4j one-hop query is any function that answers
from the graph's edges in any order. RRF scores are exact reals.

Results worth knowing before reading the code:

* The Markdown block loop does not end on every text. A line such as `# a<U+2028>b` is a
  heading for `isHeading` (ChatView.tsx:560) but not for the rendering pattern (ChatView.tsx:568), whose
  `.` stops at line separators; the paragraph branch then consumes nothing. `Markdown.TerminatesIff`
  proves that the loop ends exactly when no line is of that kind, and `Markdown.SeparatorSticks` gives the input.
* `entity_id` joins its parts with colons, so kind "a:b" named "c" and kind "a" named "b:c" share an id
  (`EntityIds.ColonCollision`). `EntityIds.IdsEqualIff` says when two ids are equal, `EntityIds.KindsCollideIff` when two
  kinds collide for some names, and `EntityIds.AsciiKindsCollideIff` decides that from the kinds alone.
* The RRF guarantee that an id found by both retrievers beats an id found by one holds for
  lists of length up to n exactly when n < k + 2 (`Fusion.BothBeatOneIff`); the defaults are n = 20, k = 60.
* `recursive_chunks` appends its separator even to a last piece that had none, so it can add characters. Conservation
  is therefore stated after erasing white space and separator characters, and once more with a full stop
  erased only before white space or the end (`SentenceEnds.ChunksKeepContent`).
* For the same reason a child can be longer than its parent, which tests/test_chunking.py:37 denies: "aaaa b" cut with
  child size 5 and overlap 4 has the child "aaa b\n." (`ChildLengths.LongerChild`). `ChildLengths.ChildrenFitIff` gives
  the parent lengths at which it can happen (401 to 448 at the defaults 400 and 50), `ChildLengths.PairsFitIff` the
  settings at which it cannot.

## Model

| member | source | states |
|---|---|---|
| Collections.DedupIsFirsts | app/graph/retriever.py:76-88 | the seen-set loop keeps exactly the elements at the first position of their key, in order |
| Collections.FirstsAt | app/graph/retriever.py:76-88 | first occurrences are, in order, the elements at the positions where no earlier element has their key |
| Collections.NewOnes | app/graph/memory_store.py:74-76 | appending what is not there yet keeps the first occurrences of the whole |
| Collections.SortByFacts | app/graph/memory_store.py:109 | sorting by key permutes the list into ascending order |
| Collections.SortByStable | app/rag/hybrid.py:31 | elements with equal keys keep their order |
| GraphCore.NormalizeIdempotent | app/graph/base.py:16-18 | normalising keeps exactly the words of a name and is idempotent |
| GraphCore.NormalizeMerges | app/graph/base.py:16-18 | two names merge exactly when they have the same words |
| EntityIds.IdsEqualIff | app/graph/base.py:21-23 | two ids of a workspace are equal iff lower-cased kinds and normalised names are, or one name continues its kind into the other kind; no condition on kinds or names |
| EntityIds.KindsCollideIff | app/graph/base.py:21-23 | two kinds share an id for some names iff they are equal up to case or one extends the other by a colon and what can begin a name |
| EntityIds.IdsCoincide | app/graph/base.py:21-23 | unless one kind extends the other, ids coincide iff the lower-cased kinds and normalised names do |
| EntityIds.ColonFreeKind | app/graph/base.py:21-23 | a colon-free kind extends no other, so ids are injective on colon-free kinds |
| EntityIds.AsciiKindsCollideIff | app/graph/base.py:16-23 | under ASCII lower-casing: two kinds collide for some names iff equal or one continues the other with a colon and single-spaced text |
| EntityIds.NormalIff | app/graph/base.py:16-18 | normalising leaves exactly the single-spaced stripped texts alone |
| EntityIds.ColonCollision | app/graph/base.py:21-23 | kind "a:b" named "c" and kind "a" named "b:c" share an id |
| GraphOps.RunKeeps | app/graph/memory_store.py:36-77 | over every run of adds and clears: every edge endpoint is stored, no edge is stored twice, every entity sits under its own id with a normalised name |
| GraphOps.FinalMetadata | app/graph/memory_store.py:43-51 | after any upserts an entity's metadata is the old metadata overwritten by everything written to its id, in order |
| GraphUpserts.EntitiesStored | app/graph/memory_store.py:36-52 | new ids follow the old ones at their first occurrence; the first entity of a new id gives it its normalised name and its kind, stored entities keep theirs, edges stay |
| GraphUpserts.MetadataStored | app/graph/memory_store.py:43-51 | a metadata key holds what the last entity of the batch with that id and key gave it, and its old value if there is none |
| GraphUpserts.RelationshipsStored | app/graph/memory_store.py:54-77 | the edges are the old ones followed by the new (source id, type, target id) triples at their first occurrence; the entities are what adding every source and target makes of them |
| GraphOps.Replay | app/graph/builder.py:31-47 | performing any run of adds and clears a second time leaves the graph unchanged, order of entities and edges included |
| GraphStore.InMemoryGraphStore.constructor | app/graph/memory_store.py:24-28 | a new store is valid and every tenant's graph is empty |
| GraphStore.InMemoryGraphStore.AddEntities | app/graph/memory_store.py:36-52 | upserts into one tenant's graph, ids in order of first occurrence, returns the number given, leaves every other tenant as it was |
| GraphStore.InMemoryGraphStore.AddRelationships | app/graph/memory_store.py:54-77 | upserts both endpoints before each new edge, appends the new triples from source to target at their first occurrence, leaves every other tenant as it was |
| GraphStore.InMemoryGraphStore.GetEntity | app/graph/memory_store.py:79-91 | the lookup function's answer; no graph changes |
| GraphStore.FindFirst | app/graph/memory_store.py:88-91 | a lookup answers with the first matching entity, and with nothing only if none matches |
| GraphStore.InMemoryGraphStore.SearchEntities | app/graph/memory_store.py:93-110 | the search function's answer; no graph changes |
| GraphStore.SearchFinds | app/graph/memory_store.py:101-110 | found entities are stored and overlap the query, shorter names first, at most `limit`; a large enough limit misses none |
| GraphStore.InMemoryGraphStore.Neighbors | app/graph/memory_store.py:112-150 | the facts show, edge by edge, the stored source name, relation and stored target name of the edges the walk reports; no graph changes |
| GraphStore.Traverse | app/graph/memory_store.py:125-150 | the deque loop computes the specified walk |
| GraphStore.NeighborsCorrect | app/graph/memory_store.py:112-150 | exactly the stored edges with an endpoint that a path of fewer than `depth` hops leads to, each once, nearer ones first |
| GraphStore.NeighborsDeeper | app/graph/memory_store.py:130-150 | the facts for a smaller depth are a prefix of those for a larger one |
| GraphStore.NeighborsComponent | app/graph/memory_store.py:130-150 | with a depth of at least the number of stored entities: every edge of the seed's connected component and no other |
| GraphStore.InMemoryGraphStore.Clear | app/graph/memory_store.py:152-154 | empties one tenant's graph, leaves every other tenant as it was |
| GraphStore.InMemoryGraphStore.ExportGraph | app/graph/memory_store.py:156-169 | all entities in insertion order and all edges, every endpoint rendered by its entity's name (the raw-id fallback is never taken) |
| GraphStore.AnyRun | app/graph/memory_store.py:23-169 | any sequence of operations over any tenants: the store stays valid and each tenant's graph is what its own operations alone make of it |
| GraphWalk.ScanQueuesNew | app/graph/memory_store.py:134-149 | an expansion queues only distinct nodes never seen before, and marks exactly those as seen |
| GraphWalk.StepInv | app/graph/memory_store.py:130-149 | one round of the loop keeps: labels are path lengths, the queue is ordered and spans two levels, everything nearer is expanded, reported edges are sound and ordered |
| GraphWalk.WalkCorrect | app/graph/memory_store.py:112-150 | for any one-hop source: exactly the edges with an endpoint fewer than `depth` hops away, each once, in non-decreasing distance |
| GraphWalk.WithinIffPath | app/graph/memory_store.py:5-7 | the layered distance of the proofs agrees with paths of edges in either direction |
| GraphWalk.DeeperExtends | app/graph/memory_store.py:128-150 | looking deeper only appends |
| GraphWalk.DeepWalkIsComponent | app/graph/memory_store.py:128-150 | saturation: as many hops as nodes reach the whole component |
| GraphWalk.RowOrderIrrelevant | app/graph/neo4j_store.py:193-216 | two row orders over the same edges report the same edges, equally many |
| Neo4jStore.Neighbors | app/graph/neo4j_store.py:180-216 | the loop over query rows computes the specified walk, rendered with the stored names |
| Neo4jStore.MatchesMemoryStore | app/graph/neo4j_store.py:8-9 | both stores report the same (source id, relation, target id) edges for every row order and repetition, self-loops, parallel relations and a missing seed included |
| Neo4jStore.MissingSeed | app/graph/neo4j_store.py:166-178 | a seed the graph does not hold yields nothing |
| GraphQueries.LookupIs | app/graph/memory_store.py:79-91 | the first stored entity whose lower-cased name is the lower-cased normalised name asked for, of the kind if one is given; nothing iff there is none |
| GraphQueries.SearchIs | app/graph/memory_store.py:93-110 | exactly the stored entities whose lower-cased name contains or lies in the text, shorter names first, stored order among equal lengths, cut to the limit |
| GraphQueries.SeedsAre | app/graph/retriever.py:38-62 | before the cut the seeds hold the exact match of every name that has one, the first three found for every name that has none, and nothing else |
| GraphRetriever.Retriever.SeedEntities | app/graph/retriever.py:38-61 | the first occurrences by id of each name's exact match or up to three search results, cut to `max_entities` |
| GraphRetriever.SeedsOk | app/graph/retriever.py:38-61 | seeds are stored entities, all different, at most `max_entities` |
| GraphRetriever.Retriever.Retrieve | app/graph/retriever.py:63-89 | the facts are the de-duplication of the seeds' neighbour lists |
| GraphRetriever.RetrievedFacts | app/graph/retriever.py:76-88 | a fact is returned iff some edge rendered that way has an endpoint fewer than `hops` hops from some seed; once each, in order of first occurrence |
| GraphRetriever.TotalsCount | app/graph/builder.py:31-47 | the totals count all extracted entities and relationships |
| GraphRetriever.BuildGraph | app/graph/builder.py:21-47 | the tenant's graph becomes the run of all extracted batches, the totals are the numbers extracted, other tenants are untouched |
| Json.RoundTrip | app/api/routers/chat.py:211-213 | whatever `json.dumps` prints, a full JSON parser reads back as the corresponding value, strings as their UTF-16 code units |
| Json.EscapeRoundTrip | app/api/routers/chat.py:211 | an escaped string body, surrogate pairs included, parses back to the code units of the text |
| Json.NumberRoundTrip | app/api/routers/chat.py:57-59 | a printed integer is read back up to the delimiter after it |
| Json.DumpsPrintable | app/api/routers/chat.py:211-213 | a payload is printable ASCII and holds no line break, whatever the text |
| Json.UnitsSpell | frontend/src/lib/api.ts:248 | a code point beyond the first 0x10000 is a high and a low surrogate that spell it |
| ChatStream.EventStream | app/api/routers/chat.py:209-213 | yields one frame for each token and one final frame, together the specified stream |
| ChatStream.RefusalStream | app/api/routers/chat.py:194-196 | the refusal is the stream of one token and no citations |
| ChatStream.CitationSeen | app/api/routers/chat.py:54-63 | the client finds index, source, page number and the 200-character snippet under their names |
| ChatStream.StreamChat | frontend/src/lib/api.ts:213-258 | however the body is cut into reads, the frames dispatched are all but the last element of splitting the whole body on blank lines and the buffer is that last element; failures call onError |
| ChatStream.ReadBody | frontend/src/lib/api.ts:235-253 | the read loop, for every way of cutting the body: all frames but the last are dispatched in order and the last is carried |
| ChatStream.ReadMore | frontend/src/lib/api.ts:239-242 | one read: splitting buffer plus piece continues the split of everything read so far |
| Text.SplitResume | frontend/src/lib/api.ts:240-241 | splitting resumes from the last element of the first part's split, for every separator, even one straddling the cut |
| ChatStream.StreamRoundTrip | frontend/src/lib/api.ts:235-254 | for any tokens, citations and cutting: exactly the non-empty tokens in order, then once one item per citation, in order, each with its index, source, page and snippet, and an empty buffer |
| ChatStream.Exchange | frontend/src/lib/api.ts:235-254 | the client method on a printed stream makes exactly those calls and is left with an empty buffer |
| ChatStream.Utf16Injective | frontend/src/lib/api.ts:248 | on text without lone surrogates the code units received determine the token |
| ChatStream.PrintedAscii | frontend/src/lib/api.ts:239 | the stream is ASCII, so decoding cannot depend on where bytes are cut |
| Chunkers.Split | app/chunking/chunkers.py:73-85 | the recursive splitter computes the specified pieces and ends because the separator list shrinks |
| Chunkers.SplitConserves | app/chunking/chunkers.py:73-85 | erased of white space and separator characters, the pieces concatenate to the text |
| Chunkers.SplitBounded | app/chunking/chunkers.py:73-85 | with an empty separator in the list no piece exceeds `size` |
| Chunkers.RecursiveChunks | app/chunking/chunkers.py:64-99 | the merge loop computes the specified chunks |
| ChunkMerging.WindowsAreGreedy | app/chunking/chunkers.py:88-99 | the windows take the pieces in order; one is closed iff the next piece does not fit, and the next starts with the last `overlap` characters |
| ChunkMerging.CarriedIs | app/chunking/chunkers.py:96 | what is carried over is the end of the window, `overlap` characters long or all of it |
| ChunkMerging.ChunksAre | app/chunking/chunkers.py:94-99 | the chunks are, in order, the windows that are not blank, stripped |
| Chunkers.ChunksBounded | app/chunking/chunkers.py:89-99 | every chunk is non-blank, stripped and at most `size + overlap` long |
| Chunkers.ChunksConserve | app/chunking/chunkers.py:87-99 | with any overlap: one fresh part per chunk, together the erased text; each erased chunk is a carried tail of the text so far followed by its fresh part |
| Chunkers.ChunksConserveExactly | app/chunking/chunkers.py:87-99 | with overlap 0 the erased chunks concatenate to the erased text |
| Chunkers.ChunkIsPiece | app/chunking/chunkers.py:87-99 | each erased chunk is a contiguous piece of the erased text |
| Chunkers.CarryBounded | app/chunking/chunkers.py:96 | what a chunk carries over is at most `overlap` characters |
| Chunkers.ParentChildChunks | app/chunking/chunkers.py:126-139 | the pairs are, parent by parent, its children with it |
| ChunkMerging.PairsAt | app/chunking/chunkers.py:136-138 | the j-th child of the i-th parent stands with that parent behind the children of all earlier parents, and there are no other pairs |
| Chunkers.PairsOk | app/chunking/chunkers.py:126-139 | every child is bounded, non-blank, and erased a contiguous piece of its own erased parent |
| Chunkers.ParentsConserve | app/chunking/chunkers.py:134 | the erased parents concatenate to the erased text |
| SentenceEnds.SplitContent | app/chunking/chunkers.py:73-85 | with the default separators the pieces keep every character but white space and full stops before white space or the end |
| SentenceEnds.ChunksKeepContent | app/chunking/chunkers.py:87-99 | the chunks are carried tails and fresh parts, stripped, and the fresh parts in order keep that content; a decimal point cannot get lost |
| ChildLengths.ChildFits | app/chunking/chunkers.py:136-138 | no child is longer than a parent that fits one child or is at least `Longest` characters long |
| ChildLengths.ChildrenFitIff | app/chunking/chunkers.py:136-138 | no stripped parent of length n has a longer child iff n <= size or n >= size + overlap - 1 (size + overlap if size is 1); two cases of child size 3 excepted |
| ChildLengths.ChildOutgrows | app/chunking/chunkers.py:136-138 | at every other length a parent that has a longer child |
| ChildLengths.PairsFitIff | app/chunking/chunkers.py:126-139 | for every text every child is at most as long as its parent iff parents fit one child or no such length exists; child size 3 with overlap 3 excepted |
| ChildLengths.LongerChild | app/chunking/chunkers.py:136-138 | "aaaa b" with child size 5 and overlap 4 has a child of seven characters |
| WindowChunkers.FixedWindows | app/chunking/chunkers.py:56-60 | the k-th window starts at k times the step, is `size` long unless the text ends first, and the windows reach the end |
| WindowChunkers.FixedCovers | app/chunking/chunkers.py:53-61 | a non-space character is in a returned window iff its offset within its step is below `size` |
| WindowChunkers.FixedCoversAll | app/chunking/chunkers.py:53-61 | with a non-negative overlap every non-space character is in a returned window |
| WindowChunkers.FixedRebuilds | app/chunking/chunkers.py:53-61 | for 0 <= overlap < size the returned windows are the non-blank ones of a list whose first `size - overlap` characters, window by window, are the text |
| WindowChunkers.SentencesConserve | app/chunking/chunkers.py:38-40 | the sentences hold every non-space character of the text in order |
| SentenceCuts.SentencesCut | app/chunking/chunkers.py:38-40 | the stripped text is its sentences with white space between them, cut exactly after each ".", "!" or "?" that white space follows |
| WindowChunkers.SemanticChunks | app/chunking/chunkers.py:102-123 | the loop joins the specified groups; texts of at most one sentence are returned stripped |
| WindowChunkers.FitsIsJoinLength | app/chunking/chunkers.py:116-117 | the running sum plus the next sentence is the length of the joined string |
| WindowChunkers.SemanticCuts | app/chunking/chunkers.py:111-123 | the groups partition the sentences in order, multi-sentence chunks fit `max_chars`, and cuts fall exactly where similarity is below threshold or the next sentence would not fit |
| Cleaner.PageLineIffMatch | app/preprocessing/cleaner.py:10 | the word test used by the model decides exactly the language of the page-number pattern |
| Cleaner.PageLineInvariant | app/preprocessing/cleaner.py:17-20 | the page-number test does not see space collapsing and stripping |
| Cleaner.CleanText | app/preprocessing/cleaner.py:13-23 | the loop and the rewrites compute the specified text |
| CleanedText.LinesCutAtBreaks | app/preprocessing/cleaner.py:16 | the lines and one boundary behind each rebuild the text, and no line holds a boundary |
| CleanedText.CleaningKeeps | app/preprocessing/cleaner.py:13-23 | line by line: page-number lines go, every other line with words stands in its place with the same words, and one empty line stands where blank lines lie between two of them |
| CleanedText.CleaningKeepsWords | app/preprocessing/cleaner.py:13-23 | the words of the cleaned text are those of the lines that are not page-number lines, in order |
| Cleaner.CleanedIsClean | app/preprocessing/cleaner.py:13-23 | the output has no page-number line, no blank run, no line with outer white space, no three newlines in a row, no outer white space |
| Cleaner.CleanIdempotent | app/preprocessing/cleaner.py:13-23 | cleaning is idempotent, and a text is left alone iff it is clean in that sense |
| CleanedText.PagesKept | app/preprocessing/cleaner.py:28-33 | the cleaned document's pages are, in order and under their numbers, the pages whose cleaned text is not empty |
| CleanedText.DocumentKept | app/preprocessing/cleaner.py:26-40 | name and type stay and metadata loses exactly its empty values |
| Cleaner.CleanDocumentIdempotent | app/preprocessing/cleaner.py:26-40 | documents likewise; no page is left empty |
| Fusion.ReciprocalRankFusion | app/rag/hybrid.py:23-31 | fails iff some rank makes the denominator zero; otherwise the dictionary loop gives each id the sum of 1/(k+rank) over its occurrences, sorted best first |
| Fusion.FusedFacts | app/rag/hybrid.py:27-31 | the ids are exactly the union of the rankings, each once with its score, in non-increasing score |
| Fusion.TiesKeepOrder | app/rag/hybrid.py:31 | ids with equal scores stand in the order in which the rankings first name them |
| Fusion.ScoreSymmetric | app/rag/hybrid.py:27-30 | scores do not depend on the order of the rankings |
| Fusion.ScoreMonotone | app/rag/hybrid.py:27-30 | for k >= 0 and duplicate-free rankings, an id ranked at least as well as another in every list containing the other never scores less |
| Fusion.BothBeatOneIff | app/rag/hybrid.py:3-5 | for all duplicate-free lists of length at most n, ids in both strictly beat ids in one iff n < k + 2 |
| Fusion.BothComeFirst | app/rag/hybrid.py:31 | in the fused list every id of both lists stands before every id of one |
| Fusion.Retrieve | app/rag/hybrid.py:49-73 | every fused id is found in the registry; the result is the first `limit` fused ids with the text of the last dense, else first sparse, hit |
| Fusion.RetrievedOrder | app/rag/hybrid.py:69-73 | the retrieved ids are distinct, at most `limit`, in non-increasing score |
| Evidence.Gather | app/agents/research.py:93-110 | the gather loop pools the hits and records one step for each query |
| Evidence.PoolIsFirsts | app/reasoning/research.py:53-76 | the pool holds, in order, exactly the hits before which no hit has their id |
| Evidence.PoolComplete | app/agents/research.py:93-110 | every hit's id is in the pool and no id is there twice |
| Evidence.BuildContext | app/rag/engine.py:50-63 | citation i describes chunk i, numbered 1..m, and block i shows its citation's number, source, page and text |
| Evidence.Research | app/reasoning/research.py:53-76 | the pool capped at `max_sources` is what the citations and blocks number |
| Markdown.InlineMd | frontend/src/views/ChatView.tsx:535-551 | the tokenising loop computes the specified nodes |
| Markdown.TokenIsMatched | frontend/src/views/ChatView.tsx:537 | where a token of the pattern starts, the match is exactly that token |
| Markdown.InlineRebuilds | frontend/src/views/ChatView.tsx:541-549 | the nodes tile the text: tokens at the leftmost matches, plain text where nothing matches |
| Markdown.TilesUnique | frontend/src/views/ChatView.tsx:541-549 | there is only one such tiling |
| Markdown.HeadingMatchIff | frontend/src/views/ChatView.tsx:568 | the heading pattern, backtracking included, matches iff the greedy reading does |
| MarkdownMeaning.BulletItemIff | frontend/src/views/ChatView.tsx:558 | a line is a bullet item with text t iff it is white space, "-" or "*", a gap and t |
| MarkdownMeaning.NumItemIff | frontend/src/views/ChatView.tsx:559 | a line is a numbered item with text t iff it is white space, digits, a full stop, a gap and t |
| MarkdownMeaning.HeadingIs | frontend/src/views/ChatView.tsx:568 | a line is a heading of level n with title t iff it is n hashes, a gap and t without line terminators |
| MarkdownMeaning.KindIs | frontend/src/views/ChatView.tsx:562-616 | which lines are blank, headings, bullets, numbered items or paragraph lines, in order of precedence |
| MarkdownMeaning.LinesAre | frontend/src/views/ChatView.tsx:554 | the lines are the text without carriage returns, cut at every newline |
| Markdown.Progress | frontend/src/views/ChatView.tsx:562-628 | a round of the block loop consumes a line iff its first line is not stuck |
| Markdown.TerminatesIff | frontend/src/views/ChatView.tsx:562-628 | the loop reaches the end of the lines iff no line is stuck |
| Markdown.SeparatorSticks | frontend/src/views/ChatView.tsx:560-568 | the concrete text on which it does not end |
| Markdown.Render | frontend/src/views/ChatView.tsx:553-630 | on every other text the loop ends with the specified blocks |
| Markdown.RenderIsSegments | frontend/src/views/ChatView.tsx:562-628 | the blocks are the renderings of the segments, in order |
| MarkdownMeaning.RenderShows | frontend/src/views/ChatView.tsx:562-629 | one block per non-blank segment, in order: its heading's title, each line's item text after the marker, or its lines joined by blanks, tiled into inline nodes |
| Markdown.SegmentsPartition | frontend/src/views/ChatView.tsx:562-628 | every line lands in exactly one segment of its own kind, in order; lists and paragraphs are maximal runs |
| Markdown.PlainTextRenders | frontend/src/views/ChatView.tsx:554-562 | texts without U+2028 and U+2029 have no stuck line |
| SqlGuard.FirstKeyword | app/agents/sql/guard.py:36-45 | the upper-cased value of the first token that is neither skipped nor an opening parenthesis |
| SqlGuard.FindForbidden | app/agents/sql/guard.py:48-52 | the first offending keyword, iff there is one |
| SqlGuard.ReferencedTables | app/agents/sql/guard.py:55-70 | the flag-driven scan yields exactly the normalised names whose previous significant token is FROM or JOIN |
| SqlGuard.TableNameIs | app/agents/sql/guard.py:68 | a table's name is its value without the quotes around it, lower-cased |
| SqlGuard.ValidateSelect | app/agents/sql/guard.py:73-88 | accepts iff there is one statement, it starts with SELECT or WITH, has no forbidden keyword and references only allowed tables; returns the stripped text without trailing semicolons, otherwise reports the first condition to fail |
| SqlGuard.FaultUnique | app/agents/sql/guard.py:73-88 | a statement has at most one reportable fault, and a safe one none |
| SqlGuard.RunTool | app/agents/sql/tool.py:44-64 | succeeds iff the guard accepts and the capped statement runs; otherwise the error is the guard's message for the fault or the database's |
| SqlGuard.RunAgent | app/agents/sql/agent.py:58-104 | two steps per attempt, each retry drafted from the immediately preceding error, a rejection recorded only for a draft that failed and with its own error, SQL reported on success passed the guard, giving up only after all attempts failed |
| SqlGuard.TraceUnique | app/agents/sql/agent.py:58-104 | such a trace is determined by the model, the guard and the database |

## Left out

- InMemoryGraphStore: stored entities are values, so the model does not capture that exported entity objects alias the store and show later metadata updates.
- Entity metadata, chunk metadata and document metadata are string-valued maps; the code stores arbitrary values it never inspects.
- `str.lower`, `str.upper` and Unicode decimal digits: parameters, constrained only where a result needs it.
- Floating point: RRF scores are exact reals, so ties or order changes caused by rounding are not modelled; JSON numbers are exact decimals where JavaScript has doubles.
- Bytes: the client's text decoder is not modelled; `PrintedAscii` shows it is the identity on what the server prints.
- Render: requires that no line is stuck, because otherwise the loop does not end (`TerminatesIff` proves this is exact); React keys and element names are dropped.
- ChildrenFitIff: does not cover parents of 4 characters with child size 3 and overlap 3, nor of 5 with child size 3 and overlap 4; only the direction of ChildFits is stated there.
- PairsFitIff: does not cover child size 3 with overlap 3, for the same reason.
- SemanticChunks: similarities of neighbouring sentences are arguments; embedding and cosine are not modelled.
- The proper-noun extractor, the LLM extractor and the guardrail patterns: their output is an arbitrary argument.
- SqlGuard.ReferencedTables: works on the lexer's tokens; how `sqlparse` splits and types text, and whether an appended LIMIT lexes as one, is not modelled.
- Neo4j queries other than the one-hop row query; upserts and tenancy on that side are Cypher.
- `chunk_document`, `RagEngine.answer`, prompts, routing, persistence, authentication, analytics and the React components: dispatch and plumbing.
