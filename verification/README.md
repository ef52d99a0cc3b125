# Customer-support RAG pipeline — a Dafny model of its text core

The system turns product manuals (PDF) into a searchable knowledge base and
answers support questions with retrieval-augmented generation. This project
models the deterministic text and bookkeeping logic of that pipeline and
proves properties of it:

- **PDF to markdown** (`PdfToMd`, `TocMatch`):
  - the character whitelist of `clean_markdown`;
  - the split of the markdown at heading lines and the stripping of heading markers;
  - the section dictionary keyed by first line, an insertion-ordered Python dict;
  - the two-pass matching of table-of-contents entries to sections, whose best
    match is a unique substring match or else the first highest fuzzy score.
- **Chunking** (`Chunking`):
  - `str.splitlines(keepends=True)`;
  - the chunk-size computation and the greedy line grouping of `chunk_text_by_lines`;
  - the six regular-expression substitutions of `clean_text`;
  - the row handling of `chunk_file`.
- **Records** (`Records`): the chunk row, the vector point and its payload,
  and the "latest main chapter" tracking shared by the later stages.
- **Context generation** (`ContextGeneration`): which rows get a generated
  context, and which neighbouring rows are shown with them.
- **Embedding upload** (`Embedding`):
  - reading the metadata file;
  - the vector-configuration checks of both uploads;
  - the metadata-path rewrite and the manual-title fallback;
  - the point-building loop.
- **Question answering** (`RagWorkflow`, `Prompts`):
  - the retry loop of `refine_query`;
  - the per-query deduplication of search results in `rag`;
  - the numbered context blocks of `build_prompt`.

Everything the code delegates to another system becomes a function parameter:

- the tokenizer's token count;
- the Unicode normaliser and the `difflib` similarity ratio;
- the language model, as the reply to its k-th call;
- the hybrid search;
- the template renderer;
- the file system and the JSON parser.

The shared vocabulary lives in `Base` (option, error and result types) and
`Text` (flatten, join, split, strip, subsequences).

## Model

| member | source | states |
|---|---|---|
| Text.SplitOn | src/code/rag_workflow.py:26 | `split("\n")` yields at least one part, no part holds the separator, and joining the parts with it gives back the input |
| Text.SplitOnJoin | src/code/rag_workflow.py:26 | splitting a join of separator-free parts gives back exactly those parts, so split is the inverse of join |
| Text.Strip | src/code/chunking.py:19 | `strip()` returns a contiguous slice of the input, with only whitespace cut at both ends and no whitespace left at either end |
| PdfToMd.CleanMarkdownFilters | src/code/pdf_to_md.py:76-78 | only whitelisted characters remain; each whitelisted character keeps its count and others drop to zero; the result is a subsequence of the input |
| PdfToMd.CleanKeepsCleanText | src/code/pdf_to_md.py:77-78 | text made of whitelisted characters only is returned unchanged |
| PdfToMd.CleanIdempotent | src/code/pdf_to_md.py:77-78 | cleaning twice equals cleaning once |
| PdfToMd.CleanDistributes | src/code/pdf_to_md.py:77-78 | cleaning a concatenation equals concatenating the cleaned parts |
| PdfToMd.SplitAtHeadings | src/code/pdf_to_md.py:81 | joining the pieces with "\n" gives back the markdown; no piece holds a newline followed by '#'; every piece after the first starts with '#' |
| PdfToMd.SplitAtHeadingsUnique | src/code/pdf_to_md.py:81 | any piece list with those three properties is the split of its own join, so the split is determined by them |
| PdfToMd.StripHeading | src/code/pdf_to_md.py:82 | a leading run of '#' followed by one whitespace character is removed; text without such a marker is unchanged |
| PdfToMd.SplitMarkdown | src/code/pdf_to_md.py:80-82 | one section per heading piece, each the piece with its heading marker removed, or the piece itself when it has no marker |
| PdfToMd.FirstLine | src/code/pdf_to_md.py:86 | `split('\n', 1)[0]` is the longest newline-free prefix of the section |
| PdfToMd.Put | src/code/pdf_to_md.py:86 | dict assignment: the key maps to the new value and other keys are unchanged; an existing key keeps its position and a new key goes last |
| PdfToMd.RemoveKeepsUnique | src/code/pdf_to_md.py:136 | `pop(key)` keeps the dictionary's keys unique |
| PdfToMd.RemoveLookup | src/code/pdf_to_md.py:136 | after `pop(key)` of a present key that key is absent and every other key maps to its old value |
| PdfToMd.RemoveValues | src/code/pdf_to_md.py:136 | after `pop(key)` the other entries keep their order, and the popped value is the only value lost |
| PdfToMd.BuildChunkDict | src/code/pdf_to_md.py:85-87 | keys are unique and each is some section's first line; a section whose first line no later section repeats is stored under it, so a later duplicate overwrites an earlier one |
| PdfToMd.BuildChunkDictKeys | src/code/pdf_to_md.py:85-87 | the keys are the sections' first lines with repeats removed, in the order in which each first occurs |
| PdfToMd.BuildChunkDictComplete | src/code/pdf_to_md.py:86 | every section's first line is a key |
| PdfToMd.BuildChunkDictOrder | src/code/pdf_to_md.py:85-87 | for keys at positions a < b, every section carrying the later key comes after some section carrying the earlier key; this is the order in which `find_best_match` meets tied scores |
| TocMatch.SubstringMatches | src/code/pdf_to_md.py:110 | keeps exactly the candidates whose normalised key and the normalised title contain one another, in candidate order |
| TocMatch.SingleRelatedMatch | src/code/pdf_to_md.py:110-112 | when exactly one candidate is related to the title, the substring matches are that candidate alone |
| TocMatch.FirstMaxIndex | src/code/pdf_to_md.py:122 | `max(..., key=score)` picks a highest score, and every earlier score is strictly lower |
| TocMatch.FindBestMatch | src/code/pdf_to_md.py:105-125 | any match returned is one of the candidates |
| TocMatch.FindBestMatchChoice | src/code/pdf_to_md.py:105-125 | no candidates gives no match; a unique substring match is returned; otherwise there is a match exactly when some candidate's score reaches the threshold, and it is the first highest-scoring candidate |
| TocMatch.UniqueSubstringWins | src/code/pdf_to_md.py:110-112 | a single related candidate is returned whatever the scores and threshold |
| TocMatch.MatchPass | src/code/pdf_to_md.py:129-151 | a pass keeps the ToC length and the dictionary's unique keys, and its retries are positions in the ToC |
| TocMatch.MatchPassRetriesVisited | src/code/pdf_to_md.py:137-138 | the retries are visited positions, no more of them than were visited, each listed once when the visited positions are distinct |
| TocMatch.MatchPassShape | src/code/pdf_to_md.py:129-151 | a pass keeps every entry's level, title and page, and leaves entries at unvisited positions unchanged |
| TocMatch.MatchPassRetries | src/code/pdf_to_md.py:133-138 | with distinct positions, the retries are distinct visited positions, a retried entry is unchanged and every other visited entry received exactly one section |
| TocMatch.MatchPassConserves | src/code/pdf_to_md.py:133-136 | sections move from the dictionary onto entries one per match: the attached plus the remaining sections are the same multiset before and after; the dictionary shrinks by the number of matched entries; the sections left keep their keys |
| TocMatch.MatchToc | src/code/pdf_to_md.py:127-155 | succeeds exactly when both passes empty the dictionary, returning a ToC of the same length; otherwise fails listing at least one unmatched key |
| TocMatch.MatchTocKeepsEntries | src/code/pdf_to_md.py:127-151 | the ToC keeps its order and headings; each entry gains at most one section overall, appended after the ones it had; an entry matched in the 0.80 pass is untouched by the 0.70 pass |
| TocMatch.MatchBothPassesConserve | src/code/pdf_to_md.py:127-151 | across both passes no section is lost or attached twice |
| TocMatch.MatchTocPlacesSections | src/code/pdf_to_md.py:153-155 | success holds exactly when the sections attached after both passes are those attached before plus every section of the dictionary, each once |
| TocMatch.MatchTocErrorKeys | src/code/pdf_to_md.py:154 | the keys listed in the failure are keys of the original dictionary |
| Records.LatestRootIsLatest | src/code/context_generation.py:19-20 | finds the latest level-1 row at or before row i, with no level-1 row after it up to i; it is None exactly when no such row exists |
| Records.RootIndexIsLatest | src/code/context_generation.py:15-20 | `root_chapter_ix` is at most i, with no main-chapter row after it up to i, and every main-chapter row at or before i is at or before it |
| Records.MainChapterIsLatestTitle | src/code/embedding.py:64-68 | `root_chapter` is the title of the latest level-1 row at or before i, or "" when there is none |
| Chunking.ChunkSize | src/code/chunking.py:14-15 | division by zero exactly when there are no tokens or the limit is 0; otherwise the size is between 1 and the limit, the number of pieces k is the least with n <= k*limit, and the size is the least with n <= size*k |
| Chunking.SplitLines | src/code/chunking.py:12 | `splitlines(keepends=True)`: concatenating the lines gives back the text; every line is nonempty; each line but the last ends in a line break ("\r\n" as one), and the last line has no break inside it |
| Chunking.StepOverLimitKeepsWf | src/code/chunking.py:18-25 | an iteration whose line pushes the open group over the limit keeps the grouping invariant |
| Chunking.StepUnderLimitKeepsWf | src/code/chunking.py:21-25 | an iteration whose line fits within the limit keeps the grouping invariant |
| Chunking.StepKeepsWf | src/code/chunking.py:16-25 | one loop iteration keeps the grouping invariant |
| Chunking.StepKeepsEmptyWf | src/code/chunking.py:16-25 | one loop iteration keeps the rule for where empty groups may stand, with the open group counted as the next group |
| Chunking.StepKeepsText | src/code/chunking.py:16-25 | one loop iteration adds exactly the new line to the text held in the closed groups and the open one |
| Chunking.GroupFromKeepsText | src/code/chunking.py:16-27 | from any state, the groups concatenate to the text held so far followed by the remaining lines |
| Chunking.GroupFromOk | src/code/chunking.py:16-27 | from any state meeting the invariant, the groups meet the grouping guarantees |
| Chunking.GroupLinesKeepText | src/code/chunking.py:16-27 | the groups concatenate to the lines: none is dropped, duplicated or reordered |
| Chunking.GroupLinesOk | src/code/chunking.py:16-27 | a group of two or more lines stays within the limit, and each proper prefix stays within the chunk size. Each group but the last was closed by passing the chunk size or by its successor's first line; the last group is nonempty; a line over the limit never opens the first group |
| Chunking.OversizedLineOpensGroup | src/code/chunking.py:18-22 | a line whose tokens exceed the limit always starts a group, and never the first one |
| Chunking.OversizedFirstLineGivesEmptyChunk | src/code/chunking.py:18-20 | when the first line exceeds the limit, the first group is empty and it is followed by another group, so the first chunk is "" |
| Chunking.GroupLinesEmptyOk | src/code/chunking.py:16-27 | the last group is nonempty. An empty group always comes right before a group opened by a line over the limit. It is the first group, or it follows a group past the chunk size. A nonempty group followed by a line over the limit stayed within the chunk size, so such a line after a group past the chunk size always comes after an empty group |
| Chunking.ChunkTextByLines | src/code/chunking.py:11-28 | fails with division by zero exactly when there are no tokens or the limit is 0. Otherwise 1 <= size <= limit; the groups concatenate to the text; each chunk is its group joined and stripped; the grouping guarantees hold, and empty groups stand only where the hard-limit flush of an empty group puts them |
| Chunking.SubWithoutMatch | src/code/chunking.py:32-37 | a substitution whose pattern never matches returns the text unchanged |
| Chunking.DashBreakDeleted | src/code/chunking.py:32 | a hyphen directly before a `<br>` tag is deleted together with the tag |
| Chunking.NoBreakTagAfterBreakStep | src/code/chunking.py:33 | after the `<br\s*/?>` substitution no `<br>` tag is left in the text, even where replacements abut |
| Chunking.SubKeepsAbsentChar | src/code/chunking.py:32-37 | a substitution whose replacement lacks a character never introduces that character |
| Chunking.CleanTextHasNoTilde | src/code/chunking.py:30-39 | `clean_text` output holds no '~' |
| Chunking.ChunkRow | src/code/chunking.py:45-59 | a row of at most one element raises the index error; rows of 2, 3 or 5+ elements are skipped; a non-string text raises. Otherwise it fails exactly when the limit or the token count of the cleaned text is 0, and each output row copies the first three fields and adds a string chunk |
| Chunking.ChunkRowCarriesChunks | src/code/chunking.py:52-59 | the output rows of a 4-element row carry exactly the chunks of its cleaned text, in order |
| Chunking.ChunkFileOutcome | src/code/chunking.py:41-62 | succeeds exactly when every row does; otherwise fails with the error of the first failing row, all rows before it succeeding |
| Chunking.ShortRowFailsFile | src/code/chunking.py:45-47 | a row with fewer than two fields makes the whole file fail |
| Chunking.ChunkFileCopies | src/code/chunking.py:52-59 | every output row copies the first three fields of some four-field input row and carries a string chunk |
| ContextGeneration.WindowBounds | src/code/context_generation.py:23-24 | the neighbourhood contains the row, extends at most `window` rows each side, stays inside the rows and holds no main-chapter heading before the row other than its first row |
| ContextGeneration.WindowStaysInChapter | src/code/context_generation.py:19-23 | the neighbourhood never starts before a main-chapter heading at or before the row, even a skipped heading row |
| ContextGeneration.NeighborsContainRow | src/code/context_generation.py:25-26 | the joined neighbourhood text contains the row's own content |
| ContextGeneration.ContextsKeys | src/code/context_generation.py:16-37 | after n rows the contexts are keyed by exactly the rows among them that are not skipped |
| ContextGeneration.ContextsValues | src/code/context_generation.py:23-37 | each context is the answer for its own row |
| ContextGeneration.AskedFacts | src/code/context_generation.py:16-37 | the model is asked about rows in increasing order, each below n, and exactly about the rows that get a context |
| ContextGeneration.GenerateContext | src/code/context_generation.py:16-37 | a row gets a context exactly when its content is at least three times as long as its title. Each context is the model's answer for that row's content and neighbourhood. The model is called once per such row, in increasing row order |
| Prompts.NatToString | src/code/prompts.py:18 | the index is printed as nonempty decimal digits with no leading zero |
| Prompts.NatToStringValue | src/code/prompts.py:18 | the printed index reads back as the index |
| Prompts.ContextFromAppend | src/code/prompts.py:16-18 | one more result appends one more block, numbered with its position |
| Prompts.ContextIsBlocks | src/code/prompts.py:15-18 | the recursive context is the blocks laid end to end, result i getting block i |
| Prompts.BuildContext | src/code/prompts.py:15-18 | the context is the concatenation of block i for result i, for every result in order |
| RagWorkflow.RefineQuery | src/code/rag_workflow.py:12-30 | the queries are `Refined`: none for zero queries; otherwise the first reply's lines when they number as many as asked, else the second reply's lines. The model is called at most twice, and not at all when zero queries are asked for. The queries are the last reply split at newlines; a second call happens only when the first reply had the wrong number of lines; a wrong count is returned only after two calls |
| RagWorkflow.FreshMembers | src/code/rag_workflow.py:47-51 | a result is kept exactly when it was returned and its id is not yet seen |
| RagWorkflow.FreshInOrder | src/code/rag_workflow.py:47-51 | the kept results keep their rank order |
| RagWorkflow.KeepUnseen | src/code/rag_workflow.py:47-51 | the inner loop, testing membership in this query's unseen ids, keeps exactly the fresh results |
| RagWorkflow.FreshDistinct | src/code/rag_workflow.py:47-51 | keeping the fresh results of a search without repeated ids keeps the ids distinct |
| RagWorkflow.CollectResults | src/code/rag_workflow.py:41-52 | the loop collects, query by query, the results whose id no earlier query returned; the seen set is every id returned |
| RagWorkflow.CollectedIds | src/code/rag_workflow.py:44-52 | the collected ids are exactly the ids any search returned |
| RagWorkflow.CollectedFromSearches | src/code/rag_workflow.py:44-51 | every collected point was returned by some search |
| RagWorkflow.CollectedInSearchOrder | src/code/rag_workflow.py:44-51 | the collected points keep query order and rank order: they are a subsequence of all results laid end to end |
| RagWorkflow.CollectedDistinct | src/code/rag_workflow.py:47-51 | when no single search repeats an id, no id is collected twice |
| RagWorkflow.Rag | src/code/rag_workflow.py:40-57 | the queries searched are the two phrasings `refine_query(query, client, 2)` settles on, followed by the question itself; the prompt is built from the deduplicated results of all of them |
| Embedding.ReadMetadataOfStripped | src/code/embedding.py:30-34 | the text is stripped before parsing, so a file whose text is already stripped reads the same metadata |
| Embedding.ReplaceAllAbsent | src/code/embedding.py:123 | `replace` leaves a path without the pattern unchanged |
| Embedding.MetaPathOfChunkedFile | src/code/embedding.py:123 | `<stem>_chunked.json` maps to `<stem>_meta.json` |
| Embedding.CheckDense | src/code/embedding.py:55-59 | passes exactly for a named dense configuration whose only name is the model; a missing configuration raises its own error, any other mismatch raises the mismatch error |
| Embedding.KeysSingleName | src/code/embedding.py:58 | the listed keys equal `[model]` exactly for a named configuration holding that one name |
| Embedding.BuildPoints | src/code/embedding.py:130-151 | point i has id i and the row's content, title and page; its main chapter is the latest main chapter at or before the row; its manual is the given title |
| Embedding.UploadEmbeddings | src/code/embedding.py:41-85 | corrected: a new collection accepts the upload; an existing one accepts it exactly when its vectors are named after the model; the points are built from all rows with the metadata title |
| Embedding.UploadEmbeddingsAsWritten | src/code/embedding.py:41-59 | as written, on an existing collection it behaves as the corrected upload |
| Embedding.UploadEmbeddingsAsWrittenRejectsNewCollection | src/code/embedding.py:43-59 | as written, an upload into a collection it has just created fails the vector-name check, where the corrected upload succeeds |
| Embedding.UploadHybridEmbeddings | src/code/embedding.py:87-157 | the dense check fails before the sparse check, and both before the metadata read. It succeeds exactly when both configurations match and the metadata file exists (a missing file raises); the sparse configuration must be exactly `["bm25"]`. Point i describes row i, and every point carries the title of the metadata parsed from the stripped file, or "Unknown Manual" when it has none or the file does not parse |
| Embedding.HybridTitleIsMetadataTitle | src/code/embedding.py:124-128 | the hybrid upload's explicit fallback title equals `meta.get('title', 'Unknown Manual')` on the metadata `read_metadata` leaves |

## Left out

- Rendering the PDF, table-of-contents extraction and metadata writing are not modelled. The markdown and the ToC rows are inputs.
- File reading and writing and JSON encoding are not modelled. Rows between stages are typed records. Only `chunk_file` keeps untyped rows (`Value`), because its own error handling depends on their shape.
- `normalize_text` (NFKC, Unicode punctuation classes) and `difflib`'s ratio are opaque function parameters.
- The tokenizer is the parameter `count`. Nothing is assumed about how it relates the count of a text to the counts of its lines.
- Chunking.ChunkSize: uses exact integer ceiling division. Python computes it through float division, which can round differently for token counts beyond 2^53.
- Chunking.ChunkTextByLines: the limit is a natural number; negative limits are not modelled. The result also carries the line groups behind the chunks, so that properties can refer to them.
- Chunking.CleanText: `\d` in the note pattern is ASCII digits only. Python's `re` also matches other Unicode decimal digits.
- Chunking.ChunkFile: a `print` on skipped rows is left out. Non-list JSON input is not modelled.
- ContextGeneration.GenerateContext: `window_size` is a natural number. The `if index in context_dict` check is left out because it can never be true: keys are only added for the current index. `time.sleep` and the output file are left out. The prompt rendering and the model call are folded into the parameter `ask`.
- RagWorkflow.Rag: stops at the prompt; the final model call and its answer are not modelled. Printing, the search-history file and `search.py` (`rrf_search`) are not part of this model: the search is the parameter `search`.
- RagWorkflow.RefineQuery: the replies are a fixed sequence `reply(k)`. The prompt text and the verbose printing are left out.
- Prompts.BuildPrompt: the Jinja template and the YAML prompt file are the parameter `render`.
- Embedding.ReadMetadata: metadata values are strings only. JSON that parses to something other than an object is not modelled.
- Embedding.UploadEmbeddings: `encode` and `upsert` are left out; the upload returns the points instead of their count `len(points)`.
- Embedding.UploadHybridEmbeddings: collection creation, `encode` and `upsert` against Qdrant are left out. The vector dimension and the sparse `Document` are not modelled; the upload returns the points instead of their count.
- The Streamlit app, `run_rag.py`, `import.py`, `model_setup.py` and `search.py` are not part of this model.

## Findings

| source | as written | input that shows it | evidently intended | confidence | as-written member | corrected member |
|---|---|---|---|---|---|---|
| src/code/embedding.py:43-59 | `upload_embeddings` creates a missing collection with one unnamed `VectorParams`, then requires the collection's vector keys to be `[model_name]`. Listing an unnamed `VectorParams` yields its `(field, value)` pairs, never the model name | any upload into a collection that does not exist yet | create the dense vector under the model's name, as `upload_hybrid_embeddings` does (embedding.py:94-99), so that a fresh collection passes its own check | not executed | Embedding.UploadEmbeddingsAsWrittenRejectsNewCollection | Embedding.UploadEmbeddings |
