# PDF ingestion of Policybot, modelled in Dafny

Policybot ingests PDF documents into a Chroma vector collection so that a
later query can retrieve the chunks of one document. This project models the
ingestion control flow of `PDFProcessor` (`src/rag/pdf_processor.py`):

- the grouping of the partitioner's elements into one document per page;
- the `process_pdf` state machine. Its steps are: check the extension, probe
  the collection for the file, extract, split, embed chunk by chunk, store.
  Each failure returns early;
- the construction of the stored records (ids, contents, `source` metadata);
- the report framing `format_response_to_text` of the command-line entry.

Files:

- `wrappers.dfy`: `Option`.
- `text.dfy`: the Python string operations the code uses. These are
  `str.isspace`, `strip()`, `endswith`, `"\n".join` and `f"{i}"` on a
  non-negative int, plus a reading back of that rendering.
- `page_grouping.dfy`: the partitioner `Element` and the page `Document`.
  `GroupByPage` is the reference definition of the grouping.
- `vector_store.dfy`: the Chroma collection as a class holding a sequence of
  records, with the `get(where={"source": …}, limit=1)` probe and the batch
  `add`.
- `ingestion.dfy`: the foreign capabilities as an `Environment` value, the
  reference definition `Ingest` of `process_pdf`, the class `PdfProcessor`
  with one method per method of the source, and the lemmas.
- `response_format.dfy`: the report formatter and its inverse.

The file system, `partition_pdf`, the semantic chunker, the embedding model
and the persistent layer of Chroma are not visible code. Each is a field of
`Environment` and a function of its argument:
- `fileExists` says whether the file is on disk;
- `partition` and `split` return a value, or `None` where the call raises;
- `embedderLoads` says whether the embedding model loads and is freed
  without raising;
- `embed` embeds one chunk's text, or gives `None` where that raises;
- `storeFault` says whether the persistent layer raises on `add`.

Embeddings are values of an opaque type parameter `E`.

Behaviour of the code that a reader might not expect, and that the model
follows:

- `process_pdf` returns `True` once `_store_embeddings` has been called,
  whether or not `add` raised (lines 57-61, 156-157). A storage fault is
  logged and does not make the run report failure.
- The ids and metadatas passed to `add` have one entry per chunk. The
  embeddings have one per chunk that embedded (lines 128, 148-153). Chroma's
  `add` validates the batch and raises when these lengths differ. So when
  some chunks fail to embed and some succeed, nothing is stored, and
  `process_pdf` still returns `True` (`PartialEmbeddingStoresNothing`). The
  chunks that did embed are not stored either.
- A page number attribute that is present but `None` files the text under
  `None`, not under 0. `getattr` returns the attribute's value, and only a
  missing attribute or missing metadata gives 0.

## Model

| member | source | states |
|---|---|---|
| `Text.StripSpec` | src/rag/pdf_processor.py:28 | `strip()` returns a part of the text that neither starts nor ends with whitespace; it is empty exactly when the text is all whitespace |
| `Text.DecimalString` | src/rag/pdf_processor.py:148 | the rendering of the chunk index in the id is a non-empty string of decimal digits |
| `Text.ParseDecimalString` | src/rag/pdf_processor.py:148 | the rendered index reads back as the index |
| `PageGrouping.PagesDistinct` | src/rag/pdf_processor.py:26-37 | the pages of the grouping are pairwise distinct (they are dictionary keys) |
| `PageGrouping.PagesMembership` | src/rag/pdf_processor.py:27-34 | a page is listed exactly when some kept element is filed under it |
| `PageGrouping.PagesFirstSeenOrder` | src/rag/pdf_processor.py:34-37 | pages come in order of first appearance: the pages of any prefix of the input are a prefix of the pages of all of it |
| `PageGrouping.TextsOnAppend` | src/rag/pdf_processor.py:27-34 | the texts filed under a page are those of the first part of the input followed by those of the rest (input order) |
| `PageGrouping.TextsOnSingle` | src/rag/pdf_processor.py:28-34 | one element adds its text to its page exactly when its text is non-empty after stripping; the page is its `page_number`, 0 when metadata or the attribute is missing |
| `PageGrouping.TextsOnNonEmptyIff` | src/rag/pdf_processor.py:34-37 | a page has texts exactly when it is listed |
| `PageGrouping.TextsOnAreKept` | src/rag/pdf_processor.py:28 | every filed text is non-blank |
| `PageGrouping.GroupByPageShape` | src/rag/pdf_processor.py:25-38 | one document per distinct page of the kept elements, in first-seen order, whose `page_number` is the page and whose content is the `"\n"`-join of that page's texts and is never blank; every kept element's page has a document |
| `PageGrouping.GroupByPageEmptyIff` | src/rag/pdf_processor.py:26-38 | the grouping is empty exactly when no element has text that survives stripping |
| `VectorStore.HasSource` | src/rag/pdf_processor.py:88-89 | true exactly when some record's `source` metadata equals the name |
| `VectorStore.Unstored` | src/rag/pdf_processor.py:149-154 | what `add` writes is taken from the batch and has only new ids; when no batch id is stored yet, it is the whole batch |
| `VectorStore.Collection.constructor` | src/rag/pdf_processor.py:19-23 | the collection is opened with the records already persisted |
| `VectorStore.Collection.Get` | src/rag/pdf_processor.py:88 | the probe finds a record exactly when some record has that source |
| `VectorStore.Collection.Add` | src/rag/pdf_processor.py:149-154 | `add` raises and writes nothing on a persistence fault or an invalid batch (no ids, repeated ids, or lists of unequal length); otherwise it appends the batch records whose ids are new, in order |
| `Ingestion.StoreIds` | src/rag/pdf_processor.py:148 | there are `len(docs)` ids, pairwise distinct (so `add` never rejects them as duplicates), and the i-th reads back as file name `file_name` and index `i` |
| `Ingestion.RecordIdsReadBack` | src/rag/pdf_processor.py:148 | each of a file's first `n` ids reads back as that file and its index |
| `Ingestion.FileBatchDistinct` | src/rag/pdf_processor.py:148-153 | a batch whose i-th id is `file_name_i` repeats no id |
| `Ingestion.AppendDistinct` | src/rag/pdf_processor.py:149-154 | new ids that are pairwise distinct and none of which is stored keep the stored ids pairwise distinct once appended |
| `Ingestion.TrailingDigitsAfterUnderscore` | src/rag/pdf_processor.py:148 | an id has exactly its index's digits after its last `_` |
| `Ingestion.SplitRecordId` | src/rag/pdf_processor.py:148 | every id reads back as the file name and index it was built from |
| `Ingestion.RecordIdInjective` | src/rag/pdf_processor.py:148 | two ids are equal only for the same file name and index, so ids of different files never collide |
| `Ingestion.FreshIds` | src/rag/pdf_processor.py:87-93 | when the probe finds no record of the file in a well-formed collection, none of the file's ids is stored yet |
| `Ingestion.SuccessfulEmbeddingsAppend` | src/rag/pdf_processor.py:124-137 | the embeddings of a concatenation of chunk lists are the concatenation of their embeddings, so chunk order is kept |
| `Ingestion.SuccessfulEmbeddingsSingle` | src/rag/pdf_processor.py:125-137 | one chunk contributes its embedding when embedding succeeds and nothing when it raises |
| `Ingestion.SuccessfulEmbeddingsCount` | src/rag/pdf_processor.py:124-137 | at most one embedding per chunk, and one per chunk exactly when no chunk failed |
| `Ingestion.SuccessfulEmbeddingsAt` | src/rag/pdf_processor.py:124-137 | when no chunk failed, the i-th embedding is the i-th chunk's |
| `Ingestion.SuccessfulEmbeddingsNone` | src/rag/pdf_processor.py:135-141 | no embedding comes out exactly when every chunk failed |
| `Ingestion.OnlyStoringChangesRecords` | src/rag/pdf_processor.py:40-61 | the records change only at a successful `add`, which only appends; `process_pdf` is `False` exactly when it stops at the extension check, extraction, splitting or embedding; it is `True` when the file is already ingested and whenever the store step is reached, whether or not `add` raised |
| `Ingestion.NotPdfIsRefused` | src/rag/pdf_processor.py:43-45 | a name not ending in `".pdf"` gives `False`, stops before the probe, and leaves the records unchanged |
| `Ingestion.ExistingSourceIsNoOp` | src/rag/pdf_processor.py:46-47 | when some record's source is the file, the result is `True`, no later step runs, and the records are unchanged |
| `Ingestion.ExtractedPagesNone` | src/rag/pdf_processor.py:63-85 | extraction gives nothing exactly when the file is missing, partitioning raises, or no element keeps text; otherwise it gives the page grouping |
| `Ingestion.ExtractionFailureStoresNothing` | src/rag/pdf_processor.py:48-50 | a missing file, a raising partitioner or a PDF without text gives `False` and leaves the records unchanged |
| `Ingestion.SplitFailureStoresNothing` | src/rag/pdf_processor.py:51-53 | a raising splitter or an empty chunk list gives `False` and leaves the records unchanged |
| `Ingestion.EmbeddingFailureStoresNothing` | src/rag/pdf_processor.py:54-56 | a model that fails to load or free, or a failure on every chunk, gives `False` and leaves the records unchanged |
| `Ingestion.StoredRecordShape` | src/rag/pdf_processor.py:57-61 | in a well-formed collection: once embeddings exist the result is `True`. With every chunk embedded and no fault, exactly `len(docs)` records are appended: id `file_name_i`, the i-th chunk's content and embedding, source `file_name`. Otherwise nothing is appended |
| `Ingestion.StoreOutcomeShape` | src/rag/pdf_processor.py:146-157 | the store step alone, for a file no record comes from: with every chunk embedded and no fault it appends one record per chunk (id `file_name_i`, content, embedding, source); otherwise it appends nothing; either way the result is `True` |
| `Ingestion.PartialEmbeddingStoresNothing` | src/rag/pdf_processor.py:135-153 | when one chunk fails to embed and another succeeds, the uneven batch is rejected: nothing is stored and the result is still `True` |
| `Ingestion.IngestPreservesWellFormed` | src/rag/pdf_processor.py:146-154 | every run keeps the ids distinct, each built from its record's source |
| `Ingestion.StorePreservesWellFormed` | src/rag/pdf_processor.py:146-157 | the store step keeps the collection well-formed when no record comes from the file |
| `Ingestion.AppendFileBatchWellFormed` | src/rag/pdf_processor.py:148-153 | appending records with ids `file_name_0`, `file_name_1`, … and source `file_name` to a well-formed collection with no record of that file keeps it well-formed |
| `Ingestion.IngestIdempotent` | src/rag/pdf_processor.py:40-61 | a second run with the same collaborators leaves the records and result of the first |
| `Ingestion.ReingestionAfterStoreIsNoOp` | src/rag/pdf_processor.py:46-47 | in a well-formed collection: after a run that stored records, any later run on the same name returns `True` at once and adds no record |
| `Ingestion.PdfProcessor.constructor` | src/rag/pdf_processor.py:19-23 | the processor uses the given collection |
| `Ingestion.PdfProcessor.GroupTextsByPage` | src/rag/pdf_processor.py:25-38 | the loop over elements with its page dictionary produces exactly the reference grouping `GroupByPage` |
| `Ingestion.PdfProcessor.CheckExistingEmbeddings` | src/rag/pdf_processor.py:87-97 | true exactly when some record's source is the current file name |
| `Ingestion.PdfProcessor.ProcessPdfFile` | src/rag/pdf_processor.py:63-85 | gives the extraction result, never an empty list |
| `Ingestion.PdfProcessor.EmbedDocs` | src/rag/pdf_processor.py:118-144 | the loop skips failing chunks and gives the successful embeddings in chunk order. It gives `None` when the model fails or nothing succeeded; otherwise at least one and at most one per chunk |
| `Ingestion.PdfProcessor.StoreEmbeddings` | src/rag/pdf_processor.py:146-157 | the records become those of the `add` of this batch, and a raised error leaves them unchanged |
| `Ingestion.PdfProcessor.ProcessPdf` | src/rag/pdf_processor.py:40-61 | sets the file name. The result and the new records are those of `Ingest`, and a well-formed collection stays well-formed |
| `ResponseFormat.FormatResponseToText` | src/rag/pdf_processor.py:162-171 | the report starts with the start marker and ends with the end marker |
| `ResponseFormat.FormatThenParse` | src/rag/pdf_processor.py:162-171 | a success report carries `SUCCESS` and the message, ignoring the error; a failure report carries `ERROR` and the error, ignoring the message; both read back as that |
| `ResponseFormat.ParseThenFormat` | src/rag/pdf_processor.py:162-171 | every text that reads as a report is the formatting of what it reads as |

## Left out

- Chroma's persistence, its `where` filtering and its distance semantics are not modelled. The collection is an in-memory sequence of records.
- `VectorStore.Collection.Add`: a batch is written whole or not at all; a fault partway through a write is not modelled. Ids already stored are skipped. That case never arises from `process_pdf` on a well-formed collection (`FreshIds`).
- The internals of `partition_pdf`, its strategy options, `SemanticChunker` breakpoint scoring and the HuggingFace model are foreign code. They are functions of the `Environment` that either fail or give a result.
- Embeddings are an opaque type. The `np.float32` conversion and `torch.cuda.empty_cache` are not modelled.
- `load_embedding_model` and `free_embedding_model` (src/util/util.py) are not modelled. Device memory is not observable here. That `_run_splitter` skips the free when splitting raises is not modelled either.
- Each foreign call is deterministic in its argument. `Ingestion.IngestIdempotent` relies on this when it speaks of "the same collaborators". `Ingestion.ReingestionAfterStoreIsNoOp` holds for any collaborators.
- The data-directory path (`os.path.join(cfg.DATA_DIR, …)`) is not modelled. `fileExists` and `partition` take the file name.
- `_group_texts_by_page` raising on an element whose text is not a string is not modelled: element texts are strings.
- Before the first `process_pdf`, Python has no `file_name` attribute; the model starts with `""`.
- The `except` branch of `format_response_to_text` is not modelled. Formatting string arguments cannot raise. `RESPONSE_START` and `RESPONSE_END` are not in the configuration file shown, so they are parameters. `message` and `error` default to `""`, as in the source.
- The command-line plumbing (argument count check, file writing, exit code; lines 176-210) is not modelled.
- Logging is not modelled. It is a side channel and does not change any result.
- The probe `collection.get` in `_check_existing_embeddings` (src/rag/pdf_processor.py:46, 88) sits outside any `try`. A fault of the persistent layer there propagates out of `process_pdf` as an exception. `Ingestion.PdfProcessor.CheckExistingEmbeddings` and `VectorStore.Collection.Get` model the probe as total, so that exceptional exit is not modelled.
- Concurrent ingestion of the same file is not modelled. Two processes can both pass the probe before either stores.
- src/rag/retriever.py, src/util/util.py, streamlit_app.py and config.py are not part of this model.
