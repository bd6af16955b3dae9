/**
 * `PDFProcessor` (src/rag/pdf_processor.py): the ingestion of one PDF into
 * the Chroma collection.
 *
 * The foreign capabilities the processor calls are values of an
 * `Environment`: whether the file is on disk, what `partition_pdf` returns
 * (or that it raises), what the semantic chunker returns, whether the
 * embedding model loads, what embedding one chunk gives (or that it
 * raises), and whether the collection's persistent layer faults on `add`.
 *
 * `Ingest` is the reference definition of `process_pdf`: the stage at which
 * it stops and the collection's records afterwards. `PdfProcessor` is the
 * class itself; its methods are proved against `Ingest` and the smaller
 * specification functions, and the lemmas state what the pipeline promises.
 */
module Ingestion {
  import opened Wrappers
  import opened Text
  import opened PageGrouping
  import opened VectorStore

  /** The foreign calls the processor makes, as functions of their arguments. */
  datatype Environment<E> = Environment(
    /** `os.path.exists` of the file under the data directory */
    fileExists: string -> bool,
    /** `partition_pdf` of the file; `None` when it raises */
    partition: string -> Option<seq<Element>>,
    /** loading the model and `SemanticChunker.split_documents`; `None` when either raises */
    split: seq<Document> -> Option<seq<Document>>,
    /** `load_embedding_model` and `free_embedding_model` around the embedding loop succeed */
    embedderLoads: bool,
    /** `embed_documents([text])` for one chunk; `None` when it raises */
    embed: string -> Option<E>,
    /** the persistent layer raises on `collection.add` */
    storeFault: bool)

  /** Where `process_pdf` stops. */
  datatype Stage =
    | NotPdf            // the name does not end with ".pdf"
    | AlreadyIngested   // the collection holds a record of this source
    | NothingExtracted  // file missing, partitioning raised, or no page text
    | NothingSplit      // the splitter raised or returned no chunk
    | NothingEmbedded   // the model did not load, or no chunk was embedded
    | StoreFailed       // `add` raised; the error is swallowed
    | Stored            // `add` succeeded

  /** What one run of `process_pdf` leaves: the stage it stopped at and the collection's records. */
  datatype Outcome<E> = Outcome(stage: Stage, records: seq<Record<E>>) {
    /** The boolean `process_pdf` returns. */
    predicate Ok() {
      stage == AlreadyIngested || stage == StoreFailed || stage == Stored
    }
  }

  // ---------------------------------------------------------------------
  // Specification functions, one per step
  // ---------------------------------------------------------------------

  /** `_process_pdf`: the page documents, or `None` for a missing file, a raising partitioner or no text. */
  function ExtractedPages<E>(env: Environment<E>, fileName: string): Option<seq<Document>> {
    if !env.fileExists(fileName) then None
    else match env.partition(fileName)
      case None => None
      case Some(elements) =>
        var pages := GroupByPage(elements);
        if pages == [] then None else Some(pages)
  }

  /** The embeddings of the chunks whose embedding succeeded, in chunk order. */
  function SuccessfulEmbeddings<E>(embed: string -> Option<E>, chunks: seq<Document>): seq<E> {
    if chunks == [] then []
    else
      var last := embed(chunks[|chunks| - 1].pageContent);
      SuccessfulEmbeddings(embed, chunks[..|chunks| - 1]) + (if last.Some? then [last.value] else [])
  }

  /** `_embed_docs`: the successful embeddings, or `None` when the model fails or none succeeded. */
  function Embedded<E>(env: Environment<E>, chunks: seq<Document>): Option<seq<E>> {
    if !env.embedderLoads then None
    else
      var all := SuccessfulEmbeddings(env.embed, chunks);
      if |all| > 0 then Some(all) else None
  }

  /** The id of the `n`-th chunk of `fileName`: `f"{file_name}_{n}"`. */
  function RecordId(fileName: string, n: nat): string {
    fileName + "_" + DecimalString(n)
  }

  /**
   * The ids `_store_embeddings` builds for `n` chunks: pairwise distinct,
   * and the i-th reads back as this file's chunk `i`.
   */
  function StoreIds(fileName: string, n: nat): (ids: seq<string>)
    ensures |ids| == n && Distinct(ids)
    ensures forall i :: 0 <= i < n ==> SplitId(ids[i]) == Some((fileName, i))
  {
    RecordIdsReadBack(fileName, n);
    seq(n, i requires 0 <= i < n => RecordId(fileName, i))
  }

  /** The `documents` list: each chunk's `page_content`, in order. */
  function Contents(chunks: seq<Document>): (documents: seq<string>)
    ensures |documents| == |chunks| && forall i :: 0 <= i < |chunks| ==> documents[i] == chunks[i].pageContent
  {
    seq(|chunks|, i requires 0 <= i < |chunks| => chunks[i].pageContent)
  }

  /** The `metadatas` list: `{"source": file_name}` once per chunk. */
  function SourceMetadatas(fileName: string, n: nat): (metadatas: seq<Metadata>)
    ensures |metadatas| == n && forall i :: 0 <= i < n ==> metadatas[i] == Metadata(fileName)
  {
    seq(n, _ => Metadata(fileName))
  }

  /** `_store_embeddings` followed by `return True`: the `add` call, its error swallowed. */
  function StoreOutcome<E>(env: Environment<E>, fileName: string, chunks: seq<Document>, embeddings: seq<E>, rs: seq<Record<E>>): Outcome<E> {
    var ids := StoreIds(fileName, |chunks|);
    var documents := Contents(chunks);
    var metadatas := SourceMetadatas(fileName, |chunks|);
    if env.storeFault || !ValidBatch(ids, documents, embeddings, metadatas) then Outcome(StoreFailed, rs)
    else Outcome(Stored, rs + Unstored(rs, Zip(ids, documents, embeddings, metadatas)))
  }

  /** Reference definition of `process_pdf(fileName)` run against a collection holding `rs`. */
  function Ingest<E>(env: Environment<E>, fileName: string, rs: seq<Record<E>>): Outcome<E> {
    if !EndsWith(fileName, ".pdf") then Outcome(NotPdf, rs)
    else if HasSource(rs, fileName) then Outcome(AlreadyIngested, rs)
    else match ExtractedPages(env, fileName)
      case None => Outcome(NothingExtracted, rs)
      case Some(pages) =>
        match env.split(pages)
        case None => Outcome(NothingSplit, rs)
        case Some(chunks) =>
          if chunks == [] then Outcome(NothingSplit, rs)
          else match Embedded(env, chunks)
            case None => Outcome(NothingEmbedded, rs)
            case Some(embeddings) => StoreOutcome(env, fileName, chunks, embeddings, rs)
  }

  /** `chunks` is what the splitter produced for `fileName`, and it is not empty. */
  predicate ChunksOf<E>(env: Environment<E>, fileName: string, chunks: seq<Document>) {
    ExtractedPages(env, fileName).Some?
    && env.split(ExtractedPages(env, fileName).value) == Some(chunks)
    && chunks != []
  }

  // ---------------------------------------------------------------------
  // Record ids
  // ---------------------------------------------------------------------

  /** Reads an id back into its source and chunk index: the text before the last `_` and the digits after it. */
  function SplitId(id: string): Option<(string, nat)> {
    var k := TrailingDigits(id);
    if k == 0 || k == |id| || id[|id| - k - 1] != '_' then None
    else Some((id[..|id| - k - 1], ParseDecimal(id[|id| - k..])))
  }

  /** The digits at the end of `prefix + "_" + digits` are exactly `digits`. */
  lemma {:induction false} TrailingDigitsAfterUnderscore(prefix: string, digits: string)
    requires forall i :: 0 <= i < |digits| ==> IsDigit(digits[i])
    ensures TrailingDigits(prefix + "_" + digits) == |digits|
  {
    var s := prefix + "_" + digits;
    if digits != [] {
      var init := digits[..|digits| - 1];
      assert s[..|s| - 1] == prefix + "_" + init;
      TrailingDigitsAfterUnderscore(prefix, init);
    } else {
      assert s[|s| - 1] == '_';
    }
  }

  /** Every record id reads back into the source and index it was built from. */
  lemma SplitRecordId(fileName: string, n: nat)
    ensures SplitId(RecordId(fileName, n)) == Some((fileName, n))
  {
    var d := DecimalString(n);
    var id := RecordId(fileName, n);
    ParseDecimalString(n);
    TrailingDigitsAfterUnderscore(fileName, d);
    assert id[..|id| - |d| - 1] == fileName;
    assert id[|id| - |d| - 1] == '_';
    assert id[|id| - |d|..] == d;
  }

  /** Distinct (source, index) pairs give distinct ids, so the ids of two files never collide. */
  lemma RecordIdInjective(f1: string, n1: nat, f2: string, n2: nat)
    requires RecordId(f1, n1) == RecordId(f2, n2)
    ensures f1 == f2 && n1 == n2
  {
    SplitRecordId(f1, n1);
    SplitRecordId(f2, n2);
  }

  /** The first `n` ids of a file read back as that file's chunks `0`, …, `n - 1`. */
  lemma RecordIdsReadBack(fileName: string, n: nat)
    ensures forall i :: 0 <= i < n ==> SplitId(RecordId(fileName, i)) == Some((fileName, i))
  {
    forall i | 0 <= i < n ensures SplitId(RecordId(fileName, i)) == Some((fileName, i)) {
      SplitRecordId(fileName, i);
    }
  }

  /** `id` is the id of some chunk of `source`. */
  ghost predicate IdOf(id: string, source: string) {
    exists n: nat :: id == RecordId(source, n)
  }

  /** The invariant `process_pdf` keeps on the collection: distinct ids, each built from its record's source. */
  ghost predicate WellFormed<E>(rs: seq<Record<E>>) {
    Distinct(Ids(rs)) && forall i :: 0 <= i < |rs| ==> IdOf(rs[i].id, rs[i].source)
  }

  /** In a well-formed collection with no record of `fileName`, none of that file's ids is taken. */
  lemma FreshIds<E>(rs: seq<Record<E>>, fileName: string, n: nat)
    requires WellFormed(rs) && !HasSource(rs, fileName)
    ensures forall i :: 0 <= i < n ==> RecordId(fileName, i) !in Ids(rs)
  {
    forall i, j | 0 <= i < n && 0 <= j < |rs| ensures Ids(rs)[j] != RecordId(fileName, i) {
      var m: nat :| rs[j].id == RecordId(rs[j].source, m);
      SplitRecordId(rs[j].source, m);
      SplitRecordId(fileName, i);
    }
  }

  // ---------------------------------------------------------------------
  // Embedding loop
  // ---------------------------------------------------------------------

  /** Embedding a concatenation of chunk lists concatenates their successful embeddings. */
  lemma {:induction false} SuccessfulEmbeddingsAppend<E>(embed: string -> Option<E>, a: seq<Document>, b: seq<Document>)
    ensures SuccessfulEmbeddings(embed, a + b) == SuccessfulEmbeddings(embed, a) + SuccessfulEmbeddings(embed, b)
  {
    if b == [] {
      assert a + b == a;
    } else {
      var ab := a + b;
      assert ab[..|ab| - 1] == a + b[..|b| - 1];
      SuccessfulEmbeddingsAppend(embed, a, b[..|b| - 1]);
    }
  }

  /** One chunk contributes its embedding exactly when embedding it succeeds. */
  lemma SuccessfulEmbeddingsSingle<E>(embed: string -> Option<E>, d: Document)
    ensures SuccessfulEmbeddings(embed, [d]) == if embed(d.pageContent).Some? then [embed(d.pageContent).value] else []
  {
    assert [d][..0] == [];
  }

  /**
   * Nothing is lost but failures: as many embeddings come out as there are
   * chunks exactly when every chunk is embedded.
   */
  lemma {:induction false} SuccessfulEmbeddingsCount<E>(embed: string -> Option<E>, chunks: seq<Document>)
    ensures |SuccessfulEmbeddings(embed, chunks)| <= |chunks|
    ensures |SuccessfulEmbeddings(embed, chunks)| == |chunks| <==> forall i :: 0 <= i < |chunks| ==> embed(chunks[i].pageContent).Some?
  {
    if chunks != [] {
      var init := chunks[..|chunks| - 1];
      SuccessfulEmbeddingsCount(embed, init);
      assert forall i :: 0 <= i < |init| ==> init[i] == chunks[i];
    }
  }

  /** When every chunk is embedded, the i-th embedding is the i-th chunk's. */
  lemma {:induction false} SuccessfulEmbeddingsAt<E>(embed: string -> Option<E>, chunks: seq<Document>, i: nat)
    requires forall j :: 0 <= j < |chunks| ==> embed(chunks[j].pageContent).Some?
    requires i < |chunks|
    ensures |SuccessfulEmbeddings(embed, chunks)| == |chunks|
    ensures SuccessfulEmbeddings(embed, chunks)[i] == embed(chunks[i].pageContent).value
  {
    var init := chunks[..|chunks| - 1];
    assert forall j :: 0 <= j < |init| ==> init[j] == chunks[j];
    SuccessfulEmbeddingsCount(embed, init);
    if i < |init| {
      SuccessfulEmbeddingsAt(embed, init, i);
    }
  }

  /** No embedding comes out exactly when every chunk fails. */
  lemma {:induction false} SuccessfulEmbeddingsNone<E>(embed: string -> Option<E>, chunks: seq<Document>)
    ensures SuccessfulEmbeddings(embed, chunks) == [] <==> forall i :: 0 <= i < |chunks| ==> embed(chunks[i].pageContent).None?
  {
    if chunks != [] {
      var init := chunks[..|chunks| - 1];
      SuccessfulEmbeddingsNone(embed, init);
      assert forall i :: 0 <= i < |init| ==> init[i] == chunks[i];
    }
  }

  // ---------------------------------------------------------------------
  // Properties of process_pdf
  // ---------------------------------------------------------------------

  /** Only a successful `add` changes the collection; `process_pdf` is `False` exactly at the stages before storing. */
  lemma OnlyStoringChangesRecords<E>(env: Environment<E>, fileName: string, rs: seq<Record<E>>)
    ensures Ingest(env, fileName, rs).stage != Stored ==> Ingest(env, fileName, rs).records == rs
    ensures Ingest(env, fileName, rs).stage == Stored ==> rs <= Ingest(env, fileName, rs).records
    ensures !Ingest(env, fileName, rs).Ok() <==>
      Ingest(env, fileName, rs).stage in {NotPdf, NothingExtracted, NothingSplit, NothingEmbedded}
  {
  }

  /** A name not ending in ".pdf" is refused before the collection is probed. */
  lemma NotPdfIsRefused<E>(env: Environment<E>, fileName: string, rs: seq<Record<E>>)
    requires !EndsWith(fileName, ".pdf")
    ensures Ingest(env, fileName, rs) == Outcome(NotPdf, rs)
    ensures !Ingest(env, fileName, rs).Ok()
  {
  }

  /** A file some record already comes from is reported as ingested, and nothing is extracted or stored. */
  lemma ExistingSourceIsNoOp<E>(env: Environment<E>, fileName: string, rs: seq<Record<E>>)
    requires EndsWith(fileName, ".pdf")
    requires exists i :: 0 <= i < |rs| && rs[i].source == fileName
    ensures Ingest(env, fileName, rs) == Outcome(AlreadyIngested, rs)
    ensures Ingest(env, fileName, rs).Ok()
  {
  }

  /** The page documents are missing exactly when the file is missing, partitioning raises, or no element has text. */
  lemma ExtractedPagesNone<E>(env: Environment<E>, fileName: string)
    ensures ExtractedPages(env, fileName).None? <==>
      !env.fileExists(fileName)
      || env.partition(fileName).None?
      || forall j :: 0 <= j < |env.partition(fileName).value| ==> !Kept(env.partition(fileName).value[j])
    ensures ExtractedPages(env, fileName).Some? ==>
      ExtractedPages(env, fileName).value == GroupByPage(env.partition(fileName).value)
  {
    if env.fileExists(fileName) && env.partition(fileName).Some? {
      GroupByPageEmptyIff(env.partition(fileName).value);
    }
  }

  /** A missing file, a raising partitioner or a PDF without text makes `process_pdf` fail and store nothing. */
  lemma ExtractionFailureStoresNothing<E>(env: Environment<E>, fileName: string, rs: seq<Record<E>>)
    requires EndsWith(fileName, ".pdf") && !HasSource(rs, fileName)
    requires !env.fileExists(fileName)
      || env.partition(fileName).None?
      || forall j :: 0 <= j < |env.partition(fileName).value| ==> !Kept(env.partition(fileName).value[j])
    ensures Ingest(env, fileName, rs) == Outcome(NothingExtracted, rs)
    ensures !Ingest(env, fileName, rs).Ok()
  {
    ExtractedPagesNone(env, fileName);
  }

  /** A raising splitter, or one that returns no chunk, makes `process_pdf` fail and store nothing. */
  lemma SplitFailureStoresNothing<E>(env: Environment<E>, fileName: string, rs: seq<Record<E>>)
    requires EndsWith(fileName, ".pdf") && !HasSource(rs, fileName)
    requires ExtractedPages(env, fileName).Some?
    requires env.split(ExtractedPages(env, fileName).value) in {None, Some([])}
    ensures Ingest(env, fileName, rs) == Outcome(NothingSplit, rs)
    ensures !Ingest(env, fileName, rs).Ok()
  {
  }

  /** A model that does not load, or a failure on every chunk, makes `process_pdf` fail and store nothing. */
  lemma EmbeddingFailureStoresNothing<E>(env: Environment<E>, fileName: string, rs: seq<Record<E>>, chunks: seq<Document>)
    requires EndsWith(fileName, ".pdf") && !HasSource(rs, fileName)
    requires ChunksOf(env, fileName, chunks)
    requires !env.embedderLoads || forall i :: 0 <= i < |chunks| ==> env.embed(chunks[i].pageContent).None?
    ensures Ingest(env, fileName, rs) == Outcome(NothingEmbedded, rs)
    ensures !Ingest(env, fileName, rs).Ok()
  {
    SuccessfulEmbeddingsNone(env.embed, chunks);
  }

  /**
   * Once the embeddings exist, `process_pdf` returns `True` whatever `add`
   * does. When every chunk was embedded and the store does not fault, the
   * records appended are, in chunk order, id `fileName_i`, the i-th chunk's
   * content and embedding, and source `fileName`; otherwise nothing is
   * appended.
   */
  lemma StoredRecordShape<E>(env: Environment<E>, fileName: string, rs: seq<Record<E>>, chunks: seq<Document>, embeddings: seq<E>)
    requires WellFormed(rs)
    requires EndsWith(fileName, ".pdf") && !HasSource(rs, fileName)
    requires ChunksOf(env, fileName, chunks)
    requires Embedded(env, chunks) == Some(embeddings)
    ensures Ingest(env, fileName, rs).Ok()
    ensures var out := Ingest(env, fileName, rs).records;
      if env.storeFault || |embeddings| != |chunks| then out == rs
      else
        && |out| == |rs| + |chunks|
        && out[..|rs|] == rs
        && forall i :: 0 <= i < |chunks| ==>
          out[|rs| + i] == Record(RecordId(fileName, i), chunks[i].pageContent, embeddings[i], fileName)
  {
    assert Ingest(env, fileName, rs) == StoreOutcome(env, fileName, chunks, embeddings, rs);
    StoreOutcomeShape(env, fileName, rs, chunks, embeddings);
  }

  /** The store step on its own: what `add` appends for a file no record comes from. */
  lemma StoreOutcomeShape<E>(env: Environment<E>, fileName: string, rs: seq<Record<E>>, chunks: seq<Document>, embeddings: seq<E>)
    requires WellFormed(rs) && !HasSource(rs, fileName)
    requires chunks != []
    ensures StoreOutcome(env, fileName, chunks, embeddings, rs).Ok()
    ensures var out := StoreOutcome(env, fileName, chunks, embeddings, rs).records;
      if env.storeFault || |embeddings| != |chunks| then out == rs
      else
        && |out| == |rs| + |chunks|
        && out[..|rs|] == rs
        && forall i :: 0 <= i < |chunks| ==>
          out[|rs| + i] == Record(RecordId(fileName, i), chunks[i].pageContent, embeddings[i], fileName)
  {
    var n := |chunks|;
    if !env.storeFault && |embeddings| == n {
      var batch := Zip(StoreIds(fileName, n), Contents(chunks), embeddings, SourceMetadatas(fileName, n));
      FreshIds(rs, fileName, n);
      assert Unstored(rs, batch) == batch;
      var out := rs + batch;
      assert out[..|rs|] == rs;
      forall i | 0 <= i < n
        ensures out[|rs| + i] == Record(RecordId(fileName, i), chunks[i].pageContent, embeddings[i], fileName)
      {
        assert out[|rs| + i] == batch[i];
      }
    }
  }

  /**
   * The ids and metadatas follow the chunk count, the embeddings only the
   * successes: when some chunk fails to embed and another succeeds, `add`
   * rejects the uneven batch, nothing is stored, and `process_pdf` still
   * returns `True`.
   */
  lemma PartialEmbeddingStoresNothing<E>(env: Environment<E>, fileName: string, rs: seq<Record<E>>, chunks: seq<Document>, failed: nat, succeeded: nat)
    requires EndsWith(fileName, ".pdf") && !HasSource(rs, fileName)
    requires ChunksOf(env, fileName, chunks)
    requires env.embedderLoads
    requires failed < |chunks| && env.embed(chunks[failed].pageContent).None?
    requires succeeded < |chunks| && env.embed(chunks[succeeded].pageContent).Some?
    ensures Ingest(env, fileName, rs) == Outcome(StoreFailed, rs)
    ensures Ingest(env, fileName, rs).Ok()
  {
    SuccessfulEmbeddingsCount(env.embed, chunks);
    SuccessfulEmbeddingsNone(env.embed, chunks);
  }

  /** Every run keeps the collection well-formed. */
  lemma IngestPreservesWellFormed<E>(env: Environment<E>, fileName: string, rs: seq<Record<E>>)
    requires WellFormed(rs)
    ensures WellFormed(Ingest(env, fileName, rs).records)
  {
    if EndsWith(fileName, ".pdf") && !HasSource(rs, fileName) && ExtractedPages(env, fileName).Some? {
      var split := env.split(ExtractedPages(env, fileName).value);
      if split.Some? && split.value != [] && Embedded(env, split.value).Some? {
        StorePreservesWellFormed(env, fileName, rs, split.value, Embedded(env, split.value).value);
      }
    }
  }

  /** The store step keeps a collection well-formed when no record comes from the file. */
  lemma StorePreservesWellFormed<E>(env: Environment<E>, fileName: string, rs: seq<Record<E>>, chunks: seq<Document>, embeddings: seq<E>)
    requires WellFormed(rs) && !HasSource(rs, fileName)
    ensures WellFormed(StoreOutcome(env, fileName, chunks, embeddings, rs).records)
  {
    var n := |chunks|;
    if !env.storeFault && |embeddings| == n {
      FreshIds(rs, fileName, n);
      var batch := Zip(StoreIds(fileName, n), Contents(chunks), embeddings, SourceMetadatas(fileName, n));
      assert Unstored(rs, batch) == batch;
      AppendFileBatchWellFormed(rs, fileName, batch);
    }
  }

  /** Appending the records of a file no record comes from, with ids `fileName_0`, `fileName_1`, …, keeps the collection well-formed. */
  lemma AppendFileBatchWellFormed<E>(rs: seq<Record<E>>, fileName: string, batch: seq<Record<E>>)
    requires WellFormed(rs) && !HasSource(rs, fileName)
    requires forall i :: 0 <= i < |batch| ==> batch[i].id == RecordId(fileName, i) && batch[i].source == fileName
    ensures WellFormed(rs + batch)
  {
    var all := rs + batch;
    forall i | 0 <= i < |all| ensures IdOf(all[i].id, all[i].source) {
      if i >= |rs| {
        var k: nat := i - |rs|;
        assert all[i] == batch[k];
        assert all[i].id == RecordId(fileName, k);
      } else {
        assert all[i] == rs[i];
      }
    }
    FreshIds(rs, fileName, |batch|);
    FileBatchDistinct(fileName, batch);
    AppendDistinct(Ids(rs), Ids(batch));
    assert Ids(all) == Ids(rs) + Ids(batch);
  }

  /** A batch whose ids are `fileName_0`, `fileName_1`, … repeats no id. */
  lemma FileBatchDistinct<E>(fileName: string, batch: seq<Record<E>>)
    requires forall i :: 0 <= i < |batch| ==> batch[i].id == RecordId(fileName, i)
    ensures Distinct(Ids(batch))
  {
    assert Ids(batch) == StoreIds(fileName, |batch|);
  }

  /** Two id lists, each without repeats and with no id in common, concatenate without repeats. */
  lemma AppendDistinct(xs: seq<string>, ys: seq<string>)
    requires Distinct(xs) && Distinct(ys)
    requires forall i :: 0 <= i < |ys| ==> ys[i] !in xs
    ensures Distinct(xs + ys)
  {
    var all := xs + ys;
    forall i, j | 0 <= i < j < |all| ensures all[i] != all[j] {
      if i >= |xs| {
        assert all[i] == ys[i - |xs|] && all[j] == ys[j - |xs|];
      } else if j >= |xs| {
        assert all[i] == xs[i] && all[j] == ys[j - |xs|];
      }
    }
  }

  /**
   * Idempotence: running `process_pdf` a second time with the same
   * collaborators leaves the records and the result of the first run.
   */
  lemma IngestIdempotent<E>(env: Environment<E>, fileName: string, rs: seq<Record<E>>)
    ensures Ingest(env, fileName, Ingest(env, fileName, rs).records).records == Ingest(env, fileName, rs).records
    ensures Ingest(env, fileName, Ingest(env, fileName, rs).records).Ok() == Ingest(env, fileName, rs).Ok()
  {
    var first := Ingest(env, fileName, rs);
    if first.stage == Stored && first.records != rs {
      var pages := ExtractedPages(env, fileName).value;
      var chunks := env.split(pages).value;
      var embeddings := Embedded(env, chunks).value;
      var n := |chunks|;
      var batch := Zip(StoreIds(fileName, n), Contents(chunks), embeddings, SourceMetadatas(fileName, n));
      var added := Unstored(rs, batch);
      assert first.records == rs + added;
      assert added != [];
      assert added[0] in batch;
      assert first.records[|rs|].source == fileName;
    }
  }

  /**
   * After a run that stored records, any later run on the same name, with
   * any collaborators, is an immediate `True` that leaves the collection as
   * it is: a second ingestion adds no records.
   */
  lemma ReingestionAfterStoreIsNoOp<E>(env: Environment<E>, later: Environment<E>, fileName: string, rs: seq<Record<E>>)
    requires WellFormed(rs)
    requires Ingest(env, fileName, rs).stage == Stored
    ensures Ingest(later, fileName, Ingest(env, fileName, rs).records) == Outcome(AlreadyIngested, Ingest(env, fileName, rs).records)
  {
    var first := Ingest(env, fileName, rs);
    var pages := ExtractedPages(env, fileName).value;
    var chunks := env.split(pages).value;
    var embeddings := Embedded(env, chunks).value;
    StoredRecordShape(env, fileName, rs, chunks, embeddings);
    assert first.records[|rs|].source == fileName;
  }

  // ---------------------------------------------------------------------
  // The processor
  // ---------------------------------------------------------------------

  /** `PDFProcessor`: a handle on the collection and the name of the file being processed. */
  class PdfProcessor<E> {
    const collection: Collection<E>
    var fileName: string

    /** `__init__`: opens the collection; no file is being processed yet. */
    constructor (collection: Collection<E>)
      ensures this.collection == collection && fileName == ""
    {
      this.collection := collection;
      fileName := "";
    }

    /** `_group_texts_by_page`: files each kept text under its page, then one document per page. */
    method GroupTextsByPage(elements: seq<Element>) returns (docs: seq<Document>)
      ensures docs == GroupByPage(elements)
    {
      var order: seq<PageKey> := [];
      var grouped: map<PageKey, seq<string>> := map[];
      var i := 0;
      while i < |elements|
        invariant 0 <= i <= |elements|
        invariant order == Pages(elements[..i])
        invariant forall k :: k in grouped <==> k in order
        invariant forall k :: k in grouped ==> grouped[k] == TextsOn(elements[..i], k)
      {
        var e := elements[i];
        assert elements[..i + 1][..i] == elements[..i];
        if e.text.Some? && e.text.value != "" && Strip(e.text.value) != "" {
          var page := PageOf(e);
          assert Kept(e);
          if page !in grouped {
            TextsOnNonEmptyIff(elements[..i], page);
            order := order + [page];
            grouped := grouped[page := []];
          }
          grouped := grouped[page := grouped[page] + [e.text.value]];
        }
        i := i + 1;
      }
      assert elements[..i] == elements;
      docs := seq(|order|, j requires 0 <= j < |order| => Document(Join("\n", grouped[order[j]]), order[j]));
    }

    /** `_check_existing_embeddings`: some record's source is the current file name. */
    method CheckExistingEmbeddings() returns (found: bool)
      ensures found <==> exists i :: 0 <= i < |collection.records| && collection.records[i].source == fileName
    {
      found := collection.Get(fileName);
    }

    /** `_process_pdf`: the page documents of the current file, or `None`. */
    method ProcessPdfFile(env: Environment<E>) returns (docs: Option<seq<Document>>)
      ensures docs == ExtractedPages(env, fileName)
      ensures docs.Some? ==> docs.value != []
    {
      if !env.fileExists(fileName) {
        return None;
      }
      var elements := env.partition(fileName);
      if elements.None? {
        return None;
      }
      var pages := GroupTextsByPage(elements.value);
      if pages == [] {
        return None;
      }
      return Some(pages);
    }

    /** `_run_splitter`: the chunker's chunks, or `None` when loading the model or splitting raises. */
    method RunSplitter(env: Environment<E>, docs: seq<Document>) returns (splitDocs: Option<seq<Document>>)
      ensures splitDocs == env.split(docs)
    {
      splitDocs := env.split(docs);
    }

    /** `_embed_docs`: embeds chunk by chunk, skipping a chunk whose embedding raises. */
    method EmbedDocs(env: Environment<E>, docs: seq<Document>) returns (embeddings: Option<seq<E>>)
      ensures embeddings == Embedded(env, docs)
      ensures embeddings.Some? ==> 0 < |embeddings.value| <= |docs|
    {
      if !env.embedderLoads {
        return None;
      }
      var all: seq<E> := [];
      var i := 0;
      while i < |docs|
        invariant 0 <= i <= |docs|
        invariant all == SuccessfulEmbeddings(env.embed, docs[..i])
      {
        assert docs[..i + 1][..i] == docs[..i];
        var embedding := env.embed(docs[i].pageContent);
        if embedding.Some? {
          all := all + [embedding.value];
        }
        i := i + 1;
      }
      assert docs[..i] == docs;
      SuccessfulEmbeddingsCount(env.embed, docs);
      embeddings := if |all| > 0 then Some(all) else None;
    }

    /** `_store_embeddings`: one `add` of ids, contents, embeddings and metadatas; a raised error is swallowed. */
    method StoreEmbeddings(env: Environment<E>, docs: seq<Document>, embeddings: seq<E>)
      modifies collection
      ensures collection.records == StoreOutcome(env, fileName, docs, embeddings, old(collection.records)).records
    {
      var ids := StoreIds(fileName, |docs|);
      var raised := collection.Add(ids, Contents(docs), embeddings, SourceMetadatas(fileName, |docs|), env.storeFault);
    }

    /** `process_pdf`: the steps in order, each failure returning early. */
    method ProcessPdf(env: Environment<E>, name: string) returns (ok: bool)
      modifies this, collection
      ensures fileName == name
      ensures ok == Ingest(env, name, old(collection.records)).Ok()
      ensures collection.records == Ingest(env, name, old(collection.records)).records
      ensures WellFormed(old(collection.records)) ==> WellFormed(collection.records)
    {
      ghost var before := collection.records;
      if WellFormed(before) {
        IngestPreservesWellFormed(env, name, before);
      }
      fileName := name;
      if !EndsWith(fileName, ".pdf") {
        return false;
      }
      var existing := CheckExistingEmbeddings();
      if existing {
        return true;
      }
      var docs := ProcessPdfFile(env);
      if docs.None? || docs.value == [] {
        return false;
      }
      var splitDocs := RunSplitter(env, docs.value);
      if splitDocs.None? || splitDocs.value == [] {
        return false;
      }
      var embeddings := EmbedDocs(env, splitDocs.value);
      if embeddings.None? || |embeddings.value| == 0 {
        return false;
      }
      StoreEmbeddings(env, splitDocs.value, embeddings.value);
      return true;
    }
  }
}
