/**
 * The Chroma collection the processor writes to, reduced to what the
 * ingestion code uses: the records it holds, the existence probe
 * `get(where={"source": s}, limit=1)` and the batch `add`.
 *
 * Embeddings are values of an opaque type parameter `E`; nothing here looks
 * inside them.
 */
module VectorStore {

  /** The `metadatas` entry the processor writes: `{"source": file_name}`. */
  datatype Metadata = Metadata(source: string)

  /** One stored record: id, document text, embedding and the `source` metadata. */
  datatype Record<E> = Record(id: string, content: string, embedding: E, source: string)

  /** Some record of `rs` has `source` as its `source` metadata. */
  function HasSource<E>(rs: seq<Record<E>>, source: string): (r: bool)
    ensures r <==> exists i :: 0 <= i < |rs| && rs[i].source == source
  {
    if rs == [] then false
    else rs[0].source == source || HasSource(rs[1..], source)
  }

  /** The ids of `rs`, in storage order. */
  function Ids<E>(rs: seq<Record<E>>): (ids: seq<string>)
    ensures |ids| == |rs| && forall i :: 0 <= i < |rs| ==> ids[i] == rs[i].id
  {
    seq(|rs|, i requires 0 <= i < |rs| => rs[i].id)
  }

  /** No two entries of `ids` are equal. */
  predicate Distinct(ids: seq<string>) {
    forall i, j :: 0 <= i < j < |ids| ==> ids[i] != ids[j]
  }

  /**
   * The batch validation `add` performs before writing: a non-empty list of
   * distinct ids, and as many documents, embeddings and metadatas as ids.
   */
  predicate ValidBatch<E>(ids: seq<string>, documents: seq<string>, embeddings: seq<E>, metadatas: seq<Metadata>) {
    |ids| > 0 && Distinct(ids)
    && |documents| == |ids| && |embeddings| == |ids| && |metadatas| == |ids|
  }

  /** The records a valid batch describes, position by position. */
  function Zip<E>(ids: seq<string>, documents: seq<string>, embeddings: seq<E>, metadatas: seq<Metadata>): (rs: seq<Record<E>>)
    requires |documents| == |ids| && |embeddings| == |ids| && |metadatas| == |ids|
    ensures |rs| == |ids|
    ensures forall i :: 0 <= i < |ids| ==>
      rs[i] == Record(ids[i], documents[i], embeddings[i], metadatas[i].source)
  {
    seq(|ids|, i requires 0 <= i < |ids| => Record(ids[i], documents[i], embeddings[i], metadatas[i].source))
  }

  /**
   * The records of `batch` whose id is not yet in `existing`, in batch
   * order: `add` leaves a record whose id is already stored as it is.
   */
  function Unstored<E>(existing: seq<Record<E>>, batch: seq<Record<E>>): (r: seq<Record<E>>)
    ensures |r| <= |batch|
    ensures forall i :: 0 <= i < |r| ==> r[i] in batch && r[i].id !in Ids(existing)
    ensures (forall i :: 0 <= i < |batch| ==> batch[i].id !in Ids(existing)) ==> r == batch
  {
    if batch == [] then []
    else
      var rest := Unstored(existing, batch[1..]);
      if batch[0].id in Ids(existing) then rest else [batch[0]] + rest
  }

  /** The persistent collection; `records` is its whole content, in insertion order. */
  class Collection<E> {
    var records: seq<Record<E>>

    /** A collection opened with the records already persisted. */
    constructor (persisted: seq<Record<E>>)
      ensures records == persisted
    {
      records := persisted;
    }

    /** `get(where={"source": source}, limit=1)` returns a non-empty id list. */
    method Get(source: string) returns (found: bool)
      ensures found <==> exists i :: 0 <= i < |records| && records[i].source == source
    {
      found := HasSource(records, source);
    }

    /**
     * `add(ids=…, documents=…, embeddings=…, metadatas=…)`. It raises, and
     * writes nothing, on a fault of the persistent layer (`fault`) or on an
     * invalid batch; otherwise it appends the records whose id is new.
     */
    method Add(ids: seq<string>, documents: seq<string>, embeddings: seq<E>, metadatas: seq<Metadata>, fault: bool)
      returns (raised: bool)
      modifies this
      ensures raised <==> fault || !ValidBatch(ids, documents, embeddings, metadatas)
      ensures raised ==> records == old(records)
      ensures !raised ==> records == old(records) + Unstored(old(records), Zip(ids, documents, embeddings, metadatas))
    {
      raised := fault || !ValidBatch(ids, documents, embeddings, metadatas);
      if !raised {
        records := records + Unstored(records, Zip(ids, documents, embeddings, metadatas));
      }
    }
  }
}
