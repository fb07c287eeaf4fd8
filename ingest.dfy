/**
  The storing loop of `embedChunksAndStore`: the text is chunked, and for
  every chunk in output order its embedding is requested and one entry is
  added to the `pdf-chunks` collection, with id `String(i)`, the chunk text
  as document and the chunk's page as metadata. The calls are awaited one
  after the other, so the first embedding that fails rejects the whole call
  and leaves the entries already added in place.
*/
module Ingest {
  import opened JsText
  import opened Chunker
  import opened Provider

  /** The `{ page }` object passed along with each chunk. */
  datatype PageMetadata = PageMetadata(page: nat)

  /** One record handed to `collection.add`: id, document, embedding and
      metadata of a single chunk. */
  datatype Entry = Entry(id: string, document: string, embedding: Vector, metadata: PageMetadata)

  /** How the awaited call ends: it resolves, or it rejects with the error of
      the embedding that failed. */
  datatype Outcome = Stored | Rejected(reason: string)

  /** The collection as seen from the backend: the records added to it, in
      the order they were added. */
  class Collection {
    const name: string
    var entries: seq<Entry>

    constructor (name: string)
      ensures this.name == name && entries == []
    {
      this.name := name;
      entries := [];
    }

    /** `collection.add` with one id, one document, one embedding and one
        metadata object. */
    method Add(entry: Entry)
      modifies this
      ensures entries == old(entries) + [entry]
    {
      entries := entries + [entry];
    }
  }

  /** The record built for chunk number `i`. */
  function EntryFor(i: nat, chunk: Chunk, vector: Vector): Entry
  {
    Entry(DecimalString(i), chunk.text, vector, PageMetadata(chunk.page))
  }

  /** Index of the first chunk at or after `from` whose embedding fails, or
      the number of chunks when none does. */
  function FirstFailureFrom(chunks: seq<Chunk>, embed: string -> Embedding, from: nat): (n: nat)
    requires from <= |chunks|
    ensures from <= n <= |chunks|
    ensures forall j :: from <= j < n ==> embed(chunks[j].text).Embedded?
    ensures n < |chunks| ==> embed(chunks[n].text).Failed?
    decreases |chunks| - from
  {
    if from == |chunks| || embed(chunks[from].text).Failed? then from
    else FirstFailureFrom(chunks, embed, from + 1)
  }

  /** Number of chunks that get stored: those before the first failing
      embedding. */
  function StoredCount(chunks: seq<Chunk>, embed: string -> Embedding): (n: nat)
    ensures n <= |chunks|
    ensures forall j :: 0 <= j < n ==> embed(chunks[j].text).Embedded?
    ensures n < |chunks| ==> embed(chunks[n].text).Failed?
  {
    FirstFailureFrom(chunks, embed, 0)
  }

  /** The records of the first `n` chunks, in order: one per chunk, each
      carrying its chunk's text as document and its chunk's page. */
  function StoredEntries(chunks: seq<Chunk>, embed: string -> Embedding, n: nat): (r: seq<Entry>)
    requires n <= |chunks|
    requires forall j :: 0 <= j < n ==> embed(chunks[j].text).Embedded?
    ensures |r| == n
    ensures forall i :: 0 <= i < n ==> r[i].document == chunks[i].text && r[i].metadata.page == chunks[i].page
  {
    if n == 0 then []
    else StoredEntries(chunks, embed, n - 1) + [EntryFor(n - 1, chunks[n - 1], embed(chunks[n - 1].text).vector)]
  }

  /** `embedChunksAndStore(text)` against an already fetched collection. */
  method EmbedChunksAndStore(collection: Collection, text: string, embed: string -> Embedding)
    returns (outcome: Outcome)
    modifies collection
    ensures var chunks := Chunks(text);
            var n := StoredCount(chunks, embed);
            && collection.entries == old(collection.entries) + StoredEntries(chunks, embed, n)
            && outcome == if n == |chunks| then Stored else Rejected(embed(chunks[n].text).reason)
  {
    var chunks := SplitText(text);
    var i := 0;
    while i < |chunks|
      invariant 0 <= i <= |chunks|
      invariant forall j :: 0 <= j < i ==> embed(chunks[j].text).Embedded?
      invariant collection.entries == old(collection.entries) + StoredEntries(chunks, embed, i)
    {
      var embedding := embed(chunks[i].text);
      if embedding.Failed? {
        assert StoredCount(chunks, embed) == i;
        return Rejected(embedding.reason);
      }
      collection.Add(EntryFor(i, chunks[i], embedding.vector));
      i := i + 1;
    }
    outcome := Stored;
  }

  /** Exactly one record per stored chunk, in order: record `i` has id
      `String(i)`, the text of chunk `i` as document, its embedding, and its
      page as metadata. */
  lemma {:induction false} StoredEntryAt(chunks: seq<Chunk>, embed: string -> Embedding, n: nat)
    requires n <= |chunks|
    requires forall j :: 0 <= j < n ==> embed(chunks[j].text).Embedded?
    ensures |StoredEntries(chunks, embed, n)| == n
    ensures forall i :: 0 <= i < n ==>
              StoredEntries(chunks, embed, n)[i] ==
              Entry(DecimalString(i), chunks[i].text, embed(chunks[i].text).vector, PageMetadata(chunks[i].page))
  {
    if n > 0 {
      StoredEntryAt(chunks, embed, n - 1);
    }
  }

  /** The ids of the stored records are distinct, and the id of record `i`
      reads back as `i`, so they are exactly `0 .. n - 1`. */
  lemma StoredIdsDense(chunks: seq<Chunk>, embed: string -> Embedding, n: nat)
    requires n <= |chunks|
    requires forall j :: 0 <= j < n ==> embed(chunks[j].text).Embedded?
    ensures |StoredEntries(chunks, embed, n)| == n
    ensures forall i :: 0 <= i < n ==>
              IsDigits(StoredEntries(chunks, embed, n)[i].id) &&
              DecimalValue(StoredEntries(chunks, embed, n)[i].id) == i
    ensures forall i, j :: 0 <= i < j < n ==>
              StoredEntries(chunks, embed, n)[i].id != StoredEntries(chunks, embed, n)[j].id
  {
    StoredEntryAt(chunks, embed, n);
    forall i | 0 <= i < n
      ensures DecimalValue(DecimalString(i)) == i
    {
      DecimalRoundTrip(i);
    }
  }

  /** The records stored for a text follow the chunker's order: their page
      tags never decrease, lie between 1 and the number of pages, and no
      document holds a form feed. */
  lemma StoredPagesOrdered(text: string, embed: string -> Embedding)
    ensures var chunks := Chunks(text);
            var es := StoredEntries(chunks, embed, StoredCount(chunks, embed));
            && (forall i, j :: 0 <= i <= j < |es| ==> es[i].metadata.page <= es[j].metadata.page)
            && (forall i :: 0 <= i < |es| ==>
                  1 <= es[i].metadata.page <= Count(text, FormFeed) + 1 && FormFeed !in es[i].document)
  {
    var chunks := Chunks(text);
    var n := StoredCount(chunks, embed);
    StoredEntryAt(chunks, embed, n);
    PagesOrdered(Split(text, FormFeed));
    ChunksStayOnPage(text);
  }

  /** When every embedding succeeds, the call resolves with one record per
      chunk of the text. */
  lemma AllChunksStored(text: string, embed: string -> Embedding)
    requires forall j :: 0 <= j < |Chunks(text)| ==> embed(Chunks(text)[j].text).Embedded?
    ensures StoredCount(Chunks(text), embed) == |Chunks(text)|
    ensures |StoredEntries(Chunks(text), embed, |Chunks(text)|)| == |Chunks(text)|
  {
    StoredEntryAt(Chunks(text), embed, |Chunks(text)|);
  }
}
