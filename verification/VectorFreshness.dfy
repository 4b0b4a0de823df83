/** When the vectors that analytics/pae/pke/store.py has indexed are those of the texts stored: rows and
    vectors are written by two transactions, and the second takes place only if the embedder answers, so a
    call can leave a vector behind that belongs to an older text. */
module VectorFreshness {
  import opened Ordering
  import opened Results
  import opened KnowledgeRows
  import opened KnowledgeStores

  type Embedding = Text -> Vector

  /** Every indexed vector is the embedding of the text stored under its id. */
  predicate Fresh(rows: seq<Row<Reading>>, vectors: map<Bytes, Vector>, embedding: Embedding) {
    forall r :: r in rows && r.chunkId in vectors ==>
      r.content.Ok? && vectors[r.chunkId] == embedding(r.content.value)
  }

  /** No later chunk has the id of chunk i. */
  predicate IsLast(chunks: seq<Chunk>, i: nat)
    requires i < |chunks|
  {
    forall j :: i < j < |chunks| ==> chunks[j].chunkId != chunks[i].chunkId
  }

  /** For each chunk the embedding of its text, or nothing. */
  predicate AreEmbeddings(chunks: seq<Chunk>, embeddings: seq<Vector>, embedding: Embedding) {
    |embeddings| == |chunks| &&
    forall i :: 0 <= i < |chunks| ==> embeddings[i] == [] || embeddings[i] == embedding(chunks[i].text)
  }

  /** After adding, the table holds the rows with other ids and the last chunk of each id. */
  ghost predicate IsAdded(r: Row<Reading>, rows: seq<Row<Reading>>, chunks: seq<Chunk>, now: Bytes) {
    || (r in rows && r.chunkId !in ChunkIds(chunks))
    || exists i :: 0 <= i < |chunks| && IsLast(chunks, i) && r == PlainRow(chunks[i], now)
  }

  lemma {:induction false} AddedRows(rows: seq<Row<Reading>>, chunks: seq<Chunk>, now: Bytes, r: Row<Reading>)
    ensures r in PlainAdded(rows, chunks, now) <==> IsAdded(r, rows, chunks, now)
    decreases |chunks|
  {
    hide Without;
    if chunks == [] {
      assert ChunkIds(chunks) == {};
    } else {
      var k := |chunks| - 1;
      var front, last := chunks[..k], chunks[k];
      AddedRows(rows, front, now, r);
      WithoutElements(PlainAdded(rows, front, now), last.chunkId);
      assert r in PlainAdded(rows, chunks, now)
        <==> (r in PlainAdded(rows, front, now) && r.chunkId != last.chunkId) || r == PlainRow(last, now);
      AddedStep(rows, chunks, now, r, k);
    }
  }

  lemma AddedStep(rows: seq<Row<Reading>>, chunks: seq<Chunk>, now: Bytes, r: Row<Reading>, k: nat)
    requires |chunks| == k + 1
    ensures IsAdded(r, rows, chunks, now)
            <==> (IsAdded(r, rows, chunks[..k], now) && r.chunkId != chunks[k].chunkId) || r == PlainRow(chunks[k], now)
  {
    var front, last := chunks[..k], chunks[k];
    assert ChunkIds(chunks) == ChunkIds(front) + {last.chunkId};
    assert IsLast(chunks, k);
    assert forall i :: 0 <= i < k ==> front[i] == chunks[i];
    forall i | 0 <= i < k ensures IsLast(chunks, i) <==> IsLast(front, i) && chunks[i].chunkId != last.chunkId {
      assert forall j :: i < j < k ==> front[j] == chunks[j];
    }
  }

  /** A chunk with a vector of its own, and no later chunk with its id, is indexed under that vector. */
  lemma {:induction false} IndexedLast(vectors: map<Bytes, Vector>, chunks: seq<Chunk>, embeddings: seq<Vector>, i: nat)
    requires |embeddings| == |chunks| && i < |chunks| && IsLast(chunks, i) && embeddings[i] != []
    ensures chunks[i].chunkId in Indexed(vectors, chunks, embeddings)
    ensures Indexed(vectors, chunks, embeddings)[chunks[i].chunkId] == embeddings[i]
    decreases |chunks|
  {
    hide ChunkIds;
    var k := |chunks| - 1;
    if i == k {
    } else {
      assert chunks[..k][i] == chunks[i] && embeddings[..k][i] == embeddings[i];
      assert forall j :: i < j < k ==> chunks[..k][j] == chunks[j];
      IndexedLast(vectors, chunks[..k], embeddings[..k], i);
    }
  }

  lemma {:induction false} IndexedOthers(vectors: map<Bytes, Vector>, chunks: seq<Chunk>, embeddings: seq<Vector>,
      id: Bytes)
    requires |embeddings| == |chunks| && id !in ChunkIds(chunks)
    ensures id in Indexed(vectors, chunks, embeddings) <==> id in vectors
    ensures id in vectors ==> Indexed(vectors, chunks, embeddings)[id] == vectors[id]
    decreases |chunks|
  {
    if chunks == [] {
    } else {
      var k := |chunks| - 1;
      assert ChunkIds(chunks) == ChunkIds(chunks[..k]) + {chunks[k].chunkId};
      IndexedOthers(vectors, chunks[..k], embeddings[..k], id);
    }
  }

  /** The stale ones: a chunk without a vector of its own whose id is indexed under some other vector. */
  ghost predicate LeavesStale(vectors: map<Bytes, Vector>, chunks: seq<Chunk>, embeddings: seq<Vector>,
      embedding: Embedding, i: nat)
    requires |embeddings| == |chunks| && i < |chunks|
  {
    var after, id := Indexed(vectors, chunks, embeddings), chunks[i].chunkId;
    IsLast(chunks, i) && embeddings[i] == [] && id in after && after[id] != embedding(chunks[i].text)
  }

  /** A call keeps the vectors fresh if and only if no chunk is left stale. */
  lemma {:induction false} FreshIff(rows: seq<Row<Reading>>, vectors: map<Bytes, Vector>, chunks: seq<Chunk>,
      now: Bytes, embeddings: seq<Vector>, embedding: Embedding)
    requires Fresh(rows, vectors, embedding) && AreEmbeddings(chunks, embeddings, embedding)
    ensures Fresh(PlainAdded(rows, chunks, now), Indexed(vectors, chunks, embeddings), embedding)
            <==> forall i :: 0 <= i < |chunks| ==> !LeavesStale(vectors, chunks, embeddings, embedding, i)
  {
    hide PlainAdded, Indexed;
    var all, after := PlainAdded(rows, chunks, now), Indexed(vectors, chunks, embeddings);
    if Fresh(all, after, embedding) {
      forall i | 0 <= i < |chunks| ensures !LeavesStale(vectors, chunks, embeddings, embedding, i) {
        if IsLast(chunks, i) {
          var r := PlainRow(chunks[i], now);
          AddedRows(rows, chunks, now, r);
          assert r in all;
        }
      }
    }
    if forall i :: 0 <= i < |chunks| ==> !LeavesStale(vectors, chunks, embeddings, embedding, i) {
      forall r | r in all && r.chunkId in after
        ensures r.content.Ok? && after[r.chunkId] == embedding(r.content.value)
      {
        AddedRows(rows, chunks, now, r);
        FreshRow(rows, vectors, chunks, now, embeddings, embedding, r);
      }
    }
  }

  lemma FreshRow(rows: seq<Row<Reading>>, vectors: map<Bytes, Vector>, chunks: seq<Chunk>, now: Bytes,
      embeddings: seq<Vector>, embedding: Embedding, r: Row<Reading>)
    requires Fresh(rows, vectors, embedding) && AreEmbeddings(chunks, embeddings, embedding)
    requires forall i :: 0 <= i < |chunks| ==> !LeavesStale(vectors, chunks, embeddings, embedding, i)
    requires IsAdded(r, rows, chunks, now) && r.chunkId in Indexed(vectors, chunks, embeddings)
    ensures r.content.Ok? && Indexed(vectors, chunks, embeddings)[r.chunkId] == embedding(r.content.value)
  {
    hide Indexed;
    if r in rows && r.chunkId !in ChunkIds(chunks) {
      IndexedOthers(vectors, chunks, embeddings, r.chunkId);
    } else {
      var i :| 0 <= i < |chunks| && IsLast(chunks, i) && r == PlainRow(chunks[i], now);
      assert !LeavesStale(vectors, chunks, embeddings, embedding, i);
      if embeddings[i] != [] {
        IndexedLast(vectors, chunks, embeddings, i);
      }
    }
  }

  /** So an ingestion that embeds every chunk keeps them fresh. */
  lemma EmbeddingKeepsFresh(rows: seq<Row<Reading>>, vectors: map<Bytes, Vector>, chunks: seq<Chunk>, now: Bytes,
      embeddings: seq<Vector>, embedding: Embedding)
    requires Fresh(rows, vectors, embedding) && AreEmbeddings(chunks, embeddings, embedding)
    requires forall i :: 0 <= i < |chunks| ==> embeddings[i] != []
    ensures Fresh(PlainAdded(rows, chunks, now), Indexed(vectors, chunks, embeddings), embedding)
  {
    hide PlainAdded, Indexed, Fresh;
    FreshIff(rows, vectors, chunks, now, embeddings, embedding);
  }

  lemma {:induction false} NothingIndexed(vectors: map<Bytes, Vector>, chunks: seq<Chunk>, embeddings: seq<Vector>)
    requires |embeddings| == |chunks| && forall i :: 0 <= i < |chunks| ==> embeddings[i] == []
    ensures Indexed(vectors, chunks, embeddings) == vectors
    decreases |chunks|
  {
    if chunks == [] {
    } else {
      NothingIndexed(vectors, chunks[..|chunks| - 1], embeddings[..|chunks| - 1]);
    }
  }

  /** And one without embeddings, which leaves the vectors alone, does exactly when every id that is indexed
      already gets a text with the embedding that is indexed. */
  lemma {:induction false} WithoutEmbedderFreshIff(rows: seq<Row<Reading>>, vectors: map<Bytes, Vector>,
      chunks: seq<Chunk>, now: Bytes, embedding: Embedding)
    requires Fresh(rows, vectors, embedding)
    ensures Fresh(PlainAdded(rows, chunks, now), vectors, embedding)
            <==> forall i :: 0 <= i < |chunks| && IsLast(chunks, i) && chunks[i].chunkId in vectors ==>
                   vectors[chunks[i].chunkId] == embedding(chunks[i].text)
  {
    hide PlainAdded, Indexed, Fresh;
    var none: seq<Vector> := seq(|chunks|, i => []);
    NothingIndexed(vectors, chunks, none);
    FreshIff(rows, vectors, chunks, now, none, embedding);
    forall i | 0 <= i < |chunks|
      ensures LeavesStale(vectors, chunks, none, embedding, i)
              <==> (IsLast(chunks, i) && chunks[i].chunkId in vectors
                    && vectors[chunks[i].chunkId] != embedding(chunks[i].text))
    {
    }
  }

  /** For instance, a chunk stored and indexed and then changed after its first 200 characters keeps its id
      and, while the embedder is away, its old vector. */
  lemma ChangedTailStale(first: Chunk, second: Chunk, now: Bytes, later: Bytes, digest: Text -> Bytes,
      embedding: Embedding)
    requires Generated([first, second], digest) && IdKey(first.source, first.text) == IdKey(second.source, second.text)
    requires embedding(first.text) != [] && embedding(first.text) != embedding(second.text)
    ensures var rows, vectors := PlainAdded([], [first], now), Indexed(map[], [first], [embedding(first.text)]);
            && Fresh(rows, vectors, embedding)
            && !Fresh(PlainAdded(rows, [second], later), vectors, embedding)
  {
    hide PlainAdded, Fresh, IdKey, ShortDigest;
    var both := [first, second];
    assert both[0].chunkId == both[1].chunkId;
    var rows, vectors := PlainAdded([], [first], now), Indexed(map[], [first], [embedding(first.text)]);
    EmptyIsFresh(embedding);
    EmbeddingKeepsFresh([], map[], [first], now, [embedding(first.text)], embedding);
    IndexedLast(map[], [first], [embedding(first.text)], 0);
    hide Indexed;
    WithoutEmbedderFreshIff(rows, vectors, [second], later, embedding);
    assert [second][0] == second && IsLast([second], 0) && second.chunkId in vectors;
  }

  lemma EmptyIsFresh(embedding: Embedding)
    ensures Fresh([], map[], embedding)
  {
  }
}
