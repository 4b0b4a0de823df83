/** The table of the encrypted knowledge store (analytics/pae/pke/store.py): SQLite is a table in row
    order, AES-GCM a pair of functions of which decryption undoes encryption. */
module KnowledgeRows {
  import opened Ordering
  import opened Results

  type Text = string

  const DEK_BYTES := 32

  /** A table row; the content is what is stored, or what a session reads. */
  datatype Row<T> = Row(
    chunkId: Bytes, source: Text, author: Text, date: Text, themes: seq<Text>, createdAt: Bytes, content: T)

  datatype Stored = Stored(text: Text, nonce: Option<Bytes>)

  datatype ReadError = NoKey | BadCiphertext

  type Reading = Result<Text, ReadError>

  datatype Chunk = Chunk(chunkId: Bytes, source: Text, author: Text, date: Text, themes: seq<Text>, text: Text)

  datatype Cipher = Cipher(
    encrypt: (Bytes, Bytes, Text) -> Text, decrypt: (Bytes, Bytes, Text) -> Option<Text>)

  ghost predicate IsCipher(c: Cipher) {
    forall key: Bytes, nonce: Bytes, text: Text :: c.decrypt(key, nonce, c.encrypt(key, nonce, text)) == Some(text)
  }

  // ----------------------------------------------------------------- rows

  /** _maybe_decrypt: a row without nonce is cleartext. */
  function Read(s: Stored, dek: Option<Bytes>, c: Cipher): Reading {
    if s.nonce.None? then Ok(s.text)
    else if dek.None? then Err(NoKey)
    else
      match c.decrypt(dek.value, s.nonce.value, s.text)
      case Some(text) => Ok(text)
      case None => Err(BadCiphertext)
  }

  function Opened(r: Row<Stored>, dek: Option<Bytes>, c: Cipher): Row<Reading> {
    Row(r.chunkId, r.source, r.author, r.date, r.themes, r.createdAt, Read(r.content, dek, c))
  }

  /** The table as a session with this key reads it. */
  function Readings(rows: seq<Row<Stored>>, dek: Option<Bytes>, c: Cipher): (r: seq<Row<Reading>>)
    ensures |r| == |rows|
  {
    seq(|rows|, i requires 0 <= i < |rows| => Opened(rows[i], dek, c))
  }

  function Without<T>(rows: seq<Row<T>>, id: Bytes): seq<Row<T>> {
    if rows == [] then []
    else
      var k := |rows| - 1;
      Without(rows[..k], id) + if rows[k].chunkId == id then [] else [rows[k]]
  }

  /** INSERT OR REPLACE: the old row goes, the new one comes last. */
  function Upserted<T>(rows: seq<Row<T>>, row: Row<T>): seq<Row<T>> {
    Without(rows, row.chunkId) + [row]
  }

  /** What a store with this key writes for a chunk. */
  function StoredRow(k: Chunk, now: Bytes, dek: Option<Bytes>, nonce: Bytes, c: Cipher): Row<Stored> {
    Row(k.chunkId, k.source, k.author, k.date, k.themes, now,
        if dek.Some? then Stored(c.encrypt(dek.value, nonce, k.text), Some(nonce)) else Stored(k.text, None))
  }

  function Added(rows: seq<Row<Stored>>, chunks: seq<Chunk>, now: Bytes, dek: Option<Bytes>, nonces: seq<Bytes>,
      c: Cipher)
    : seq<Row<Stored>>
    requires |nonces| == |chunks|
  {
    if chunks == [] then rows
    else
      var k := |chunks| - 1;
      Upserted(Added(rows, chunks[..k], now, dek, nonces[..k], c), StoredRow(chunks[k], now, dek, nonces[k], c))
  }

  /** The same on a table of readable texts: no keys, no nonces. */
  function PlainRow(k: Chunk, now: Bytes): Row<Reading> {
    Row(k.chunkId, k.source, k.author, k.date, k.themes, now, Ok(k.text))
  }

  function PlainAdded(rows: seq<Row<Reading>>, chunks: seq<Chunk>, now: Bytes): seq<Row<Reading>> {
    if chunks == [] then rows
    else
      var k := |chunks| - 1;
      Upserted(PlainAdded(rows, chunks[..k], now), PlainRow(chunks[k], now))
  }

  lemma {:induction false} ReadingsWithout(rows: seq<Row<Stored>>, id: Bytes, dek: Option<Bytes>, c: Cipher)
    ensures Readings(Without(rows, id), dek, c) == Without(Readings(rows, dek, c), id)
  {
    hide Read;
    if rows == [] {
    } else {
      var k := |rows| - 1;
      ReadingsWithout(rows[..k], id, dek, c);
      assert Readings(rows, dek, c)[..k] == Readings(rows[..k], dek, c);
    }
  }

  /** Writing with a key, or without one, looks the same to a session that holds the key. */
  lemma {:induction false} AddingIsPlainAdding(rows: seq<Row<Stored>>, chunks: seq<Chunk>, now: Bytes,
      writer: Option<Bytes>, nonces: seq<Bytes>, reader: Option<Bytes>, c: Cipher)
    requires |nonces| == |chunks| && IsCipher(c) && (writer.None? || writer == reader)
    ensures Readings(Added(rows, chunks, now, writer, nonces, c), reader, c)
            == PlainAdded(Readings(rows, reader, c), chunks, now)
    decreases |chunks|
  {
    hide Without;
    if chunks == [] {
    } else {
      var k := |chunks| - 1;
      AddingIsPlainAdding(rows, chunks[..k], now, writer, nonces[..k], reader, c);
      var before := Added(rows, chunks[..k], now, writer, nonces[..k], c);
      var row := StoredRow(chunks[k], now, writer, nonces[k], c);
      ReadingsWithout(before, row.chunkId, reader, c);
      assert Opened(row, reader, c) == PlainRow(chunks[k], now);
    }
  }

  // --------------------------------------------------------------- sessions

  /** One call of add_chunks, by a session with or without a key. */
  datatype Batch = Batch(chunks: seq<Chunk>, now: Bytes, nonces: seq<Bytes>, dek: Option<Bytes>)

  predicate IsBatch(b: Batch) {
    |b.nonces| == |b.chunks|
  }

  function Run(rows: seq<Row<Stored>>, batches: seq<Batch>, c: Cipher): seq<Row<Stored>>
    requires forall i :: 0 <= i < |batches| ==> IsBatch(batches[i])
    decreases |batches|
  {
    if batches == [] then rows
    else
      var b := batches[0];
      assert IsBatch(b);
      Run(Added(rows, b.chunks, b.now, b.dek, b.nonces, c), batches[1..], c)
  }

  function PlainRun(rows: seq<Row<Reading>>, batches: seq<Batch>): seq<Row<Reading>>
    decreases |batches|
  {
    if batches == [] then rows else PlainRun(PlainAdded(rows, batches[0].chunks, batches[0].now), batches[1..])
  }

  /** Over any run of batches, some by sessions with the key and some without, a session with the key
      reads what a store that never encrypts would hold. */
  lemma {:induction false} RunsRefinePlain(rows: seq<Row<Stored>>, batches: seq<Batch>, reader: Option<Bytes>,
      c: Cipher)
    requires forall i :: 0 <= i < |batches| ==> IsBatch(batches[i])
    requires IsCipher(c) && forall i :: 0 <= i < |batches| ==> batches[i].dek.None? || batches[i].dek == reader
    ensures Readings(Run(rows, batches, c), reader, c) == PlainRun(Readings(rows, reader, c), batches)
    decreases |batches|
  {
    hide Readings, Added, PlainAdded;
    if batches == [] {
    } else {
      var b := batches[0];
      assert IsBatch(b);
      AddingIsPlainAdding(rows, b.chunks, b.now, b.dek, b.nonces, reader, c);
      RunsRefinePlain(Added(rows, b.chunks, b.now, b.dek, b.nonces, c), batches[1..], reader, c);
    }
  }

  /** The batches as a store without a key would write them. */
  function InClear(batches: seq<Batch>): (r: seq<Batch>)
    ensures |r| == |batches|
    ensures (forall i :: 0 <= i < |batches| ==> IsBatch(batches[i])) ==> forall i :: 0 <= i < |r| ==> IsBatch(r[i])
  {
    seq(|batches|, i requires 0 <= i < |batches| => batches[i].(dek := None))
  }

  lemma {:induction false} PlainRunIgnoresKeys(rows: seq<Row<Reading>>, batches: seq<Batch>)
    ensures PlainRun(rows, InClear(batches)) == PlainRun(rows, batches)
    decreases |batches|
  {
    if batches == [] {
    } else {
      assert InClear(batches)[1..] == InClear(batches[1..]);
      PlainRunIgnoresKeys(PlainAdded(rows, batches[0].chunks, batches[0].now), batches[1..]);
    }
  }

  /** After the same run from empty, an encrypted store read with its key and a cleartext store read
      without one are the same table; every reading method is a function of that table. */
  lemma EncryptedEqualsClear(batches: seq<Batch>, dek: Bytes, c: Cipher)
    requires IsCipher(c) && forall i :: 0 <= i < |batches| ==> IsBatch(batches[i]) && batches[i].dek == Some(dek)
    ensures Readings(Run([], batches, c), Some(dek), c) == Readings(Run([], InClear(batches), c), None, c)
  {
    RunsRefinePlain([], batches, Some(dek), c);
    RunsRefinePlain([], InClear(batches), None, c);
    PlainRunIgnoresKeys([], batches);
    assert Readings([], Some(dek), c) == Readings([], None, c) == [];
  }

  /** Without the key exactly the encrypted rows cannot be read; the others read as with any key. */
  lemma WithoutKey(rows: seq<Row<Stored>>, other: Option<Bytes>, c: Cipher, i: nat)
    requires i < |rows|
    ensures Readings(rows, None, c)[i].content == Err(NoKey) <==> rows[i].content.nonce.Some?
    ensures rows[i].content.nonce.None? ==> Readings(rows, None, c)[i] == Readings(rows, other, c)[i]
  {
  }

  // --------------------------------------------------------- ids and counts

  function Ids<T>(rows: seq<Row<T>>): set<Bytes> {
    set i | 0 <= i < |rows| :: rows[i].chunkId
  }

  function ChunkIds(chunks: seq<Chunk>): set<Bytes> {
    set i | 0 <= i < |chunks| :: chunks[i].chunkId
  }

  predicate UniqueIds<T>(rows: seq<Row<T>>) {
    forall i, j :: 0 <= i < j < |rows| ==> rows[i].chunkId != rows[j].chunkId
  }

  lemma {:induction false} WithoutElements<T>(rows: seq<Row<T>>, id: Bytes)
    ensures forall r :: r in Without(rows, id) ==> r in rows && r.chunkId != id
    ensures forall r :: r in rows && r.chunkId != id ==> r in Without(rows, id)
  {
    if rows == [] {
    } else {
      var k := |rows| - 1;
      WithoutElements(rows[..k], id);
      assert rows == rows[..k] + [rows[k]];
    }
  }

  lemma {:induction false} WithoutUnique<T>(rows: seq<Row<T>>, id: Bytes)
    requires UniqueIds(rows)
    ensures UniqueIds(Without(rows, id))
  {
    if rows == [] {
    } else {
      var k := |rows| - 1;
      WithoutUnique(rows[..k], id);
      WithoutElements(rows[..k], id);
      var rest := Without(rows[..k], id);
      forall i | 0 <= i < |rest| ensures rest[i].chunkId != rows[k].chunkId {
        assert rest[i] in rest;
        assert rest[i] in rows[..k];
      }
    }
  }

  lemma WithoutIds<T>(rows: seq<Row<T>>, id: Bytes)
    ensures Ids(Without(rows, id)) == Ids(rows) - {id}
  {
    hide Without, Ids;
    WithoutElements(rows, id);
    IdsByRows(rows);
    IdsByRows(Without(rows, id));
    forall x | x in Ids(rows) && x != id ensures x in Ids(Without(rows, id)) {
      var r :| r in rows && r.chunkId == x;
      assert r in Without(rows, id);
    }
    forall x | x in Ids(Without(rows, id)) ensures x in Ids(rows) && x != id {
      var r :| r in Without(rows, id) && r.chunkId == x;
    }
  }

  lemma IdsByRows<T>(rows: seq<Row<T>>)
    ensures forall id :: id in Ids(rows) <==> exists r :: r in rows && r.chunkId == id
  {
    forall r | r in rows ensures r.chunkId in Ids(rows) {
      var i :| 0 <= i < |rows| && rows[i] == r;
      assert rows[i].chunkId in Ids(rows);
    }
  }

  lemma {:induction false} IdCount<T>(rows: seq<Row<T>>)
    requires UniqueIds(rows)
    ensures |rows| == |Ids(rows)|
  {
    if rows == [] {
      assert Ids(rows) == {};
    } else {
      var k := |rows| - 1;
      IdCount(rows[..k]);
      assert Ids(rows) == Ids(rows[..k]) + {rows[k].chunkId};
      assert rows[k].chunkId !in Ids(rows[..k]);
    }
  }

  /** Ids stay unique; the ids are the old ones and the new. */
  lemma {:induction false} AddedIds(rows: seq<Row<Stored>>, chunks: seq<Chunk>, now: Bytes, dek: Option<Bytes>,
      nonces: seq<Bytes>, c: Cipher)
    requires |nonces| == |chunks| && UniqueIds(rows)
    ensures var after := Added(rows, chunks, now, dek, nonces, c);
            UniqueIds(after) && Ids(after) == Ids(rows) + ChunkIds(chunks)
    decreases |chunks|
  {
    hide Without;
    if chunks == [] {
    } else {
      var k := |chunks| - 1;
      AddedIds(rows, chunks[..k], now, dek, nonces[..k], c);
      var before := Added(rows, chunks[..k], now, dek, nonces[..k], c);
      UpsertedIds(before, StoredRow(chunks[k], now, dek, nonces[k], c));
      assert ChunkIds(chunks) == ChunkIds(chunks[..k]) + {chunks[k].chunkId};
    }
  }

  lemma UpsertedIds<T>(rows: seq<Row<T>>, row: Row<T>)
    requires UniqueIds(rows)
    ensures UniqueIds(Upserted(rows, row)) && Ids(Upserted(rows, row)) == Ids(rows) + {row.chunkId}
  {
    hide Without;
    WithoutIds(rows, row.chunkId);
    WithoutUnique(rows, row.chunkId);
    WithoutElements(rows, row.chunkId);
    var rest, after := Without(rows, row.chunkId), Upserted(rows, row);
    forall i | 0 <= i < |rest| ensures rest[i].chunkId != row.chunkId {
      assert rest[i] in rest;
    }
    assert Ids(after) == Ids(rest) + {row.chunkId} by {
      assert after[|rest|] == row;
      assert forall i :: 0 <= i < |rest| ==> after[i] == rest[i];
    }
  }

  /** The number of rows is the number of distinct ids ever added; adding known ids keeps it. */
  lemma CountAfterAdding(rows: seq<Row<Stored>>, chunks: seq<Chunk>, now: Bytes, dek: Option<Bytes>,
      nonces: seq<Bytes>, c: Cipher)
    requires |nonces| == |chunks| && UniqueIds(rows)
    ensures |Added(rows, chunks, now, dek, nonces, c)| == |Ids(rows) + ChunkIds(chunks)|
    ensures |Added(rows, chunks, now, dek, nonces, c)| == |rows| <==> ChunkIds(chunks) <= Ids(rows)
  {
    AddedIds(rows, chunks, now, dek, nonces, c);
    IdCount(rows);
    IdCount(Added(rows, chunks, now, dek, nonces, c));
    var before, all := Ids(rows), Ids(rows) + ChunkIds(chunks);
    assert all == before + (all - before);
    if ChunkIds(chunks) <= before {
      assert all == before;
    } else {
      var id :| id in ChunkIds(chunks) && id !in before;
      assert id in all - before;
    }
  }

  // ------------------------------------------------------------ re-ingestion

  function WithoutAll<T>(rows: seq<Row<T>>, ids: set<Bytes>): seq<Row<T>> {
    if rows == [] then []
    else
      var k := |rows| - 1;
      WithoutAll(rows[..k], ids) + if rows[k].chunkId in ids then [] else [rows[k]]
  }

  lemma {:induction false} WithoutAllAppend<T>(a: seq<Row<T>>, b: seq<Row<T>>, ids: set<Bytes>)
    ensures WithoutAll(a + b, ids) == WithoutAll(a, ids) + WithoutAll(b, ids)
  {
    if b == [] {
      assert a + b == a;
    } else {
      var k := |b| - 1;
      assert (a + b)[..|a| + k] == a + b[..k];
      WithoutAllAppend(a, b[..k], ids);
    }
  }

  lemma {:induction false} WithoutIsWithoutAll<T>(rows: seq<Row<T>>, id: Bytes)
    ensures Without(rows, id) == WithoutAll(rows, {id})
  {
    if rows == [] {
    } else {
      WithoutIsWithoutAll(rows[..|rows| - 1], id);
    }
  }

  lemma {:induction false} WithoutAllTwice<T>(rows: seq<Row<T>>, a: set<Bytes>, b: set<Bytes>)
    ensures WithoutAll(WithoutAll(rows, a), b) == WithoutAll(rows, a + b)
  {
    if rows == [] {
    } else {
      var k := |rows| - 1;
      WithoutAllTwice(rows[..k], a, b);
      var rest := WithoutAll(rows[..k], a);
      if rows[k].chunkId in a {
        assert WithoutAll(rows, a) == rest;
        assert WithoutAll(rows, a + b) == WithoutAll(rows[..k], a + b);
      } else {
        assert WithoutAll(rows, a) == rest + [rows[k]];
        assert (rest + [rows[k]])[..|rest|] == rest;
      }
    }
  }

  lemma {:induction false} WithoutAllOwn<T>(rows: seq<Row<T>>, ids: set<Bytes>)
    requires forall i :: 0 <= i < |rows| ==> rows[i].chunkId in ids
    ensures WithoutAll(rows, ids) == []
  {
    if rows == [] {
    } else {
      WithoutAllOwn(rows[..|rows| - 1], ids);
    }
  }

  /** Adding chunks removes the rows with their ids and appends what the chunks alone would make. */
  lemma {:induction false} AddedIsReplaced(rows: seq<Row<Reading>>, chunks: seq<Chunk>, now: Bytes)
    ensures PlainAdded(rows, chunks, now) == WithoutAll(rows, ChunkIds(chunks)) + PlainAdded([], chunks, now)
    decreases |chunks|
  {
    hide Without, WithoutAll;
    if chunks == [] {
      KeepAll(rows);
      assert ChunkIds(chunks) == {} && rows + [] == rows;
    } else {
      var k := |chunks| - 1;
      var id, row, ids := chunks[k].chunkId, PlainRow(chunks[k], now), ChunkIds(chunks[..k]);
      var kept, own := WithoutAll(rows, ids), PlainAdded([], chunks[..k], now);
      AddedIsReplaced(rows, chunks[..k], now);
      WithoutIsWithoutAll(kept + own, id);
      WithoutIsWithoutAll(own, id);
      WithoutAllAppend(kept, own, {id});
      WithoutAllTwice(rows, ids, {id});
      assert ChunkIds(chunks) == ids + {id};
      assert (WithoutAll(rows, ids + {id}) + WithoutAll(own, {id})) + [row]
             == WithoutAll(rows, ids + {id}) + (WithoutAll(own, {id}) + [row]);
    }
  }

  lemma {:induction false} KeepAll<T>(rows: seq<Row<T>>)
    ensures WithoutAll(rows, {}) == rows
  {
    if rows == [] {
    } else {
      KeepAll(rows[..|rows| - 1]);
      assert rows == rows[..|rows| - 1] + [rows[|rows| - 1]];
    }
  }

  lemma {:induction false} OwnIds(chunks: seq<Chunk>, now: Bytes)
    ensures forall r :: r in PlainAdded([], chunks, now) ==> r.chunkId in ChunkIds(chunks)
    decreases |chunks|
  {
    if chunks == [] {
    } else {
      var k := |chunks| - 1;
      OwnIds(chunks[..k], now);
      WithoutElements(PlainAdded([], chunks[..k], now), chunks[k].chunkId);
      assert ChunkIds(chunks) == ChunkIds(chunks[..k]) + {chunks[k].chunkId};
    }
  }

  /** Ingesting the same chunks again leaves exactly what the later ingestion alone would have left. */
  lemma ReingestionReplaces(rows: seq<Row<Reading>>, chunks: seq<Chunk>, now: Bytes, later: Bytes)
    ensures PlainAdded(PlainAdded(rows, chunks, now), chunks, later) == PlainAdded(rows, chunks, later)
  {
    hide PlainAdded, WithoutAll;
    var ids, own := ChunkIds(chunks), PlainAdded([], chunks, now);
    AddedIsReplaced(rows, chunks, now);
    AddedIsReplaced(rows, chunks, later);
    AddedIsReplaced(PlainAdded(rows, chunks, now), chunks, later);
    WithoutAllAppend(WithoutAll(rows, ids), own, ids);
    WithoutAllTwice(rows, ids, ids);
    assert ids + ids == ids;
    OwnIds(chunks, now);
    WithoutAllOwn(own, ids);
    assert WithoutAll(rows, ids) + [] == WithoutAll(rows, ids);
  }

  // --------------------------------------------------------------- chunk ids

  function FirstCharacters(text: Text): Text {
    if |text| <= 200 then text else text[..200]
  }

  /** What the id of a chunk is a digest of. */
  function IdKey(source: Text, text: Text): Text {
    source + ":" + FirstCharacters(text)
  }

  /** The first 16 characters of the digest. */
  function ShortDigest(digest: Text -> Bytes, key: Text): Bytes {
    var d := digest(key);
    if |d| <= 16 then d else d[..16]
  }

  /** generate_chunk_id. */
  function ChunkId(source: Text, text: Text, digest: Text -> Bytes): (id: Bytes)
    ensures id <= digest(IdKey(source, text))
    ensures |id| == 16 || (|id| < 16 && id == digest(IdKey(source, text)))
  {
    ShortDigest(digest, IdKey(source, text))
  }

  /** The short digest has no collision between these chunks. */
  predicate Separates(digest: Text -> Bytes, chunks: seq<Chunk>) {
    forall i, j :: 0 <= i < |chunks| && 0 <= j < |chunks| ==>
      var a, b := IdKey(chunks[i].source, chunks[i].text), IdKey(chunks[j].source, chunks[j].text);
      ShortDigest(digest, a) == ShortDigest(digest, b) ==> a == b
  }

  /** Every chunk carries the id generated for it. */
  predicate Generated(chunks: seq<Chunk>, digest: Text -> Bytes) {
    forall i :: 0 <= i < |chunks| ==> chunks[i].chunkId == ChunkId(chunks[i].source, chunks[i].text, digest)
  }

  predicate DistinctKeys(chunks: seq<Chunk>) {
    forall i, j :: 0 <= i < j < |chunks| ==>
        IdKey(chunks[i].source, chunks[i].text) != IdKey(chunks[j].source, chunks[j].text)
  }

  /** One source continues the other past a colon, and the text of the other makes up for it. */
  predicate ColonMoved(source: Text, text: Text, source': Text, text': Text) {
    source + ":" <= source' && FirstCharacters(text) == source'[|source| + 1..] + ":" + FirstCharacters(text')
  }

  /** Two keys are equal exactly when source and first 200 characters are, or a colon has moved. */
  lemma KeysEqual(source: Text, text: Text, source': Text, text': Text)
    requires |source| <= |source'|
    ensures IdKey(source, text) == IdKey(source', text')
            <==> (source == source' && FirstCharacters(text) == FirstCharacters(text'))
                 || ColonMoved(source, text, source', text')
  {
    hide FirstCharacters;
    var p, p', n := FirstCharacters(text), FirstCharacters(text'), |source|;
    var k, k' := IdKey(source, text), IdKey(source', text');
    if ColonMoved(source, text, source', text') {
      assert source' == source + ":" + source'[n + 1..];
      assert k == source + ":" + source'[n + 1..] + ":" + p' == k';
    }
    if k == k' {
      assert k[..n] == source && k[n] == ':' && k[n + 1..] == p;
      assert k'[..|source'|] == source' && k'[|source'| + 1..] == p';
      if n < |source'| {
        assert source'[..n] == k'[..n] && source'[n] == k'[n];
        assert source' == source + ":" + source'[n + 1..];
        assert k' == (source + ":") + (source'[n + 1..] + ":" + p');
        assert k'[n + 1..] == source'[n + 1..] + ":" + p';
      }
    }
  }

  /** Within a source the key of a text is its first 200 characters. */
  lemma SameSourceKeys(source: Text, text: Text, text': Text)
    ensures IdKey(source, text) == IdKey(source, text')
            <==> (text == text' || (|text| >= 200 && |text'| >= 200 && text[..200] == text'[..200]))
  {
    hide FirstCharacters;
    KeysEqual(source, text, source, text');
    FirstCharactersEqual(text, text');
  }

  lemma FirstCharactersEqual(text: Text, text': Text)
    ensures FirstCharacters(text) == FirstCharacters(text')
            <==> (text == text' || (|text| >= 200 && |text'| >= 200 && text[..200] == text'[..200]))
  {
  }

  predicate DistinctIds(chunks: seq<Chunk>) {
    forall i, j :: 0 <= i < j < |chunks| ==> chunks[i].chunkId != chunks[j].chunkId
  }

  lemma DistinctStep(chunks: seq<Chunk>, k: nat)
    requires |chunks| == k + 1
    ensures ChunkIds(chunks) == ChunkIds(chunks[..k]) + {chunks[k].chunkId}
    ensures DistinctIds(chunks) <==> DistinctIds(chunks[..k]) && chunks[k].chunkId !in ChunkIds(chunks[..k])
  {
    var front := chunks[..k];
    assert forall i :: 0 <= i < k ==> front[i] == chunks[i];
    if chunks[k].chunkId !in ChunkIds(front) {
      assert forall i :: 0 <= i < k ==> front[i].chunkId in ChunkIds(front);
    }
  }

  lemma {:induction false} DistinctIdCount(chunks: seq<Chunk>)
    ensures |ChunkIds(chunks)| <= |chunks|
    ensures |ChunkIds(chunks)| == |chunks| <==> DistinctIds(chunks)
  {
    if chunks == [] {
      assert ChunkIds(chunks) == {};
    } else {
      hide ChunkIds, DistinctIds;
      var k := |chunks| - 1;
      var ids, id := ChunkIds(chunks[..k]), chunks[k].chunkId;
      DistinctIdCount(chunks[..k]);
      DistinctStep(chunks, k);
      assert id in ids ==> ids + {id} == ids;
    }
  }

  lemma UnionCount(a: set<Bytes>, b: set<Bytes>)
    ensures |a + b| <= |a| + |b|
    ensures |a + b| == |a| + |b| <==> a !! b
  {
    assert |a + b| + |a * b| == |a| + |b|;
    if a !! b {
      assert a * b == {};
    } else {
      var x :| x in a && x in b;
      assert x in a * b;
    }
  }

  /** add_chunks answers |chunks|; that many rows come in exactly when no two of the chunks have the same
      source and first 200 characters put together and none of them was stored before. */
  lemma IngestionStoresAll(rows: seq<Row<Stored>>, chunks: seq<Chunk>, now: Bytes, dek: Option<Bytes>,
      nonces: seq<Bytes>, c: Cipher, digest: Text -> Bytes)
    requires |nonces| == |chunks| && UniqueIds(rows) && Generated(chunks, digest) && Separates(digest, chunks)
    ensures |Added(rows, chunks, now, dek, nonces, c)| <= |rows| + |chunks|
    ensures |Added(rows, chunks, now, dek, nonces, c)| == |rows| + |chunks|
            <==> DistinctKeys(chunks) && Ids(rows) !! ChunkIds(chunks)
  {
    hide Added, Ids, ChunkIds, ShortDigest, IdKey;
    CountAfterAdding(rows, chunks, now, dek, nonces, c);
    IdCount(rows);
    DistinctIdCount(chunks);
    UnionCount(Ids(rows), ChunkIds(chunks));
    forall i, j | 0 <= i < j < |chunks|
      ensures chunks[i].chunkId != chunks[j].chunkId
              <==> IdKey(chunks[i].source, chunks[i].text) != IdKey(chunks[j].source, chunks[j].text)
    {
    }
  }

  /** Two chunks with one key have one id, so that storing both keeps only the second, however they go
      on, and so for the different sources "a:b" and "a" when the texts are "c" and "b:c". */
  lemma SameKeyKeepsLast(first: Chunk, second: Chunk, rows: seq<Row<Reading>>, now: Bytes, digest: Text -> Bytes)
    requires IdKey(first.source, first.text) == IdKey(second.source, second.text) && Generated([first, second], digest)
    ensures PlainAdded(rows, [first, second], now) == PlainAdded(rows, [second], now)
    ensures IdKey("a:b", "c") == IdKey("a", "b:c")
  {
    var both := [first, second];
    assert both[0].chunkId == both[1].chunkId;
    assert both[..1] == [first];
    hide Without, Generated, IdKey;
    AddOne(rows, first, now);
    AddOne(rows, second, now);
    assert PlainAdded(rows, both, now) == Upserted(PlainAdded(rows, [first], now), PlainRow(second, now));
    ReplacedTwice(rows, PlainRow(first, now), PlainRow(second, now));
  }

  lemma ReplacedTwice(rows: seq<Row<Reading>>, first: Row<Reading>, second: Row<Reading>)
    requires first.chunkId == second.chunkId
    ensures Upserted(Upserted(rows, first), second) == Upserted(rows, second)
  {
    hide Without, WithoutAll;
    var id := first.chunkId;
    var kept := Without(rows, id);
    WithoutLast(kept, first);
    WithoutIsWithoutAll(rows, id);
    WithoutIsWithoutAll(kept, id);
    WithoutAllTwice(rows, {id}, {id});
    assert {id} + {id} == {id};
  }

  lemma AddOne(rows: seq<Row<Reading>>, k: Chunk, now: Bytes)
    ensures PlainAdded(rows, [k], now) == Upserted(rows, PlainRow(k, now))
  {
    assert [k][..0] == [];
  }

  lemma WithoutLast<T>(rows: seq<Row<T>>, row: Row<T>)
    ensures Without(rows + [row], row.chunkId) == Without(rows, row.chunkId)
  {
    assert (rows + [row])[..|rows|] == rows;
  }
}
