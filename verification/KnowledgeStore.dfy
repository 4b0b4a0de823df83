/** The knowledge store (analytics/pae/pke/store.py). Every reading method is specified on what the
    session can read, which hides the key. */
module KnowledgeStores {
  import opened KeywordRanking
  import opened KnowledgeRows
  import opened Ordering
  import opened Results

  // ------------------------------------------------------------------ by id

  function Find<T>(rows: seq<Row<T>>, id: Bytes): (r: Option<Row<T>>)
    ensures r.Some? <==> exists i :: 0 <= i < |rows| && rows[i].chunkId == id
    ensures r.Some? ==> r.value in rows && r.value.chunkId == id
  {
    if rows == [] then None else if rows[0].chunkId == id then Some(rows[0]) else Find(rows[1..], id)
  }

  function WithContent<T, U>(r: Row<T>, content: U): Row<U> {
    Row(r.chunkId, r.source, r.author, r.date, r.themes, r.createdAt, content)
  }

  /** get_chunk on readings: nothing, a readable row, or the reason it cannot be read. */
  function Get(readings: seq<Row<Reading>>, id: Bytes): Result<Option<Row<Text>>, ReadError> {
    match Find(readings, id)
    case None => Ok(None)
    case Some(r) =>
      match r.content
      case Ok(text) => Ok(Some(WithContent(r, text)))
      case Err(e) => Err(e)
  }

  lemma {:induction false} FindReading(rows: seq<Row<Stored>>, id: Bytes, dek: Option<Bytes>, c: Cipher)
    ensures Find(Readings(rows, dek, c), id)
            == match Find(rows, id) case None => None case Some(r) => Some(Opened(r, dek, c))
  {
    hide Read;
    if rows == [] {
    } else {
      assert Readings(rows, dek, c)[1..] == Readings(rows[1..], dek, c);
      FindReading(rows[1..], id, dek, c);
    }
  }

  lemma {:induction false} FindAppend<T>(a: seq<Row<T>>, b: seq<Row<T>>, id: Bytes)
    ensures Find(a + b, id) == if Find(a, id).Some? then Find(a, id) else Find(b, id)
  {
    if a == [] {
      assert a + b == b;
    } else {
      assert (a + b)[1..] == a[1..] + b;
      FindAppend(a[1..], b, id);
    }
  }

  lemma {:induction false} FindWithout<T>(rows: seq<Row<T>>, other: Bytes, id: Bytes)
    ensures Find(Without(rows, other), id) == if id == other then None else Find(rows, id)
  {
    if rows == [] {
    } else {
      var k := |rows| - 1;
      FindWithout(rows[..k], other, id);
      assert rows == rows[..k] + [rows[k]];
      FindAppend(rows[..k], [rows[k]], id);
      FindAppend(Without(rows[..k], other), if rows[k].chunkId == other then [] else [rows[k]], id);
    }
  }

  /** Adding one chunk changes what is found under its id and nothing else. */
  lemma FindUpserted<T>(rows: seq<Row<T>>, row: Row<T>, id: Bytes)
    ensures Find(Upserted(rows, row), id) == if id == row.chunkId then Some(row) else Find(rows, id)
  {
    FindAppend(Without(rows, row.chunkId), [row], id);
    FindWithout(rows, row.chunkId, id);
  }

  /** No chunk after position k has its id. */
  predicate LastWithId(chunks: seq<Chunk>, k: nat) {
    k < |chunks| && forall j :: k < j < |chunks| ==> chunks[j].chunkId != chunks[k].chunkId
  }

  /** Each chunk added last under its id can be got as it was given, stamped now. */
  ghost predicate CanGet(readings: seq<Row<Reading>>, chunks: seq<Chunk>, now: Bytes) {
    forall k: nat :: LastWithId(chunks, k) ==>
      var chunk := chunks[k];
      Get(readings, chunk.chunkId)
        == Ok(Some(Row(chunk.chunkId, chunk.source, chunk.author, chunk.date, chunk.themes, now, chunk.text)))
  }

  lemma {:induction false} FindOther(readings: seq<Row<Reading>>, chunks: seq<Chunk>, now: Bytes, id: Bytes)
    requires forall k :: 0 <= k < |chunks| ==> chunks[k].chunkId != id
    ensures Find(PlainAdded(readings, chunks, now), id) == Find(readings, id)
    decreases |chunks|
  {
    hide Find, Upserted;
    if chunks == [] {
    } else {
      var last := |chunks| - 1;
      FindOther(readings, chunks[..last], now, id);
      FindUpserted(PlainAdded(readings, chunks[..last], now), PlainRow(chunks[last], now), id);
    }
  }

  lemma {:induction false} FindLast(readings: seq<Row<Reading>>, chunks: seq<Chunk>, now: Bytes, k: nat)
    requires LastWithId(chunks, k)
    ensures Find(PlainAdded(readings, chunks, now), chunks[k].chunkId) == Some(PlainRow(chunks[k], now))
    decreases |chunks|
  {
    hide Find, Upserted;
    var last := |chunks| - 1;
    var front := chunks[..last];
    FindUpserted(PlainAdded(readings, front, now), PlainRow(chunks[last], now), chunks[k].chunkId);
    if k < last {
      assert LastWithId(front, k) && front[k] == chunks[k];
      FindLast(readings, front, now, k);
    }
  }

  lemma GetAdded(readings: seq<Row<Reading>>, chunks: seq<Chunk>, now: Bytes)
    ensures CanGet(PlainAdded(readings, chunks, now), chunks, now)
    ensures forall id :: (forall k :: 0 <= k < |chunks| ==> chunks[k].chunkId != id) ==>
              Get(PlainAdded(readings, chunks, now), id) == Get(readings, id)
  {
    hide Find, PlainAdded;
    forall id: Bytes | forall k :: 0 <= k < |chunks| ==> chunks[k].chunkId != id
      ensures Get(PlainAdded(readings, chunks, now), id) == Get(readings, id)
    {
      FindOther(readings, chunks, now, id);
    }
    forall k: nat | LastWithId(chunks, k)
      ensures Find(PlainAdded(readings, chunks, now), chunks[k].chunkId) == Some(PlainRow(chunks[k], now))
    {
      FindLast(readings, chunks, now, k);
    }
  }

  // ---------------------------------------------------------------- by page

  /** ORDER BY created_at DESC, chunk_id ASC. */
  predicate NewestFirst<T>(a: Row<T>, b: Row<T>) {
    if a.createdAt == b.createdAt then LexLeq(a.chunkId, b.chunkId) else LexLeq(b.createdAt, a.createdAt)
  }

  lemma NewestFirstOrder<T(!new)>()
    ensures IsOrder(NewestFirst<T>)
  {
    forall a: Row<T>, b: Row<T> ensures NewestFirst(a, b) || NewestFirst(b, a) {
      LexTotal(a.chunkId, b.chunkId);
      LexTotal(a.createdAt, b.createdAt);
    }
    forall a: Row<T>, b: Row<T>, c: Row<T> | NewestFirst(a, b) && NewestFirst(b, c) ensures NewestFirst(a, c) {
      NewestFirstTransitive(a, b, c);
    }
  }

  lemma NewestFirstTransitive<T>(a: Row<T>, b: Row<T>, c: Row<T>)
    requires NewestFirst(a, b) && NewestFirst(b, c)
    ensures NewestFirst(a, c)
  {
    hide LexLeq;
    if a.createdAt == b.createdAt == c.createdAt {
      LexTransitive(a.chunkId, b.chunkId, c.chunkId);
    } else if a.createdAt != b.createdAt && b.createdAt != c.createdAt {
      LexTransitive(c.createdAt, b.createdAt, a.createdAt);
      LexTotal(a.createdAt, b.createdAt);
      LexTotal(b.createdAt, c.createdAt);
    }
  }

  /** LIMIT and OFFSET of an ordered table. */
  function Page<T>(rows: seq<Row<T>>, limit: nat, offset: nat): seq<Row<T>> {
    var sorted := Sort(rows, NewestFirst);
    var start := if offset < |sorted| then offset else |sorted|;
    var end := if start + limit < |sorted| then start + limit else |sorted|;
    sorted[start..end]
  }

  /** Pages come newest first, ties by id, and successive pages continue each other. */
  lemma PagesContinue<T(!new)>(rows: seq<Row<T>>, limit: nat, more: nat, offset: nat)
    ensures var page := Page(rows, limit, offset);
            forall i, j :: 0 <= i < j < |page| ==>
              && LexLeq(page[j].createdAt, page[i].createdAt)
              && (page[i].createdAt == page[j].createdAt ==> LexLeq(page[i].chunkId, page[j].chunkId))
    ensures |Page(rows, limit, offset)|
            == if offset >= |rows| then 0 else if offset + limit <= |rows| then limit else |rows| - offset
    ensures Page(rows, limit, offset) + Page(rows, more, offset + limit) == Page(rows, limit + more, offset)
    ensures multiset(Page(rows, |rows|, 0)) == multiset(rows)
  {
    PagesJoin(rows, limit, more, offset);
    hide Sort, LexLeq;
    SortElements(rows, NewestFirst);
    var sorted := Sort(rows, NewestFirst);
    assert sorted[0..|rows|] == sorted;
    OrderedRows(rows);
  }

  lemma PagesJoin<T>(rows: seq<Row<T>>, limit: nat, more: nat, offset: nat)
    ensures Page(rows, limit, offset) + Page(rows, more, offset + limit) == Page(rows, limit + more, offset)
  {
    hide Sort, NewestFirst;
  }

  lemma OrderedRows<T(!new)>(rows: seq<Row<T>>)
    ensures var sorted := Sort(rows, NewestFirst);
            forall i, j :: 0 <= i < j < |sorted| ==>
              && LexLeq(sorted[j].createdAt, sorted[i].createdAt)
              && (sorted[i].createdAt == sorted[j].createdAt ==> LexLeq(sorted[i].chunkId, sorted[j].chunkId))
  {
    hide Sort, LexLeq;
    var sorted := Sort(rows, NewestFirst);
    NewestFirstOrder<T>();
    SortSorts(rows, NewestFirst);
    forall i, j | 0 <= i < j < |sorted| && sorted[i].createdAt == sorted[j].createdAt
      ensures LexLeq(sorted[j].createdAt, sorted[i].createdAt)
    {
      LexTotal(sorted[i].createdAt, sorted[j].createdAt);
    }
  }

  datatype ListError = BadLimit | BadOffset | Unreadable(error: ReadError)

  datatype Listed = Listed(row: Row<Option<Text>>, encrypted: bool)

  /** A reading as it is listed: without the key the text is left out, a damaged one fails. */
  function Shown(r: Row<Reading>): Option<Row<Option<Text>>> {
    match r.content
    case Ok(text) => Some(WithContent(r, Some(text)))
    case Err(NoKey) => Some(WithContent(r, None))
    case Err(BadCiphertext) => None
  }

  /** list_chunks on readings. */
  function List(readings: seq<Row<Reading>>, limit: int, offset: int): (r: Result<seq<Row<Option<Text>>>, ListError>)
    ensures r == Err(BadLimit) <==> limit <= 0
    ensures r == Err(BadOffset) <==> limit > 0 && offset <= -1
  {
    if limit < 1 then Err(BadLimit)
    else if offset < 0 then Err(BadOffset)
    else ShownAll(Page(readings, limit, offset))
  }

  function ShownAll(readings: seq<Row<Reading>>): (r: Result<seq<Row<Option<Text>>>, ListError>)
    ensures r.Ok? ==> |r.value| == |readings|
    ensures r.Err? ==> r.error.Unreadable?
  {
    if readings == [] then Ok([])
    else
      var k := |readings| - 1;
      match ShownAll(readings[..k])
      case Err(e) => Err(e)
      case Ok(front) =>
        match Shown(readings[k])
        case None => Err(Unreadable(BadCiphertext))
        case Some(row) => Ok(front + [row])
  }

  /** A listing fails exactly for a damaged row; otherwise it shows every row of the page with all its
      fields, and its text exactly if that can be read. */
  lemma {:induction false} ListingShows(readings: seq<Row<Reading>>)
    ensures ShownAll(readings).Err? <==> exists i :: 0 <= i < |readings| && readings[i].content == Err(BadCiphertext)
    ensures ShownAll(readings).Err? ==> ShownAll(readings) == Err(Unreadable(BadCiphertext))
    ensures ShownAll(readings).Ok? ==> forall i :: 0 <= i < |readings| ==>
              var a, b := readings[i], ShownAll(readings).value[i];
              && b == Row(a.chunkId, a.source, a.author, a.date, a.themes, a.createdAt, b.content)
              && (b.content == None <==> a.content == Err(NoKey))
              && (b.content.Some? ==> a.content == Ok(b.content.value))
  {
    if readings == [] {
    } else {
      var k := |readings| - 1;
      ListingShows(readings[..k]);
      assert forall i :: 0 <= i < k ==> readings[..k][i] == readings[i];
    }
  }

  /** Ordering a table and reading it commute. */
  lemma SortReadings(rows: seq<Row<Stored>>, dek: Option<Bytes>, c: Cipher)
    ensures Readings(Sort(rows, NewestFirst), dek, c) == Sort(Readings(rows, dek, c), NewestFirst)
  {
    hide Sort, Read;
    var f := (r: Row<Stored>) => Opened(r, dek, c);
    assert Agree(rows, f, NewestFirst, NewestFirst);
    MapSort(rows, f, NewestFirst, NewestFirst);
    assert Map(rows, f) == Readings(rows, dek, c);
    assert Map(Sort(rows, NewestFirst), f) == Readings(Sort(rows, NewestFirst), dek, c);
  }

  lemma PageReadings(rows: seq<Row<Stored>>, limit: nat, offset: nat, dek: Option<Bytes>, c: Cipher)
    ensures Readings(Page(rows, limit, offset), dek, c) == Page(Readings(rows, dek, c), limit, offset)
  {
    hide Sort, Opened;
    SortReadings(rows, dek, c);
  }

  // ------------------------------------------------------------------ the store

  function Texts(chunks: seq<Chunk>): (r: seq<Text>)
    ensures |r| == |chunks|
  {
    seq(|chunks|, i requires 0 <= i < |chunks| => chunks[i].text)
  }

  type Vector = seq<real>

  /** Each non-empty vector replaces what was indexed for its chunk. */
  function Indexed(vectors: map<Bytes, Vector>, chunks: seq<Chunk>, embeddings: seq<Vector>): (r: map<Bytes, Vector>)
    requires |embeddings| == |chunks|
    ensures r.Keys <= vectors.Keys + ChunkIds(chunks)
  {
    if chunks == [] then vectors
    else
      var k := |chunks| - 1;
      var front := Indexed(vectors, chunks[..k], embeddings[..k]);
      assert ChunkIds(chunks) == ChunkIds(chunks[..k]) + {chunks[k].chunkId};
      if embeddings[k] == [] then front else front[chunks[k].chunkId := embeddings[k]]
  }

  class KnowledgeStore {
    const dek: Option<Bytes>
    const cipher: Cipher
    const vecAvailable: bool
    var rows: seq<Row<Stored>>
    var vectors: map<Bytes, Vector>

    /** Ids are a primary key, and only stored chunks are indexed. */
    ghost predicate Valid()
      reads this
    {
      UniqueIds(rows) && vectors.Keys <= Ids(rows)
    }

    constructor (dek: Option<Bytes>, cipher: Cipher, vecAvailable: bool, rows: seq<Row<Stored>>,
        vectors: map<Bytes, Vector>)
      requires UniqueIds(rows) && vectors.Keys <= Ids(rows)
      ensures Valid() && this.dek == dek && this.cipher == cipher && this.vecAvailable == vecAvailable
      ensures this.rows == rows && this.vectors == vectors
    {
      this.dek, this.cipher, this.vecAvailable, this.rows, this.vectors := dek, cipher, vecAvailable, rows, vectors;
    }

    /** Open the tables of a file; a key must have 32 bytes. */
    static method Open(dek: Option<Bytes>, cipher: Cipher, vecAvailable: bool, rows: seq<Row<Stored>>,
        vectors: map<Bytes, Vector>)
      returns (s: Option<KnowledgeStore>)
      requires UniqueIds(rows) && vectors.Keys <= Ids(rows)
      ensures s.None? <==> dek.Some? && |dek.value| != 32
      ensures s.Some? ==> fresh(s.value) && s.value.Valid() && s.value.dek == dek && s.value.cipher == cipher
                          && s.value.rows == rows && s.value.vectors == vectors
    {
      if dek.Some? && |dek.value| != DEK_BYTES {
        return None;
      }
      var store := new KnowledgeStore(dek, cipher, vecAvailable, rows, vectors);
      s := Some(store);
    }

    /** Store chunks, then index their embeddings if there are any. The embedder gives one vector for each
        text, or nothing when the model is not there. */
    method AddChunks(chunks: seq<Chunk>, embed: bool, embedder: seq<Text> -> Option<seq<Vector>>, now: Bytes,
        nonces: seq<Bytes>)
      returns (stored: nat)
      requires Valid() && |nonces| == |chunks|
      requires forall texts: seq<Text> :: embedder(texts).Some? ==> |embedder(texts).value| == |texts|
      modifies this
      ensures Valid() && stored == |chunks|
      ensures rows == Added(old(rows), chunks, now, dek, nonces, cipher)
      ensures vectors ==
        if embed && vecAvailable && embedder(Texts(chunks)).Some?
        then Indexed(old(vectors), chunks, embedder(Texts(chunks)).value)
        else old(vectors)
      ensures IsCipher(cipher) ==>
        Readings(rows, dek, cipher) == PlainAdded(Readings(old(rows), dek, cipher), chunks, now)
      ensures IsCipher(cipher) ==>
        && CanGet(Readings(rows, dek, cipher), chunks, now)
        && forall id :: (forall k :: 0 <= k < |chunks| ==> chunks[k].chunkId != id) ==>
             Get(Readings(rows, dek, cipher), id) == Get(Readings(old(rows), dek, cipher), id)
    {
      GetAdded(Readings(rows, dek, cipher), chunks, now);
      hide CanGet, Get, Readings, Added, UniqueIds, Ids, ChunkIds, PlainAdded, IsCipher, Indexed, Texts;
      AddedValid(rows, vectors.Keys, chunks, now, dek, nonces, cipher);
      if IsCipher(cipher) {
        AddingIsPlainAdding(rows, chunks, now, dek, nonces, dek, cipher);
      }
      if chunks == [] {
        NothingAdded(rows, vectors, now, dek, cipher);
        return 0;
      }
      InsertRows(chunks, now, nonces);
      if embed && vecAvailable {
        var embeddings := embedder(Texts(chunks));
        if embeddings.Some? {
          IndexVectors(chunks, embeddings.value);
        }
      }
      stored := |chunks|;
    }

    /** The first transaction: every chunk is encrypted, if there is a key, and replaces its row. */
    method InsertRows(chunks: seq<Chunk>, now: Bytes, nonces: seq<Bytes>)
      requires |nonces| == |chunks|
      modifies this`rows
      ensures rows == Added(old(rows), chunks, now, dek, nonces, cipher)
    {
      hide Without;
      ghost var rows0 := rows;
      for k := 0 to |chunks|
        invariant rows == Added(rows0, chunks[..k], now, dek, nonces[..k], cipher)
      {
        var chunk := chunks[k];
        var content :=
          if dek.Some? then Stored(cipher.encrypt(dek.value, nonces[k], chunk.text), Some(nonces[k]))
          else Stored(chunk.text, None);
        assert chunks[..k + 1][..k] == chunks[..k] && nonces[..k + 1][..k] == nonces[..k];
        rows := Without(rows, chunk.chunkId)
          + [Row(chunk.chunkId, chunk.source, chunk.author, chunk.date, chunk.themes, now, content)];
      }
      assert chunks[..|chunks|] == chunks && nonces[..|nonces|] == nonces;
    }

    /** The second transaction: delete, then insert, the vector of every chunk that has one. */
    method IndexVectors(chunks: seq<Chunk>, embeddings: seq<Vector>)
      requires |embeddings| == |chunks|
      modifies this`vectors
      ensures vectors == Indexed(old(vectors), chunks, embeddings)
    {
      hide ChunkIds;
      ghost var vectors0 := vectors;
      for k := 0 to |chunks|
        invariant vectors == Indexed(vectors0, chunks[..k], embeddings[..k])
      {
        var chunk, vector := chunks[k], embeddings[k];
        assert chunks[..k + 1][..k] == chunks[..k] && embeddings[..k + 1][..k] == embeddings[..k];
        if vector != [] {
          vectors := vectors - {chunk.chunkId};
          vectors := vectors[chunk.chunkId := vector];
        }
      }
      assert chunks[..|chunks|] == chunks && embeddings[..|embeddings|] == embeddings;
    }

    /** The number of chunks is the number of distinct ids. */
    method CountChunks() returns (n: nat)
      requires Valid()
      ensures n == |Ids(rows)|
    {
      IdCount(rows);
      n := |rows|;
    }

    method GetChunk(id: Bytes) returns (r: Result<Option<Row<Text>>, ReadError>)
      ensures r == Get(Readings(rows, dek, cipher), id)
    {
      FindReading(rows, id, dek, cipher);
      var row := Find(rows, id);
      if row.None? {
        return Ok(None);
      }
      var text := Read(row.value.content, dek, cipher);
      if text.Err? {
        return Err(text.error);
      }
      r := Ok(Some(WithContent(row.value, text.value)));
    }

    /** A page of the newest chunks, with a flag for the encrypted ones. */
    method ListChunks(limit: int, offset: int) returns (r: Result<seq<Listed>, ListError>)
      ensures match List(Readings(rows, dek, cipher), limit, offset)
              case Err(e) => r == Err(e)
              case Ok(shown) =>
                && r.Ok? && |r.value| == |shown| == |Page(rows, limit, offset)|
                && forall i :: 0 <= i < |shown| ==>
                     r.value[i] == Listed(shown[i], Page(rows, limit, offset)[i].content.nonce.Some?)
    {
      hide Page, Readings;
      if limit < 1 {
        return Err(BadLimit);
      }
      if offset < 0 {
        return Err(BadOffset);
      }
      var page := Page(rows, limit, offset);
      ghost var readings := Readings(page, dek, cipher);
      PageReadings(rows, limit, offset, dek, cipher);
      var out: seq<Listed> := [];
      for k := 0 to |page|
        invariant |out| == k && ShownAll(readings[..k]).Ok?
        invariant forall i :: 0 <= i < k ==>
          out[i] == Listed(ShownAll(readings[..k]).value[i], page[i].content.nonce.Some?)
      {
        ReadingAt(page, k, dek, cipher);
        assert readings[..k + 1][..k] == readings[..k];
        var row := page[k];
        var encrypted := row.content.nonce.Some?;
        var text: Option<Text> := None;
        if !(encrypted && dek.None?) {
          var reading := Read(row.content, dek, cipher);
          if reading.Err? {
            ShownPrefixFails(readings, k);
            return Err(Unreadable(reading.error));
          }
          text := Some(reading.value);
        }
        out := out + [Listed(WithContent(row, text), encrypted)];
      }
      assert readings[..|page|] == readings;
      r := Ok(out);
    }

    /** Token overlap over the readable texts. */
    method KeywordSearch(queryText: Text, tokens: Text -> set<Text>, topK: int, themes: seq<Text>)
      returns (r: Result<seq<(Bytes, real)>, ReadError>)
      ensures r == Search(Readings(rows, dek, cipher), tokens(queryText), tokens, topK, themes)
      ensures if tokens(queryText) == {} || topK < 1 then r == Ok([])
              else IsSearchAnswer(Readings(rows, dek, cipher), tokens(queryText), tokens, topK, themes, r)
    {
      hide Readings, IsSearchAnswer;
      var query := tokens(queryText);
      if query == {} || topK < 1 {
        return Ok([]);
      }
      ghost var readings := Readings(rows, dek, cipher);
      SearchAnswers(readings, query, tokens, topK, themes);
      var scored: seq<(Bytes, real)> := [];
      for k := 0 to |rows|
        invariant Scored(readings[..k], query, tokens, themes) == Ok(scored)
      {
        ReadingAt(rows, k, dek, cipher);
        assert readings[..k + 1][..k] == readings[..k];
        var row := rows[k];
        if HasTheme(row, themes) {
          var text := Read(row.content, dek, cipher);
          if text.Err? {
            ScoredPrefixFails(readings, k, query, tokens, themes);
            return Err(text.error);
          }
          var overlap := query * tokens(text.value);
          if overlap != {} {
            scored := scored + [(row.chunkId, |overlap| as real / |query| as real)];
          }
        }
      }
      assert readings[..|rows|] == readings;
      r := Ok(Take(Sort(scored, Better), topK));
    }
  }

  lemma NothingAdded(rows: seq<Row<Stored>>, vectors: map<Bytes, Vector>, now: Bytes, dek: Option<Bytes>, c: Cipher)
    ensures Added(rows, [], now, dek, [], c) == rows && Indexed(vectors, [], []) == vectors
  {
  }

  /** Adding keeps ids unique and every indexed id stored. */
  lemma AddedValid(rows: seq<Row<Stored>>, indexed: set<Bytes>, chunks: seq<Chunk>, now: Bytes, dek: Option<Bytes>,
      nonces: seq<Bytes>, c: Cipher)
    requires |nonces| == |chunks| && UniqueIds(rows) && indexed <= Ids(rows)
    ensures UniqueIds(Added(rows, chunks, now, dek, nonces, c))
    ensures indexed + ChunkIds(chunks) <= Ids(Added(rows, chunks, now, dek, nonces, c))
  {
    hide *;
    AddedIds(rows, chunks, now, dek, nonces, c);
  }

  lemma ReadingAt(rows: seq<Row<Stored>>, k: nat, dek: Option<Bytes>, c: Cipher)
    requires k < |rows|
    ensures Readings(rows, dek, c)[k] == Opened(rows[k], dek, c)
  {
  }

  /** A failing row fails every listing that includes it. */
  lemma {:induction false} ShownPrefixFails(readings: seq<Row<Reading>>, k: nat)
    requires k < |readings| && ShownAll(readings[..k]).Ok? && Shown(readings[k]).None?
    ensures ShownAll(readings) == Err(Unreadable(BadCiphertext))
    decreases |readings|
  {
    var l := |readings| - 1;
    if k >= l {
    } else {
      assert readings[..l][..k] == readings[..k];
      ShownPrefixFails(readings[..l], k);
    }
  }

  // ------------------------------------------------ one session against another

  /** Two stores that went through the same run from empty, one with a key throughout and one without,
      answer every get, listing and search alike. */
  lemma SameAnswers(batches: seq<Batch>, key: Bytes, c: Cipher, id: Bytes, limit: int, offset: int, query: set<Text>,
      tokens: Text -> set<Text>, topK: int, themes: seq<Text>)
    requires IsCipher(c) && forall i :: 0 <= i < |batches| ==> IsBatch(batches[i]) && batches[i].dek == Some(key)
    ensures var secret, clear := Readings(Run([], batches, c), Some(key), c),
                Readings(Run([], InClear(batches), c), None, c);
            && Get(secret, id) == Get(clear, id)
            && List(secret, limit, offset) == List(clear, limit, offset)
            && Search(secret, query, tokens, topK, themes) == Search(clear, query, tokens, topK, themes)
  {
    EncryptedEqualsClear(batches, key, c);
  }

  /** Without the key: a get fails exactly on an encrypted row, a listing leaves out exactly the encrypted
      texts and never fails. */
  lemma GetWithoutKey(rows: seq<Row<Stored>>, id: Bytes, c: Cipher)
    requires UniqueIds(rows)
    ensures Get(Readings(rows, None, c), id).Err?
            <==> exists i :: 0 <= i < |rows| && rows[i].chunkId == id && rows[i].content.nonce.Some?
  {
    FindReading(rows, id, None, c);
    var row := Find(rows, id);
    if row.Some? {
      assert forall i :: 0 <= i < |rows| && rows[i].chunkId == id ==> rows[i] == row.value;
    }
  }

  lemma {:induction false} ListWithoutKey(page: seq<Row<Stored>>, c: Cipher)
    ensures var shown := ShownAll(Readings(page, None, c));
            && shown.Ok?
            && forall i :: 0 <= i < |page| ==> (shown.value[i].content == None <==> page[i].content.nonce.Some?)
  {
    if page == [] {
    } else {
      var k := |page| - 1;
      ListWithoutKey(page[..k], c);
      assert Readings(page, None, c)[..k] == Readings(page[..k], None, c);
    }
  }

  /** A search without the key fails exactly if an encrypted row carries one of the themes asked for. */
  lemma SearchWithoutKey(rows: seq<Row<Stored>>, query: set<Text>, tokens: Text -> set<Text>, topK: int,
      themes: seq<Text>, c: Cipher)
    requires query != {} && topK >= 1
    ensures Search(Readings(rows, None, c), query, tokens, topK, themes).Err?
            <==> exists i :: 0 <= i < |rows| && HasTheme(rows[i], themes) && rows[i].content.nonce.Some?
  {
    hide HasTheme, Readings;
    ScoredWithoutKey(rows, query, tokens, themes, c);
  }

  lemma {:induction false} ScoredWithoutKey(rows: seq<Row<Stored>>, query: set<Text>, tokens: Text -> set<Text>,
      themes: seq<Text>, c: Cipher)
    requires query != {}
    ensures Scored(Readings(rows, None, c), query, tokens, themes).Err?
            <==> exists i :: 0 <= i < |rows| && HasTheme(rows[i], themes) && rows[i].content.nonce.Some?
  {
    if rows == [] {
    } else {
      var k := |rows| - 1;
      ScoredWithoutKey(rows[..k], query, tokens, themes, c);
      assert Readings(rows, None, c)[..k] == Readings(rows[..k], None, c);
      assert HasTheme(Readings(rows, None, c)[k], themes) == HasTheme(rows[k], themes);
      hide HasTheme;
      assert forall i :: 0 <= i < k ==> rows[..k][i] == rows[i];
    }
  }
}
