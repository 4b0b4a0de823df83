/** The append-only version store over its database table
    (engine/src/versioning/store.rs and the version_records part of engine/src/storage/db.rs). */
module VersionStores {
  import opened Ordering
  import opened Results
  import opened Versions
  import opened SnapshotViews

  /** ORDER BY entity_id ASC, version ASC. */
  predicate RowLeq(a: Record, b: Record) {
    if a.entityId == b.entityId then a.version <= b.version else LexLeq(a.entityId, b.entityId)
  }

  predicate VersionLeq(a: Record, b: Record) {
    a.version <= b.version
  }

  lemma RowOrder()
    ensures IsOrder(RowLeq)
  {
    forall a: Record, b: Record ensures RowLeq(a, b) || RowLeq(b, a) {
      LexTotal(a.entityId, b.entityId);
    }
    forall a: Record, b: Record, c: Record | RowLeq(a, b) && RowLeq(b, c) ensures RowLeq(a, c) {
      RowTransitive(a, b, c);
    }
  }

  lemma RowTransitive(a: Record, b: Record, c: Record)
    requires RowLeq(a, b) && RowLeq(b, c)
    ensures RowLeq(a, c)
  {
    LexTotal(a.entityId, b.entityId);
    LexTotal(b.entityId, c.entityId);
    if a.entityId != b.entityId && b.entityId != c.entityId {
      LexTransitive(a.entityId, b.entityId, c.entityId);
    }
  }

  // ---------------------------------------------------------- the table

  /** PRIMARY KEY (version_hash) and UNIQUE (entity_id, version). */
  predicate Conflicts(rows: seq<Record>, r: Record) {
    exists i :: 0 <= i < |rows| &&
      (rows[i].hash == r.hash || (rows[i].entityId == r.entityId && rows[i].version == r.version))
  }

  class Database {
    var rows: seq<Record>

    constructor ()
      ensures rows == []
    {
      rows := [];
    }

    /** insert_version_record: a conflict or an I/O failure is an error and leaves the table alone. */
    method InsertVersionRecord(r: Record, ioOk: bool) returns (ok: bool)
      modifies this
      ensures ok <==> ioOk && forall other :: other in old(rows) ==>
        other.hash != r.hash && (other.entityId != r.entityId || other.version != r.version)
      ensures ok <==> ioOk && !Conflicts(old(rows), r)
      ensures rows == if ok then old(rows) + [r] else old(rows)
    {
      ok := ioOk && !Conflicts(rows, r);
      if ok {
        rows := rows + [r];
      }
    }

    /** load_version_records: every row, ordered. */
    method LoadVersionRecords() returns (records: seq<Record>)
      ensures records == Sort(rows, RowLeq)
      ensures IsSorted(records, RowLeq) && multiset(records) == multiset(rows)
      ensures forall i, j :: 0 <= i < j < |records| ==>
        && LexLeq(records[i].entityId, records[j].entityId)
        && (records[i].entityId == records[j].entityId ==> records[i].version <= records[j].version)
    {
      RowOrder();
      assert forall id :: LexLeq(id, id) by {
        forall id ensures LexLeq(id, id) {
          LexTotal(id, id);
        }
      }
      SortSorts(rows, RowLeq);
      SortElements(rows, RowLeq);
      records := Sort(rows, RowLeq);
    }
  }

  // --------------------------------------------------- rebuilding memory

  function IsEntity(id: Bytes): Record -> bool {
    (r: Record) => r.entityId == id
  }

  /** The rows of one entity, in table order. */
  function RowsOf(rows: seq<Record>, id: Bytes): seq<Record> {
    Filter(rows, IsEntity(id))
  }

  function Ids(rows: seq<Record>): set<Bytes> {
    set r | r in rows :: r.entityId
  }

  /** The index that open_persistent builds: each entity's rows sorted by version. */
  function Rebuilt(rows: seq<Record>): Index {
    map id | id in Ids(rows) :: Sort(RowsOf(rows, id), VersionLeq)
  }

  lemma RowsOfAppend(rows: seq<Record>, r: Record, id: Bytes)
    ensures RowsOf(rows + [r], id) == if r.entityId == id then RowsOf(rows, id) + [r] else RowsOf(rows, id)
  {
    FilterAppend(rows, [r], IsEntity(id));
    assert [r][1..] == [];
  }

  lemma RowsOfElements(rows: seq<Record>, id: Bytes)
    ensures forall r :: r in RowsOf(rows, id) <==> r in rows && r.entityId == id
    ensures RowsOf(rows, id) != [] <==> id in Ids(rows)
  {
    FilterElements(rows, IsEntity(id));
    if id in Ids(rows) {
      var r :| r in rows && r.entityId == id;
      assert r in RowsOf(rows, id);
    }
    assert RowsOf(rows, id) != [] ==> RowsOf(rows, id)[0] in RowsOf(rows, id);
  }

  /** The ordered load already lists each entity's rows by version, so the defensive sort after it
      changes nothing. */
  lemma LoadedRowsSorted(rows: seq<Record>, id: Bytes)
    ensures Sort(RowsOf(Sort(rows, RowLeq), id), VersionLeq) == RowsOf(Sort(rows, RowLeq), id)
    ensures RowsOf(Sort(rows, RowLeq), id) == Sort(RowsOf(rows, id), VersionLeq)
  {
    var part := RowsOf(rows, id);
    RowOrder();
    FilterSort(rows, RowLeq, IsEntity(id));
    RowsOfElements(rows, id);
    SameEntitySort(part, id);
    SortSorts(part, RowLeq);
    SortElements(part, RowLeq);
    var loaded := Sort(part, RowLeq);
    forall i, j | 0 <= i < j < |loaded| ensures VersionLeq(loaded[i], loaded[j]) {
      assert loaded[i] in loaded && loaded[j] in loaded;
    }
    SortIdempotent(loaded, VersionLeq);
  }

  lemma {:induction false} SameEntitySort(part: seq<Record>, id: Bytes)
    requires forall r :: r in part ==> r.entityId == id
    ensures Sort(part, RowLeq) == Sort(part, VersionLeq)
  {
    if part == [] {
    } else {
      assert forall r :: r in part[1..] ==> r in part;
      SameEntitySort(part[1..], id);
      SortElements(part[1..], RowLeq);
      SameEntityInsert(part[0], Sort(part[1..], RowLeq), id);
    }
  }

  lemma {:induction false} SameEntityInsert(x: Record, s: seq<Record>, id: Bytes)
    requires x.entityId == id && forall r :: r in s ==> r.entityId == id
    ensures Insert(x, s, RowLeq) == Insert(x, s, VersionLeq)
  {
    if s == [] {
    } else {
      assert s[0] in s;
      assert forall r :: r in s[1..] ==> r in s;
      SameEntityInsert(x, s[1..], id);
    }
  }

  /** The index after a successful append. */
  function Appended(index: Index, r: Record): Index {
    index[r.entityId := ChainOf(index, r.entityId) + [r]]
  }

  /** index holds each entity's rows in order. */
  predicate Groups(index: Index, rows: seq<Record>) {
    index.Keys == Ids(rows) && forall id :: id in index ==> index[id] == RowsOf(rows, id)
  }

  lemma GroupOneMore(index: Index, rows: seq<Record>, r: Record)
    requires Groups(index, rows)
    ensures Groups(Appended(index, r), rows + [r])
  {
    var longer := Appended(index, r);
    assert Ids(rows + [r]) == Ids(rows) + {r.entityId};
    RowsOfElements(rows, r.entityId);
    forall id | id in longer ensures longer[id] == RowsOf(rows + [r], id) {
      RowsOfAppend(rows, r, id);
    }
  }

  method GroupRows(persisted: seq<Record>) returns (grouped: Index)
    ensures Groups(grouped, persisted)
  {
    hide RowsOf;
    grouped := map[];
    for i := 0 to |persisted|
      invariant Groups(grouped, persisted[..i])
    {
      assert persisted[..i + 1] == persisted[..i] + [persisted[i]];
      GroupOneMore(grouped, persisted[..i], persisted[i]);
      grouped := Appended(grouped, persisted[i]);
    }
    assert persisted[..|persisted|] == persisted;
  }

  /** Sort every chain by version, whatever order the map yields them in. */
  method SortChains(grouped: Index) returns (index: Index)
    ensures index.Keys == grouped.Keys
    ensures forall id :: id in index ==> index[id] == Sort(grouped[id], VersionLeq)
  {
    hide Sort;
    index := map[];
    var todo := grouped.Keys;
    while todo != {}
      invariant todo <= grouped.Keys && index.Keys == grouped.Keys - todo
      invariant forall id :: id in index ==> index[id] == Sort(grouped[id], VersionLeq)
      decreases |todo|
    {
      var id :| id in todo;
      index := index[id := Sort(grouped[id], VersionLeq)];
      todo := todo - {id};
    }
  }

  /** Group the loaded rows by entity, then sort every chain by version. */
  method RebuildIndex(persisted: seq<Record>) returns (index: Index)
    ensures index.Keys == Ids(persisted)
    ensures forall id :: id in index ==> index[id] == Sort(RowsOf(persisted, id), VersionLeq)
  {
    var grouped := GroupRows(persisted);
    index := SortChains(grouped);
  }

  lemma LoadedIndex(rows: seq<Record>, index: Index)
    requires index.Keys == Ids(Sort(rows, RowLeq))
    requires forall id :: id in index ==> index[id] == Sort(RowsOf(Sort(rows, RowLeq), id), VersionLeq)
    ensures index == Rebuilt(rows)
  {
    hide Sort, RowsOf;
    SortElements(rows, RowLeq);
    assert Ids(Sort(rows, RowLeq)) == Ids(rows);
    forall id | id in index ensures index[id] == Sort(RowsOf(rows, id), VersionLeq) {
      LoadedRowsSorted(rows, id);
    }
  }

  lemma RebuiltKeyed(rows: seq<Record>)
    ensures Keyed(Rebuilt(rows))
  {
    forall id, i | id in Rebuilt(rows) && 0 <= i < |Rebuilt(rows)[id]| ensures Rebuilt(rows)[id][i].entityId == id {
      SortElements(RowsOf(rows, id), VersionLeq);
      RowsOfElements(rows, id);
      assert Rebuilt(rows)[id][i] in Rebuilt(rows)[id];
    }
  }

  /** Reopening reads back every chain as it is in the table. */
  lemma RebuiltChains(hash: Hasher, rows: seq<Record>, id: Bytes)
    requires ChainOk(hash, id, RowsOf(rows, id))
    ensures ChainOf(Rebuilt(rows), id) == RowsOf(rows, id)
  {
    SortIdempotent(RowsOf(rows, id), VersionLeq);
    RowsOfElements(rows, id);
  }

  lemma EmptyChainOk(hash: Hasher, id: Bytes)
    ensures ChainOk(hash, id, [])
  {
  }

  lemma ChainOkVerifies(hash: Hasher, id: Bytes, chain: seq<Record>)
    requires ChainOk(hash, id, chain)
    ensures LinksVerify(hash, chain)
  {
  }

  lemma RebuiltIntact(hash: Hasher, rows: seq<Record>)
    ensures WellFormed(hash, Rebuilt(rows)) && (forall id: Bytes :: RowsOf(rows, id) == ChainOf(Rebuilt(rows), id))
            <==> forall id: Bytes :: ChainOk(hash, id, RowsOf(rows, id))
  {
    hide ChainOk, RowsOf, Rebuilt;
    var index := Rebuilt(rows);
    if WellFormed(hash, index) && forall id: Bytes :: RowsOf(rows, id) == ChainOf(index, id) {
      forall id: Bytes ensures ChainOk(hash, id, RowsOf(rows, id)) {
        assert RowsOf(rows, id) == ChainOf(index, id);
        EmptyChainOk(hash, id);
      }
    }
    if forall id: Bytes :: ChainOk(hash, id, RowsOf(rows, id)) {
      forall id: Bytes ensures RowsOf(rows, id) == ChainOf(index, id) {
        RebuiltChains(hash, rows, id);
      }
      forall id | id in index ensures ChainOk(hash, id, index[id]) {
        assert RowsOf(rows, id) == ChainOf(index, id);
      }
    }
  }

  lemma NextRecordId(hash: Hasher, chain: seq<Record>, d: Draft)
    ensures NextRecord(hash, chain, d).entityId == d.id
  {
  }

  lemma AppendedWellFormed(hash: Hasher, index: Index, d: Draft)
    requires WellFormed(hash, index)
    ensures WellFormed(hash, Appended(index, NextRecord(hash, ChainOf(index, d.id), d)))
    ensures WellFormed(hash, Touched(index, d.id))
  {
    hide ChainOk, NextRecord;
    EmptyChainOk(hash, d.id);
    AppendKeepsChain(hash, ChainOf(index, d.id), d);
    NextRecordId(hash, ChainOf(index, d.id), d);
  }

  lemma AppendedRows(rows: seq<Record>, index: Index, r: Record)
    requires forall id: Bytes :: RowsOf(rows, id) == ChainOf(index, id)
    ensures forall id: Bytes :: RowsOf(rows + [r], id) == ChainOf(Appended(index, r), id)
  {
    hide RowsOf;
    forall id: Bytes ensures RowsOf(rows + [r], id) == ChainOf(Appended(index, r), id) {
      RowsOfAppend(rows, r, id);
      assert RowsOf(rows, id) == ChainOf(index, id);
    }
  }

  /** What an append does to every snapshot, and a refused one. */
  lemma AppendedViews(index: Index, r: Record, d: Draft)
    requires DraftOf(r) == d
    ensures forall asOf: int, types: seq<EntityType>, ids: seq<Bytes> ::
      var before, after := Snapshot(index, asOf, types, ids), Snapshot(Appended(index, r), asOf, types, ids);
      if d.now <= asOf && (types == [] || d.entityType in types) && (ids == [] || d.id in ids)
      then ShowsDraft(before, after, d) else after == before
    ensures forall asOf: int, types: seq<EntityType>, ids: seq<Bytes> ::
      Snapshot(Touched(index, d.id), asOf, types, ids) == Snapshot(index, asOf, types, ids)
  {
    hide Snapshot, ShowsDraft;
    forall asOf: int, types: seq<EntityType>, ids: seq<Bytes>
      ensures var before, after := Snapshot(index, asOf, types, ids), Snapshot(Appended(index, r), asOf, types, ids);
              if d.now <= asOf && (types == [] || d.entityType in types) && (ids == [] || d.id in ids)
              then ShowsDraft(before, after, d) else after == before
    {
      AppendedView(index, r, d, asOf, types, ids);
    }
    forall asOf: int, types: seq<EntityType>, ids: seq<Bytes>
      ensures Snapshot(Touched(index, d.id), asOf, types, ids) == Snapshot(index, asOf, types, ids)
    {
      TouchedView(index, d.id, asOf, types, ids);
    }
  }

  lemma TouchedView(index: Index, id: Bytes, asOf: int, types: seq<EntityType>, ids: seq<Bytes>)
    ensures Snapshot(Touched(index, id), asOf, types, ids) == Snapshot(index, asOf, types, ids)
  {
    hide Snapshot;
    assert LatestAt([], asOf, types) == None;
    SameLatestSameSnapshot(index, Touched(index, id), id, asOf, types, ids);
  }

  /** A query for a window, written out: the records of the chain within its bounds, in their order and cut to
      the limit; or the last record whatever its time. */
  lemma AnswerMeaning(chain: seq<Record>, q: VersionQuery, r: Record)
    ensures q.latestOnly ==> Answer(chain, q) == chain[if chain == [] then 0 else |chain| - 1..]
    ensures !q.latestOnly && q.limit.None? ==>
      (r in Answer(chain, q)
       <==> r in chain && (q.since.Some? ==> q.since.value <= r.createdAt)
            && (q.until.Some? ==> r.createdAt <= q.until.value))
    ensures !q.latestOnly && q.limit.Some? ==>
      var all := Answer(chain, q.(limit := None));
      Answer(chain, q) <= all && |Answer(chain, q)| == if q.limit.value < |all| then q.limit.value else |all|
    ensures !q.latestOnly && q.limit.None? ==>
      forall i, j :: 0 <= i < j < |chain| && chain[i] in Answer(chain, q) && chain[j] in Answer(chain, q) ==>
        exists k, l :: (0 <= k < l < |Answer(chain, q)|
                        && Answer(chain, q)[k] == chain[i] && Answer(chain, q)[l] == chain[j])
  {
    var keep := InWindow(q.since, q.until);
    FilterElements(chain, keep);
    if !q.latestOnly && q.limit.None? {
      var answer := Answer(chain, q);
      forall i, j | 0 <= i < j < |chain| && chain[i] in answer && chain[j] in answer
        ensures exists k, l :: 0 <= k < l < |answer| && answer[k] == chain[i] && answer[l] == chain[j]
      {
        var k, l := FilterOrder(chain, keep, i, j);
      }
    }
  }

  datatype StoreError = Persistence

  /** records.entry(id).or_default(): looking an entity up for appending creates its empty chain. */
  function Touched(index: Index, id: Bytes): Index {
    index[id := ChainOf(index, id)]
  }

  datatype VersionQuery = VersionQuery(
    entityId: Bytes, entityType: Option<EntityType>, since: Option<int>, until: Option<int>, limit: Option<nat>,
    latestOnly: bool)

  function InWindow(since: Option<int>, until: Option<int>): Record -> bool {
    (r: Record) => (since.None? || r.createdAt >= since.value) && (until.None? || r.createdAt <= until.value)
  }

  /** The records that a query of a chain asks for. */
  function Answer(chain: seq<Record>, q: VersionQuery): seq<Record> {
    var matching := Filter(chain, InWindow(q.since, q.until));
    if q.latestOnly then (if chain == [] then [] else [chain[|chain| - 1]])
    else if q.limit.Some? && q.limit.value < |matching| then matching[..q.limit.value]
    else matching
  }

  /** The type asked for is not looked at: whatever it is, records of every type come back. */
  lemma TypeIgnored(chain: seq<Record>, q: VersionQuery, r: Record)
    requires r in chain && q.since.None? && q.until.None? && q.limit.None? && !q.latestOnly
    ensures r in Answer(chain, q)
    ensures forall t :: Answer(chain, q.(entityType := t)) == Answer(chain, q)
  {
    FilterElements(chain, InWindow(q.since, q.until));
  }

  class VersionStore {
    var records: Index
    const hash: Hasher
    const backend: Database?

    /** Records are filed under their own entity. */
    predicate Valid()
      reads this
    {
      Keyed(records)
    }

    /** Every chain is one that append builds, and a table holds exactly those chains. */
    ghost predicate Intact()
      reads this, backend
    {
      && WellFormed(hash, records)
      && (backend != null ==> forall id: Bytes :: RowsOf(backend.rows, id) == ChainOf(records, id))
    }

    constructor InMemory(hash: Hasher)
      ensures Intact()
      ensures Valid() && records == map[] && backend == null && this.hash == hash
    {
      this.records := map[];
      this.hash := hash;
      this.backend := null;
    }

    /** open_persistent: the rebuilt index depends on the table's rows alone, and is intact when each
        entity's rows in the table are one of append's chains. */
    constructor OpenPersistent(backend: Database, hash: Hasher)
      ensures Valid() && this.backend == backend && this.hash == hash
      ensures records == Rebuilt(backend.rows)
      ensures Intact() <==> forall id: Bytes :: ChainOk(hash, id, RowsOf(backend.rows, id))
    {
      var persisted := backend.LoadVersionRecords();
      var index := RebuildIndex(persisted);
      LoadedIndex(backend.rows, index);
      RebuiltKeyed(backend.rows);
      RebuiltIntact(hash, backend.rows);
      this.records := index;
      this.hash := hash;
      this.backend := backend;
    }

    /** append: written to the table first; a refused write leaves every chain as it was, and an intact
        store stays intact. */
    method Append(d: Draft, ioOk: bool) returns (result: Result<Bytes, StoreError>)
      requires Valid()
      modifies this, backend
      ensures Valid() && (old(Intact()) ==> Intact())
      ensures var r := NextRecord(hash, ChainOf(old(records), d.id), d);
              var stored := backend == null || (ioOk && !Conflicts(old(backend.rows), r));
              && result == (if stored then Ok(r.hash) else Err(Persistence))
              && records == (if stored then Appended(old(records), r) else Touched(old(records), d.id))
              && (backend != null ==> backend.rows == old(backend.rows) + (if stored then [r] else []))
      ensures result.Ok? ==>
        var before, after := ChainOf(old(records), d.id), ChainOf(records, d.id);
        && |after| == |before| + 1 && after[..|before|] == before && result.value == after[|before|].hash
        && DraftOf(after[|before|]) == d
      ensures forall asOf: int, types: seq<EntityType>, ids: seq<Bytes> ::
        var before, after := Snapshot(old(records), asOf, types, ids), Snapshot(records, asOf, types, ids);
        if result.Ok? && d.now <= asOf && (types == [] || d.entityType in types) && (ids == [] || d.id in ids)
        then ShowsDraft(before, after, d) else after == before
    {
      hide WellFormed, RowsOf, NextRecord, Snapshot, ShowsDraft;
      var chain := ChainOf(records, d.id);
      ghost var index := records;
      records := records[d.id := chain];
      var record := NextRecord(hash, chain, d);
      NextRecordId(hash, chain, d);
      NextRecordCarries(hash, chain, d);
      AppendedViews(index, record, d);
      if old(Intact()) {
        AppendedWellFormed(hash, index, d);
        if backend != null {
          assert forall id: Bytes :: ChainOf(records, id) == ChainOf(index, id);
          AppendedRows(backend.rows, index, record);
        }
      }
      if backend != null {
        var ok := backend.InsertVersionRecord(record, ioOk);
        if !ok {
          return Err(Persistence);
        }
      }
      records := records[d.id := chain + [record]];
      assert records == Appended(index, record);
      return Ok(record.hash);
    }

    method GetLatest(id: Bytes) returns (latest: Option<Record>)
      ensures latest.None? <==> ChainOf(records, id) == []
      ensures latest.Some? ==> latest.value == ChainOf(records, id)[|ChainOf(records, id)| - 1]
    {
      var chain := ChainOf(records, id);
      latest := if chain == [] then None else Some(chain[|chain| - 1]);
    }

    /** query: the latest record alone, or the records of the window in version order, cut to the
        first limit of them. */
    method Query(q: VersionQuery) returns (results: seq<Record>)
      ensures results == Answer(ChainOf(records, q.entityId), q)
    {
      var chain := ChainOf(records, q.entityId);
      if q.latestOnly {
        return if chain == [] then [] else [chain[|chain| - 1]];
      }
      results := [];
      for i := 0 to |chain|
        invariant results == Filter(chain[..i], InWindow(q.since, q.until))
      {
        assert chain[..i + 1] == chain[..i] + [chain[i]];
        FilterAppend(chain[..i], [chain[i]], InWindow(q.since, q.until));
        assert [chain[i]][1..] == [];
        if InWindow(q.since, q.until)(chain[i]) {
          results := results + [chain[i]];
        }
      }
      assert chain[..|chain|] == chain;
      if q.limit.Some? && q.limit.value < |results| {
        results := results[..q.limit.value];
      }
    }

    /** verify_chain: always true of an intact store. */
    method VerifyChain(id: Bytes) returns (valid: bool)
      ensures valid <==> LinksVerify(hash, ChainOf(records, id))
      ensures Intact() ==> valid
    {
      if Intact() {
        EmptyChainOk(hash, id);
        ChainOkVerifies(hash, id, ChainOf(records, id));
      }
      var chain := ChainOf(records, id);
      for i := 0 to |chain|
        invariant forall j :: 0 <= j < i ==> VerifyIntegrity(hash, chain[j]) && chain[j].parent == ParentOf(chain[..j])
      {
        if !VerifyIntegrity(hash, chain[i]) {
          return false;
        }
        if i == 0 {
          if chain[i].parent.Some? {
            assert chain[..i] == [];
            return false;
          }
        } else if chain[i].parent != Some(chain[i - 1].hash) {
          return false;
        }
      }
      return true;
    }

    /** snapshot_records: the point-in-time view, each entity once, in id order, whatever order the map
        yields its chains in. */
    method SnapshotRecords(asOf: int, types: seq<EntityType>, ids: seq<Bytes>) returns (out: seq<Record>)
      requires Valid()
      ensures Lists(out, Snapshot(records, asOf, types, ids))
    {
      hide LatestAt, Eligible;
      ghost var view := Snapshot(records, asOf, types, ids);
      out := [];
      var todo := records.Keys;
      while todo != {}
        invariant todo <= records.Keys && NoDuplicates(out)
        invariant forall r :: r in out ==> r.entityId in view && r.entityId !in todo && view[r.entityId] == r
        invariant forall id :: id in view && id !in todo ==> view[id] in out
        decreases |todo|
      {
        var id :| id in todo;
        todo := todo - {id};
        if ids == [] || id in ids {
          var latest := LatestAt(records[id], asOf, types);
          if latest.Some? {
            assert latest.value in records[id] && latest.value.entityId == id;
            out := out + [latest.value];
          }
        }
      }
      SortedListing(out, view);
      out := Sort(out, IdLeq);
    }
  }
}
