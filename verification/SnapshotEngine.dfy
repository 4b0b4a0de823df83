/** SnapshotEngine (engine/src/versioning/snapshot.rs): reads a store's history at two instants and
    reports what differs. The two listings are collected into maps; ids on one side only are added or
    removed, ids on both sides with different hashes are modified. */
module SnapshotEngines {
  import opened Ordering
  import opened Versions
  import opened SnapshotViews
  import opened VersionStores

  predicate ModifiedLeq(a: Modified, b: Modified) {
    LexLeq(a.entityId, b.entityId)
  }

  lemma ModifiedOrder()
    ensures IsOrder(ModifiedLeq)
  {
    forall a: Modified, b: Modified ensures ModifiedLeq(a, b) || ModifiedLeq(b, a) {
      LexTotal(a.entityId, b.entityId);
    }
    forall a: Modified, b: Modified, c: Modified | ModifiedLeq(a, b) && ModifiedLeq(b, c) ensures ModifiedLeq(a, c) {
      LexTransitive(a.entityId, b.entityId, c.entityId);
    }
  }

  lemma SortedChanges(list: seq<Modified>, changes: map<Bytes, Modified>)
    requires NoDuplicates(list) && forall id :: id in changes ==> changes[id] in list
    requires forall m :: m in list ==> m.entityId in changes && changes[m.entityId] == m
    ensures ListsChanges(Sort(list, ModifiedLeq), changes)
  {
    var sorted := Sort(list, ModifiedLeq);
    ModifiedOrder();
    SortSorts(list, ModifiedLeq);
    SortElements(list, ModifiedLeq);
    SortNoDuplicates(list, ModifiedLeq);
    forall i | 0 <= i < |sorted| ensures sorted[i].entityId in changes && changes[sorted[i].entityId] == sorted[i] {
      assert sorted[i] in sorted;
    }
    forall id | id in changes ensures changes[id] in sorted {
      assert changes[id] in list;
    }
  }

  /** A listing collected into a map by entity id is the view again. */
  method ById(list: seq<Record>, ghost view: View) returns (m: View)
    requires Lists(list, view)
    ensures m == view
  {
    m := map[];
    for i := 0 to |list|
      invariant forall id :: id in m ==> id in view && m[id] == view[id]
      invariant forall j :: 0 <= j < i ==> list[j].entityId in m
    {
      m := m[list[i].entityId := list[i]];
    }
    forall id | id in view ensures id in m {
      assert view[id] in list;
      var j :| 0 <= j < |list| && list[j] == view[id];
      assert list[j].entityId in m;
    }
  }

  /** The elements of map_keys filter: the ids on one side only. */
  method OneSided(here: View, there: View) returns (ids: seq<Bytes>)
    ensures StrictlySorted(ids) && forall id: Bytes :: id in ids <==> id in here && id !in there
  {
    ids := SortedList(here.Keys - there.Keys);
  }

  method ModifiedEntities(fromMap: View, toMap: View) returns (modified: seq<Modified>)
    ensures ListsChanges(modified, Changes(fromMap, toMap))
  {
    ghost var changes := Changes(fromMap, toMap);
    modified := [];
    var todo := toMap.Keys;
    while todo != {}
      invariant todo <= toMap.Keys && NoDuplicates(modified)
      invariant forall m :: m in modified ==> m.entityId in changes && m.entityId !in todo && changes[m.entityId] == m
      invariant forall id :: id in changes && id !in todo ==> changes[id] in modified
      decreases |todo|
    {
      var id :| id in todo;
      todo := todo - {id};
      if id in fromMap && fromMap[id].hash != toMap[id].hash {
        modified := modified + [
          Modified(id, fromMap[id].version, toMap[id].version, fromMap[id].hash, toMap[id].hash)];
      }
    }
    SortedChanges(modified, changes);
    modified := Sort(modified, ModifiedLeq);
  }

  class SnapshotEngine {
    const store: VersionStore

    constructor (store: VersionStore)
      ensures this.store == store
    {
      this.store := store;
    }

    method SnapshotAt(asOf: int, types: seq<EntityType>, ids: seq<Bytes>) returns (out: seq<Record>)
      requires store.Valid()
      ensures Lists(out, Snapshot(store.records, asOf, types, ids))
    {
      out := store.SnapshotRecords(asOf, types, ids);
    }

    /** diff: describes exactly how the later-named snapshot differs from the earlier-named one. */
    method Diff(from: int, to: int, types: seq<EntityType>) returns (d: SnapshotDiff)
      requires store.Valid()
      ensures IsDiff(d, Snapshot(store.records, from, types, []), Snapshot(store.records, to, types, []))
    {
      hide Snapshot, Lists, IsDiff;
      var fromRecords := store.SnapshotRecords(from, types, []);
      var toRecords := store.SnapshotRecords(to, types, []);
      var fromMap := ById(fromRecords, Snapshot(store.records, from, types, []));
      var toMap := ById(toRecords, Snapshot(store.records, to, types, []));
      var added := OneSided(toMap, fromMap);
      var removed := OneSided(fromMap, toMap);
      var modified := ModifiedEntities(fromMap, toMap);
      d := SnapshotDiff(added, removed, modified);
      DiffFromParts(d, fromMap, toMap);
    }
  }

  lemma DiffFromParts(d: SnapshotDiff, a: View, b: View)
    requires StrictlySorted(d.added) && forall id: Bytes :: id in d.added <==> id in b && id !in a
    requires StrictlySorted(d.removed) && forall id: Bytes :: id in d.removed <==> id in a && id !in b
    requires ListsChanges(d.modified, Changes(a, b))
    ensures IsDiff(d, a, b)
  {
  }
}
