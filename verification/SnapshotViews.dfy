/** Point-in-time views of the version chains (engine/src/versioning/store.rs, snapshot.rs) and
    what a diff between two says. */
module SnapshotViews {
  import opened Ordering
  import opened Results
  import opened Versions

  type View = map<Bytes, Record>

  predicate Eligible(r: Record, asOf: int, types: seq<EntityType>) {
    r.createdAt <= asOf && (types == [] || r.entityType in types)
  }

  /** versions.iter().rev().find(..): the last eligible record. */
  function LatestAt(chain: seq<Record>, asOf: int, types: seq<EntityType>): (r: Option<Record>)
    ensures r.Some? ==> r.value in chain && Eligible(r.value, asOf, types)
    ensures r.None? <==> forall i :: 0 <= i < |chain| ==> !Eligible(chain[i], asOf, types)
  {
    if chain == [] then None
    else
      var last := chain[|chain| - 1];
      if Eligible(last, asOf, types) then Some(last) else LatestAt(chain[..|chain| - 1], asOf, types)
  }

  function Snapshot(index: Index, asOf: int, types: seq<EntityType>, ids: seq<Bytes>): View {
    map id | id in index && (ids == [] || id in ids) && LatestAt(index[id], asOf, types).Some?
      :: LatestAt(index[id], asOf, types).value
  }

  ghost predicate WellFormed(hash: Hasher, index: Index) {
    forall id :: id in index ==> ChainOk(hash, id, index[id])
  }

  /** Every record is filed under its own entity. */
  predicate Keyed(index: Index) {
    forall id, i :: id in index && 0 <= i < |index[id]| ==> index[id][i].entityId == id
  }

  lemma {:induction false} LatestAtHighest(id: Bytes, chain: seq<Record>, asOf: int, types: seq<EntityType>)
    requires Numbered(id, chain) && LatestAt(chain, asOf, types).Some?
    ensures var r := LatestAt(chain, asOf, types).value;
            && 1 <= r.version <= |chain| && chain[r.version - 1] == r && r.entityId == id
            && forall i :: r.version <= i < |chain| ==> !Eligible(chain[i], asOf, types)
  {
    hide Eligible;
    var n := |chain| - 1;
    assert chain[n].version == n + 1;
    if Eligible(chain[n], asOf, types) {
    } else {
      LatestAtHighest(id, chain[..n], asOf, types);
      assert forall i :: 0 <= i < n ==> chain[..n][i] == chain[i];
    }
  }

  lemma LatestIsMaximal(id: Bytes, chain: seq<Record>, asOf: int, types: seq<EntityType>, other: Record)
    requires Numbered(id, chain) && other in chain && Eligible(other, asOf, types)
    ensures LatestAt(chain, asOf, types).Some? && other.version <= LatestAt(chain, asOf, types).value.version
  {
    hide Eligible, LatestAt;
    var i :| 0 <= i < |chain| && chain[i] == other;
    LatestAtHighest(id, chain, asOf, types);
    assert chain[i].version == i + 1;
  }

  /** A snapshot holds exactly the entities, of the ids asked for if there are any, with a version of one of
      the types asked for, if there are any, that was stamped by then; and each at the highest such version. */
  lemma SnapshotIsLatest(hash: Hasher, index: Index, asOf: int, types: seq<EntityType>, ids: seq<Bytes>, id: Bytes)
    requires WellFormed(hash, index)
    ensures id in Snapshot(index, asOf, types, ids) <==>
      (ids == [] || id in ids)
      && exists r :: r in ChainOf(index, id) && r.createdAt <= asOf && (types == [] || r.entityType in types)
    ensures id in Snapshot(index, asOf, types, ids) ==>
      var r := Snapshot(index, asOf, types, ids)[id];
      && r.entityId == id && r in index[id] && r.createdAt <= asOf && (types == [] || r.entityType in types)
      && forall other :: other in index[id] && other.createdAt <= asOf && (types == [] || other.entityType in types) ==>
           other.version <= r.version
  {
    hide Snapshot, WellFormed;
    SnapshotIsEligible(hash, index, asOf, types, ids, id);
    assert forall r: Record ::
      Eligible(r, asOf, types) == (r.createdAt <= asOf && (types == [] || r.entityType in types));
  }

  lemma SnapshotIsEligible(hash: Hasher, index: Index, asOf: int, types: seq<EntityType>, ids: seq<Bytes>, id: Bytes)
    requires WellFormed(hash, index)
    ensures id in Snapshot(index, asOf, types, ids) <==>
      (ids == [] || id in ids) && exists r :: r in ChainOf(index, id) && Eligible(r, asOf, types)
    ensures id in Snapshot(index, asOf, types, ids) ==>
      var r := Snapshot(index, asOf, types, ids)[id];
      && r.entityId == id && r in index[id] && Eligible(r, asOf, types)
      && forall other :: other in index[id] && Eligible(other, asOf, types) ==> other.version <= r.version
  {
    hide Eligible, LinksVerify, LatestAt;
    var chain := ChainOf(index, id);
    if id in index {
      forall other | other in chain && Eligible(other, asOf, types)
        ensures LatestAt(chain, asOf, types).Some? && other.version <= LatestAt(chain, asOf, types).value.version
      {
        LatestIsMaximal(id, chain, asOf, types, other);
      }
      if LatestAt(chain, asOf, types).Some? {
        LatestAtHighest(id, chain, asOf, types);
      }
    }
  }

  /** Looking later shows at least as many entities, none at a lower version, whatever the clock did. */
  lemma SnapshotMonotone(hash: Hasher, index: Index, from: int, to: int, types: seq<EntityType>, ids: seq<Bytes>)
    requires WellFormed(hash, index) && from <= to
    ensures Snapshot(index, from, types, ids).Keys <= Snapshot(index, to, types, ids).Keys
    ensures forall id :: id in Snapshot(index, from, types, ids) ==>
      Snapshot(index, from, types, ids)[id].version <= Snapshot(index, to, types, ids)[id].version
  {
    forall id | id in Snapshot(index, from, types, ids)
      ensures id in Snapshot(index, to, types, ids)
      ensures Snapshot(index, from, types, ids)[id].version <= Snapshot(index, to, types, ids)[id].version
    {
      var r := LatestAt(index[id], from, types).value;
      assert Eligible(r, to, types);
      LatestIsMaximal(id, index[id], to, types, r);
    }
  }

  /** An append stamped after asOf does not change the snapshot at asOf, nor does a refused one. */
  lemma LaterAppendInvisible(index: Index, r: Record, asOf: int, types: seq<EntityType>, ids: seq<Bytes>)
    requires r.createdAt > asOf
    ensures Snapshot(index[r.entityId := ChainOf(index, r.entityId) + [r]], asOf, types, ids)
            == Snapshot(index, asOf, types, ids)
    ensures Snapshot(index[r.entityId := ChainOf(index, r.entityId)], asOf, types, ids)
            == Snapshot(index, asOf, types, ids)
  {
    assert !Eligible(r, asOf, types);
    hide LatestAt, Eligible;
    var chain, id := ChainOf(index, r.entityId), r.entityId;
    LatestOfLonger(chain, r, asOf, types);
    SameLatestSameSnapshot(index, index[id := chain + [r]], id, asOf, types, ids);
    SameLatestSameSnapshot(index, index[id := chain], id, asOf, types, ids);
  }

  /** after is the view before with the draft in it. */
  ghost predicate ShowsDraft(before: View, after: View, d: Draft) {
    && after.Keys == before.Keys + {d.id}
    && DraftOf(after[d.id]) == d
    && forall id :: id in before && id != d.id ==> after[id] == before[id]
  }

  /** A snapshot after appending a record for d: as before if d is of a later time, or of a type or an id not
      asked for, and otherwise with d in the place of what it showed of the entity. */
  lemma AppendedView(index: Index, r: Record, d: Draft, asOf: int, types: seq<EntityType>, ids: seq<Bytes>)
    requires DraftOf(r) == d
    ensures var before := Snapshot(index, asOf, types, ids);
            var after := Snapshot(index[d.id := ChainOf(index, d.id) + [r]], asOf, types, ids);
            if d.now <= asOf && (types == [] || d.entityType in types) && (ids == [] || d.id in ids)
            then ShowsDraft(before, after, d) else after == before
  {
    hide ShowsDraft, DraftOf;
    var chain := ChainOf(index, d.id);
    LatestOfLonger(chain, r, asOf, types);
    assert Eligible(r, asOf, types) == (d.now <= asOf && (types == [] || d.entityType in types)) by { SameStamp(r, d); }
    hide LatestAt, Eligible;
    if Eligible(r, asOf, types) {
      NewLatest(index, r, d, chain + [r], asOf, types, ids);
    } else {
      SameLatestSameSnapshot(index, index[d.id := chain + [r]], d.id, asOf, types, ids);
    }
  }

  lemma SameStamp(r: Record, d: Draft)
    requires DraftOf(r) == d
    ensures r.createdAt == d.now && r.entityType == d.entityType
  {
  }

  lemma LatestOfLonger(chain: seq<Record>, r: Record, asOf: int, types: seq<EntityType>)
    ensures LatestAt(chain + [r], asOf, types)
            == if Eligible(r, asOf, types) then Some(r) else LatestAt(chain, asOf, types)
    ensures LatestAt([], asOf, types) == None
  {
    assert (chain + [r])[..|chain|] == chain;
  }

  /** A chain with a new latest record, and nothing else changed. */
  lemma NewLatest(index: Index, r: Record, d: Draft, chain: seq<Record>, asOf: int, types: seq<EntityType>,
      ids: seq<Bytes>)
    requires DraftOf(r) == d && LatestAt(chain, asOf, types) == Some(r)
    ensures var before, after := Snapshot(index, asOf, types, ids), Snapshot(index[d.id := chain], asOf, types, ids);
            if ids == [] || d.id in ids then ShowsDraft(before, after, d) else after == before
  {
    hide LatestAt, DraftOf;
    var before, after := Snapshot(index, asOf, types, ids), Snapshot(index[d.id := chain], asOf, types, ids);
    forall id ensures id in after <==> id in before || (id == d.id && (ids == [] || d.id in ids)) {
    }
    if ids == [] || d.id in ids {
      assert after.Keys == before.Keys + {d.id};
    } else {
      assert after.Keys == before.Keys;
    }
  }

  lemma SameLatestSameSnapshot(index: Index, after: Index, id: Bytes, asOf: int, types: seq<EntityType>,
      ids: seq<Bytes>)
    requires id in after && after == index[id := after[id]]
    requires LatestAt(after[id], asOf, types) == LatestAt(ChainOf(index, id), asOf, types)
    requires LatestAt([], asOf, types) == None
    ensures Snapshot(after, asOf, types, ids) == Snapshot(index, asOf, types, ids)
  {
    hide LatestAt, Eligible;
    var l, r := Snapshot(after, asOf, types, ids), Snapshot(index, asOf, types, ids);
    forall x ensures x in l <==> x in r {
    }
    assert l.Keys == r.Keys;
  }

  // ------------------------------------------------------------- listings

  predicate IdLeq(a: Record, b: Record) {
    LexLeq(a.entityId, b.entityId)
  }

  lemma IdOrder()
    ensures IsOrder(IdLeq)
  {
    forall a: Record, b: Record ensures IdLeq(a, b) || IdLeq(b, a) {
      LexTotal(a.entityId, b.entityId);
    }
    forall a: Record, b: Record, c: Record | IdLeq(a, b) && IdLeq(b, c) ensures IdLeq(a, c) {
      LexTransitive(a.entityId, b.entityId, c.entityId);
    }
  }

  /** The records of a view, each entity once, in id order. */
  predicate Lists(list: seq<Record>, view: View) {
    && (forall i, j :: 0 <= i < j < |list| ==> IdLeq(list[i], list[j]) && list[i].entityId != list[j].entityId)
    && (forall i :: 0 <= i < |list| ==> list[i].entityId in view && view[list[i].entityId] == list[i])
    && (forall id :: id in view ==> view[id] in list && view[id].entityId == id)
  }

  /** Sorting any collection of a view's records lists the view. */
  lemma SortedListing(out: seq<Record>, view: View)
    requires NoDuplicates(out) && forall id :: id in view ==> view[id] in out && view[id].entityId == id
    requires forall r :: r in out ==> r.entityId in view && view[r.entityId] == r
    ensures Lists(Sort(out, IdLeq), view)
  {
    var list := Sort(out, IdLeq);
    IdOrder();
    SortSorts(out, IdLeq);
    SortElements(out, IdLeq);
    SortNoDuplicates(out, IdLeq);
    forall i | 0 <= i < |list| ensures list[i].entityId in view && view[list[i].entityId] == list[i] {
      assert list[i] in list;
    }
    forall id | id in view ensures view[id] in list {
      assert view[id] in out;
    }
  }

  lemma ListingEmpty(list: seq<Record>, view: View)
    requires Lists(list, view)
    ensures list == [] <==> view == map[]
  {
    if view != map[] {
      var id :| id in view;
      assert view[id] in list;
    }
    if list != [] {
      assert list[0].entityId in view;
    }
  }

  lemma ListingHead(list: seq<Record>, view: View, id: Bytes)
    requires Lists(list, view) && id in view
    ensures list != [] && view[list[0].entityId] == list[0] && LexLeq(list[0].entityId, id)
  {
    assert view[id] in list;
    var j :| 0 <= j < |list| && list[j] == view[id];
    LexTotal(list[0].entityId, id);
  }

  lemma ListingIds(list: seq<Record>, view: View)
    requires Lists(list, view) && list != []
    ensures list[0].entityId in view
  {
  }

  lemma ListingTail(list: seq<Record>, view: View)
    requires Lists(list, view) && list != []
    ensures Lists(list[1..], view - {list[0].entityId})
  {
    var rest, smaller := list[1..], view - {list[0].entityId};
    forall id | id in smaller ensures smaller[id] in rest {
      assert view[id] in list;
      var j :| 0 <= j < |list| && list[j] == view[id];
      assert j > 0 && rest[j - 1] == view[id];
    }
  }

  /** The order is deterministic: a view has only one listing. */
  lemma {:induction false} ListingUnique(l: seq<Record>, l': seq<Record>, view: View)
    requires Lists(l, view) && Lists(l', view)
    ensures l == l'
  {
    hide Lists, LexLeq;
    ListingEmpty(l, view);
    ListingEmpty(l', view);
    if l == [] {
    } else {
      ListingIds(l, view);
      ListingIds(l', view);
      ListingHead(l', view, l[0].entityId);
      ListingHead(l, view, l'[0].entityId);
      LexTotal(l[0].entityId, l'[0].entityId);
      ListingTail(l, view);
      ListingTail(l', view);
      ListingUnique(l[1..], l'[1..], view - {l[0].entityId});
      assert l == [l[0]] + l[1..] && l' == [l'[0]] + l'[1..];
    }
  }

  // ----------------------------------------------------------------- diffs

  datatype Modified = Modified(entityId: Bytes, fromVersion: nat, toVersion: nat, fromHash: Bytes, toHash: Bytes)

  datatype SnapshotDiff = SnapshotDiff(added: seq<Bytes>, removed: seq<Bytes>, modified: seq<Modified>)

  function Change(id: Bytes, a: Record, b: Record): Modified {
    Modified(id, a.version, b.version, a.hash, b.hash)
  }

  /** The entities present on both sides with different hashes. */
  function Changes(a: View, b: View): map<Bytes, Modified> {
    map id | id in a && id in b && a[id].hash != b[id].hash :: Change(id, a[id], b[id])
  }

  predicate ListsChanges(list: seq<Modified>, changes: map<Bytes, Modified>) {
    && (forall i, j :: 0 <= i < j < |list| ==>
          LexLeq(list[i].entityId, list[j].entityId) && list[i].entityId != list[j].entityId)
    && (forall i :: 0 <= i < |list| ==> list[i].entityId in changes && changes[list[i].entityId] == list[i])
    && (forall id :: id in changes ==> changes[id] in list)
  }

  /** d describes how view b differs from view a. */
  ghost predicate IsDiff(d: SnapshotDiff, a: View, b: View) {
    && StrictlySorted(d.added) && (forall id :: id in d.added <==> id in b && id !in a)
    && StrictlySorted(d.removed) && (forall id :: id in d.removed <==> id in a && id !in b)
    && ListsChanges(d.modified, Changes(a, b))
  }

  /** What a view says about content: the hash of each entity. */
  function Hashes(v: View): map<Bytes, Bytes> {
    map id | id in v :: v[id].hash
  }

  /** The new hash of id according to the modified list. */
  function NewHash(list: seq<Modified>, id: Bytes): Option<Bytes> {
    if list == [] then None else if list[0].entityId == id then Some(list[0].toHash) else NewHash(list[1..], id)
  }

  /** Read a diff as a patch of the id-to-hash table; the hashes of added entities are looked up,
      because a diff names them without their hashes. */
  function Patched(d: SnapshotDiff, hashes: map<Bytes, Bytes>, lookup: map<Bytes, Bytes>): map<Bytes, Bytes> {
    map id | id in hashes.Keys + lookup.Keys
             && ((id in hashes && id !in d.removed) || (id in d.added && id in lookup))
      :: if id in d.added && id in lookup then lookup[id]
         else if NewHash(d.modified, id).Some? then NewHash(d.modified, id).value
         else if id in hashes then hashes[id] else []
  }

  lemma {:induction false} NewHashOf(list: seq<Modified>, id: Bytes)
    ensures NewHash(list, id).None? <==> forall i :: 0 <= i < |list| ==> list[i].entityId != id
    ensures NewHash(list, id).Some? ==>
      exists i :: 0 <= i < |list| && list[i].entityId == id && list[i].toHash == NewHash(list, id).value
  {
    if list == [] || list[0].entityId == id {
    } else {
      var rest := list[1..];
      NewHashOf(rest, id);
      if NewHash(rest, id).Some? {
        var i :| 0 <= i < |rest| && rest[i].entityId == id && rest[i].toHash == NewHash(rest, id).value;
        assert list[i + 1].entityId == id && list[i + 1].toHash == NewHash(list, id).value;
      } else {
        assert forall i :: 1 <= i < |list| ==> list[i] == rest[i - 1];
      }
    }
  }

  lemma NewHashOfChange(d: SnapshotDiff, a: View, b: View, id: Bytes)
    requires IsDiff(d, a, b)
    ensures NewHash(d.modified, id) == if id in Changes(a, b) then Some(b[id].hash) else None
  {
    NewHashOf(d.modified, id);
    if id in Changes(a, b) {
      assert Changes(a, b)[id] in d.modified;
    }
  }

  /** A diff is a patch: applied to the hashes of the first view, with the hashes of the entities it
      adds, it gives the hashes of the second. Without any lookup it is right about every entity it
      does not add, and so is complete exactly when it adds none. */
  lemma DiffIsPatch(d: SnapshotDiff, a: View, b: View)
    requires IsDiff(d, a, b)
    ensures Patched(d, Hashes(a), Hashes(b)) == Hashes(b)
    ensures Patched(d, Hashes(a), map[]) == map id | id in Hashes(b) && id !in d.added :: Hashes(b)[id]
    ensures Patched(d, Hashes(a), map[]) == Hashes(b) <==> d.added == []
  {
    PatchWithLookup(d, a, b);
    PatchWithoutLookup(d, a, b);
    if d.added != [] {
      assert d.added[0] in d.added;
      assert d.added[0] in Hashes(b) && d.added[0] !in Patched(d, Hashes(a), map[]);
    }
  }

  lemma PatchWithLookup(d: SnapshotDiff, a: View, b: View)
    requires IsDiff(d, a, b)
    ensures Patched(d, Hashes(a), Hashes(b)) == Hashes(b)
  {
    hide NewHash, ListsChanges, StrictlySorted;
    var p, q := Patched(d, Hashes(a), Hashes(b)), Hashes(b);
    assert p.Keys == q.Keys;
    forall id | id in q ensures p[id] == q[id] {
      NewHashOfChange(d, a, b, id);
    }
  }

  lemma PatchWithoutLookup(d: SnapshotDiff, a: View, b: View)
    requires IsDiff(d, a, b)
    ensures Patched(d, Hashes(a), map[]) == map id | id in Hashes(b) && id !in d.added :: Hashes(b)[id]
  {
    hide NewHash, ListsChanges, StrictlySorted;
    var p, q := Patched(d, Hashes(a), map[]), map id | id in Hashes(b) && id !in d.added :: Hashes(b)[id];
    assert p.Keys == q.Keys;
    forall id | id in q ensures p[id] == q[id] {
      NewHashOfChange(d, a, b, id);
    }
  }

  /** A diff that adds an entity does not determine the second view: two views that differ in the
      added entity's hash give the same diff. */
  lemma AddedHashUnknown(id: Bytes, r: Record, r': Record)
    requires r.hash != r'.hash
    ensures var d := SnapshotDiff([id], [], []);
            IsDiff(d, map[], map[id := r]) && IsDiff(d, map[], map[id := r'])
                && Hashes(map[id := r]) != Hashes(map[id := r'])
  {
    assert Changes(map[], map[id := r]) == map[] == Changes(map[], map[id := r']);
    assert Hashes(map[id := r])[id] == r.hash && Hashes(map[id := r'])[id] == r'.hash;
  }

  function Reversed(d: SnapshotDiff): SnapshotDiff {
    SnapshotDiff(d.removed, d.added,
      seq(|d.modified|, i requires 0 <= i < |d.modified| =>
        var m := d.modified[i];
        Modified(m.entityId, m.toVersion, m.fromVersion, m.toHash, m.fromHash)))
  }

  /** The diff of the opposite window is the diff read backwards. */
  lemma DiffReverses(d: SnapshotDiff, a: View, b: View)
    requires IsDiff(d, a, b)
    ensures IsDiff(Reversed(d), b, a)
  {
    assert ListsChanges(Reversed(d).modified, Changes(b, a)) by {
      ReversedChanges(d, a, b);
    }
    hide ListsChanges;
  }

  lemma ReversedChanges(d: SnapshotDiff, a: View, b: View)
    requires ListsChanges(d.modified, Changes(a, b))
    ensures ListsChanges(Reversed(d).modified, Changes(b, a))
  {
    hide LexLeq;
    var list, changes := Reversed(d).modified, Changes(b, a);
    forall i | 0 <= i < |list| ensures list[i].entityId in changes && changes[list[i].entityId] == list[i] {
      assert d.modified[i].entityId in Changes(a, b);
    }
    forall id | id in changes ensures changes[id] in list {
      assert id in Changes(a, b);
      var i :| 0 <= i < |d.modified| && d.modified[i] == Changes(a, b)[id];
      assert list[i] == changes[id];
    }
  }

  lemma EmptyHasNoElement(s: seq<Bytes>)
    ensures s == [] <==> forall id: Bytes :: id !in s
  {
    if s != [] {
      assert s[0] in s;
    }
  }

  /** A change reports an entity of both views with different hashes, the versions and hashes it had and has. */
  lemma ChangesReported(d: SnapshotDiff, a: View, b: View, m: Modified)
    requires IsDiff(d, a, b)
    ensures m in d.modified <==>
      && m.entityId in a && m.entityId in b && m.fromHash != m.toHash
      && m.fromVersion == a[m.entityId].version && m.fromHash == a[m.entityId].hash
      && m.toVersion == b[m.entityId].version && m.toHash == b[m.entityId].hash
  {
    var id := m.entityId;
    if id in a && id in b && a[id].hash != b[id].hash {
      assert id in Changes(a, b) && Changes(a, b)[id] in d.modified;
    }
    if m in d.modified {
      var i :| 0 <= i < |d.modified| && d.modified[i] == m;
      assert d.modified[i].entityId in Changes(a, b);
    }
  }

  /** With the window running forward in time nothing is removed, by any clock. */
  lemma ForwardDiffRemovesNothing(hash: Hasher, index: Index, from: int, to: int, types: seq<EntityType>,
      d: SnapshotDiff)
    requires WellFormed(hash, index) && from <= to
    requires IsDiff(d, Snapshot(index, from, types, []), Snapshot(index, to, types, []))
    ensures d.removed == []
  {
    SnapshotMonotone(hash, index, from, to, types, []);
    EmptyHasNoElement(d.removed);
  }

  /** And every change is to a higher version. */
  lemma ForwardChangesAscend(hash: Hasher, index: Index, from: int, to: int, types: seq<EntityType>,
      d: SnapshotDiff, m: Modified)
    requires WellFormed(hash, index) && from <= to && m in d.modified
    requires IsDiff(d, Snapshot(index, from, types, []), Snapshot(index, to, types, []))
    ensures m.fromVersion < m.toVersion
  {
    hide *;
    ChangesReported(d, Snapshot(index, from, types, []), Snapshot(index, to, types, []), m);
    SnapshotMonotone(hash, index, from, to, types, []);
    if m.fromVersion == m.toVersion {
      SameVersionSameHash(hash, index, from, to, types, m.entityId);
    }
  }

  lemma SameVersionSameHash(hash: Hasher, index: Index, s: int, t: int, types: seq<EntityType>, id: Bytes)
    requires WellFormed(hash, index) && id in Snapshot(index, s, types, []) && id in Snapshot(index, t, types, [])
    requires Snapshot(index, s, types, [])[id].version == Snapshot(index, t, types, [])[id].version
    ensures Snapshot(index, s, types, [])[id].hash == Snapshot(index, t, types, [])[id].hash
  {
    var x, y := Snapshot(index, s, types, [])[id], Snapshot(index, t, types, [])[id];
    SnapshotIsLatest(hash, index, s, types, [], id);
    SnapshotIsLatest(hash, index, t, types, [], id);
    assert x in index[id] && y in index[id];
    hide Snapshot;
    assert ChainOk(hash, id, index[id]);
    var i :| 0 <= i < |index[id]| && index[id][i] == x;
    var j :| 0 <= j < |index[id]| && index[id][j] == y;
    assert index[id][i].version == i + 1 && index[id][j].version == j + 1;
  }

  /** Two changes in a row, for the entities that were there at the start: from the earlier start to
      the later end. */
  function ComposedChanges(start: set<Bytes>, first: map<Bytes, Modified>, second: map<Bytes, Modified>)
    : map<Bytes, Modified>
  {
    map id | id in first.Keys + second.Keys && id in start ::
      if id in first && id in second then
        second[id].(fromVersion := first[id].fromVersion, fromHash := first[id].fromHash)
      else if id in first then first[id] else second[id]
  }

  /** Consecutive forward diffs compose: the long diff adds what either adds, and reports a change
      for an entity the first did not add exactly when one of them does, from the earlier start to
      the later end. */
  lemma DiffsCompose(hash: Hasher, index: Index, t0: int, t1: int, t2: int, types: seq<EntityType>)
    requires WellFormed(hash, index) && t0 <= t1 <= t2
    requires forall id :: id in index ==> |index[id]| < U64 && SeparatesRecords(hash, index[id])
    ensures var a, b, c := Snapshot(index, t0, types, []), Snapshot(index, t1, types, []),
                Snapshot(index, t2, types, []);
            && c.Keys - a.Keys == (b.Keys - a.Keys) + (c.Keys - b.Keys)
            && Changes(a, c) == ComposedChanges(a.Keys, Changes(a, b), Changes(b, c))
  {
    hide Snapshot, WellFormed, SeparatesRecords;
    var a, b, c := Snapshot(index, t0, types, []), Snapshot(index, t1, types, []), Snapshot(index, t2, types, []);
    SnapshotMonotone(hash, index, t0, t1, types, []);
    SnapshotMonotone(hash, index, t1, t2, types, []);
    forall id | id in a ensures Unchanged(a[id], b[id]) && Unchanged(b[id], c[id]) && Unchanged(a[id], c[id]) {
      SameHashSameRecord(hash, index, t0, t1, types, id);
      SameHashSameRecord(hash, index, t1, t2, types, id);
      SameHashSameRecord(hash, index, t0, t2, types, id);
    }
    ChangesCompose(a, b, c);
  }

  /** Equal hashes, equal versions and equal records are the same thing. */
  predicate Unchanged(r: Record, r': Record) {
    (r.hash == r'.hash <==> r == r') && (r.version == r'.version <==> r == r')
  }

  lemma ChangesCompose(a: View, b: View, c: View)
    requires a.Keys <= b.Keys <= c.Keys
    requires forall id :: id in a ==> Unchanged(a[id], b[id]) && Unchanged(b[id], c[id]) && Unchanged(a[id], c[id])
    requires forall id :: id in a ==> a[id].version <= b[id].version <= c[id].version
    ensures Changes(a, c) == ComposedChanges(a.Keys, Changes(a, b), Changes(b, c))
  {
    var l, r := Changes(a, c), ComposedChanges(a.Keys, Changes(a, b), Changes(b, c));
    forall id | id in a ensures id in l <==> id in r {
      assert Unchanged(a[id], b[id]) && Unchanged(b[id], c[id]) && Unchanged(a[id], c[id]);
    }
    assert l.Keys == r.Keys;
    forall id | id in l ensures l[id] == r[id] {
      assert Unchanged(a[id], b[id]) && Unchanged(b[id], c[id]);
    }
  }

  /** Two snapshots of one store agree on an entity's hash only by showing the same version of it. */
  lemma SameHashSameRecord(hash: Hasher, index: Index, s: int, t: int, types: seq<EntityType>, id: Bytes)
    requires WellFormed(hash, index)
    requires forall i :: i in index ==> |index[i]| < U64 && SeparatesRecords(hash, index[i])
    requires id in Snapshot(index, s, types, []) && id in Snapshot(index, t, types, [])
    ensures Unchanged(Snapshot(index, s, types, [])[id], Snapshot(index, t, types, [])[id])
  {
    hide LatestAt, ChainOk, SeparatesRecords, Unchanged;
    LatestUnchanged(hash, id, index[id], s, t, types);
  }

  lemma LatestUnchanged(hash: Hasher, id: Bytes, chain: seq<Record>, s: int, t: int, types: seq<EntityType>)
    requires ChainOk(hash, id, chain) && |chain| < U64 && SeparatesRecords(hash, chain)
    requires LatestAt(chain, s, types).Some? && LatestAt(chain, t, types).Some?
    ensures Unchanged(LatestAt(chain, s, types).value, LatestAt(chain, t, types).value)
  {
    hide LatestAt, LinksVerify, SeparatesRecords, Unchanged;
    LatestAtHighest(id, chain, s, types);
    LatestAtHighest(id, chain, t, types);
    var a, b := LatestAt(chain, s, types).value, LatestAt(chain, t, types).value;
    PositionsUnchanged(hash, id, chain, a.version - 1, b.version - 1);
  }

  lemma PositionsUnchanged(hash: Hasher, id: Bytes, chain: seq<Record>, i: nat, j: nat)
    requires ChainOk(hash, id, chain) && |chain| < U64 && SeparatesRecords(hash, chain) && i < |chain| && j < |chain|
    ensures Unchanged(chain[i], chain[j])
  {
    hide LinksVerify, PreimageOf, Separates;
    assert Separates(hash, PreimageOf(chain[i]), PreimageOf(chain[j]));
    VersionsHaveDistinctHashes(hash, id, chain, i, j);
  }
}
