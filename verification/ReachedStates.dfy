/** What holds in every state that a run of the store reaches: its chains verify, its snapshots and
    diffs behave, and two related ids can be driven into a conflict. */
module ReachedStates {
  import opened Ordering
  import opened Results
  import opened Versions
  import opened SnapshotViews
  import opened VersionStores
  import opened CrashRecovery

  /** Some run of appends, refused appends, crashes and reopens from the empty table ends in s. */
  ghost predicate Reached(hash: Hasher, s: State) {
    exists steps :: Runs(hash, Initial, steps, s)
  }

  lemma ReachedConsistent(hash: Hasher, s: State)
    requires Reached(hash, s)
    ensures Consistent(hash, s)
  {
    hide Runs, Consistent;
    var steps :| Runs(hash, Initial, steps, s);
    InitialConsistent(hash);
    RunConsistent(hash, Initial, steps, s);
  }

  // ------------------------------------------------------------- the chains

  lemma PrefixChainOk(hash: Hasher, id: Bytes, chain: seq<Record>, more: seq<Record>)
    requires ChainOk(hash, id, chain + more)
    ensures ChainOk(hash, id, chain)
  {
    hide VerifyIntegrity, ParentOf;
    var whole := chain + more;
    forall i | 0 <= i < |chain|
      ensures chain[i].version == i + 1 && chain[i].entityId == id
      ensures VerifyIntegrity(hash, chain[i]) && chain[i].parent == ParentOf(chain[..i])
    {
      assert whole[i] == chain[i] && whole[..i] == chain[..i];
    }
  }

  /** In every reached state in which the process is up, every chain is well formed and verifies. */
  lemma ReachedChainsVerify(hash: Hasher, s: State)
    requires Reached(hash, s) && s.memory.Some?
    ensures WellFormed(hash, s.memory.value)
    ensures forall id :: LinksVerify(hash, ChainOf(s.memory.value, id))
  {
    hide Reached;
    ReachedConsistent(hash, s);
    forall id: Bytes ensures ChainOk(hash, id, ChainOf(s.memory.value, id)) {
      assert RowsOf(s.rows, id) == ChainOf(s.memory.value, id) + InFlightOf(s, id);
      PrefixChainOk(hash, id, ChainOf(s.memory.value, id), InFlightOf(s, id));
    }
    hide ChainOk;
    forall id | id in s.memory.value ensures ChainOk(hash, id, s.memory.value[id]) {
      assert ChainOf(s.memory.value, id) == s.memory.value[id];
    }
    WellFormedVerifies(hash, s.memory.value);
  }

  lemma ReachedLengths(hash: Hasher, s: State)
    requires Reached(hash, s) && s.memory.Some?
    ensures forall id :: id in s.memory.value ==> |s.memory.value[id]| <= |s.rows|
  {
    hide Reached, ChainOk;
    ReachedConsistent(hash, s);
    forall id | id in s.memory.value ensures |s.memory.value[id]| <= |s.rows| {
      assert RowsOf(s.rows, id) == ChainOf(s.memory.value, id) + InFlightOf(s, id);
      FilterLength(s.rows, IsEntity(id));
    }
  }

  /** The index after appending drafts one by one, without a table. */
  function AppendedAll(hash: Hasher, index: Index, drafts: seq<Draft>): Index {
    if drafts == [] then index
    else
      var front := AppendedAll(hash, index, drafts[..|drafts| - 1]);
      var d := drafts[|drafts| - 1];
      Appended(front, NextRecord(hash, ChainOf(front, d.id), d))
  }

  /** A store without a table: after any appends every chain is well formed and verifies. */
  lemma {:induction false} MemoryChainsVerify(hash: Hasher, drafts: seq<Draft>)
    ensures WellFormed(hash, AppendedAll(hash, map[], drafts))
    ensures forall id :: LinksVerify(hash, ChainOf(AppendedAll(hash, map[], drafts), id))
  {
    hide WellFormed, NextRecord, ChainOk;
    if drafts == [] {
      EmptyIndex(hash);
    } else {
      var k := |drafts| - 1;
      MemoryChainsVerify(hash, drafts[..k]);
      AppendedWellFormed(hash, AppendedAll(hash, map[], drafts[..k]), drafts[k]);
    }
    var index := AppendedAll(hash, map[], drafts);
    WellFormedVerifies(hash, index);
  }

  // ------------------------------------------------- what the chains carry

  function IsDraftOf(id: Bytes): Draft -> bool {
    (d: Draft) => d.id == id
  }

  /** The drafts that the table took, in order. */
  function Persisted(steps: seq<Step>): (r: seq<Draft>)
    ensures |r| <= |steps|
    decreases |steps|
  {
    if steps == [] then []
    else if steps[0].Persist? then [steps[0].d] + Persisted(steps[1..])
    else Persisted(steps[1..])
  }

  /** The table is, draft by draft, what the run appended to it. */
  lemma {:induction false} RunCarries(hash: Hasher, s: State, steps: seq<Step>, end: State)
    requires Runs(hash, s, steps, end)
    ensures Map(end.rows, DraftOf) == Map(s.rows, DraftOf) + Persisted(steps)
    decreases |steps|
  {
    hide Enabled, Do, Map;
    if steps == [] {
      assert Map(s.rows, DraftOf) + [] == Map(s.rows, DraftOf);
    } else {
      var next := Do(hash, s, steps[0]);
      StepCarries(hash, s, steps[0]);
      RunCarries(hash, next, steps[1..], end);
      var before, tail := Map(s.rows, DraftOf), Persisted(steps[1..]);
      assert steps[0].Persist? ==> (before + [steps[0].d]) + tail == before + ([steps[0].d] + tail);
    }
  }

  lemma StepCarries(hash: Hasher, s: State, step: Step)
    requires Enabled(hash, s, step)
    ensures Map(Do(hash, s, step).rows, DraftOf)
            == if step.Persist? then Map(s.rows, DraftOf) + [step.d] else Map(s.rows, DraftOf)
  {
    if step.Persist? {
      var chain := ChainOf(s.memory.value, step.d.id);
      NextRecordCarries(hash, chain, step.d);
      OneMoreCarried(s.rows, NextRecord(hash, chain, step.d));
    }
  }

  lemma OneMoreCarried(rows: seq<Record>, r: Record)
    ensures Map(rows + [r], DraftOf) == Map(rows, DraftOf) + [DraftOf(r)]
  {
  }

  lemma {:induction false} DraftsOfEntity(rows: seq<Record>, id: Bytes)
    ensures Map(RowsOf(rows, id), DraftOf) == Filter(Map(rows, DraftOf), IsDraftOf(id))
  {
    if rows == [] {
    } else {
      var rest := rows[1..];
      DraftsOfEntity(rest, id);
      assert Map(rows, DraftOf)[1..] == Map(rest, DraftOf);
      if rows[0].entityId == id {
        MapCons(rows[0], RowsOf(rest, id), DraftOf);
      }
    }
  }

  /** So after any run from the empty table the chain of an entity, with the record in flight, carries the
      types, contents, nonces, authors, summaries, tags and stamps of the drafts accepted for it, in order. */
  lemma ReachedChainsCarry(hash: Hasher, steps: seq<Step>, s: State, id: Bytes)
    requires Runs(hash, Initial, steps, s) && s.memory.Some?
    ensures Map(ChainOf(s.memory.value, id) + InFlightOf(s, id), DraftOf) == Filter(Persisted(steps), IsDraftOf(id))
  {
    hide Runs, ChainOk, Filter, Map;
    InitialConsistent(hash);
    RunConsistent(hash, Initial, steps, s);
    RunCarries(hash, Initial, steps, s);
    assert RowsOf(s.rows, id) == ChainOf(s.memory.value, id) + InFlightOf(s, id);
    DraftsOfEntity(s.rows, id);
    EmptyMap();
    assert [] + Persisted(steps) == Persisted(steps);
  }

  lemma EmptyMap()
    ensures Map([], DraftOf) == []
  {
  }

  /** And without a table, after any appends. */
  lemma {:induction false} MemoryChainsCarry(hash: Hasher, drafts: seq<Draft>, id: Bytes)
    ensures Map(ChainOf(AppendedAll(hash, map[], drafts), id), DraftOf) == Filter(drafts, IsDraftOf(id))
  {
    hide NextRecord;
    if drafts == [] {
    } else {
      var k := |drafts| - 1;
      var front, d := AppendedAll(hash, map[], drafts[..k]), drafts[k];
      MemoryChainsCarry(hash, drafts[..k], id);
      NextRecordCarries(hash, ChainOf(front, d.id), d);
      FilterAppend(drafts[..k], [d], IsDraftOf(id));
      assert drafts == drafts[..k] + [d] && [d][1..] == [];
    }
  }

  lemma EmptyIndex(hash: Hasher)
    ensures WellFormed(hash, map[])
  {
  }

  lemma WellFormedVerifies(hash: Hasher, index: Index)
    requires WellFormed(hash, index)
    ensures forall id :: LinksVerify(hash, ChainOf(index, id))
  {
    hide ChainOk, LinksVerify;
    forall id: Bytes ensures LinksVerify(hash, ChainOf(index, id)) {
      EmptyChainOk(hash, id);
      ChainOkVerifies(hash, id, ChainOf(index, id));
    }
  }

  // --------------------------------------------------- snapshots and diffs

  /** Snapshots of a reached state: each entity at its highest eligible version. */
  lemma ReachedSnapshot(hash: Hasher, s: State, asOf: int, types: seq<EntityType>, ids: seq<Bytes>, id: Bytes)
    requires Reached(hash, s) && s.memory.Some?
    ensures var index := s.memory.value; var view := Snapshot(index, asOf, types, ids);
            && (id in view <==>
                  (ids == [] || id in ids) && exists r ::
                    r in ChainOf(index, id) && r.createdAt <= asOf && (types == [] || r.entityType in types))
            && (id in view ==>
                  && view[id].entityId == id && view[id] in index[id]
                  && view[id].createdAt <= asOf && (types == [] || view[id].entityType in types)
                  && forall other ::
                       other in index[id] && other.createdAt <= asOf && (types == [] || other.entityType in types) ==>
                         other.version <= view[id].version)
  {
    hide Reached, Snapshot, WellFormed;
    ReachedChainsVerify(hash, s);
    SnapshotIsLatest(hash, s.memory.value, asOf, types, ids, id);
  }

  /** Looking later at a reached state shows more entities, none at a lower version, and the diff of the
      window removes nothing. */
  lemma ReachedWindow(hash: Hasher, s: State, from: int, to: int, types: seq<EntityType>, d: SnapshotDiff)
    requires Reached(hash, s) && s.memory.Some? && from <= to
    requires IsDiff(d, Snapshot(s.memory.value, from, types, []), Snapshot(s.memory.value, to, types, []))
    ensures var a, b := Snapshot(s.memory.value, from, types, []), Snapshot(s.memory.value, to, types, []);
            a.Keys <= b.Keys && (forall id :: id in a ==> a[id].version <= b[id].version) && d.removed == []
  {
    hide Reached, Snapshot, WellFormed, IsDiff;
    ReachedChainsVerify(hash, s);
    SnapshotMonotone(hash, s.memory.value, from, to, types, []);
    ForwardDiffRemovesNothing(hash, s.memory.value, from, to, types, d);
  }

  /** Consecutive diffs of a reached state compose, if no two versions of an entity are a collision and there
      are fewer than 2^64 rows. */
  lemma ReachedDiffsCompose(hash: Hasher, s: State, t0: int, t1: int, t2: int, types: seq<EntityType>)
    requires Reached(hash, s) && s.memory.Some? && t0 <= t1 <= t2 && |s.rows| < U64
    requires forall id :: id in s.memory.value ==> SeparatesRecords(hash, s.memory.value[id])
    ensures var index := s.memory.value;
            var a, b, c := Snapshot(index, t0, types, []), Snapshot(index, t1, types, []),
                Snapshot(index, t2, types, []);
            && c.Keys - a.Keys == (b.Keys - a.Keys) + (c.Keys - b.Keys)
            && Changes(a, c) == ComposedChanges(a.Keys, Changes(a, b), Changes(b, c))
  {
    hide Reached, Snapshot, WellFormed, Changes, ComposedChanges, SeparatesRecords;
    ReachedChainsVerify(hash, s);
    ReachedLengths(hash, s);
    DiffsCompose(hash, s.memory.value, t0, t1, t2, types);
  }

  // --------------------------------------------------------- a reached clash

  /** n times: write a version of d, then acknowledge it. */
  function Appends(d: Draft, n: nat): seq<Step> {
    if n == 0 then [] else [Persist(d), Acknowledge] + Appends(d, n - 1)
  }

  /** The process is up and idle, and the table holds versions of one entity with one content only. */
  ghost predicate OnlyDraft(hash: Hasher, s: State, d: Draft) {
    && Consistent(hash, s) && s.memory.Some? && s.inFlight.None?
    && forall r :: r in s.rows ==> r.entityId == d.id && r.content == d.content
  }

  /** No two of the first n versions of d are a collision. */
  predicate SeparatesVersions(hash: Hasher, d: Draft, n: nat) {
    forall j: nat, k: nat :: 0 < j < k <= n ==>
      Separates(hash, Preimage(d.id, j, d.content), Preimage(d.id, k, d.content))
  }

  lemma NextSeparated(hash: Hasher, s: State, d: Draft, n: nat)
    requires OnlyDraft(hash, s, d) && |s.rows| < n && SeparatesVersions(hash, d, n)
    ensures SeparatesDraft(hash, s, d)
  {
    hide Preimage, Consistent, Separates;
    OnlyChain(hash, s, d);
    forall i | 0 <= i < |s.rows| ensures Separates(hash, PreimageOf(s.rows[i]), DraftPreimage(s, d)) {
      assert s.rows[i] in s.rows;
      VersionWithinRows(hash, s, i);
    }
  }

  lemma VersionWithinRows(hash: Hasher, s: State, i: nat)
    requires Consistent(hash, s) && i < |s.rows|
    ensures 1 <= s.rows[i].version <= |s.rows|
  {
    hide ChainOk, Filter, VerifyIntegrity;
    RowPosition(hash, s.rows, i);
    FilterLength(s.rows, IsEntity(s.rows[i].entityId));
  }

  lemma AppendOnce(hash: Hasher, s: State, d: Draft, n: nat) returns (end: State)
    requires OnlyDraft(hash, s, d) && |s.rows| < n < U64 && SeparatesVersions(hash, d, n)
    ensures Enabled(hash, s, Persist(d)) && Enabled(hash, Do(hash, s, Persist(d)), Acknowledge)
    ensures end == Do(hash, Do(hash, s, Persist(d)), Acknowledge) && OnlyDraft(hash, end, d)
    ensures |end.rows| == |s.rows| + 1 && end.rows[|s.rows|].version == |end.rows|
  {
    hide Consistent, NextRecord, Conflicts, Related, SeparatesDraft, SeparatesVersions;
    assert forall r :: r in s.rows ==> !Related(r.entityId, d.id) by { SameIdUnrelated(d.id); }
    NextSeparated(hash, s, d, n);
    NoConflict(hash, s, d);
    var mid := Do(hash, s, Persist(d));
    end := Do(hash, mid, Acknowledge);
    StepConsistent(hash, s, Persist(d));
    StepConsistent(hash, mid, Acknowledge);
    NextRecordFields(hash, ChainOf(s.memory.value, d.id), d);
    OnlyChain(hash, s, d);
  }

  lemma SameIdUnrelated(id: Bytes)
    ensures !Related(id, id)
  {
  }

  lemma OnlyChain(hash: Hasher, s: State, d: Draft)
    requires OnlyDraft(hash, s, d)
    ensures |ChainOf(s.memory.value, d.id)| == |s.rows|
  {
    hide ChainOk;
    assert RowsOf(s.rows, d.id) == ChainOf(s.memory.value, d.id) + InFlightOf(s, d.id);
    FilterLength(s.rows, IsEntity(d.id));
  }

  lemma {:induction false} AppendsRun(hash: Hasher, s: State, d: Draft, k: nat, n: nat) returns (end: State)
    requires OnlyDraft(hash, s, d) && |s.rows| + k <= n < U64 && SeparatesVersions(hash, d, n)
    ensures Runs(hash, s, Appends(d, k), end) && OnlyDraft(hash, end, d) && |end.rows| == |s.rows| + k
    ensures k > 0 ==> end.rows[|end.rows| - 1].version == |end.rows|
    decreases k
  {
    hide Consistent, OnlyDraft, Enabled, Do, SeparatesVersions;
    if k == 0 {
      end := s;
    } else {
      var next := AppendOnce(hash, s, d, n);
      end := AppendsRun(hash, next, d, k - 1, n);
      var steps := Appends(d, k);
      assert steps[0] == Persist(d) && steps[1..] == [Acknowledge] + Appends(d, k - 1);
      assert steps[1..][0] == Acknowledge && steps[1..][1..] == Appends(d, k - 1);
      assert Runs(hash, Do(hash, s, Persist(d)), steps[1..], end);
    }
  }

  lemma EmptyTable(hash: Hasher, d: Draft)
    ensures Enabled(hash, Initial, Reopen) && OnlyDraft(hash, Do(hash, Initial, Reopen), d)
    ensures Do(hash, Initial, Reopen).rows == []
  {
    InitialConsistent(hash);
    StepConsistent(hash, Initial, Reopen);
  }

  /** Two entities do get into each other's way: once the shorter id has as many versions as the first
      version of the longer one spells, ending in the content that goes with it, that first version is
      refused, though nothing is wrong with the table. */
  lemma ClashReached(hash: Hasher, first: Draft, second: Draft)
    requires first.id < second.id
    requires 1 <= ClashVersion(first.id, second.id, 1, second.content) < U64
    requires first.content == ClashContent(first.id, second.id, 1, second.content)
    requires SeparatesVersions(hash, first, ClashVersion(first.id, second.id, 1, second.content))
    ensures exists s :: Reached(hash, s) && s.memory.Some? && s.inFlight.None? && !Enabled(hash, s, Persist(second))
  {
    hide Consistent, Enabled, Do, ClashVersion, ClashContent, Preimage, Runs, SeparatesVersions;
    var n := ClashVersion(first.id, second.id, 1, second.content);
    EmptyTable(hash, first);
    var start := Do(hash, Initial, Reopen);
    var end := AppendsRun(hash, start, first, n, n);
    assert Runs(hash, Initial, [Reopen] + Appends(first, n), end) by {
      OneStepMore(hash, Initial, Reopen, Appends(first, n), end);
    }
    var last := end.rows[n - 1];
    assert last in end.rows;
    PreimageAmbiguous(first.id, second.id, n, first.content, 1, second.content);
    NoChain(hash, end, first, second.id);
    assert PreimageOf(last) == Preimage(second.id, 1, second.content) == DraftPreimage(end, second);
    SamePreimageRefused(hash, end, second, n - 1);
    assert Reached(hash, end);
  }

  lemma OneStepMore(hash: Hasher, s: State, step: Step, steps: seq<Step>, end: State)
    requires Enabled(hash, s, step) && Runs(hash, Do(hash, s, step), steps, end)
    ensures Runs(hash, s, [step] + steps, end)
  {
    hide Enabled, Do;
    assert ([step] + steps)[1..] == steps;
  }

  lemma NoChain(hash: Hasher, s: State, d: Draft, other: Bytes)
    requires OnlyDraft(hash, s, d) && other != d.id
    ensures ChainOf(s.memory.value, other) == []
  {
    hide ChainOk;
    assert RowsOf(s.rows, other) == ChainOf(s.memory.value, other) + InFlightOf(s, other);
    RowsOfElements(s.rows, other);
  }

  /** For instance: 354 versions of "a", the last with a zero byte before c, and then c as the first
      version of "ab". */
  lemma PrintableClashReached(hash: Hasher, first: Draft, second: Draft)
    requires SeparatesVersions(hash, first, 354) && first.id == [97] && second.id == [97, 98]
            && first.content == [0] + second.content
    ensures exists s :: Reached(hash, s) && s.memory.Some? && s.inFlight.None? && !Enabled(hash, s, Persist(second))
  {
    hide Preimage, Reached, SeparatesVersions, ClashVersion, ClashContent, Enabled;
    PrintableClash(second.content);
    assert first.id < second.id;
    PreimageAmbiguous(first.id, second.id, 354, first.content, 1, second.content);
    ClashReached(hash, first, second);
  }
}
