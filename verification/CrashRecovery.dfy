/** The store of engine/src/versioning/store.rs and its table as one state machine with crashes. */
module CrashRecovery {
  import opened Ordering
  import opened Results
  import opened Versions
  import opened VersionStores

  /** rows is on disk; memory is the running process's index, None while it is down; inFlight is a
      record written but not yet indexed; acked lists the records whose append returned its hash;
      orphans counts the records that a crash cut off between the two writes. */
  datatype State = State(
    rows: seq<Record>, memory: Option<Index>, inFlight: Option<Record>, acked: seq<Record>, orphans: nat)

  const Initial := State([], None, None, [], 0)

  datatype Step =
    | Persist(d: Draft)     // the table accepts the record
    | Acknowledge           // the record is indexed and its hash returned
    | Refuse(d: Draft)      // the write fails; the append returns an error
    | Crash
    | Reopen

  predicate Enabled(hash: Hasher, s: State, step: Step) {
    match step
    case Persist(d) =>
      s.memory.Some? && s.inFlight.None? && !Conflicts(s.rows, NextRecord(hash, ChainOf(s.memory.value, d.id), d))
    case Acknowledge => s.memory.Some? && s.inFlight.Some?
    case Refuse(d) => s.memory.Some? && s.inFlight.None?
    case Crash => s.memory.Some?
    case Reopen => s.memory.None?
  }

  function Do(hash: Hasher, s: State, step: Step): State
    requires Enabled(hash, s, step)
  {
    match step
    case Persist(d) =>
      var r := NextRecord(hash, ChainOf(s.memory.value, d.id), d);
      s.(rows := s.rows + [r], memory := Some(Touched(s.memory.value, d.id)), inFlight := Some(r))
    case Acknowledge =>
      s.(memory := Some(Appended(s.memory.value, s.inFlight.value)), inFlight := None,
         acked := s.acked + [s.inFlight.value])
    case Refuse(d) => s.(memory := Some(Touched(s.memory.value, d.id)))
    case Crash =>
      s.(memory := None, inFlight := None, orphans := s.orphans + if s.inFlight.Some? then 1 else 0)
    case Reopen => s.(memory := Some(Rebuilt(s.rows)))
  }

  /** A run takes enabled steps only. */
  ghost predicate Runs(hash: Hasher, s: State, steps: seq<Step>, end: State)
    decreases |steps|
  {
    if steps == [] then end == s
    else Enabled(hash, s, steps[0]) && Runs(hash, Do(hash, s, steps[0]), steps[1..], end)
  }

  function InFlightOf(s: State, id: Bytes): seq<Record> {
    if s.inFlight.Some? && s.inFlight.value.entityId == id then [s.inFlight.value] else []
  }

  /** The table holds, entity by entity, exactly the memory chains plus the record in flight; every
      chain is well formed; nothing acknowledged is missing; and the counts add up. */
  ghost predicate Consistent(hash: Hasher, s: State) {
    && (forall id: Bytes :: ChainOk(hash, id, RowsOf(s.rows, id)))
    && (s.memory.Some? ==> forall id: Bytes :: RowsOf(s.rows, id) == ChainOf(s.memory.value, id) + InFlightOf(s, id))
    && (s.memory.None? ==> s.inFlight.None?)
    && (forall r :: r in s.acked ==> r in s.rows)
    && |s.rows| == |s.acked| + s.orphans + (if s.inFlight.Some? then 1 else 0)
  }

  lemma InitialConsistent(hash: Hasher)
    ensures Consistent(hash, Initial)
  {
  }

  lemma PersistConsistent(hash: Hasher, s: State, d: Draft)
    requires Consistent(hash, s) && Enabled(hash, s, Persist(d))
    ensures Consistent(hash, Do(hash, s, Persist(d)))
  {
    hide ChainOk, Filter, NextRecord, Conflicts;
    var s' := Do(hash, s, Persist(d));
    var chain := ChainOf(s.memory.value, d.id);
    var r := NextRecord(hash, chain, d);
    assert r.entityId == d.id by { NextRecordId(hash, chain, d); }
    assert RowsOf(s.rows, d.id) == chain + InFlightOf(s, d.id) == chain;
    forall id: Bytes
      ensures ChainOk(hash, id, RowsOf(s'.rows, id))
      ensures RowsOf(s'.rows, id) == ChainOf(s'.memory.value, id) + InFlightOf(s', id)
    {
      RowsOfAppend(s.rows, r, id);
      assert RowsOf(s.rows, id) == ChainOf(s.memory.value, id) + InFlightOf(s, id);
      if id == d.id {
        AppendKeepsChain(hash, chain, d);
      }
    }
  }

  lemma AcknowledgeConsistent(hash: Hasher, s: State)
    requires Consistent(hash, s) && Enabled(hash, s, Acknowledge)
    ensures Consistent(hash, Do(hash, s, Acknowledge))
  {
    hide ChainOk, RowsOf;
    var s' := Do(hash, s, Acknowledge);
    var r := s.inFlight.value;
    forall id: Bytes ensures RowsOf(s'.rows, id) == ChainOf(s'.memory.value, id) + InFlightOf(s', id) {
      assert RowsOf(s.rows, id) == ChainOf(s.memory.value, id) + InFlightOf(s, id);
    }
    assert r in s.rows by {
      RowsOfElements(s.rows, r.entityId);
      var part := RowsOf(s.rows, r.entityId);
      assert part == ChainOf(s.memory.value, r.entityId) + [r];
      assert part[|part| - 1] in part;
    }
  }

  lemma RefuseConsistent(hash: Hasher, s: State, d: Draft)
    requires Consistent(hash, s) && Enabled(hash, s, Refuse(d))
    ensures Consistent(hash, Do(hash, s, Refuse(d)))
    ensures forall id: Bytes :: ChainOf(Do(hash, s, Refuse(d)).memory.value, id) == ChainOf(s.memory.value, id)
  {
    hide ChainOk, RowsOf;
    var s' := Do(hash, s, Refuse(d));
    forall id: Bytes ensures RowsOf(s'.rows, id) == ChainOf(s'.memory.value, id) + InFlightOf(s', id) {
      assert RowsOf(s.rows, id) == ChainOf(s.memory.value, id) + InFlightOf(s, id);
    }
  }

  lemma {:induction false} ReopenConsistent(hash: Hasher, s: State)
    requires Consistent(hash, s) && Enabled(hash, s, Reopen)
    ensures Consistent(hash, Do(hash, s, Reopen))
  {
    hide ChainOk, RowsOf, Rebuilt;
    var s' := Do(hash, s, Reopen);
    forall id: Bytes ensures RowsOf(s'.rows, id) == ChainOf(s'.memory.value, id) + InFlightOf(s', id) {
      RebuiltChains(hash, s.rows, id);
    }
  }

  lemma {:induction false} StepConsistent(hash: Hasher, s: State, step: Step)
    requires Consistent(hash, s) && Enabled(hash, s, step)
    ensures Consistent(hash, Do(hash, s, step))
    ensures s.rows <= Do(hash, s, step).rows && s.acked <= Do(hash, s, step).acked
  {
    match step
    case Persist(d) => PersistConsistent(hash, s, d);
    case Acknowledge => AcknowledgeConsistent(hash, s);
    case Refuse(d) => RefuseConsistent(hash, s, d);
    case Crash =>
    case Reopen => ReopenConsistent(hash, s);
  }

  /** Every run of appends, refused appends, crashes and reopens keeps the table and the memory
      consistent, and only ever adds to the table and to what was acknowledged. */
  lemma {:induction false} RunConsistent(hash: Hasher, s: State, steps: seq<Step>, end: State)
    requires Consistent(hash, s) && Runs(hash, s, steps, end)
    ensures Consistent(hash, end) && s.rows <= end.rows && s.acked <= end.acked
    decreases |steps|
  {
    hide Consistent, Enabled, Do;
    if steps == [] {
    } else {
      StepConsistent(hash, s, steps[0]);
      RunConsistent(hash, Do(hash, s, steps[0]), steps[1..], end);
    }
  }

  /** No acknowledged version is ever lost or renumbered: whenever the process is up later on, the
      record is in its entity's chain at the position its version number says. */
  lemma AcknowledgedSurvives(hash: Hasher, before: State, steps: seq<Step>, after: State, r: Record)
    requires Consistent(hash, before) && Runs(hash, before, steps, after) && r in before.acked
    requires after.memory.Some?
    ensures var chain := ChainOf(after.memory.value, r.entityId) + InFlightOf(after, r.entityId);
            1 <= r.version <= |chain| && chain[r.version - 1] == r
  {
    hide RowsOf, Runs, VerifyIntegrity, ParentOf;
    assert r in before.rows;
    RunConsistent(hash, before, steps, after);
    RowsOfElements(after.rows, r.entityId);
    var part := RowsOf(after.rows, r.entityId);
    assert part == ChainOf(after.memory.value, r.entityId) + InFlightOf(after, r.entityId);
    assert r in part;
    ChainPosition(hash, r.entityId, part, r);
  }

  lemma ChainPosition(hash: Hasher, id: Bytes, chain: seq<Record>, r: Record)
    requires ChainOk(hash, id, chain) && r in chain
    ensures 1 <= r.version <= |chain| && chain[r.version - 1] == r && VerifyIntegrity(hash, r)
  {
    var i :| 0 <= i < |chain| && chain[i] == r;
    assert chain[i].version == i + 1;
  }

  /** VersionStore.Append over a table is two steps when the write is accepted and one when it is not. */
  lemma AppendSteps(hash: Hasher, s: State, d: Draft)
    requires s.memory.Some? && s.inFlight.None?
    ensures var index, r := s.memory.value, NextRecord(hash, ChainOf(s.memory.value, d.id), d);
            if Conflicts(s.rows, r) then
              !Enabled(hash, s, Persist(d)) && Do(hash, s, Refuse(d)) == s.(memory := Some(Touched(index, d.id)))
            else
              && Enabled(hash, s, Persist(d)) && Enabled(hash, Do(hash, s, Persist(d)), Acknowledge)
              && Do(hash, Do(hash, s, Persist(d)), Acknowledge)
                 == s.(rows := s.rows + [r], memory := Some(Appended(index, r)), acked := s.acked + [r])
  {
    var index, r := s.memory.value, NextRecord(hash, ChainOf(s.memory.value, d.id), d);
    assert Appended(Touched(index, d.id), r) == Appended(index, r);
  }

  /** A crash and a reopen give back exactly the chains that were in memory, plus the one record that
      had reached the table without being acknowledged. */
  lemma CrashThenReopen(hash: Hasher, s: State, id: Bytes)
    requires Consistent(hash, s) && s.memory.Some?
    ensures var reopened := Do(hash, Do(hash, s, Crash), Reopen);
            && ChainOf(reopened.memory.value, id) == ChainOf(s.memory.value, id) + InFlightOf(s, id)
            && reopened.acked == s.acked
  {
    RebuiltChains(hash, s.rows, id);
  }

  /** A stored row sits in its entity's chain below the next version number. */
  lemma RowPosition(hash: Hasher, rows: seq<Record>, i: nat)
    requires i < |rows| && ChainOk(hash, rows[i].entityId, RowsOf(rows, rows[i].entityId))
    ensures 1 <= rows[i].version <= |RowsOf(rows, rows[i].entityId)| && VerifyIntegrity(hash, rows[i])
  {
    RowsOfElements(rows, rows[i].entityId);
    ChainPosition(hash, rows[i].entityId, RowsOf(rows, rows[i].entityId), rows[i]);
  }

  /** The record that appending d would write is no collision with a stored row. */
  predicate SeparatesDraft(hash: Hasher, s: State, d: Draft)
    requires s.memory.Some?
  {
    forall i :: 0 <= i < |s.rows| ==> Separates(hash, PreimageOf(s.rows[i]), DraftPreimage(s, d))
  }

  function DraftPreimage(s: State, d: Draft): Bytes
    requires s.memory.Some?
  {
    Preimage(d.id, |ChainOf(s.memory.value, d.id)| + 1, d.content)
  }

  /** Collisions of the hash aside, the table accepts an append exactly when its preimage is not that of a
      stored version of an id that the new id continues or that continues it. */
  lemma ConflictExactly(hash: Hasher, s: State, d: Draft)
    requires Consistent(hash, s) && s.memory.Some? && s.inFlight.None? && SeparatesDraft(hash, s, d)
    requires |s.rows| + 1 < U64
    ensures Enabled(hash, s, Persist(d))
            <==> forall r :: r in s.rows && Related(r.entityId, d.id) ==> PreimageOf(r) != DraftPreimage(s, d)
  {
    hide Preimage, PreimageOf, Consistent, NextRecord, Related, SeparatesDraft;
    var version := |ChainOf(s.memory.value, d.id)| + 1;
    var next := NextRecord(hash, ChainOf(s.memory.value, d.id), d);
    assert next.entityId == d.id && next.version == version && next.hash == hash(DraftPreimage(s, d)) by {
      NextRecordFields(hash, ChainOf(s.memory.value, d.id), d);
    }
    forall i | 0 <= i < |s.rows|
      ensures !(s.rows[i].entityId == d.id && s.rows[i].version == version)
      ensures s.rows[i].hash == next.hash <==> PreimageOf(s.rows[i]) == DraftPreimage(s, d)
      ensures !Related(s.rows[i].entityId, d.id) ==> s.rows[i].hash != next.hash
    {
      StoredAgainstNext(hash, s, d, i);
    }
    if !Enabled(hash, s, Persist(d)) {
      var i :| 0 <= i < |s.rows| &&
        (s.rows[i].hash == next.hash || (s.rows[i].entityId == next.entityId && s.rows[i].version == next.version));
      assert s.rows[i] in s.rows;
    } else {
      forall r | r in s.rows && Related(r.entityId, d.id)
        ensures PreimageOf(r) != DraftPreimage(s, d)
      {
        var i :| 0 <= i < |s.rows| && s.rows[i] == r;
      }
    }
  }

  lemma NextRecordFields(hash: Hasher, chain: seq<Record>, d: Draft)
    ensures var r := NextRecord(hash, chain, d);
            && r.entityId == d.id && r.version == |chain| + 1 && r.content == d.content
            && r.hash == hash(Preimage(d.id, |chain| + 1, d.content))
  {
    hide Preimage;
  }

  lemma StoredAgainstNext(hash: Hasher, s: State, d: Draft, i: nat)
    requires Consistent(hash, s) && s.memory.Some? && s.inFlight.None? && SeparatesDraft(hash, s, d)
    requires |s.rows| + 1 < U64 && i < |s.rows|
    ensures var row, version := s.rows[i], |ChainOf(s.memory.value, d.id)| + 1;
            && !(row.entityId == d.id && row.version == version)
            && (row.hash == hash(DraftPreimage(s, d)) <==> PreimageOf(row) == DraftPreimage(s, d))
            && (!Related(row.entityId, d.id) ==> row.hash != hash(DraftPreimage(s, d)))
  {
    hide Preimage, LinksVerify, Filter, Numbered, Related;
    var row, version := s.rows[i], |ChainOf(s.memory.value, d.id)| + 1;
    assert RowsOf(s.rows, d.id) == ChainOf(s.memory.value, d.id) + InFlightOf(s, d.id);
    RowPosition(hash, s.rows, i);
    FilterLength(s.rows, IsEntity(row.entityId));
    FilterLength(s.rows, IsEntity(d.id));
    if !Related(row.entityId, d.id) && PreimageOf(row) == DraftPreimage(s, d) {
      PreimageInjective(row.entityId, row.version, row.content, d.id, version, d.content);
    }
  }

  /** Whatever the hash function, a stored row with the preimage of the draft makes the table refuse it. */
  lemma SamePreimageRefused(hash: Hasher, s: State, d: Draft, i: nat)
    requires Consistent(hash, s) && s.memory.Some? && s.inFlight.None? && i < |s.rows|
    requires PreimageOf(s.rows[i]) == DraftPreimage(s, d)
    ensures !Enabled(hash, s, Persist(d))
  {
    hide Preimage, ChainOk, Filter, NextRecord;
    RowPosition(hash, s.rows, i);
    NextRecordFields(hash, ChainOf(s.memory.value, d.id), d);
  }

  /** So as long as no stored id continues the new one or is continued by it, only an I/O failure can
      refuse an append. */
  lemma NoConflict(hash: Hasher, s: State, d: Draft)
    requires Consistent(hash, s) && s.memory.Some? && s.inFlight.None? && SeparatesDraft(hash, s, d)
    requires |s.rows| + 1 < U64 && forall r :: r in s.rows ==> !Related(r.entityId, d.id)
    ensures Enabled(hash, s, Persist(d))
  {
    hide Preimage, PreimageOf, Related, Consistent, Enabled, SeparatesDraft;
    ConflictExactly(hash, s, d);
  }
}
