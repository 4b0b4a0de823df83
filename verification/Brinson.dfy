/** Brinson-Hood-Beebower attribution (analytics/pae/models/brinson.py): the checks of each side, the
    three effects of every segment, and when their totals add up to the active return, including the
    segments that only one of the two sides holds. */
module Brinson {
  import opened Ordering
  import opened PythonText
  import opened Reals
  import opened Results
  import Vectors

  const WEIGHT_SUM_TOLERANCE := 0.000001

  /** What a JSON-like value under a key may be. */
  datatype Field = Missing | NotNumeric | Number(value: real)

  datatype RawSegment = NotADict | Dict(name: Option<string>, weight: Field, ret: Field)

  datatype Segment = Segment(name: string, weight: real, ret: real)

  datatype Key = Weight | Return

  datatype Fault =
    | EmptySide
    | EntryNotADict(index: nat)
    | NoName(index: nat)
    | Duplicated(name: string)
    | MissingKey(name: string, key: Key)
    | NonNumeric(name: string, key: Key)
    | OutsideUnit(name: string)
    | BadWeightSum

  datatype Side = Portfolio | Benchmark

  datatype SideFault = SideFault(side: Side, fault: Fault)

  datatype Attribution = Attribution(
    segment: string, portfolioWeight: real, benchmarkWeight: real, portfolioReturn: real, benchmarkReturn: real,
    allocation: real, selection: real, interaction: real, activeContribution: real)

  datatype Report = Report(
    portfolioReturn: real, benchmarkReturn: real, activeReturn: real,
    totalAllocation: real, totalSelection: real, totalInteraction: real, segments: seq<Attribution>)

  // ------------------------------------------------------------ validation

  predicate Named(s: RawSegment) {
    s.Dict? && s.name.Some? && !IsBlank(s.name.value)
  }

  predicate HasName(s: RawSegment, name: string) {
    s.Dict? && s.name == Some(name) && !IsBlank(name)
  }

  predicate NamedBefore(raw: seq<RawSegment>, i: nat, name: string)
    requires i <= |raw|
  {
    exists j :: 0 <= j < i && raw[j].Dict? && raw[j].name == Some(name)
  }

  /** What a fault says of entry i; of a dict with a new name the weight is looked at before the return. */
  predicate Explains(raw: seq<RawSegment>, i: nat, fault: Fault)
    requires i < |raw|
  {
    var s := raw[i];
    match fault
    case EntryNotADict(k) => k == i && s.NotADict?
    case NoName(k) => k == i && s.Dict? && (s.name.None? || IsBlank(s.name.value))
    case Duplicated(name) => HasName(s, name) && NamedBefore(raw, i, name)
    case MissingKey(name, key) =>
      HasName(s, name) && !NamedBefore(raw, i, name)
      && if key == Weight then s.weight == Missing else s.weight.Number? && s.ret == Missing
    case NonNumeric(name, key) =>
      HasName(s, name) && !NamedBefore(raw, i, name)
      && if key == Weight then s.weight == NotNumeric else s.weight.Number? && s.ret == NotNumeric
    case OutsideUnit(name) =>
      && HasName(s, name) && !NamedBefore(raw, i, name) && s.weight.Number? && s.ret.Number?
      && (s.weight.value < 0.0 || s.weight.value > 1.0)
    case _ => false
  }

  /** A dict with a new name, a weight from 0 to 1 and a return. */
  predicate IsFine(raw: seq<RawSegment>, i: nat)
    requires i < |raw|
  {
    var s := raw[i];
    && s.Dict? && s.name.Some? && HasName(s, s.name.value) && !NamedBefore(raw, i, s.name.value)
    && s.weight.Number? && s.ret.Number? && 0.0 <= s.weight.value <= 1.0
  }

  /** The first thing wrong with entry i, if the entries before it are in order. */
  function EntryFault(raw: seq<RawSegment>, i: nat): (fault: Option<Fault>)
    requires i < |raw|
    ensures fault.None? <==> IsFine(raw, i)
    ensures fault.Some? ==> Explains(raw, i, fault.value)
  {
    var s := raw[i];
    if s.NotADict? then Some(EntryNotADict(i))
    else if !Named(s) then Some(NoName(i))
    else if exists j :: 0 <= j < i && raw[j].Dict? && raw[j].name == s.name then Some(Duplicated(s.name.value))
    else if s.weight.Missing? then Some(MissingKey(s.name.value, Weight))
    else if s.weight.NotNumeric? then Some(NonNumeric(s.name.value, Weight))
    else if s.ret.Missing? then Some(MissingKey(s.name.value, Return))
    else if s.ret.NotNumeric? then Some(NonNumeric(s.name.value, Return))
    else if !(0.0 <= s.weight.value <= 1.0) then Some(OutsideUnit(s.name.value))
    else None
  }

  predicate EntriesFine(raw: seq<RawSegment>, k: nat)
    requires k <= |raw|
  {
    forall i :: 0 <= i < k ==> EntryFault(raw, i) == None
  }

  /** The first k entries as segments. */
  function CleanedTo(raw: seq<RawSegment>, k: nat): (r: seq<Segment>)
    requires k <= |raw| && EntriesFine(raw, k)
    ensures |r| == k
  {
    seq(k, i requires 0 <= i < k =>
      assert EntryFault(raw, i) == None; Segment(raw[i].name.value, raw[i].weight.value, raw[i].ret.value))
  }

  function Cleaned(raw: seq<RawSegment>): (r: seq<Segment>)
    requires EntriesFine(raw, |raw|)
    ensures |r| == |raw|
  {
    CleanedTo(raw, |raw|)
  }

  function Total(segments: seq<Segment>, g: Segment -> real): real {
    if segments == [] then 0.0 else Total(segments[..|segments| - 1], g) + g(segments[|segments| - 1])
  }

  lemma TotalSnoc(segments: seq<Segment>, s: Segment, g: Segment -> real)
    ensures Total(segments + [s], g) == Total(segments, g) + g(s)
  {
    assert (segments + [s])[..|segments|] == segments;
  }

  function WeightOf(s: Segment): real { s.weight }

  function PaidBy(s: Segment): real { s.weight * s.ret }

  predicate Distinct(segments: seq<Segment>) {
    forall i, j :: 0 <= i < j < |segments| ==> segments[i].name != segments[j].name
  }

  /** The side is accepted: non-empty, every entry in order, weights within the tolerance of 1. */
  predicate Accepted(raw: seq<RawSegment>) {
    && raw != [] && EntriesFine(raw, |raw|)
    && Abs(Total(Cleaned(raw), WeightOf) - 1.0) <= WEIGHT_SUM_TOLERANCE
  }

  /** names are those of the first i entries. */
  ghost predicate AreNames(raw: seq<RawSegment>, i: nat, names: set<string>)
    requires i <= |raw|
  {
    forall n :: n in names <==> exists j :: 0 <= j < i && raw[j].Dict? && raw[j].name == Some(n)
  }

  /** What is wrong with an entry, given the names before it. */
  function Inspected(s: RawSegment, i: nat, names: set<string>): Option<Fault> {
    if s.NotADict? then Some(EntryNotADict(i))
    else if !Named(s) then Some(NoName(i))
    else if s.name.value in names then Some(Duplicated(s.name.value))
    else if s.weight.Missing? then Some(MissingKey(s.name.value, Weight))
    else if s.weight.NotNumeric? then Some(NonNumeric(s.name.value, Weight))
    else if s.ret.Missing? then Some(MissingKey(s.name.value, Return))
    else if s.ret.NotNumeric? then Some(NonNumeric(s.name.value, Return))
    else if !(0.0 <= s.weight.value <= 1.0) then Some(OutsideUnit(s.name.value))
    else None
  }

  lemma InspectedIsFault(raw: seq<RawSegment>, i: nat, names: set<string>)
    requires i < |raw| && AreNames(raw, i, names)
    ensures Inspected(raw[i], i, names) == EntryFault(raw, i)
  {
    hide IsBlank;
    var s := raw[i];
    if Named(s) {
      assert s.name == Some(s.name.value);
      assert s.name.value in names <==> exists j :: 0 <= j < i && raw[j].Dict? && raw[j].name == s.name;
    }
  }

  /** An entry without fault adds a name and a segment. */
  lemma FineEntry(raw: seq<RawSegment>, i: nat, names: set<string>)
    requires i < |raw| && EntriesFine(raw, i) && EntryFault(raw, i) == None && AreNames(raw, i, names)
    ensures EntriesFine(raw, i + 1)
    ensures raw[i].Dict? && raw[i].name.Some? && raw[i].weight.Number?
            && AreNames(raw, i + 1, names + {raw[i].name.value})
    ensures Total(CleanedTo(raw, i + 1), WeightOf) == Total(CleanedTo(raw, i), WeightOf) + raw[i].weight.value
  {
    FineSoFar(raw, i);
    NameAdded(raw, i, names);
    var segment := Segment(raw[i].name.value, raw[i].weight.value, raw[i].ret.value);
    assert CleanedTo(raw, i + 1) == CleanedTo(raw, i) + [segment];
    TotalSnoc(CleanedTo(raw, i), segment, WeightOf);
  }

  lemma FineSoFar(raw: seq<RawSegment>, i: nat)
    requires i < |raw| && EntriesFine(raw, i) && EntryFault(raw, i) == None
    ensures EntriesFine(raw, i + 1)
  {
    hide EntryFault;
  }

  lemma NameAdded(raw: seq<RawSegment>, i: nat, names: set<string>)
    requires i < |raw| && AreNames(raw, i, names) && raw[i].Dict? && raw[i].name.Some?
    ensures AreNames(raw, i + 1, names + {raw[i].name.value})
  {
    var added := names + {raw[i].name.value};
    forall n | n in added ensures exists j :: 0 <= j < i + 1 && raw[j].Dict? && raw[j].name == Some(n) {
      if n in names {
        var j :| 0 <= j < i && raw[j].Dict? && raw[j].name == Some(n);
      }
    }
  }

  /** The fault a side is refused for: that it is empty, that of its first faulty entry, or the weights. */
  ghost predicate IsFaultOf(raw: seq<RawSegment>, fault: Fault) {
    match fault
    case EmptySide => raw == []
    case BadWeightSum => raw != [] && EntriesFine(raw, |raw|) && !Accepted(raw)
    case _ => exists i :: 0 <= i < |raw| && EntriesFine(raw, i) && EntryFault(raw, i) == Some(fault)
  }

  /** A side is refused exactly when it is not accepted, with the fault of its first faulty entry. */
  method ValidateSegments(raw: seq<RawSegment>) returns (fault: Option<Fault>)
    ensures fault.None? <==> Accepted(raw)
    ensures fault.Some? ==> IsFaultOf(raw, fault.value)
  {
    if raw == [] {
      return Some(EmptySide);
    }
    assert CleanedTo(raw, 0) == [] && Total([], WeightOf) == 0.0;
    hide Total, Abs, CleanedTo, EntryFault, Inspected, AreNames;
    var names: set<string> := {};
    var weightSum := 0.0;
    assert AreNames(raw, 0, names) by { NoNames(raw); }
    for i := 0 to |raw|
      invariant EntriesFine(raw, i) && AreNames(raw, i, names)
      invariant weightSum == Total(CleanedTo(raw, i), WeightOf)
    {
      var s := raw[i];
      var found := Inspect(s, i, names);
      InspectedIsFault(raw, i, names);
      if found.Some? {
        FaultKinds(raw, i);
        return found;
      }
      FineEntry(raw, i, names);
      names := names + {s.name.value};
      weightSum := weightSum + s.weight.value;
    }
    if Abs(weightSum - 1.0) > WEIGHT_SUM_TOLERANCE {
      return Some(BadWeightSum);
    }
    return None;
  }

  lemma NoNames(raw: seq<RawSegment>)
    ensures AreNames(raw, 0, {})
  {
  }

  lemma FaultKinds(raw: seq<RawSegment>, i: nat)
    requires i < |raw|
    ensures EntryFault(raw, i) != Some(EmptySide) && EntryFault(raw, i) != Some(BadWeightSum)
    ensures EntriesFine(raw, |raw|) ==> EntryFault(raw, i) == None
  {
  }

  method Inspect(s: RawSegment, i: nat, names: set<string>) returns (fault: Option<Fault>)
    ensures fault == Inspected(s, i, names)
  {
    if s.NotADict? {
      return Some(EntryNotADict(i));
    }
    if !Named(s) {
      return Some(NoName(i));
    }
    if s.name.value in names {
      return Some(Duplicated(s.name.value));
    }
    var key, field := Weight, s.weight;
    for k := 0 to 2
      invariant k == 0 ==> key == Weight && field == s.weight
      invariant k == 1 ==> key == Return && field == s.ret
      invariant k > 0 ==> s.weight.Number?
      invariant k > 1 ==> s.ret.Number?
    {
      if field.Missing? {
        return Some(MissingKey(s.name.value, key));
      }
      if field.NotNumeric? {
        return Some(NonNumeric(s.name.value, key));
      }
      key, field := Return, s.ret;
    }
    if s.weight.value < 0.0 || s.weight.value > 1.0 {
      return Some(OutsideUnit(s.name.value));
    }
    return None;
  }

  lemma CleanedDistinct(raw: seq<RawSegment>)
    requires EntriesFine(raw, |raw|)
    ensures Distinct(Cleaned(raw))
  {
    var c := Cleaned(raw);
    forall i, j | 0 <= i < j < |c| ensures c[i].name != c[j].name {
      assert EntryFault(raw, i) == None && EntryFault(raw, j) == None;
    }
  }

  /** The weights added up. */
  function WeightSum(raw: seq<RawSegment>): real {
    if raw == [] then 0.0
    else
      var last := raw[|raw| - 1];
      WeightSum(raw[..|raw| - 1]) + if last.Dict? && last.weight.Number? then last.weight.value else 0.0
  }

  /** A side is accepted exactly if it is not empty, its entries are dicts with names that are not blank
      and do not repeat, weights from 0 to 1 and numeric returns, and the weights add up to 1 within 1e-6. */
  lemma AcceptedMeaning(raw: seq<RawSegment>)
    ensures Accepted(raw) <==>
              && raw != [] && (forall i :: 0 <= i < |raw| ==> IsFine(raw, i))
              && 0.999999 <= WeightSum(raw) <= 1.000001
  {
    hide EntryFault, IsFine, Cleaned, CleanedTo, Total;
    assert forall i :: 0 <= i < |raw| ==> (EntryFault(raw, i) == None <==> IsFine(raw, i));
    if EntriesFine(raw, |raw|) {
      CleanedWeight(raw);
    }
  }

  lemma {:induction false} CleanedWeight(raw: seq<RawSegment>)
    requires EntriesFine(raw, |raw|)
    ensures Total(Cleaned(raw), WeightOf) == WeightSum(raw)
  {
    hide EntryFault;
    if raw == [] {
    } else {
      var k := |raw| - 1;
      FinePrefix(raw, k);
      CleanedWeight(raw[..k]);
      assert EntryFault(raw, k) == None;
      assert Cleaned(raw)[..k] == Cleaned(raw[..k]);
    }
  }

  lemma FinePrefix(raw: seq<RawSegment>, k: nat)
    requires k <= |raw| && EntriesFine(raw, |raw|)
    ensures EntriesFine(raw[..k], k)
  {
    hide IsBlank;
    assert forall j :: 0 <= j < k ==> raw[..k][j] == raw[j];
    forall i | 0 <= i < k ensures EntryFault(raw[..k], i) == None {
      assert EntryFault(raw, i) == None;
    }
  }

  // ----------------------------------------------------------- attribution

  function Lookup(segments: seq<Segment>, name: string): (r: Option<Segment>)
    ensures r.Some? <==> exists i :: 0 <= i < |segments| && segments[i].name == name
    ensures r.Some? ==> r.value.name == name && r.value in segments
  {
    if segments == [] then None
    else
      var k := |segments| - 1;
      if segments[k].name == name then Some(segments[k]) else Lookup(segments[..k], name)
  }

  /** The row of one segment name. A side without it counts with weight 0 and its total return. */
  function Row(p: seq<Segment>, b: seq<Segment>, pTotal: real, bTotal: real, name: string): Attribution {
    var ps, bs := Lookup(p, name), Lookup(b, name);
    Effects(name,
            if ps.Some? then ps.value.weight else 0.0, if bs.Some? then bs.value.weight else 0.0,
            if ps.Some? then ps.value.ret else pTotal, if bs.Some? then bs.value.ret else bTotal, bTotal)
  }

  function Effects(name: string, wp: real, wb: real, rp: real, rb: real, bTotal: real): Attribution {
    var allocation, selection, interaction := (wp - wb) * (rb - bTotal), wb * (rp - rb), (wp - wb) * (rp - rb);
    Attribution(name, wp, wb, rp, rb, allocation, selection, interaction, allocation + selection + interaction)
  }

  function NameOf(s: Segment): string { s.name }

  /** Every portfolio segment, then the benchmark segments the portfolio lacks. */
  function Names(p: seq<Segment>, b: seq<Segment>): seq<string> {
    Map(p, NameOf) + Map(Filter(b, (s: Segment) => Lookup(p, s.name).None?), NameOf)
  }

  function Rows(p: seq<Segment>, b: seq<Segment>, pTotal: real, bTotal: real, names: seq<string>): (r: seq<Attribution>)
    ensures |r| == |names|
  {
    seq(|names|, i requires 0 <= i < |names| => Row(p, b, pTotal, bTotal, names[i]))
  }

  function SumRows(rows: seq<Attribution>, g: Attribution -> real): real {
    if rows == [] then 0.0 else SumRows(rows[..|rows| - 1], g) + g(rows[|rows| - 1])
  }

  function AllocationOf(r: Attribution): real { r.allocation }

  function SelectionOf(r: Attribution): real { r.selection }

  function InteractionOf(r: Attribution): real { r.interaction }

  function ReportOf(p: seq<Segment>, b: seq<Segment>): Report {
    var pTotal, bTotal := Total(p, PaidBy), Total(b, PaidBy);
    var rows := Rows(p, b, pTotal, bTotal, Names(p, b));
    Report(pTotal, bTotal, pTotal - bTotal,
           SumRows(rows, AllocationOf), SumRows(rows, SelectionOf), SumRows(rows, InteractionOf), rows)
  }

  method Attribute(rawP: seq<RawSegment>, rawB: seq<RawSegment>) returns (r: Result<Report, SideFault>)
    ensures r.Ok? <==> Accepted(rawP) && Accepted(rawB)
    ensures r.Ok? ==> r.value == ReportOf(Cleaned(rawP), Cleaned(rawB))
    ensures r.Err? ==>
      && r.error.side == (if Accepted(rawP) then Benchmark else Portfolio)
      && IsFaultOf(if Accepted(rawP) then rawB else rawP, r.error.fault)
  {
    hide Accepted, Row, Names, Filter, Total, SumRows, Lookup, EntryFault;
    var fault := ValidateSegments(rawP);
    if fault.Some? {
      return Err(SideFault(Portfolio, fault.value));
    }
    fault := ValidateSegments(rawB);
    if fault.Some? {
      return Err(SideFault(Benchmark, fault.value));
    }
    FineIfAccepted(rawP);
    FineIfAccepted(rawB);
    var p, b := Cleaned(rawP), Cleaned(rawB);
    var pTotal, bTotal := Total(p, PaidBy), Total(b, PaidBy);
    var names := Names(p, b);
    var rows: seq<Attribution> := [];
    for k := 0 to |names|
      invariant |rows| == k && forall j :: 0 <= j < k ==> rows[j] == Row(p, b, pTotal, bTotal, names[j])
    {
      rows := rows + [Row(p, b, pTotal, bTotal, names[k])];
    }
    assert rows == Rows(p, b, pTotal, bTotal, names);
    r := Ok(Report(pTotal, bTotal, pTotal - bTotal,
                   SumRows(rows, AllocationOf), SumRows(rows, SelectionOf), SumRows(rows, InteractionOf), rows));
  }

  lemma FineIfAccepted(raw: seq<RawSegment>)
    requires Accepted(raw)
    ensures EntriesFine(raw, |raw|)
  {
  }

  // ------------------------------------------------------------ the identity

  /** g of the segment with this name; 0 when the side lacks it. */
  function At(segments: seq<Segment>, name: string, g: Segment -> real): real {
    match Lookup(segments, name)
    case Some(s) => g(s)
    case None => 0.0
  }

  function Over(names: seq<string>, segments: seq<Segment>, g: Segment -> real): real {
    if names == [] then 0.0
    else Over(names[..|names| - 1], segments, g) + At(segments, names[|names| - 1], g)
  }

  /** The three effects of one row add up to the difference of what the sides earned in excess of the
      benchmark's total return. */
  lemma RowIdentity(p: seq<Segment>, b: seq<Segment>, pTotal: real, bTotal: real, name: string)
    ensures var r := Row(p, b, pTotal, bTotal, name);
            r.allocation + r.selection + r.interaction
            == At(p, name, PaidBy) - At(b, name, PaidBy) - bTotal * (At(p, name, WeightOf) - At(b, name, WeightOf))
    ensures var r := Row(p, b, pTotal, bTotal, name);
            r.activeContribution
            == r.portfolioWeight * (r.portfolioReturn - bTotal) - r.benchmarkWeight * (r.benchmarkReturn - bTotal)
  {
    var r := Row(p, b, pTotal, bTotal, name);
    EffectsAddUp(r.portfolioWeight, r.benchmarkWeight, r.portfolioReturn, r.benchmarkReturn, bTotal);
  }

  lemma EffectsAddUp(wp: real, wb: real, rp: real, rb: real, bTotal: real)
    ensures (wp - wb) * (rb - bTotal) + wb * (rp - rb) + (wp - wb) * (rp - rb)
            == wp * rp - wb * rb - bTotal * (wp - wb)
    ensures wp * rp - wb * rb - bTotal * (wp - wb) == wp * (rp - bTotal) - wb * (rb - bTotal)
  {
  }

  lemma {:induction false} RowsIdentity(p: seq<Segment>, b: seq<Segment>, pTotal: real, bTotal: real,
      names: seq<string>)
    ensures var rows := Rows(p, b, pTotal, bTotal, names);
            SumRows(rows, AllocationOf) + SumRows(rows, SelectionOf) + SumRows(rows, InteractionOf)
            == Over(names, p, PaidBy) - Over(names, b, PaidBy)
               - bTotal * (Over(names, p, WeightOf) - Over(names, b, WeightOf))
  {
    hide Row, At;
    if names == [] {
    } else {
      var k := |names| - 1;
      var rows := Rows(p, b, pTotal, bTotal, names);
      assert rows[..k] == Rows(p, b, pTotal, bTotal, names[..k]);
      RowsIdentity(p, b, pTotal, bTotal, names[..k]);
      RowIdentity(p, b, pTotal, bTotal, names[k]);
      Distribute(bTotal, Over(names[..k], p, WeightOf) - Over(names[..k], b, WeightOf),
                 At(p, names[k], WeightOf) - At(b, names[k], WeightOf));
    }
  }

  lemma Distribute(c: real, x: real, y: real)
    ensures c * (x + y) == c * x + c * y
  {
  }

  /** Over names without repeats, one more segment adds its value once, if it is named. */
  lemma {:induction false} OverOneMore(names: seq<string>, front: seq<Segment>, s: Segment, g: Segment -> real)
    requires NoDuplicates(names) && Lookup(front, s.name).None?
    ensures Over(names, front + [s], g) == Over(names, front, g) + if s.name in names then g(s) else 0.0
  {
    if names == [] {
    } else {
      var k := |names| - 1;
      OverOneMore(names[..k], front, s, g);
      assert (front + [s])[..|front|] == front;
      assert names == names[..k] + [names[k]];
      assert Lookup(front + [s], names[k]) == if s.name == names[k] then Some(s) else Lookup(front, names[k]);
    }
  }

  /** Names that cover a side see all of it. */
  lemma {:induction false} OverIsTotal(names: seq<string>, segments: seq<Segment>, g: Segment -> real)
    requires NoDuplicates(names) && Distinct(segments)
    requires forall i :: 0 <= i < |segments| ==> segments[i].name in names
    ensures Over(names, segments, g) == Total(segments, g)
  {
    if segments == [] {
      OverNothing(names, g);
    } else {
      var k := |segments| - 1;
      var front, s := segments[..k], segments[k];
      OverIsTotal(names, front, g);
      assert segments == front + [s];
      OverOneMore(names, front, s, g);
    }
  }

  lemma {:induction false} OverNothing(names: seq<string>, g: Segment -> real)
    ensures Over(names, [], g) == 0.0
  {
    if names == [] {
    } else {
      OverNothing(names[..|names| - 1], g);
    }
  }

  /** The list of names has no repeats and covers both sides. */
  lemma NamesCover(p: seq<Segment>, b: seq<Segment>)
    requires Distinct(p) && Distinct(b)
    ensures NoDuplicates(Names(p, b))
    ensures forall i :: 0 <= i < |p| ==> p[i].name in Names(p, b)
    ensures forall i :: 0 <= i < |b| ==> b[i].name in Names(p, b)
  {
    hide Lookup;
    var keep := (s: Segment) => Lookup(p, s.name).None?;
    var extra := Filter(b, keep);
    FilterElements(b, keep);
    FilterDistinct(b, keep);
    var names := Names(p, b);
    assert names == Map(p, NameOf) + Map(extra, NameOf);
    forall i | 0 <= i < |p| ensures p[i].name in names {
      assert names[i] == p[i].name;
    }
    forall i | 0 <= i < |b| ensures b[i].name in names {
      if keep(b[i]) {
        assert b[i] in extra;
        var k :| 0 <= k < |extra| && extra[k] == b[i];
        assert names[|p| + k] == b[i].name;
      } else {
        var k :| 0 <= k < |p| && p[k].name == b[i].name;
        assert names[k] == b[i].name;
      }
    }
    forall i, j | 0 <= i < j < |names| ensures names[i] != names[j] {
      if j >= |p| {
        var e := extra[j - |p|];
        assert e in extra;
        assert keep(e);
      }
    }
  }

  lemma {:induction false} FilterDistinct(segments: seq<Segment>, keep: Segment -> bool)
    requires Distinct(segments)
    ensures Distinct(Filter(segments, keep))
  {
    if segments == [] {
    } else {
      FilterDistinct(segments[1..], keep);
      FilterElements(segments[1..], keep);
      var rest := Filter(segments[1..], keep);
      forall j | 0 <= j < |rest| ensures rest[j].name != segments[0].name {
        assert rest[j] in rest;
        assert rest[j] in segments[1..];
      }
    }
  }

  /** The three totals miss the active return by the benchmark return times the difference in total
      weight: they are exact if and only if that product is 0. */
  lemma {:induction false} TotalsIdentity(p: seq<Segment>, b: seq<Segment>)
    requires Distinct(p) && Distinct(b)
    ensures var r := ReportOf(p, b);
            var missed := r.benchmarkReturn * (Total(p, WeightOf) - Total(b, WeightOf));
            && r.totalAllocation + r.totalSelection + r.totalInteraction == r.activeReturn - missed
            && (r.totalAllocation + r.totalSelection + r.totalInteraction == r.activeReturn
                <==> r.benchmarkReturn == 0.0 || Total(p, WeightOf) == Total(b, WeightOf))
  {
    hide Total, Over, Names, Rows, SumRows;
    var pTotal, bTotal, names := Total(p, PaidBy), Total(b, PaidBy), Names(p, b);
    NamesCover(p, b);
    RowsIdentity(p, b, pTotal, bTotal, names);
    OverIsTotal(names, p, PaidBy);
    OverIsTotal(names, b, PaidBy);
    OverIsTotal(names, p, WeightOf);
    OverIsTotal(names, b, WeightOf);
    ZeroProduct(bTotal, Total(p, WeightOf) - Total(b, WeightOf));
  }

  lemma ZeroProduct(x: real, y: real)
    ensures x * y == 0.0 <==> x == 0.0 || y == 0.0
  {
  }

  /** On accepted input the totals sum to the active return within 2e-6 of the benchmark return. */
  lemma AcceptedTotals(rawP: seq<RawSegment>, rawB: seq<RawSegment>)
    requires Accepted(rawP) && Accepted(rawB)
    ensures var r := ReportOf(Cleaned(rawP), Cleaned(rawB));
            Abs(r.totalAllocation + r.totalSelection + r.totalInteraction - r.activeReturn)
            <= 0.000002 * Abs(r.benchmarkReturn)
  {
    hide Total, ReportOf;
    var p, b := Cleaned(rawP), Cleaned(rawB);
    CleanedDistinct(rawP);
    CleanedDistinct(rawB);
    TotalsIdentity(p, b);
    var r, gap := ReportOf(p, b), Total(p, WeightOf) - Total(b, WeightOf);
    MissedBound(r.benchmarkReturn, gap, r.benchmarkReturn * gap);
  }

  lemma MissedBound(bTotal: real, gap: real, missed: real)
    requires missed == bTotal * gap && -0.000002 <= gap <= 0.000002
    ensures Abs(missed) <= 0.000002 * Abs(bTotal)
  {
    hide Abs;
    var a, c := Abs(gap), Abs(bTotal);
    assert a <= 0.000002;
    AbsProduct(bTotal, gap, missed);
    ScaledBound(a, c, Abs(missed));
  }

  lemma ScaledBound(a: real, c: real, m: real)
    requires m == c * a && 0.0 <= a <= 0.000002 && c >= 0.0
    ensures m <= 0.000002 * c
  {
    ProductNonNegative(0.000002 - a, c, (0.000002 - a) * c);
    assert (0.000002 - a) * c == 0.000002 * c - m;
  }

  // ------------------------------------------------------ one-sided segments

  /** A segment only the portfolio holds: all of its effect is interaction, none is allocation. */
  lemma PortfolioOnly(p: seq<Segment>, b: seq<Segment>, pTotal: real, bTotal: real, s: Segment)
    requires Lookup(p, s.name) == Some(s) && Lookup(b, s.name).None?
    ensures var r := Row(p, b, pTotal, bTotal, s.name);
            r.allocation == 0.0 && r.selection == 0.0 && r.interaction == s.weight * (s.ret - bTotal)
            && r.activeContribution == r.interaction
    ensures Row(p, b, pTotal, bTotal, s.name).interaction == 0.0 <==> s.weight == 0.0 || s.ret == bTotal
  {
    ZeroProduct(s.weight, s.ret - bTotal);
  }

  /** A segment only the benchmark holds: selection and interaction cancel but neither vanishes,
      unless its weight is 0 or it returned what the portfolio did. */
  lemma BenchmarkOnly(p: seq<Segment>, b: seq<Segment>, pTotal: real, bTotal: real, s: Segment)
    requires Lookup(b, s.name) == Some(s) && Lookup(p, s.name).None?
    ensures var r := Row(p, b, pTotal, bTotal, s.name);
            && r.selection + r.interaction == 0.0 && r.activeContribution == r.allocation
            && r.allocation == s.weight * (bTotal - s.ret)
            && (r.selection == 0.0 <==> s.weight == 0.0 || s.ret == pTotal)
            && (r.interaction == 0.0 <==> s.weight == 0.0 || s.ret == pTotal)
  {
    ZeroProduct(s.weight, pTotal - s.ret);
  }

  // ------------------------------------------------- what the effects mean

  /** What a holding earns in excess of the benchmark's total return. */
  function Excess(weight: real, ret: real, bTotal: real): real {
    weight * (ret - bTotal)
  }

  /** Allocation is the change in excess from the benchmark's weight to the portfolio's at the benchmark's
      return, selection the change from the benchmark's return to the portfolio's at the benchmark's
      weight, and interaction what is left of changing both. */
  lemma EffectsMeaning(p: seq<Segment>, b: seq<Segment>, pTotal: real, bTotal: real, name: string)
    ensures var r := Row(p, b, pTotal, bTotal, name);
            var before := Excess(r.benchmarkWeight, r.benchmarkReturn, bTotal);
            && r.segment == name
            && r.allocation == Excess(r.portfolioWeight, r.benchmarkReturn, bTotal) - before
            && r.selection == Excess(r.benchmarkWeight, r.portfolioReturn, bTotal) - before
            && r.activeContribution == Excess(r.portfolioWeight, r.portfolioReturn, bTotal) - before
            && r.interaction == r.activeContribution - r.allocation - r.selection
            && (r.portfolioReturn == r.benchmarkReturn ==> r.selection == 0.0 && r.interaction == 0.0)
            && (r.portfolioWeight == r.benchmarkWeight ==> r.allocation == 0.0 && r.interaction == 0.0)
  {
    var r := Row(p, b, pTotal, bTotal, name);
    EffectsAddUp(r.portfolioWeight, r.benchmarkWeight, r.portfolioReturn, r.benchmarkReturn, bTotal);
  }

  /** A row shows what each side says of the segment; a side without it has weight 0 and its total. */
  lemma RowShows(p: seq<Segment>, b: seq<Segment>, pTotal: real, bTotal: real, name: string)
    requires Distinct(p) && Distinct(b)
    ensures forall i :: 0 <= i < |p| && p[i].name == name ==>
              var r := Row(p, b, pTotal, bTotal, name);
              r.portfolioWeight == p[i].weight && r.portfolioReturn == p[i].ret
    ensures forall i :: 0 <= i < |b| && b[i].name == name ==>
              var r := Row(p, b, pTotal, bTotal, name);
              r.benchmarkWeight == b[i].weight && r.benchmarkReturn == b[i].ret
    ensures (forall i :: 0 <= i < |p| ==> p[i].name != name) ==>
              var r := Row(p, b, pTotal, bTotal, name);
              r.portfolioWeight == 0.0 && r.portfolioReturn == pTotal
    ensures (forall i :: 0 <= i < |b| ==> b[i].name != name) ==>
              var r := Row(p, b, pTotal, bTotal, name);
              r.benchmarkWeight == 0.0 && r.benchmarkReturn == bTotal
  {
    hide Lookup;
  }

  /** Rows come in the order of the portfolio, then in that of the benchmark. */
  lemma NamesInOrder(p: seq<Segment>, b: seq<Segment>)
    ensures |Names(p, b)| >= |p| && forall i :: 0 <= i < |p| ==> Names(p, b)[i] == p[i].name
    ensures forall i, j :: 0 <= i < j < |b| && LackedBy(p, b[i].name) && LackedBy(p, b[j].name) ==>
              exists k, l :: |p| <= k < l < |Names(p, b)| && Names(p, b)[k] == b[i].name && Names(p, b)[l] == b[j].name
  {
    hide Lookup;
    var keep := (s: Segment) => Lookup(p, s.name).None?;
    var names := Names(p, b);
    assert names == Map(p, NameOf) + Map(Filter(b, keep), NameOf);
    forall i, j | 0 <= i < j < |b| && LackedBy(p, b[i].name) && LackedBy(p, b[j].name)
      ensures exists k, l :: |p| <= k < l < |names| && names[k] == b[i].name && names[l] == b[j].name
    {
      var k, l := FilterOrder(b, keep, i, j);
      assert names[|p| + k] == b[i].name && names[|p| + l] == b[j].name;
    }
  }

  predicate LackedBy(segments: seq<Segment>, name: string) {
    forall i :: 0 <= i < |segments| ==> segments[i].name != name
  }

  /** The totals of a report add up its rows, and the returns of the sides their segments. */
  lemma ReportTotals(p: seq<Segment>, b: seq<Segment>)
    ensures var r := ReportOf(p, b);
            var rows := r.segments;
            && r.totalAllocation == Vectors.Sum(seq(|rows|, i requires 0 <= i < |rows| => rows[i].allocation))
            && r.totalSelection == Vectors.Sum(seq(|rows|, i requires 0 <= i < |rows| => rows[i].selection))
            && r.totalInteraction == Vectors.Sum(seq(|rows|, i requires 0 <= i < |rows| => rows[i].interaction))
    ensures var r := ReportOf(p, b);
            && r.portfolioReturn == Vectors.Sum(seq(|p|, i requires 0 <= i < |p| => Times(p[i].weight, p[i].ret)))
            && r.benchmarkReturn == Vectors.Sum(seq(|b|, i requires 0 <= i < |b| => Times(b[i].weight, b[i].ret)))
            && r.activeReturn == r.portfolioReturn - r.benchmarkReturn
  {
    hide SumRows, Total, Row, Names;
    var rows := ReportOf(p, b).segments;
    RowsAddedUp(rows, AllocationOf);
    RowsAddedUp(rows, SelectionOf);
    RowsAddedUp(rows, InteractionOf);
    assert Map(rows, AllocationOf) == seq(|rows|, i requires 0 <= i < |rows| => rows[i].allocation);
    assert Map(rows, SelectionOf) == seq(|rows|, i requires 0 <= i < |rows| => rows[i].selection);
    assert Map(rows, InteractionOf) == seq(|rows|, i requires 0 <= i < |rows| => rows[i].interaction);
    PaidAddedUp(p);
    PaidAddedUp(b);
  }

  lemma PaidAddedUp(s: seq<Segment>)
    ensures Total(s, PaidBy) == Vectors.Sum(seq(|s|, i requires 0 <= i < |s| => Times(s[i].weight, s[i].ret)))
  {
    hide Total;
    SegmentsAddedUp(s, PaidBy);
    assert Map(s, PaidBy) == seq(|s|, i requires 0 <= i < |s| => Times(s[i].weight, s[i].ret));
  }

  lemma {:induction false} RowsAddedUp(rows: seq<Attribution>, g: Attribution -> real)
    ensures SumRows(rows, g) == Vectors.Sum(Map(rows, g))
  {
    if rows == [] {
    } else {
      var k := |rows| - 1;
      RowsAddedUp(rows[..k], g);
      assert Map(rows, g)[..k] == Map(rows[..k], g) && Map(rows, g)[..k + 1] == Map(rows, g);
      Vectors.SumSnoc(Map(rows, g), k);
    }
  }

  lemma {:induction false} SegmentsAddedUp(s: seq<Segment>, g: Segment -> real)
    ensures Total(s, g) == Vectors.Sum(Map(s, g))
  {
    if s == [] {
    } else {
      var k := |s| - 1;
      SegmentsAddedUp(s[..k], g);
      assert Map(s, g)[..k] == Map(s[..k], g) && Map(s, g)[..k + 1] == Map(s, g);
      Vectors.SumSnoc(Map(s, g), k);
    }
  }
}
