/** Frozen-input selection, and pruning of its batches by recorded bounds (inputs.py, _select and
    _selection_batches). */
module Selection {
  import opened Wrappers
  import opened Records
  import opened Segments

  datatype Mode = History | Snapshot | AllVersions

  /** A request for an item input (item = true) or a Raw input, which alone has observation bounds. */
  datatype Request = Request(item: bool, mode: Mode, strict: bool, start: Option<int>, end: Option<int>,
                             observationStart: Option<int>, observationEnd: Option<int>) {

    predicate InRange(v: Version) {
      && (!item && observationStart.Some? ==> observationStart.value <= v.obs)
      && (!item && observationEnd.Some? ==> v.obs <= observationEnd.value)
      && (start.Some? ==> start.value <= v.obs)
      && (end.Some? ==> v.obs <= end.value)
    }

    /** The greater of the declared lower bounds. */
    function Lower(): Option<int> {
      if item || observationStart.None? then start
      else if start.None? then observationStart
      else Some(if start.value < observationStart.value then observationStart.value else start.value)
    }

    /** The lesser of the declared upper bounds. */
    function Upper(): Option<int> {
      if item || observationEnd.None? then end
      else if end.None? then observationEnd
      else Some(if observationEnd.value < end.value then observationEnd.value else end.value)
    }

    predicate Admits(cutoff: Option<int>, v: Version) {
      && !(strict && v.baseline)
      && (cutoff.Some? ==> v.avail <= cutoff.value)
      && (mode.History? ==> v.avail <= v.obs)
    }
  }

  predicate Outside(batch: Segment, request: Request, cutoff: Option<int>) {
    || (request.Lower().Some? && batch.maxObservation.Some? && batch.maxObservation.value < request.Lower().value)
    || (request.Upper().Some? && batch.minObservation.Some? && batch.minObservation.value > request.Upper().value)
    || (cutoff.Some? && batch.minAvailable.Some? && batch.minAvailable.value > cutoff.value)
  }

  datatype Error = SnapshotNeedsCutoff

  datatype Selected = Rows(rows: seq<Version>) | Records(latest: map<Key, Version>)

  /** The batches a request reads; only evidence that retained its bounds may be pruned. */
  function SelectionBatches(batches: seq<Segment>, retained: bool, request: Request, cutoff: Option<int>): seq<Segment>
  {
    if batches == [] then [] else
      var init, last := batches[..|batches| - 1], batches[|batches| - 1];
      SelectionBatches(init, retained, request, cutoff) +
        if retained && Outside(last, request, cutoff) then [] else [last]
  }

  function AllRows(batches: seq<Segment>): seq<Version> {
    if batches == [] then [] else AllRows(batches[..|batches| - 1]) + batches[|batches| - 1].rows
  }

  function Filter(rows: seq<Version>, request: Request, cutoff: Option<int>): seq<Version> {
    if rows == [] then [] else
      var v := rows[|rows| - 1];
      Filter(rows[..|rows| - 1], request, cutoff) +
        if request.Admits(cutoff, v) && request.InRange(v) then [v] else []
  }

  /** The selected row of a record: the latest admitted version, if its observation is in range. */
  function SelectedRecord(rows: seq<Version>, request: Request, cutoff: Option<int>, key: Key): (r: Option<Version>)
    ensures r.Some? ==> r.value in rows && r.value.key == key
  {
    var found := Latest(rows, key, (v: Version) => request.Admits(cutoff, v));
    if found.Some? && request.InRange(found.value) then found else None
  }

  function Select(rows: seq<Version>, request: Request, cutoff: Option<int>): Result<Selected, Error> {
    if request.mode.Snapshot? && cutoff.None? then Failure(SnapshotNeedsCutoff)
    else if request.mode.AllVersions? then Success(Rows(Filter(rows, request, cutoff)))
    else Success(Records(map v | v in rows && SelectedRecord(rows, request, cutoff, v.key).Some?
                           :: v.key := SelectedRecord(rows, request, cutoff, v.key).value))
  }

  // ---------------------------------------------------------------- what is selected

  /** Why a row is kept from a reader. Only Raw inputs have observation bounds beside their own. */
  predicate Withheld(request: Request, cutoff: Option<int>, v: Version) {
    || (v.baseline && request.strict)
    || (cutoff.Some? && cutoff.value < v.avail)
    || (request.mode == History && v.obs < v.avail)
    || (request.start.Some? && v.obs < request.start.value)
    || (request.end.Some? && request.end.value < v.obs)
    || (!request.item && request.observationStart.Some? && v.obs < request.observationStart.value)
    || (!request.item && request.observationEnd.Some? && request.observationEnd.value < v.obs)
  }

  lemma WithheldIs(request: Request, cutoff: Option<int>, v: Version)
    ensures Withheld(request, cutoff, v) <==> !(request.Admits(cutoff, v) && request.InRange(v))
  {}

  /** A read is refused only for a snapshot without a cutoff. The versions view keeps every row that is not withheld, as
      often as it is stored. */
  lemma VersionsRead(rows: seq<Version>, request: Request, cutoff: Option<int>, v: Version)
    ensures Select(rows, request, cutoff).Failure? <==> request.mode == Snapshot && cutoff == None
    ensures request.mode == AllVersions ==>
      multiset(Select(rows, request, cutoff).value.rows)[v] ==
        if Withheld(request, cutoff, v) then 0 else multiset(rows)[v]
  {
    if request.mode == AllVersions {
      FilterCounts(rows, request, cutoff, v);
      WithheldIs(request, cutoff, v);
    }
  }

  lemma {:induction false} FilterCounts(rows: seq<Version>, request: Request, cutoff: Option<int>, v: Version)
    ensures multiset(Filter(rows, request, cutoff))[v] ==
      if request.Admits(cutoff, v) && request.InRange(v) then multiset(rows)[v] else 0
  {
    if rows != [] {
      var init, last := rows[..|rows| - 1], rows[|rows| - 1];
      FilterCounts(init, request, cutoff, v);
      assert rows == init + [last];
    }
  }

  /** In the other views a record is read exactly if some version of it is not withheld, and then its row is the one of
      these that became available last, was then ingested last and then committed last. */
  lemma RecordRead(rows: seq<Version>, request: Request, cutoff: Option<int>, key: Key)
    requires request.mode != AllVersions && Select(rows, request, cutoff).Success?
    ensures var latest := Select(rows, request, cutoff).value.latest;
      && (key in latest <==> exists v :: v in rows && v.key == key && !Withheld(request, cutoff, v))
      && (key in latest ==>
            var r := latest[key];
            && r in rows && r.key == key && !Withheld(request, cutoff, r)
            && forall v | v in rows && v.key == key && !Withheld(request, cutoff, v) ::
                 && v.avail <= r.avail
                 && (v.avail == r.avail ==> v.ingested <= r.ingested)
                 && (v.avail == r.avail && v.ingested == r.ingested ==> v.commit <= r.commit))
  {
    var i := LatestIsNewest(rows, key, (v: Version) => request.Admits(cutoff, v));
    var found := SelectedRecord(rows, request, cutoff, key);
    if found.Some? { assert found.value in rows && found.value.key == key; }
    forall v ensures Withheld(request, cutoff, v) <==> !(request.Admits(cutoff, v) && request.InRange(v)) {
      WithheldIs(request, cutoff, v);
    }
  }

  /** Why a batch is not read: it was observed before some declared lower bound or after some upper bound, or it became
      available after the cutoff. */
  predicate Superfluous(batch: Segment, request: Request, cutoff: Option<int>) {
    || (exists bound | bound in {request.start} + (if request.item then {} else {request.observationStart}) ::
          bound.Some? && batch.maxObservation.Some? && batch.maxObservation.value < bound.value)
    || (exists bound | bound in {request.end} + (if request.item then {} else {request.observationEnd}) ::
          bound.Some? && batch.minObservation.Some? && bound.value < batch.minObservation.value)
    || (cutoff.Some? && batch.minAvailable.Some? && cutoff.value < batch.minAvailable.value)
  }

  lemma OutsideIs(batch: Segment, request: Request, cutoff: Option<int>)
    ensures Outside(batch, request, cutoff) <==> Superfluous(batch, request, cutoff)
  {}

  /** With retained bounds exactly the superfluous batches are left out, and the others are read as often as they are
      captured. */
  lemma {:induction false} BatchesRead(batches: seq<Segment>, retained: bool, request: Request, cutoff: Option<int>,
                                       batch: Segment)
    ensures multiset(SelectionBatches(batches, retained, request, cutoff))[batch] ==
      if retained && Superfluous(batch, request, cutoff) then 0 else multiset(batches)[batch]
  {
    if batches != [] {
      var init, last := batches[..|batches| - 1], batches[|batches| - 1];
      BatchesRead(init, retained, request, cutoff, batch);
      OutsideIs(last, request, cutoff);
      hide Outside, Superfluous;
      assert batches == init + [last];
    }
  }

  // ---------------------------------------------------------------- pruning preserves the selection

  lemma OutsideRowsUnused(batch: Segment, request: Request, cutoff: Option<int>)
    requires batch.BoundsHold() && Outside(batch, request, cutoff)
    ensures forall v | v in batch.rows :: !(request.Admits(cutoff, v) && request.InRange(v))
  {}

  lemma {:induction false} FilterConcat(a: seq<Version>, b: seq<Version>, request: Request, cutoff: Option<int>)
    ensures Filter(a + b, request, cutoff) == Filter(a, request, cutoff) + Filter(b, request, cutoff)
  {
    if b == [] {
      assert a + b == a;
    } else {
      assert (a + b)[..|a + b| - 1] == a + b[..|b| - 1];
      FilterConcat(a, b[..|b| - 1], request, cutoff);
    }
  }

  lemma {:induction false} FilterNothing(rows: seq<Version>, request: Request, cutoff: Option<int>)
    requires forall v | v in rows :: !(request.Admits(cutoff, v) && request.InRange(v))
    ensures Filter(rows, request, cutoff) == []
  {
    if rows != [] { FilterNothing(rows[..|rows| - 1], request, cutoff); }
  }

  lemma {:induction false} FilterPruned(batches: seq<Segment>, request: Request, cutoff: Option<int>)
    requires forall b | b in batches :: b.BoundsHold()
    ensures Filter(AllRows(SelectionBatches(batches, true, request, cutoff)), request, cutoff)
         == Filter(AllRows(batches), request, cutoff)
  {
    if batches != [] {
      var init, last := batches[..|batches| - 1], batches[|batches| - 1];
      var kept := SelectionBatches(init, true, request, cutoff);
      FilterPruned(init, request, cutoff);
      FilterConcat(AllRows(init), last.rows, request, cutoff);
      if Outside(last, request, cutoff) {
        OutsideRowsUnused(last, request, cutoff);
        FilterNothing(last.rows, request, cutoff);
        assert SelectionBatches(batches, true, request, cutoff) == kept;
      } else {
        assert (kept + [last])[..|kept|] == kept;
        FilterConcat(AllRows(kept), last.rows, request, cutoff);
      }
    }
  }

  /** Dropped batches hold no admitted version of a record observed in range. */
  lemma {:induction false} LatestPruned(batches: seq<Segment>, request: Request, cutoff: Option<int>, key: Key)
    requires forall b | b in batches :: b.BoundsHold()
    requires forall b, v | b in batches && v in b.rows && v.key == key :: request.InRange(v)
    ensures Latest(AllRows(SelectionBatches(batches, true, request, cutoff)), key,
      (v: Version) => request.Admits(cutoff, v))
         == Latest(AllRows(batches), key, (v: Version) => request.Admits(cutoff, v))
  {
    if batches != [] {
      var init, last := batches[..|batches| - 1], batches[|batches| - 1];
      var kept := SelectionBatches(init, true, request, cutoff);
      var admitted := (v: Version) => request.Admits(cutoff, v);
      LatestPruned(init, request, cutoff, key);
      if Outside(last, request, cutoff) {
        OutsideRowsUnused(last, request, cutoff);
        LatestSkipsSuffix(AllRows(init), last.rows, key, admitted);
        assert SelectionBatches(batches, true, request, cutoff) == kept;
      } else {
        assert (kept + [last])[..|kept|] == kept;
        LatestExtends(AllRows(kept), AllRows(init), last.rows, key, admitted);
      }
    }
  }

  lemma {:induction false} RowsOfBatches(batches: seq<Segment>, b: Segment, v: Version)
    requires b in batches && v in b.rows
    ensures v in AllRows(batches)
  {
    if b != batches[|batches| - 1] {
      RowsOfBatches(batches[..|batches| - 1], b, v);
    }
  }

  lemma {:induction false} PrunedRowsRemain(batches: seq<Segment>, request: Request, cutoff: Option<int>)
    ensures forall v | v in AllRows(SelectionBatches(batches, true, request, cutoff)) :: v in AllRows(batches)
  {
    if batches != [] {
      var kept := SelectionBatches(batches[..|batches| - 1], true, request, cutoff);
      PrunedRowsRemain(batches[..|batches| - 1], request, cutoff);
      assert (kept + [batches[|batches| - 1]])[..|kept|] == kept;
      assert kept + [] == kept;
    }
  }

  lemma SelectedRecordPruned(batches: seq<Segment>, request: Request, cutoff: Option<int>, key: Key)
    requires forall b | b in batches :: b.BoundsHold()
    ensures SelectedRecord(AllRows(SelectionBatches(batches, true, request, cutoff)), request, cutoff, key)
         == SelectedRecord(AllRows(batches), request, cutoff, key)
  {
    var all, kept := AllRows(batches), AllRows(SelectionBatches(batches, true, request, cutoff));
    PrunedRowsRemain(batches, request, cutoff);
    if v :| v in all && v.key == key && request.InRange(v) {
      forall b, w | b in batches && w in b.rows && w.key == key ensures request.InRange(w) {
        RowsOfBatches(batches, b, w);
        assert w.obs == v.obs;
      }
      LatestPruned(batches, request, cutoff, key);
    }
  }

  /** Reading only the batches kept by their bounds selects the same rows, in every mode, provided the bounds contain
      their rows. No version of a record is lost, since its key fixes its observation date. */
  lemma PruningPreservesSelection(batches: seq<Segment>, retained: bool, request: Request, cutoff: Option<int>)
    requires forall b | b in batches :: b.BoundsHold()
    ensures Select(AllRows(SelectionBatches(batches, retained, request, cutoff)), request, cutoff)
         == Select(AllRows(batches), request, cutoff)
  {
    var all, kept := AllRows(batches), AllRows(SelectionBatches(batches, retained, request, cutoff));
    if !retained {
      NothingPruned(batches, request, cutoff);
    } else if request.mode.AllVersions? {
      FilterPruned(batches, request, cutoff);
    } else {
      PrunedRowsRemain(batches, request, cutoff);
      forall key ensures SelectedRecord(kept, request, cutoff, key) == SelectedRecord(all, request, cutoff, key) {
        SelectedRecordPruned(batches, request, cutoff, key);
      }
      SameRecords(kept, all, request, cutoff);
    }
  }

  lemma SameRecords(kept: seq<Version>, all: seq<Version>, request: Request, cutoff: Option<int>)
    requires forall key :: SelectedRecord(kept, request, cutoff, key) == SelectedRecord(all, request, cutoff, key)
    requires forall v | v in kept :: v in all
    requires !request.mode.AllVersions?
    ensures Select(kept, request, cutoff) == Select(all, request, cutoff)
  {
    if Select(all, request, cutoff).Success? {
      var a, b := Select(all, request, cutoff).value.latest, Select(kept, request, cutoff).value.latest;
      forall key ensures key in a <==> key in b {
        var found := SelectedRecord(kept, request, cutoff, key);
        if found.Some? { assert found.value in kept && found.value.key == key; }
      }
      assert a == b;
    }
  }

  lemma {:induction false} NothingPruned(batches: seq<Segment>, request: Request, cutoff: Option<int>)
    ensures SelectionBatches(batches, false, request, cutoff) == batches
  {
    if batches != [] { NothingPruned(batches[..|batches| - 1], request, cutoff); }
  }
}
