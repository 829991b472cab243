/** What initialisation units leave behind, and which of them a later step may build on
    (items/initialization.py, _reusable_unit; items/api.py, _build). */
module Shelves {
  import opened Wrappers
  import opened Extremes
  import opened Windows
  import opened UnitGaps
  import opened UnitPartition

  // ---------------------------------------------------------------- what a build publishes

  /** A published row: whether it is stored as new content, and whether it attests content stored before. */
  datatype Row = Row(day: int, changed: bool, attested: bool)

  type Publication = seq<Row>

  /** How a build call ends, with what it published. Built stores a unit; Unchanged finds an earlier completion of the
      same window and leaves nothing behind. */
  datatype Outcome =
    | Built(pending: seq<int>, publications: seq<Publication>)
    | Unchanged
    | OutOfMemory(publications: seq<Publication>)
    | Cancelled(publications: seq<Publication>)
  {
    function Published(): seq<Publication> { if Unchanged? then [] else publications }

    /** The run goes on to the next item. */
    predicate Finishes() { Built? || Unchanged? }
  }

  const CHANGED := (row: Row) => row.changed
  const ATTESTED := (row: Row) => row.attested

  /** Rows outside the window of a build are dropped before they are published. */
  function DaysInside(rows: Publication, w: Window, which: Row -> bool): (r: seq<int>)
    ensures forall d :: d in r <==> exists row :: row in rows && which(row) && w.Contains(row.day) && row.day == d
  {
    if rows == [] then [] else
      assert forall row :: row in rows <==> row == rows[0] || row in rows[1..];
      (if which(rows[0]) && w.Contains(rows[0].day) then [rows[0].day] else []) + DaysInside(rows[1..], w, which)
  }

  /** The bounds on record of what each publication stored. */
  function Bounds(published: seq<Publication>, w: Window, which: Row -> bool): (r: seq<Option<Window>>)
    ensures forall c | c in r :: c.Some? && w.first <= c.value.first <= c.value.last <= w.last
  {
    if published == [] then [] else
      var days := DaysInside(published[0], w, which);
      (if days == [] then [] else [Some(Window(Least(days), Greatest(days)))]) + Bounds(published[1..], w, which)
  }

  /** The least window around the days of some rows inside a window. */
  ghost predicate Extent(rows: Publication, w: Window, which: Row -> bool, extent: Window) {
    && (exists row :: row in rows && which(row) && w.Contains(row.day) && row.day == extent.first)
    && (exists row :: row in rows && which(row) && w.Contains(row.day) && row.day == extent.last)
    && forall row | row in rows && which(row) && w.Contains(row.day) :: extent.Contains(row.day)
  }

  /** On record are exactly the extents of the publications that have one. */
  lemma {:induction false} BoundsExactly(published: seq<Publication>, w: Window, which: Row -> bool, extent: Window)
    ensures Some(extent) in Bounds(published, w, which) <==>
              exists rows :: rows in published && Extent(rows, w, which, extent)
  {
    if published != [] {
      BoundsExactly(published[1..], w, which, extent);
      var days := DaysInside(published[0], w, which);
      ExtentIs(published[0], w, which, extent);
      hide Extent;
      assert forall rows :: rows in published <==> rows == published[0] || rows in published[1..];
    }
  }

  lemma ExtentIs(rows: Publication, w: Window, which: Row -> bool, extent: Window)
    ensures var days := DaysInside(rows, w, which);
      Extent(rows, w, which, extent) <==> days != [] && extent == Window(Least(days), Greatest(days))
  {
    var days := DaysInside(rows, w, which);
    assert Extent(rows, w, which, extent) <==>
      extent.first in days && extent.last in days && forall day | day in days :: extent.Contains(day);
    hide DaysInside, Extent, Least, Greatest;
  }

  /** Something was published at all, be it rows already stored. */
  predicate Publishes(published: seq<Publication>, w: Window) {
    exists rows, row :: rows in published && row in rows && w.Contains(row.day)
  }

  lemma {:induction false} NothingStored(published: seq<Publication>, w: Window, which: Row -> bool)
    requires !Publishes(published, w)
    ensures Bounds(published, w, which) == []
  {
    if published != [] {
      assert published[0] in published && forall rows | rows in published[1..] :: rows in published;
      NothingStored(published[1..], w, which);
      var days := DaysInside(published[0], w, which);
      if days != [] { assert days[0] in days; }
    }
  }

  // ---------------------------------------------------------------- reusable units

  /** Stored output on record, or output whose bounds are unknown, may concern a day. */
  predicate Concerns(c: Option<Window>, day: int) { c.None? || c.value.Contains(day) }

  predicate Meets(c: Option<Window>, w: Window) { c.None? || Overlaps(c.value, w) }

  predicate Clear(stored: seq<Option<Window>>, w: Window) { forall c | c in stored :: !Meets(c, w) }

  lemma MeetsOnDay(c: Option<Window>, w: Window) returns (day: int)
    requires Meets(c, w) && w.first <= w.last && (c.Some? ==> c.value.first <= c.value.last)
    ensures w.Contains(day) && Concerns(c, day)
  {
    day := if c.None? || c.value.first < w.first then w.first else c.value.first;
  }

  /** What an item has completed, and the bounds of the commits and of the checks of its output, as far as the frozen
      cutoff sees them; None where bounds are not on record. */
  datatype Shelf = Shelf(units: seq<Finished>, commits: seq<Option<Window>>, checks: seq<Option<Window>>) {

    /** No commit but those the unit answers for, and no check since it was stored, meets its window. */
    predicate Reusable(u: Finished) {
      && u.content <= |commits| && u.checked <= |checks|
      && Clear(commits[u.content..], u.window) && Clear(checks[u.checked..], u.window)
    }

    function UsableUpto(n: nat): (r: seq<Finished>)
      requires n <= |units|
      ensures forall u :: u in r <==> u in units[..n] && Reusable(u)
    {
      if n == 0 then [] else
        assert units[..n] == units[..n - 1] + [units[n - 1]];
        UsableUpto(n - 1) + if Reusable(units[n - 1]) then [units[n - 1]] else []
    }

    /** The units a run builds on. */
    function Usable(): (r: seq<Finished>) { UsableUpto(|units|) }

    predicate Completes(day: int) { Covered(Spans(Usable()), day) }

    /** Boundaries and bounds are in order. */
    ghost predicate InOrder() {
      && (forall u | u in units :: u.content <= |commits| && u.checked <= |checks| && u.window.first <= u.window.last)
      && (forall c | c in commits || c in checks :: c.Some? ==> c.value.first <= c.value.last)
    }
  }

  /** The shelf with what a build published. */
  function Grown(shelf: Shelf, w: Window, published: seq<Publication>): Shelf {
    Shelf(shelf.units, shelf.commits + Bounds(published, w, CHANGED), shelf.checks + Bounds(published, w, ATTESTED))
  }

  /** Nothing stored since the unit, commits from its own boundary on and checks from its own, may concern a day of its
      window. */
  ghost predicate Undisturbed(shelf: Shelf, u: Finished) {
    && (forall k, day | u.content <= k < |shelf.commits| && u.window.Contains(day) :: !Concerns(shelf.commits[k], day))
    && (forall k, day | u.checked <= k < |shelf.checks| && u.window.Contains(day) :: !Concerns(shelf.checks[k], day))
  }

  lemma ClearDays(stored: seq<Option<Window>>, from: nat, w: Window)
    requires from <= |stored| && w.first <= w.last
    requires forall c | c in stored :: c.Some? ==> c.value.first <= c.value.last
    ensures Clear(stored[from..], w) <==>
      forall k, day | from <= k < |stored| && w.Contains(day) :: !Concerns(stored[k], day)
  {
    if !Clear(stored[from..], w) {
      var k :| 0 <= k < |stored[from..]| && Meets(stored[from..][k], w);
      assert stored[from..][k] == stored[from + k] && stored[from + k] in stored;
      var day := MeetsOnDay(stored[from + k], w);
    } else {
      forall k, day | from <= k < |stored| && w.Contains(day) ensures !Concerns(stored[k], day) {
        assert stored[from..][k - from] == stored[k] && stored[k] in stored[from..];
        assert !Meets(stored[k], w);
      }
    }
  }

  /** The usable units are the stored ones that nothing stored since disturbs. */
  lemma UsableMeans(shelf: Shelf)
    requires shelf.InOrder()
    ensures forall u :: u in shelf.Usable() <==> u in shelf.units && Undisturbed(shelf, u)
  {
    assert shelf.units[..|shelf.units|] == shelf.units;
    forall u | u in shelf.units ensures shelf.Reusable(u) <==> Undisturbed(shelf, u) {
      ClearDays(shelf.commits, u.content, u.window);
      ClearDays(shelf.checks, u.checked, u.window);
    }
  }

  /** So a day is completed exactly by such a unit over it. */
  lemma CompletedMeans(shelf: Shelf, day: int)
    requires shelf.InOrder()
    ensures shelf.Completes(day) <==> exists u :: u in shelf.units && u.window.Contains(day) && Undisturbed(shelf, u)
  {
    UsableMeans(shelf);
    SpansCover(shelf.Usable());
  }

  /** The unit a finished build stores. One that published nothing has no result commit, which reads as the boundary
      before all commits. */
  function NewUnit(shelf: Shelf, w: Window, outcome: Outcome): Finished
    requires outcome.Built?
  {
    var grown := Grown(shelf, w, outcome.publications);
    Finished(w, outcome.pending, if Publishes(outcome.publications, w) then |grown.commits| else 0, |grown.checks|)
  }

  /** The shelf after a build of an untouched window. */
  function After(shelf: Shelf, w: Window, outcome: Outcome): Shelf {
    var grown := Grown(shelf, w, outcome.Published());
    if outcome.Built? then Shelf(grown.units + [NewUnit(shelf, w, outcome)], grown.commits, grown.checks) else grown
  }

  /** A build leaves a usable unit: it published something, or nothing stored before meets its window. */
  predicate Lands(shelf: Shelf, w: Window, outcome: Outcome) {
    outcome.Built? && (Publishes(outcome.Published(), w) || Clear(shelf.commits, w))
  }

  /** A build lands exactly if it finished and either published a row of its window or nothing stored before may concern
      a day of it. */
  lemma LandsMeans(shelf: Shelf, w: Window, outcome: Outcome)
    requires shelf.InOrder() && w.first <= w.last
    ensures Lands(shelf, w, outcome) <==>
              outcome.Built? && ((exists rows, row :: rows in outcome.publications && row in rows
                                                      && w.first <= row.day <= w.last)
                                 || forall c, day | c in shelf.commits && w.Contains(day) :: !Concerns(c, day))
  {
    ClearDays(shelf.commits, 0, w);
    assert shelf.commits[0..] == shelf.commits;
    if c, day :| c in shelf.commits && w.Contains(day) && Concerns(c, day) {
      var k :| 0 <= k < |shelf.commits| && shelf.commits[k] == c;
    }
  }

  /** Writing inside a window leaves units that do not meet it reusable, and revives none. */
  lemma WriteKeepsReusable(shelf: Shelf, u: Finished, commits: seq<Option<Window>>, checks: seq<Option<Window>>,
                           w: Window)
    requires u.content <= |shelf.commits| && u.checked <= |shelf.checks|
    requires shelf.Reusable(u) ==> !Overlaps(u.window, w)
    requires forall c | c in commits || c in checks :: c.Some? && w.first <= c.value.first <= c.value.last <= w.last
    ensures Shelf(shelf.units, shelf.commits + commits, shelf.checks + checks).Reusable(u) <==> shelf.Reusable(u)
  {
    assert (shelf.commits + commits)[u.content..] == shelf.commits[u.content..] + commits;
    assert (shelf.checks + checks)[u.checked..] == shelf.checks[u.checked..] + checks;
  }

  lemma {:induction false} WriteKeepsUsable(shelf: Shelf, commits: seq<Option<Window>>, checks: seq<Option<Window>>,
                                            w: Window, n: nat)
    requires n <= |shelf.units| && shelf.InOrder()
    requires forall u | u in shelf.UsableUpto(n) :: !Overlaps(u.window, w)
    requires forall c | c in commits || c in checks :: c.Some? && w.first <= c.value.first <= c.value.last <= w.last
    ensures Shelf(shelf.units, shelf.commits + commits, shelf.checks + checks).UsableUpto(n) == shelf.UsableUpto(n)
  {
    if n > 0 {
      var u := shelf.units[n - 1];
      assert u in shelf.units;
      if shelf.Reusable(u) { assert u in shelf.UsableUpto(n); }
      WriteKeepsUsable(shelf, commits, checks, w, n - 1);
      WriteKeepsReusable(shelf, u, commits, checks, w);
    }
  }

  lemma {:induction false} AddedUnit(shelf: Shelf, u: Finished, n: nat)
    requires n <= |shelf.units|
    ensures Shelf(shelf.units + [u], shelf.commits, shelf.checks).UsableUpto(n) == shelf.UsableUpto(n)
  {
    if n > 0 { AddedUnit(shelf, u, n - 1); }
  }

  lemma SpansMember(units: seq<Finished>, u: Finished)
    requires u in units
    ensures u.window in Spans(units)
  {
    var i :| 0 <= i < |units| && units[i] == u;
    assert Spans(units)[i] in Spans(units);
  }

  lemma UntouchedUnits(shelf: Shelf, w: Window)
    requires Untouched(Spans(shelf.Usable()), w)
    ensures forall u | u in shelf.Usable() :: !Overlaps(u.window, w)
  {
    forall u | u in shelf.Usable() ensures !Overlaps(u.window, w) { SpansMember(shelf.Usable(), u); }
  }

  /** A unit is added to the usable ones exactly when it is reusable. */
  lemma AddedLast(shelf: Shelf, u: Finished)
    ensures var after := Shelf(shelf.units + [u], shelf.commits, shelf.checks);
      after.Usable() == if shelf.Reusable(u) then shelf.Usable() + [u] else shelf.Usable()
  {
    AddedUnit(shelf, u, |shelf.units|);
  }

  /** A unit stored just now is reusable exactly when its build lands. */
  lemma NewUnitReusable(shelf: Shelf, w: Window, outcome: Outcome)
    requires outcome.Built?
    ensures Grown(shelf, w, outcome.publications).Reusable(NewUnit(shelf, w, outcome)) <==> Lands(shelf, w, outcome)
  {
    if !Publishes(outcome.publications, w) {
      NothingStored(outcome.publications, w, CHANGED);
      assert shelf.commits + [] == shelf.commits && shelf.commits[0..] == shelf.commits;
    }
  }

  lemma GrownUsable(shelf: Shelf, w: Window, published: seq<Publication>)
    requires shelf.InOrder() && Untouched(Spans(shelf.Usable()), w)
    ensures Grown(shelf, w, published).InOrder() && Grown(shelf, w, published).Usable() == shelf.Usable()
  {
    UntouchedUnits(shelf, w);
    WriteKeepsUsable(shelf, Bounds(published, w, CHANGED), Bounds(published, w, ATTESTED), w, |shelf.units|);
  }

  /** A build of an untouched window keeps exactly the units that were reusable, and adds its own if and only if it
      lands. */
  lemma AfterUsable(shelf: Shelf, w: Window, outcome: Outcome)
    requires shelf.InOrder() && Untouched(Spans(shelf.Usable()), w) && w.first <= w.last
    ensures After(shelf, w, outcome).InOrder()
    ensures After(shelf, w, outcome).Usable() ==
              if Lands(shelf, w, outcome) then shelf.Usable() + [NewUnit(shelf, w, outcome)] else shelf.Usable()
  {
    GrownUsable(shelf, w, outcome.Published());
    if outcome.Built? {
      AddedLast(Grown(shelf, w, outcome.Published()), NewUnit(shelf, w, outcome));
      NewUnitReusable(shelf, w, outcome);
    }
  }

  lemma AfterCompletes(shelf: Shelf, w: Window, outcome: Outcome, day: int)
    requires w.first <= w.last && shelf.InOrder() && Untouched(Spans(shelf.Usable()), w)
    ensures After(shelf, w, outcome).Completes(day) <==>
      shelf.Completes(day) || (Lands(shelf, w, outcome) && w.Contains(day))
  {
    AfterUsable(shelf, w, outcome);
    if Lands(shelf, w, outcome) {
      SpansAppend(shelf.Usable(), NewUnit(shelf, w, outcome));
      CoveredAppend(Spans(shelf.Usable()), w);
    }
  }

  // ---------------------------------------------------------------- days no unit can complete

  /** A day that is not completed although stored output may concern it. */
  ghost predicate Exposed(shelf: Shelf, day: int) {
    !shelf.Completes(day) && exists c :: c in shelf.commits && Concerns(c, day)
  }

  /** An exposed day stays exposed unless a build over it publishes. */
  lemma ExposedStays(shelf: Shelf, w: Window, outcome: Outcome, day: int)
    requires shelf.InOrder() && Untouched(Spans(shelf.Usable()), w) && Exposed(shelf, day) && w.first <= w.last
    requires w.Contains(day) ==> !(outcome.Built? && Publishes(outcome.Published(), w))
    ensures Exposed(After(shelf, w, outcome), day)
  {
    var c :| c in shelf.commits && Concerns(c, day);
    assert c in After(shelf, w, outcome).commits;
    AfterCompletes(shelf, w, outcome, day);
    if w.Contains(day) { assert Meets(c, w); }
  }

  ghost predicate Sheltered(shelf: Shelf, range: Window) {
    forall day | range.Contains(day) :: !Exposed(shelf, day)
  }

  /** Where no day is exposed every finished build lands, and unless an unfinished one published, no day gets
      exposed. */
  lemma ShelteredStays(shelf: Shelf, w: Window, outcome: Outcome, range: Window)
    requires shelf.InOrder() && Untouched(Spans(shelf.Usable()), w) && Sheltered(shelf, range)
    requires range.first <= w.first <= w.last <= range.last
    requires outcome.Built? || !Publishes(outcome.Published(), w)
    ensures outcome.Built? ==> Lands(shelf, w, outcome)
    ensures Sheltered(After(shelf, w, outcome), range)
  {
    if outcome.Built? && !Clear(shelf.commits, w) {
      var c :| c in shelf.commits && Meets(c, w);
      var day := MeetsOnDay(c, w);
      assert !Exposed(shelf, day);
      UncoveredInside(shelf, w, day);
    }
    var after := After(shelf, w, outcome);
    if !outcome.Built? { NothingStored(outcome.Published(), w, CHANGED); }
    forall day | range.Contains(day) ensures !Exposed(after, day) {
      AfterCompletes(shelf, w, outcome, day);
      assert !Exposed(shelf, day);
    }
  }

  // ---------------------------------------------------------------- output of one wide build, resumed day by day

  /** A build of days 1 to 3 with rows on days 1 and 3 makes one commit, which stays if the build is cancelled. */
  lemma CancelledBulk()
    ensures After(Shelf([], [], []), Window(1, 3), Cancelled([[Row(1, true, false), Row(3, true, false)]]))
         == Shelf([], [Some(Window(1, 3))], [])
  {
    var w := Window(1, 3);
    var rows: Publication := [Row(1, true, false), Row(3, true, false)];
    assert rows[1..] == [Row(3, true, false)] && [Row(3, true, false)][1..] == [];
    assert DaysInside(rows, w, CHANGED) == [1, 3] && DaysInside(rows, w, ATTESTED) == [];
    assert [1, 3][1..] == [3] && [3][1..] == [];
    var one: seq<Publication> := [rows];
    assert |one[1..]| == 0 && Bounds([], w, CHANGED) == [] && Bounds([], w, ATTESTED) == [];
    assert Bounds([rows], w, CHANGED) == [Some(Window(1, 3))] && Bounds([rows], w, ATTESTED) == [];
  }

  /** Publishing rows that are stored already makes no commit. */
  lemma StoredAlready(day: int, w: Window)
    requires w.Contains(day)
    ensures var published := [[Row(day, false, false)]];
      Publishes(published, w) && Bounds(published, w, CHANGED) == []
  {
    var rows: Publication := [Row(day, false, false)];
    var one: seq<Publication> := [rows];
    assert rows[0] in rows && rows in one && |one[1..]| == 0 && rows[1..] == [];
    assert DaysInside(rows, w, CHANGED) == [];
  }

  lemma UncoveredInside(shelf: Shelf, w: Window, day: int)
    requires Untouched(Spans(shelf.Usable()), w) && w.Contains(day)
    ensures !shelf.Completes(day)
  {
    if shelf.Completes(day) {
      var v :| v in Spans(shelf.Usable()) && v.Contains(day);
      assert Overlaps(v, w);
    }
  }
}
