/** Keeping old days and rebuilding the planned windows equals rebuilding everything
    (items/incremental.py with the input visibility of inputs.py). */
module IncrementalRebuild {
  import opened Wrappers
  import opened Records
  import opened Segments
  import opened Windows
  import opened Calendars
  import opened Incremental
  import History

  // ---------------------------------------------------------------- visible rows

  /** The rows of one input that a reader at a commit and cutoff can see. */
  function Visible(request: Request, segments: seq<Segment>, maxCommit: int, cutoff: int): seq<Version> {
    if segments == [] then [] else
      var s := segments[|segments| - 1];
      Visible(request, segments[..|segments| - 1], maxCommit, cutoff)
        + if s.commit <= maxCommit then VisibleRows(request, s.rows, cutoff) else []
  }

  function VisibleRows(request: Request, rows: seq<Version>, cutoff: int): seq<Version> {
    if rows == [] then [] else
      var v := rows[|rows| - 1];
      VisibleRows(request, rows[..|rows| - 1], cutoff) + if v.avail <= cutoff && request.Admits(v.obs) then [v] else []
  }

  /** The rows observed on one day. */
  function At(rows: seq<Version>, day: int): seq<Version> {
    if rows == [] then [] else
      At(rows[..|rows| - 1], day) + if rows[|rows| - 1].obs == day then [rows[|rows| - 1]] else []
  }

  lemma {:induction false} AtConcat(a: seq<Version>, b: seq<Version>, day: int)
    ensures At(a + b, day) == At(a, day) + At(b, day)
  {
    if b == [] {
      assert a + b == a;
    } else {
      assert (a + b)[..|a + b| - 1] == a + b[..|b| - 1];
      AtConcat(a, b[..|b| - 1], day);
    }
  }

  /** A row the new cutoff and commits reveal. */
  ghost predicate NewlyVisible(q: Query, request: Request, s: Segment, v: Version) {
    v in s.rows && v.avail <= q.end && request.Admits(v.obs) && (s.commit > q.maxCommit || v.avail > q.cutoff)
  }

  /** Whether an output of a day may read observations of a date. */
  ghost predicate Reads(horizon: Horizon, day: int, observed: int) {
    match horizon
    case SameDate => observed == day
    case Forward => observed <= day
    case Finite(history, calendar) =>
      observed <= day && (calendar.Some? ==> History.Reads(calendar.value, history, day, observed))
  }

  /** An output reads its own day, with a calendar from its first day on, and no later one. */
  lemma OwnDayIsRead(horizon: Horizon, day: int, k: nat)
    requires horizon.Finite? && horizon.calendar.Some? ==>
      var calendar := horizon.calendar.value;
      Ascending(calendar) && k < |calendar| && calendar[k] <= day && (k + 1 < |calendar| ==> day < calendar[k + 1])
    ensures Reads(horizon, day, day)
    ensures forall observed | day < observed :: !Reads(horizon, day, observed)
  {
    match horizon
    case Finite(history, Some(calendar)) =>
      History.ReadsByIndex(calendar, history, day, k, day);
      if k >= history && history > 0 { assert calendar[k - history] < calendar[k]; }
      if k > 0 { assert calendar[0] < calendar[k]; }
    case _ =>
  }

  /** The planner's end of impact of a change up to a last date is right for the day. Only a finite history can fail
      this, and only on a day off the calendar. */
  ghost predicate Served(q: Query, last: int, day: int) {
    match q.horizon
    case Finite(history, Some(calendar)) =>
      (calendar != [] || history > 0) && History.AffectedEnd(calendar, history, last, q.end) < day <= q.end ==>
        History.OutOfReach(calendar, history, last, day)
    case _ => true
  }

  lemma RangeImpactSound(q: Query, first: int, last: int, day: int, observed: int)
    requires q.Valid() && first <= observed <= last <= q.end
    requires q.start <= day <= q.Through() && Reads(q.horizon, day, observed) && Served(q, last, day)
    ensures var i := RangeImpact(q, first, last); !Known([i]) || (i.Affects? && i.window.Contains(day))
  {
    WindowsOfOne(RangeImpact(q, first, last));
    match q.horizon
    case SameDate =>
    case Forward =>
    case Finite(history, calendar) =>
      if calendar.Some? && !(calendar.value == [] && history == 0) {
        if History.AffectedEnd(calendar.value, history, last, q.end) < day {
          History.DayOutOfReach(calendar.value, history, last, q.end, day);
        }
      }
  }

  /** A newly visible row is either unknown to the plan or inside the window of every day that reads it. */
  lemma SegmentImpactSound(q: Query, request: Request, s: Segment, v: Version, day: int)
    requires q.Valid() && s.BoundsHold() && NewlyVisible(q, request, s, v)
    requires q.start <= day <= q.Through() && Reads(q.horizon, day, v.obs)
    requires s.maxObservation.Some? ==> Served(q, LastChanged(q, request, s), day)
    ensures var i := SegmentImpact(q, request, s); !Known([i]) || (i.Affects? && i.window.Contains(day))
  {
    assert s.Bounds(v);
    WindowsOfOne(SegmentImpact(q, request, s));
    var lower, upper := LowerBound(q, s), s.maxObservation;
    if lower.Some? && upper.Some? {
      assert lower.value <= v.obs <= upper.value;
      assert v.obs <= day <= q.end;
      RangeImpactSound(q, AtLeast(AtLeast(lower.value, request.start), request.observationStart),
        LastChanged(q, request, s), day, v.obs);
    }
  }

  lemma VisibleRowsLast(request: Request, init: seq<Version>, v: Version, cutoff: int, day: int)
    ensures At(VisibleRows(request, init + [v], cutoff), day) ==
      At(VisibleRows(request, init, cutoff), day)
        + if v.avail <= cutoff && request.Admits(v.obs) && v.obs == day then [v] else []
  {
    assert (init + [v])[..|init|] == init;
    AtConcat(VisibleRows(request, init, cutoff), if v.avail <= cutoff && request.Admits(v.obs) then [v] else [], day);
    AtOne(v, day);
  }

  /** Rows of a day are the same for two readers who agree on which of them are available. */
  lemma {:induction false} RowsAgree(request: Request, rows: seq<Version>, counted: bool, cutoff: int, end: int,
                                     day: int)
    requires forall v | v in rows && v.obs == day && request.Admits(day) ::
      v.avail <= end <==> counted && v.avail <= cutoff
    ensures At(VisibleRows(request, rows, end), day) ==
      if counted then At(VisibleRows(request, rows, cutoff), day) else []
  {
    if rows != [] {
      var init, v := rows[..|rows| - 1], rows[|rows| - 1];
      assert rows == init + [v];
      RowsAgree(request, init, counted, cutoff, end, day);
      VisibleRowsLast(request, init, v, end, day);
      VisibleRowsLast(request, init, v, cutoff, day);
    }
  }

  lemma AtOne(v: Version, day: int)
    ensures At([v], day) == (if v.obs == day then [v] else []) && At([], day) == []
  {
    assert [v][..0] == [];
  }

  /** If no row of a date is newly visible, old and new readers see the same rows of that date. */
  lemma {:induction false} VisibleAgree(q: Query, request: Request, segments: seq<Segment>, maxCommit: int, day: int)
    requires q.cutoff <= q.end && q.maxCommit <= maxCommit
    requires forall s | s in segments :: s.commit <= maxCommit
    requires forall s, v | s in segments && v in s.rows && v.obs == day :: !NewlyVisible(q, request, s, v)
    ensures At(Visible(request, segments, maxCommit, q.end), day) ==
      At(Visible(request, segments, q.maxCommit, q.cutoff), day)
  {
    if segments != [] {
      var init, s := segments[..|segments| - 1], segments[|segments| - 1];
      assert forall x | x in init :: x in segments;
      assert s in segments;
      VisibleAgree(q, request, init, maxCommit, day);
      assert forall v | v in s.rows && v.obs == day :: !NewlyVisible(q, request, s, v);
      RowsAgree(request, s.rows, s.commit <= q.maxCommit, q.cutoff, q.end, day);
      AtConcat(Visible(request, init, maxCommit, q.end), VisibleRows(request, s.rows, q.end), day);
      AtConcat(Visible(request, init, q.maxCommit, q.cutoff),
        if s.commit <= q.maxCommit then VisibleRows(request, s.rows, q.cutoff) else [], day);
    }
  }

  // ---------------------------------------------------------------- days outside the plan

  lemma {:induction false} ImpactListed(q: Query, request: Request, segments: seq<Segment>, s: Segment)
    requires s in segments
    ensures SegmentImpact(q, request, s) in Impacts(q, request, segments)
  {
    if s != segments[|segments| - 1] {
      ImpactListed(q, request, segments[..|segments| - 1], s);
    }
  }

  lemma {:induction false} InputListed(q: Query, inputs: seq<Input>, input: Input, impact: Impact)
    requires input in inputs && impact in Impacts(q, input.request, input.segments)
    ensures impact in AllImpacts(q, inputs)
  {
    if input != inputs[|inputs| - 1] {
      InputListed(q, inputs[..|inputs| - 1], input, impact);
    }
  }

  lemma {:induction false} OwnListed(q: Query, own: seq<Segment>, s: Segment)
    requires s in own
    ensures OwnImpact(q, s) in OwnImpacts(q, own)
  {
    if s != own[|own| - 1] { OwnListed(q, own[..|own| - 1], s); }
  }

  lemma {:induction false} PendingListed(q: Query, pending: seq<PendingOutput>, c: PendingOutput)
    requires c in pending && Matures(q, c)
    ensures Affects(Window(c.day, c.day)) in PendingImpacts(q, pending)
  {
    if c != pending[|pending| - 1] { PendingListed(q, pending[..|pending| - 1], c); }
  }

  /** A window of the impacts stays covered after coarsening, extension and merging. */
  lemma AffectedDayCovered(q: Query, all: seq<Impact>, impact: Impact, windows: seq<Window>, day: int)
    requires impact in all && impact.Affects? && impact.window.Contains(day)
    requires forall w | w in WindowsOf(all) :: InsideQuery(q, w)
    requires NormalFormOf(windows, Finished(q, WindowsOf(all)))
    ensures Covered(windows, day)
  {
    var ws := WindowsOf(all);
    assert impact.window in ws;
    var finished := Finished(q, ws);
    if q.horizon.Forward? {
      assert Window(FirstDay(ws), q.end) in finished;
      assert Window(FirstDay(ws), q.end).Contains(day);
    } else {
      assert impact.window in finished;
    }
    assert Covered(finished, day);
  }

  lemma NewDaysCovered(q: Query, all: seq<Impact>, windows: seq<Window>, day: int)
    requires NormalFormOf(windows, Finished(q, WindowsOf(all))) && q.Through() < day <= q.end
    ensures Covered(windows, day)
  {
    var finished := Finished(q, WindowsOf(all));
    assert Window(q.Through() + 1, q.end) in finished;
    assert Window(q.Through() + 1, q.end).Contains(day);
    assert Covered(finished, day);
  }

  /** The facts a plan's windows were computed from. */
  datatype Evidence = Evidence(inputs: seq<Input>, own: seq<Segment>, pending: seq<PendingOutput>) {

    ghost predicate Plans(q: Query, windows: seq<Window>) {
      && Known(Everything(q, inputs, own, pending))
      && NormalFormOf(windows, Finished(q, WindowsOf(Everything(q, inputs, own, pending))))
    }

    /** The planner's ends of impact are right for the day. */
    ghost predicate Serves(q: Query, day: int) {
      forall input, s, v | input in inputs && s in input.segments && NewlyVisible(q, input.request, s, v) ::
        s.maxObservation.Some? ==> Served(q, LastChanged(q, input.request, s), day)
    }

    ghost predicate BoundsHold() {
      && (forall input, s | input in inputs && s in input.segments :: s.BoundsHold())
      && (forall s | s in own :: s.BoundsHold())
    }
  }

  lemma KnownOne(all: seq<Impact>, impact: Impact)
    requires Known(all) && impact in all
    ensures Known([impact])
  {}

  /** No input row that an uncovered day reads is newly visible. */
  lemma UncoveredReadsNothingNew(q: Query, e: Evidence, windows: seq<Window>, input: Input, s: Segment, v: Version,
                                 day: int)
    requires q.Valid() && e.BoundsHold() && e.Plans(q, windows)
    requires input in e.inputs && s in input.segments && NewlyVisible(q, input.request, s, v)
    requires q.start <= day <= q.Through() && Reads(q.horizon, day, v.obs) && e.Serves(q, day)
    ensures Covered(windows, day)
  {
    var all, impact := Everything(q, e.inputs, e.own, e.pending), SegmentImpact(q, input.request, s);
    ImpactListed(q, input.request, input.segments, s);
    InputListed(q, e.inputs, input, impact);
    assert impact in all;
    KnownOne(all, impact);
    SegmentImpactSound(q, input.request, s, v, day);
    FinishedAreValid(q, e.inputs, e.own, e.pending);
    AffectedDayCovered(q, all, impact, windows, day);
  }

  lemma OwnImpactSound(q: Query, s: Segment, v: Version)
    requires s.BoundsHold() && v in s.rows && v.avail <= q.end && q.start <= v.obs <= q.Through()
    ensures var i := OwnImpact(q, s); i.UnknownImpact? || (i.Affects? && i.window.Contains(v.obs))
  {
    assert s.Bounds(v);
  }

  lemma OwnRowCovered(q: Query, e: Evidence, windows: seq<Window>, s: Segment, v: Version)
    requires q.Valid() && e.BoundsHold() && e.Plans(q, windows)
    requires s in e.own && v in s.rows && v.avail <= q.end && q.start <= v.obs <= q.Through()
    ensures Covered(windows, v.obs)
  {
    var all := Everything(q, e.inputs, e.own, e.pending);
    OwnListed(q, e.own, s);
    assert OwnImpact(q, s) in all;
    OwnImpactSound(q, s, v);
    FinishedAreValid(q, e.inputs, e.own, e.pending);
    AffectedDayCovered(q, all, OwnImpact(q, s), windows, v.obs);
  }

  lemma MaturingCovered(q: Query, e: Evidence, windows: seq<Window>, c: PendingOutput)
    requires q.Valid() && e.Plans(q, windows) && c in e.pending && Matures(q, c)
    ensures Covered(windows, c.day)
  {
    var all, impact := Everything(q, e.inputs, e.own, e.pending), Affects(Window(c.day, c.day));
    PendingListed(q, e.pending, c);
    assert impact in all;
    FinishedAreValid(q, e.inputs, e.own, e.pending);
    AffectedDayCovered(q, all, impact, windows, c.day);
  }

  // ---------------------------------------------------------------- incremental equals full

  /** One output row of a day; it is shown once its available date has come. */
  datatype Cell = Cell(asset: string, value: Option<int>, available: int)

  type Producer = (int, seq<seq<Version>>) -> seq<Cell>

  function Published(cells: seq<Cell>, cutoff: int): seq<Cell> {
    if cells == [] then [] else
      Published(cells[..|cells| - 1], cutoff)
        + if cells[|cells| - 1].available <= cutoff then [cells[|cells| - 1]] else []
  }

  /** Exactly the rows available by the cutoff are published, as often as they are computed. */
  lemma {:induction false} PublishedExactly(cells: seq<Cell>, cutoff: int, c: Cell)
    ensures multiset(Published(cells, cutoff))[c] == if c.available <= cutoff then multiset(cells)[c] else 0
  {
    if cells != [] {
      PublishedExactly(cells[..|cells| - 1], cutoff, c);
      assert cells == cells[..|cells| - 1] + [cells[|cells| - 1]];
    }
  }

  function Views(inputs: seq<Input>, maxCommit: int, cutoff: int): (r: seq<seq<Version>>)
    ensures |r| == |inputs|
    ensures forall i | 0 <= i < |inputs| :: r[i] == Visible(inputs[i].request, inputs[i].segments, maxCommit, cutoff)
  {
    if inputs == [] then [] else
      [Visible(inputs[0].request, inputs[0].segments, maxCommit, cutoff)] + Views(inputs[1..], maxCommit, cutoff)
  }

  ghost predicate SameReads(horizon: Horizon, day: int, a: seq<seq<Version>>, b: seq<seq<Version>>) {
    |a| == |b| && forall i, o | 0 <= i < |a| && Reads(horizon, day, o) :: At(a[i], o) == At(b[i], o)
  }

  /** A day's output is decided by the observations its horizon allows. */
  ghost predicate Respects(producer: Producer, horizon: Horizon) {
    forall day, a, b | SameReads(horizon, day, a, b) :: producer(day, a) == producer(day, b)
  }

  /** A producer without output on a day. */
  ghost predicate Silent(producer: Producer, day: int) {
    forall views :: producer(day, views) == []
  }

  /** Every calendar day is served; so is every day of a pointwise or unbounded forward output. */
  lemma CalendarDaysServed(q: Query, e: Evidence, day: int)
    requires q.Valid() && (q.horizon.Finite? && q.horizon.calendar.Some? ==> day in q.horizon.calendar.value)
    ensures e.Serves(q, day)
  {
    forall last ensures Served(q, last, day) {
      match q.horizon
      case Finite(history, Some(calendar)) =>
        if (calendar != [] || history > 0) && History.AffectedEnd(calendar, history, last, q.end) < day <= q.end {
          forall observed | observed <= last ensures !History.Reads(calendar, history, day, observed) {
            History.ImpactStopsAtAffectedEnd(calendar, history, last, q.end, day, observed);
          }
          History.DayOutOfReach(calendar, history, last, q.end, day);
        }
      case _ =>
    }
  }

  /** What is stored of the completed build: each day not published over since shows the completed
      output available by its cutoff, and every output not yet available is a pending coordinate. */
  ghost predicate Completed(q: Query, e: Evidence, producer: Producer, stored: int -> seq<Cell>) {
    var before := Views(e.inputs, q.maxCommit, q.cutoff);
    forall day | q.start <= day <= q.Through() ::
      && ((forall s, v | s in e.own && v in s.rows && v.avail <= q.end :: v.obs != day) ==>
            stored(day) == Published(producer(day, before), q.cutoff))
      && (forall c | c in producer(day, before) && c.available > q.cutoff ::
        PendingOutput(day, c.available) in e.pending)
  }

  lemma {:induction false} PublishedUnchanged(cells: seq<Cell>, cutoff: int, end: int)
    requires cutoff <= end && forall c | c in cells :: !(cutoff < c.available <= end)
    ensures Published(cells, cutoff) == Published(cells, end)
  {
    if cells != [] {
      assert forall c | c in cells[..|cells| - 1] :: c in cells;
      PublishedUnchanged(cells[..|cells| - 1], cutoff, end);
    }
  }

  /** A row the day may read is newly visible. */
  ghost predicate ReadsNew(q: Query, e: Evidence, day: int) {
    exists i, s, v :: ReadsNewRow(q, e, day, i, s, v)
  }

  ghost predicate ReadsNewRow(q: Query, e: Evidence, day: int, i: int, s: Segment, v: Version) {
    && 0 <= i < |e.inputs| && s in e.inputs[i].segments
    && NewlyVisible(q, e.inputs[i].request, s, v) && Reads(q.horizon, day, v.obs)
  }

  /** Nothing is committed after the new reader. */
  ghost predicate Committed(e: Evidence, maxCommit: int) {
    forall input, s | input in e.inputs && s in input.segments :: s.commit <= maxCommit
  }

  lemma NothingNewSameReads(q: Query, e: Evidence, maxCommit: int, day: int)
    requires q.cutoff <= q.end && q.maxCommit <= maxCommit && Committed(e, maxCommit) && !ReadsNew(q, e, day)
    ensures SameReads(q.horizon, day, Views(e.inputs, maxCommit, q.end), Views(e.inputs, q.maxCommit, q.cutoff))
  {
    forall i, o | 0 <= i < |e.inputs| && Reads(q.horizon, day, o)
      ensures At(Views(e.inputs, maxCommit, q.end)[i], o) == At(Views(e.inputs, q.maxCommit, q.cutoff)[i], o)
    {
      var input := e.inputs[i];
      assert input in e.inputs;
      forall s, v | s in input.segments && v in s.rows && v.obs == o ensures !NewlyVisible(q, input.request, s, v) {
        assert !ReadsNewRow(q, e, day, i, s, v);
      }
      VisibleAgree(q, input.request, input.segments, maxCommit, o);
    }
  }

  lemma UncoveredSameReads(q: Query, e: Evidence, windows: seq<Window>, maxCommit: int, day: int)
    requires q.Valid() && q.cutoff <= q.end && q.maxCommit <= maxCommit && e.BoundsHold() && e.Plans(q, windows)
    requires Committed(e, maxCommit)
    requires q.start <= day <= q.Through() && !Covered(windows, day) && e.Serves(q, day)
    ensures !ReadsNew(q, e, day)
    ensures SameReads(q.horizon, day, Views(e.inputs, maxCommit, q.end), Views(e.inputs, q.maxCommit, q.cutoff))
  {
    forall i, s, v ensures !ReadsNewRow(q, e, day, i, s, v) {
      if ReadsNewRow(q, e, day, i, s, v) { UncoveredReadsNothingNew(q, e, windows, e.inputs[i], s, v, day); }
    }
    NothingNewSameReads(q, e, maxCommit, day);
  }

  /** What is kept outside the windows, and rebuilt inside, is what a full rebuild gives for the day. */
  ghost predicate KeepsDay(q: Query, e: Evidence, windows: seq<Window>, maxCommit: int, producer: Producer,
                           stored: int -> seq<Cell>, day: int)
  {
    var full := Published(producer(day, Views(e.inputs, maxCommit, q.end)), q.end);
    (if Covered(windows, day) then full else stored(day)) == full
  }

  lemma SameOutputKept(q: Query, e: Evidence, windows: seq<Window>, maxCommit: int, producer: Producer,
                       stored: int -> seq<Cell>, day: int)
    requires q.Valid() && q.cutoff <= q.end && e.BoundsHold() && e.Plans(q, windows)
    requires Completed(q, e, producer, stored) && q.start <= day <= q.end
    requires !Covered(windows, day) ==>
      producer(day, Views(e.inputs, maxCommit, q.end)) == producer(day, Views(e.inputs, q.maxCommit, q.cutoff))
    ensures KeepsDay(q, e, windows, maxCommit, producer, stored, day)
  {
    if !Covered(windows, day) {
      UncoveredIsOld(q, e, windows, day);
      forall s, v | s in e.own && v in s.rows && v.avail <= q.end ensures v.obs != day {
        if v.obs == day { OwnRowCovered(q, e, windows, s, v); }
      }
      var cells := producer(day, Views(e.inputs, q.maxCommit, q.cutoff));
      forall c | c in cells ensures !(q.cutoff < c.available <= q.end) {
        if q.cutoff < c.available <= q.end { MaturingCovered(q, e, windows, PendingOutput(day, c.available)); }
      }
      PublishedUnchanged(cells, q.cutoff, q.end);
    }
  }

  lemma UncoveredIsOld(q: Query, e: Evidence, windows: seq<Window>, day: int)
    requires q.Valid() && e.Plans(q, windows) && !Covered(windows, day) && day <= q.end
    ensures day <= q.Through()
  {
    if day > q.Through() { NewDaysCovered(q, Everything(q, e.inputs, e.own, e.pending), windows, day); }
  }

  /** Every served day of the requested range, and every day without output: what is kept outside the windows is what
      a full rebuild gives. */
  lemma IncrementalEqualsFull(q: Query, e: Evidence, windows: seq<Window>, maxCommit: int,
                              producer: Producer, stored: int -> seq<Cell>, day: int)
    requires q.Valid() && q.cutoff <= q.end && q.maxCommit <= maxCommit && e.BoundsHold() && e.Plans(q, windows)
    requires Committed(e, maxCommit)
    requires Respects(producer, q.horizon) && Completed(q, e, producer, stored)
    requires q.start <= day <= q.end && (e.Serves(q, day) || Silent(producer, day))
    ensures KeepsDay(q, e, windows, maxCommit, producer, stored, day)
  {
    if !Covered(windows, day) && e.Serves(q, day) {
      UncoveredIsOld(q, e, windows, day);
      UncoveredSameReads(q, e, windows, maxCommit, day);
    }
    SameOutputKept(q, e, windows, maxCommit, producer, stored, day);
  }

  // ---------------------------------------------------------------- and only then

  /** Old rows stay visible, and a newly visible one adds to them. */
  lemma {:induction false} RowsGrow(request: Request, rows: seq<Version>, counted: bool, cutoff: int, end: int,
                                    day: int)
    requires cutoff <= end
    ensures var before := if counted then |At(VisibleRows(request, rows, cutoff), day)| else 0;
      && before <= |At(VisibleRows(request, rows, end), day)|
      && ((exists v: Version :: v in rows && v.obs == day && request.Admits(day) && v.avail <= end
             && !(counted && v.avail <= cutoff)) ==>
          before < |At(VisibleRows(request, rows, end), day)|)
  {
    if rows != [] {
      var init, v := rows[..|rows| - 1], rows[|rows| - 1];
      assert rows == init + [v];
      RowsGrow(request, init, counted, cutoff, end, day);
      VisibleRowsLast(request, init, v, end, day);
      VisibleRowsLast(request, init, v, cutoff, day);
    }
  }

  ghost predicate Reveals(q: Query, request: Request, segments: seq<Segment>, day: int) {
    exists s: Segment, v: Version :: s in segments && v.obs == day && NewlyVisible(q, request, s, v)
  }

  lemma {:induction false} VisibleGrows(q: Query, request: Request, segments: seq<Segment>, maxCommit: int, day: int)
    requires q.cutoff <= q.end && q.maxCommit <= maxCommit && forall s | s in segments :: s.commit <= maxCommit
    ensures var before := |At(Visible(request, segments, q.maxCommit, q.cutoff), day)|;
      var after := |At(Visible(request, segments, maxCommit, q.end), day)|;
      && before <= after
      && (Reveals(q, request, segments, day) ==> before < after)
  {
    if segments != [] {
      var init, s := segments[..|segments| - 1], segments[|segments| - 1];
      assert segments == init + [s] && s in segments && forall x | x in init :: x in segments;
      VisibleGrows(q, request, init, maxCommit, day);
      RowsGrow(request, s.rows, s.commit <= q.maxCommit, q.cutoff, q.end, day);
      AtConcat(Visible(request, init, maxCommit, q.end), VisibleRows(request, s.rows, q.end), day);
      AtConcat(Visible(request, init, q.maxCommit, q.cutoff),
        if s.commit <= q.maxCommit then VisibleRows(request, s.rows, q.cutoff) else [], day);
    }
  }

  /** A count of the versions of one date in one of n inputs, reported on one day alone. */
  function CountOf(n: nat, i: nat, reported: int, observed: int, available: int): Producer
    requires i < n
  {
    (day, views) =>
      if day == reported && |views| == n then [Cell("x", Some(|At(views[i], observed)|), available)] else []
  }

  lemma CountRespects(n: nat, i: nat, reported: int, observed: int, available: int, horizon: Horizon)
    requires i < n && Reads(horizon, reported, observed)
    ensures Respects(CountOf(n, i, reported, observed, available), horizon)
  {
    var producer := CountOf(n, i, reported, observed, available);
    forall day, a, b | SameReads(horizon, day, a, b) ensures producer(day, a) == producer(day, b) {
      if day == reported && |a| == n { assert At(a[i], observed) == At(b[i], observed); }
    }
  }

  lemma CountPublished(n: nat, i: nat, reported: int, observed: int, available: int, views: seq<seq<Version>>,
                       cutoff: int)
    requires i < n == |views| && available <= cutoff
    ensures Published(CountOf(n, i, reported, observed, available)(reported, views), cutoff) ==
              [Cell("x", Some(|At(views[i], observed)|), available)]
  {
    var cells := CountOf(n, i, reported, observed, available)(reported, views);
    assert cells[..0] == [];
  }

  /** Storing the completed output of every day, with nothing pending. */
  lemma CountCompleted(q: Query, e: Evidence, n: nat, i: nat, reported: int, observed: int, stored: int -> seq<Cell>)
    requires i < n
    requires var count, before := CountOf(n, i, reported, observed, q.cutoff), Views(e.inputs, q.maxCommit, q.cutoff);
      forall day :: stored(day) == Published(count(day, before), q.cutoff)
    ensures Completed(q, e, CountOf(n, i, reported, observed, q.cutoff), stored)
  {}

  /** A day that may read a newly visible row differs from the full rebuild for some producer. */
  lemma NewRowDiffers(q: Query, e: Evidence, maxCommit: int, day: int) returns (producer: Producer,
                                                                                stored: int -> seq<Cell>)
    requires q.cutoff <= q.end && q.maxCommit <= maxCommit && Committed(e, maxCommit) && ReadsNew(q, e, day)
    ensures Respects(producer, q.horizon) && Completed(q, e, producer, stored)
    ensures stored(day) != Published(producer(day, Views(e.inputs, maxCommit, q.end)), q.end)
  {
    var i, s, v :| ReadsNewRow(q, e, day, i, s, v);
    var n, input := |e.inputs|, e.inputs[i];
    hide Completed, Respects, Visible, At, Published, CountOf, NewlyVisible;
    assert input in e.inputs;
    producer := CountOf(n, i, day, v.obs, q.cutoff);
    var before, after := Views(e.inputs, q.maxCommit, q.cutoff), Views(e.inputs, maxCommit, q.end);
    var count := producer;
    stored := d => Published(count(d, before), q.cutoff);
    CountRespects(n, i, day, v.obs, q.cutoff, q.horizon);
    CountCompleted(q, e, n, i, day, v.obs, stored);
    assert Reveals(q, input.request, input.segments, v.obs);
    VisibleGrows(q, input.request, input.segments, maxCommit, v.obs);
    CountPublished(n, i, day, v.obs, q.cutoff, before, q.cutoff);
    CountPublished(n, i, day, v.obs, q.cutoff, after, q.end);
  }

  /** Whether a day may be kept does not depend on the producer: it is right for all that respect the horizon exactly
      when the day is rebuilt or reads nothing newly visible. */
  lemma IncrementalExactly(q: Query, e: Evidence, windows: seq<Window>, maxCommit: int, day: int)
    requires q.Valid() && q.cutoff <= q.end && q.maxCommit <= maxCommit && e.BoundsHold() && e.Plans(q, windows)
    requires Committed(e, maxCommit) && q.start <= day <= q.end
    ensures (forall producer, stored | Respects(producer, q.horizon) && Completed(q, e, producer, stored) ::
               KeepsDay(q, e, windows, maxCommit, producer, stored, day))
      <==> Covered(windows, day) || !ReadsNew(q, e, day)
  {
    if Covered(windows, day) || !ReadsNew(q, e, day) {
      if !Covered(windows, day) { NothingNewSameReads(q, e, maxCommit, day); }
      forall producer, stored | Respects(producer, q.horizon) && Completed(q, e, producer, stored)
        ensures KeepsDay(q, e, windows, maxCommit, producer, stored, day)
      {
        SameOutputKept(q, e, windows, maxCommit, producer, stored, day);
      }
    } else {
      var producer, stored := NewRowDiffers(q, e, maxCommit, day);
      assert !KeepsDay(q, e, windows, maxCommit, producer, stored, day);
    }
  }

  // ---------------------------------------------------------------- a day that is not served

  /** The impacts of one kept and one revised segment of day 1. */
  lemma RevisedDayImpacts(q: Query, e: Evidence, kept: Segment, revised: Segment)
    requires q == Query(1, 8, 8, 8, 1, Finite(1, Some([1, 5, 9])))
    requires kept.commit == 1 && kept.maxAvailable == Some(1) && kept.minAvailable == Some(1)
    requires revised.commit == 2 && revised.minObservation == Some(1) && revised.maxObservation == Some(1)
    requires revised.minAvailable == Some(8)
    requires e == Evidence([Input(Request(None, None, None, None), [kept, revised])], [], [])
    ensures Everything(q, e.inputs, e.own, e.pending) == [NoImpact, Affects(Window(1, 5))]
  {
    var request := Request(None, None, None, None);
    KeptImpact(q, request, kept);
    RevisedImpact(q, request, revised);
    TwoSegments(q, request, kept, revised);
  }

  lemma KeptImpact(q: Query, request: Request, kept: Segment)
    requires q == Query(1, 8, 8, 8, 1, Finite(1, Some([1, 5, 9])))
    requires kept.commit == 1 && kept.maxAvailable == Some(1) && kept.minAvailable == Some(1)
    ensures SegmentImpact(q, request, kept) == NoImpact
  {}

  lemma RevisedImpact(q: Query, request: Request, revised: Segment)
    requires q == Query(1, 8, 8, 8, 1, Finite(1, Some([1, 5, 9]))) && request == Request(None, None, None, None)
    requires revised.commit == 2 && revised.minObservation == Some(1) && revised.maxObservation == Some(1)
    requires revised.minAvailable == Some(8)
    ensures SegmentImpact(q, request, revised) == Affects(Window(1, 5))
  {
    hide RangeImpact, History.AffectedEnd;
    assert LowerBound(q, revised) == Some(1) && LastChanged(q, request, revised) == 1;
    FirstDayImpact(q);
  }

  lemma FirstDayImpact(q: Query)
    requires q == Query(1, 8, 8, 8, 1, Finite(1, Some([1, 5, 9])))
    ensures RangeImpact(q, 1, 1) == Affects(Window(1, 5))
  {
    hide History.AffectedEnd;
    History.OffCalendarDayIsMissed(8);
  }

  lemma OneWindow(all: seq<Impact>, w: Window)
    requires all == [NoImpact, Affects(w)]
    ensures Known(all) && WindowsOf(all) == [w]
  {
    assert all == [NoImpact] + [Affects(w)];
    WindowsOfConcat([NoImpact], [Affects(w)]);
    WindowsOfOne(NoImpact);
    WindowsOfOne(Affects(w));
  }

  lemma OneWindowPlan(q: Query, e: Evidence, w: Window)
    requires Everything(q, e.inputs, e.own, e.pending) == [NoImpact, Affects(w)] && w.first <= w.last
    requires q.horizon.Finite? && q.end <= q.completedEnd
    ensures e.Plans(q, [w])
  {
    OneWindow(Everything(q, e.inputs, e.own, e.pending), w);
    assert Finished(q, [w]) == [w];
    NormalFrom([w]);
  }

  /** Day 1 was observed once in commit 1 and revised in commit 2, on the calendar 1, 5, 9 with a history of one. */
  ghost predicate RevisedDay(q: Query, e: Evidence, kept: Segment, revised: Segment, first: Version, second: Version) {
    && q == Query(1, 8, 8, 8, 1, Finite(1, Some([1, 5, 9])))
    && e == Evidence([Input(Request(None, None, None, None), [kept, revised])], [], [])
    && kept == Segment(1, [first], Some(1), Some(1), Some(1), Some(1), Some(0))
    && revised == Segment(2, [second], Some(1), Some(1), Some(8), Some(8), Some(7))
    && first.obs == second.obs == 1 && first.avail == 1 && second.avail == 8
  }

  lemma RevisedDayPlan(q: Query, e: Evidence, kept: Segment, revised: Segment, first: Version, second: Version)
    requires RevisedDay(q, e, kept, revised, first, second)
    ensures q.Valid() && e.BoundsHold() && e.Plans(q, [Window(1, 5)])
  {
    RevisedDayImpacts(q, e, kept, revised);
    OneWindowPlan(q, e, Window(1, 5));
  }

  lemma RevisedDayIsRead(q: Query, e: Evidence, kept: Segment, revised: Segment, first: Version, second: Version)
    requires RevisedDay(q, e, kept, revised, first, second)
    ensures ReadsNew(q, e, 7) && Committed(e, 2)
  {
    History.OffCalendarDayIsMissed(8);
    assert ReadsNewRow(q, e, 7, 0, revised, second);
  }

  /** The plan rebuilds days 1 to 5 and keeps day 7, which reads the revised day 1; some producer's output of day 7
      differs from the full rebuild. */
  lemma UnservedDayDiffers() returns (q: Query, e: Evidence, windows: seq<Window>, producer: Producer,
                                      stored: int -> seq<Cell>)
    ensures q.Valid() && e.BoundsHold() && e.Plans(q, windows) && !CoversHistory(q, windows) && Committed(e, 2)
    ensures Respects(producer, q.horizon) && Completed(q, e, producer, stored)
    ensures !Covered(windows, 7) && q.start <= 7 <= q.Through() && q.cutoff <= q.end && q.maxCommit <= 2
    ensures !KeepsDay(q, e, windows, 2, producer, stored, 7)
  {
    var first := Version(RecordId(1, "a"), 1, 0, 1, false, 10);
    var second := Version(RecordId(1, "a"), 8, 0, 2, false, 20);
    var kept := Segment(1, [first], Some(1), Some(1), Some(1), Some(1), Some(0));
    var revised := Segment(2, [second], Some(1), Some(1), Some(8), Some(8), Some(7));
    q := Query(1, 8, 8, 8, 1, Finite(1, Some([1, 5, 9])));
    e := Evidence([Input(Request(None, None, None, None), [kept, revised])], [], []);
    windows := [Window(1, 5)];
    RevisedDayPlan(q, e, kept, revised, first, second);
    RevisedDayIsRead(q, e, kept, revised, first, second);
    hide ReadsNew, Committed, Respects, Completed;
    producer, stored := NewRowDiffers(q, e, 2, 7);
  }

  // ---------------------------------------------------------------- the read halo

  /** Rows observed within first..last. */
  function Clip(rows: seq<Version>, first: int, last: int): seq<Version> {
    if rows == [] then [] else
      Clip(rows[..|rows| - 1], first, last)
        + if first <= rows[|rows| - 1].obs <= last then [rows[|rows| - 1]] else []
  }

  /** Exactly the rows observed from the first to the last day are read, as often as they are stored. */
  lemma {:induction false} ClipExactly(rows: seq<Version>, first: int, last: int, v: Version)
    ensures multiset(Clip(rows, first, last))[v] == if first <= v.obs && v.obs <= last then multiset(rows)[v] else 0
  {
    if rows != [] {
      ClipExactly(rows[..|rows| - 1], first, last, v);
      assert rows == rows[..|rows| - 1] + [rows[|rows| - 1]];
    }
  }

  function ClipAll(views: seq<seq<Version>>, first: int, last: int): (r: seq<seq<Version>>)
    ensures |r| == |views| && forall i | 0 <= i < |views| :: r[i] == Clip(views[i], first, last)
  {
    if views == [] then [] else [Clip(views[0], first, last)] + ClipAll(views[1..], first, last)
  }

  lemma {:induction false} ClipKeepsDay(rows: seq<Version>, first: int, last: int, day: int)
    requires first <= day <= last
    ensures At(Clip(rows, first, last), day) == At(rows, day)
  {
    if rows != [] {
      var init, v := rows[..|rows| - 1], rows[|rows| - 1];
      ClipKeepsDay(init, first, last, day);
      AtConcat(Clip(init, first, last), if first <= v.obs <= last then [v] else [], day);
      AtOne(v, day);
    }
  }

  /** A finite-history build that reads its inputs from the halo on computes the same output for every
      day it builds as one that reads everything. */
  lemma HaloPreservesOutput(history: nat, calendar: seq<int>, producer: Producer, views: seq<seq<Version>>,
                            start: int, end: int, day: int)
    requires Ascending(calendar) && start <= day <= end
    requires Respects(producer, Finite(history, Some(calendar)))
    ensures producer(day, ClipAll(views, History.ReadStart(calendar, history, start), end)) == producer(day, views)
  {
    var horizon, from := Finite(history, Some(calendar)), History.ReadStart(calendar, history, start);
    var clipped := ClipAll(views, from, end);
    forall i, o | 0 <= i < |views| && Reads(horizon, day, o) ensures At(clipped[i], o) == At(views[i], o) {
      History.HaloCoversReads(calendar, history, start, day, o);
      ClipKeepsDay(views[i], from, end, o);
    }
    assert SameReads(horizon, day, clipped, views);
  }
}
