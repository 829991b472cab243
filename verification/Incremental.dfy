/** The incremental planner: which days to rebuild after input changes (items/incremental.py, completed_actions). */
module Incremental {
  import opened Wrappers
  import opened Records
  import opened Segments
  import opened Windows
  import opened Calendars
  import History

  // ---------------------------------------------------------------- what the planner reads

  /** How far an output may look: its own date, any earlier date, or a finite number of calendar days.
      A finite horizon whose calendar was never indexed has None. */
  datatype Horizon = SameDate | Forward | Finite(history: nat, calendar: Option<seq<int>>)

  /** The declared observation range of an input. */
  datatype Request = Request(start: Option<int>, observationStart: Option<int>,
                             end: Option<int>, observationEnd: Option<int>) {
    predicate Admits(day: int) {
      && (start.Some? ==> start.value <= day)
      && (observationStart.Some? ==> observationStart.value <= day)
      && (end.Some? ==> day <= end.value)
      && (observationEnd.Some? ==> day <= observationEnd.value)
    }
  }

  datatype Input = Input(request: Request, segments: seq<Segment>)

  /** An output coordinate that was computed but not yet available. */
  datatype PendingOutput = PendingOutput(day: int, available: int)

  /** A completed build (its end, information cutoff and input commit) and the range now asked for. */
  datatype Query = Query(start: int, end: int, completedEnd: int, cutoff: int, maxCommit: int, horizon: Horizon) {

    function Through(): int { if end < completedEnd then end else completedEnd }

    ghost predicate Valid() {
      && start <= Through()
      && (horizon.Finite? && horizon.calendar.Some? ==> Ascending(horizon.calendar.value))
    }
  }

  function AtLeast(a: int, b: Option<int>): int { if b.Some? && a < b.value then b.value else a }

  function AtMost(a: int, b: Option<int>): int { if b.Some? && b.value < a then b.value else a }

  // ---------------------------------------------------------------- impact of one segment

  datatype Impact = NoImpact | UnknownImpact | Raises | Affects(window: Window)

  /** The lower observation bound of the rows that can be newly visible: rows of an old segment that
      mature after the cutoff were observed within the segment's availability delay of it. */
  function LowerBound(q: Query, s: Segment): Option<int> {
    if s.commit <= q.maxCommit && s.delay.Some? && s.minObservation.Some?
    then Some(AtLeast(s.minObservation.value, Some(q.cutoff + 1 - s.delay.value)))
    else s.minObservation
  }

  /** The window of a changed observation range. */
  function RangeImpact(q: Query, first: int, last: int): Impact {
    if first > last || first > q.Through() then NoImpact
    else
      var from := if first < q.start then q.start else first;
      match q.horizon
      case SameDate =>
        if last >= q.start then Affects(Window(from, if last < q.Through() then last else q.Through())) else NoImpact
      case Forward =>
        if from <= q.end then Affects(Window(from, q.end)) else NoImpact
      case Finite(history, calendar) =>
        if calendar.None? then UnknownImpact
        else if calendar.value == [] && history == 0 then Raises
        else
          var affectedEnd := History.AffectedEnd(calendar.value, history, last, q.end);
          if from <= affectedEnd then Affects(Window(from, affectedEnd)) else NoImpact
  }

  /** The last observation date of a segment that the request and the asked range admit. */
  function LastChanged(q: Query, request: Request, s: Segment): int
    requires s.maxObservation.Some?
  {
    AtMost(AtMost(AtMost(s.maxObservation.value, Some(q.end)), request.end), request.observationEnd)
  }

  function SegmentImpact(q: Query, request: Request, s: Segment): Impact {
    var lower, upper := LowerBound(q, s), s.maxObservation;
    if s.minAvailable.Some? && s.minAvailable.value > q.end then NoImpact
    else if s.commit <= q.maxCommit && s.maxAvailable.Some? && s.maxAvailable.value <= q.cutoff then NoImpact
    else if lower.None? || upper.None? then (if s.rows == [] then NoImpact else UnknownImpact)
    else RangeImpact(q, AtLeast(AtLeast(lower.value, request.start), request.observationStart),
                     LastChanged(q, request, s))
  }

  /** A later direct publication of the output itself: its days are rebuilt. */
  function OwnImpact(q: Query, s: Segment): Impact {
    if s.minAvailable.Some? && s.minAvailable.value > q.end then NoImpact
    else if s.minObservation.None? || s.maxObservation.None? then (if s.rows == [] then NoImpact else UnknownImpact)
    else
      var from := if s.minObservation.value < q.start then q.start else s.minObservation.value;
      var to := if q.Through() < s.maxObservation.value then q.Through() else s.maxObservation.value;
      if from <= to then Affects(Window(from, to)) else NoImpact
  }

  // ---------------------------------------------------------------- planning

  datatype Plan = Blocked | Raised | Rebuild(windows: seq<Window>)

  function Impacts(q: Query, request: Request, segments: seq<Segment>): seq<Impact> {
    if segments == [] then [] else
      Impacts(q, request, segments[..|segments| - 1]) + [SegmentImpact(q, request, segments[|segments| - 1])]
  }

  function AllImpacts(q: Query, inputs: seq<Input>): seq<Impact> {
    if inputs == [] then [] else
      AllImpacts(q, inputs[..|inputs| - 1])
        + Impacts(q, inputs[|inputs| - 1].request, inputs[|inputs| - 1].segments)
  }

  function OwnImpacts(q: Query, own: seq<Segment>): seq<Impact> {
    if own == [] then [] else OwnImpacts(q, own[..|own| - 1]) + [OwnImpact(q, own[|own| - 1])]
  }

  predicate Matures(q: Query, c: PendingOutput) {
    q.cutoff < c.available <= q.end && q.start <= c.day <= q.Through()
  }

  function PendingImpacts(q: Query, pending: seq<PendingOutput>): seq<Impact> {
    if pending == [] then [] else
      PendingImpacts(q, pending[..|pending| - 1]) +
        if Matures(q, pending[|pending| - 1])
        then [Affects(Window(pending[|pending| - 1].day, pending[|pending| - 1].day))] else []
  }

  predicate Known(impacts: seq<Impact>) {
    forall i | i in impacts :: i.NoImpact? || i.Affects?
  }

  /** The first impact that ends planning. */
  function FirstUnknown(impacts: seq<Impact>): (r: Option<Impact>)
    ensures r.None? <==> Known(impacts)
    ensures r.Some? ==> r.value in impacts && (r.value.UnknownImpact? || r.value.Raises?)
  {
    if impacts == [] then None else
      assert impacts == impacts[..|impacts| - 1] + [impacts[|impacts| - 1]];
      var earlier, last := FirstUnknown(impacts[..|impacts| - 1]), impacts[|impacts| - 1];
      if earlier.Some? then earlier else if last.NoImpact? || last.Affects? then None else Some(last)
  }

  function WindowsOf(impacts: seq<Impact>): (r: seq<Window>)
    ensures forall w :: w in r <==> Affects(w) in impacts
  {
    if impacts == [] then [] else
      var i := impacts[|impacts| - 1];
      assert impacts == impacts[..|impacts| - 1] + [i];
      WindowsOf(impacts[..|impacts| - 1]) + if i.Affects? then [i.window] else []
  }

  /** The least first day. */
  function FirstDay(windows: seq<Window>): (r: int)
    requires windows != []
    ensures (exists w :: w in windows && w.first == r) && forall w | w in windows :: r <= w.first
  {
    assert windows == windows[..|windows| - 1] + [windows[|windows| - 1]];
    if |windows| == 1 then windows[0].first else
      var rest := FirstDay(windows[..|windows| - 1]);
      if rest < windows[|windows| - 1].first then rest else windows[|windows| - 1].first
  }

  /** Unbounded forward impact rebuilds one suffix; days never completed are always built. */
  function Finished(q: Query, windows: seq<Window>): seq<Window> {
    (if q.horizon.Forward? && windows != [] then [Window(FirstDay(windows), q.end)] else windows)
      + if q.end > q.Through() then [Window(q.Through() + 1, q.end)] else []
  }

  function Everything(q: Query, inputs: seq<Input>, own: seq<Segment>, pending: seq<PendingOutput>): seq<Impact> {
    OwnImpacts(q, own) + PendingImpacts(q, pending) + AllImpacts(q, inputs)
  }

  lemma {:induction false} WindowsOfConcat(a: seq<Impact>, b: seq<Impact>)
    ensures WindowsOf(a + b) == WindowsOf(a) + WindowsOf(b)
    ensures Known(a + b) <==> Known(a) && Known(b)
    ensures FirstUnknown(a + b) == if FirstUnknown(a).Some? then FirstUnknown(a) else FirstUnknown(b)
  {
    assert forall i :: i in a + b <==> i in a || i in b;
    if b == [] {
      assert a + b == a;
    } else {
      assert (a + b)[..|a + b| - 1] == a + b[..|b| - 1];
      WindowsOfConcat(a, b[..|b| - 1]);
    }
  }

  lemma WindowsOfOne(impact: Impact)
    ensures WindowsOf([impact]) == if impact.Affects? then [impact.window] else []
    ensures Known([impact]) <==> impact.NoImpact? || impact.Affects?
    ensures FirstUnknown([impact]) == if impact.NoImpact? || impact.Affects? then None else Some(impact)
  {
    assert [impact][..0] == [];
    assert impact in [impact];
  }

  /** One loop iteration: an impact adds its window or stops the plan. */
  method Collect(windows: seq<Window>, impact: Impact, ghost earlier: seq<Impact>) returns (r: seq<Window>, stop: bool)
    requires Known(earlier) && windows == WindowsOf(earlier)
    ensures FirstUnknown(earlier + [impact]) == if stop then Some(impact) else None
    ensures !stop ==> r == WindowsOf(earlier + [impact])
  {
    WindowsOfConcat(earlier, [impact]);
    WindowsOfOne(impact);
    r, stop := windows, false;
    match impact
    case NoImpact =>
    case Affects(window) => r := windows + [window];
    case _ => stop := true;
  }

  lemma PrefixOwn(q: Query, own: seq<Segment>, i: nat)
    requires i < |own|
    ensures OwnImpacts(q, own[..i + 1]) == OwnImpacts(q, own[..i]) + [OwnImpact(q, own[i])]
  {
    assert own[..i + 1][..i] == own[..i];
  }

  method CollectOwn(q: Query, own: seq<Segment>) returns (windows: seq<Window>, stop: Option<Impact>)
    ensures stop == FirstUnknown(OwnImpacts(q, own))
    ensures stop.None? ==> windows == WindowsOf(OwnImpacts(q, own))
  {
    windows := [];
    for i := 0 to |own|
      invariant Known(OwnImpacts(q, own[..i])) && windows == WindowsOf(OwnImpacts(q, own[..i]))
    {
      PrefixOwn(q, own, i);
      var stopped;
      windows, stopped := Collect(windows, OwnImpact(q, own[i]), OwnImpacts(q, own[..i]));
      if stopped {
        OwnStops(q, own, i);
        return windows, Some(OwnImpact(q, own[i]));
      }
    }
    assert own[..|own|] == own;
    return windows, None;
  }

  lemma {:induction false} OwnStops(q: Query, own: seq<Segment>, i: nat)
    requires i < |own| && FirstUnknown(OwnImpacts(q, own[..i + 1])).Some?
    ensures FirstUnknown(OwnImpacts(q, own)) == FirstUnknown(OwnImpacts(q, own[..i + 1]))
    decreases |own|
  {
    if i + 1 < |own| {
      assert own[..|own| - 1][..i + 1] == own[..i + 1];
      OwnStops(q, own[..|own| - 1], i);
      WindowsOfConcat(OwnImpacts(q, own[..|own| - 1]), [OwnImpact(q, own[|own| - 1])]);
    } else {
      assert own[..i + 1] == own;
    }
  }

  method CollectPending(q: Query, pending: seq<PendingOutput>) returns (windows: seq<Window>)
    ensures Known(PendingImpacts(q, pending)) && windows == WindowsOf(PendingImpacts(q, pending))
  {
    windows := [];
    for i := 0 to |pending|
      invariant Known(PendingImpacts(q, pending[..i])) && windows == WindowsOf(PendingImpacts(q, pending[..i]))
    {
      assert pending[..i + 1][..i] == pending[..i];
      if Matures(q, pending[i]) {
        var stopped;
        windows, stopped := Collect(windows, Affects(Window(pending[i].day, pending[i].day)),
          PendingImpacts(q, pending[..i]));
      } else {
        assert PendingImpacts(q, pending[..i + 1]) == PendingImpacts(q, pending[..i]);
      }
    }
    assert pending[..|pending|] == pending;
  }

  method CollectSegments(q: Query, input: Input) returns (windows: seq<Window>, stop: Option<Impact>)
    ensures var impacts := Impacts(q, input.request, input.segments);
      stop == FirstUnknown(impacts) && (stop.None? ==> windows == WindowsOf(impacts))
  {
    windows := [];
    var request, segments := input.request, input.segments;
    for i := 0 to |segments|
      invariant Known(Impacts(q, request, segments[..i])) && windows == WindowsOf(Impacts(q, request, segments[..i]))
    {
      assert segments[..i + 1][..i] == segments[..i];
      var impact, stopped := SegmentImpact(q, request, segments[i]), false;
      windows, stopped := Collect(windows, impact, Impacts(q, request, segments[..i]));
      if stopped {
        SegmentStops(q, request, segments, i);
        return windows, Some(impact);
      }
    }
    assert segments[..|segments|] == segments;
    return windows, None;
  }

  lemma {:induction false} SegmentStops(q: Query, request: Request, segments: seq<Segment>, i: nat)
    requires i < |segments| && FirstUnknown(Impacts(q, request, segments[..i + 1])).Some?
    ensures FirstUnknown(Impacts(q, request, segments)) == FirstUnknown(Impacts(q, request, segments[..i + 1]))
    decreases |segments|
  {
    if i + 1 < |segments| {
      assert segments[..|segments| - 1][..i + 1] == segments[..i + 1];
      SegmentStops(q, request, segments[..|segments| - 1], i);
      WindowsOfConcat(Impacts(q, request, segments[..|segments| - 1]),
        [SegmentImpact(q, request, segments[|segments| - 1])]);
    } else {
      assert segments[..i + 1] == segments;
    }
  }

  method CollectInputs(q: Query, inputs: seq<Input>) returns (windows: seq<Window>, stop: Option<Impact>)
    ensures stop == FirstUnknown(AllImpacts(q, inputs))
    ensures stop.None? ==> windows == WindowsOf(AllImpacts(q, inputs))
  {
    windows := [];
    for i := 0 to |inputs|
      invariant Known(AllImpacts(q, inputs[..i])) && windows == WindowsOf(AllImpacts(q, inputs[..i]))
    {
      var found, stopped := CollectSegments(q, inputs[i]);
      assert inputs[..i + 1][..i] == inputs[..i];
      WindowsOfConcat(AllImpacts(q, inputs[..i]), Impacts(q, inputs[i].request, inputs[i].segments));
      if stopped.Some? {
        InputStops(q, inputs, i);
        return windows, stopped;
      }
      windows := windows + found;
    }
    assert inputs[..|inputs|] == inputs;
    return windows, None;
  }

  lemma {:induction false} InputStops(q: Query, inputs: seq<Input>, i: nat)
    requires i < |inputs| && FirstUnknown(AllImpacts(q, inputs[..i + 1])).Some?
    ensures FirstUnknown(AllImpacts(q, inputs)) == FirstUnknown(AllImpacts(q, inputs[..i + 1]))
    decreases |inputs|
  {
    if i + 1 < |inputs| {
      var last := inputs[|inputs| - 1];
      assert inputs[..|inputs| - 1][..i + 1] == inputs[..i + 1];
      InputStops(q, inputs[..|inputs| - 1], i);
      WindowsOfConcat(AllImpacts(q, inputs[..|inputs| - 1]), Impacts(q, last.request, last.segments));
    } else {
      assert inputs[..i + 1] == inputs;
    }
  }

  /** Whether the first window already spans the whole completed history. */
  predicate CoversHistory(q: Query, windows: seq<Window>) {
    windows != [] && windows[0].first <= q.start && windows[0].last >= q.completedEnd
  }

  method Finish(q: Query, windows: seq<Window>) returns (r: seq<Window>)
    ensures r == Finished(q, windows)
  {
    r := windows;
    if q.horizon.Forward? && windows != [] {
      r := [Window(FirstDay(windows), q.end)];
    }
    if q.end > q.Through() {
      r := r + [Window(q.Through() + 1, q.end)];
    }
  }

  lemma EverythingParts(q: Query, inputs: seq<Input>, own: seq<Segment>, pending: seq<PendingOutput>)
    ensures var all := Everything(q, inputs, own, pending);
      && FirstUnknown(all) == (if FirstUnknown(OwnImpacts(q, own)).Some? then FirstUnknown(OwnImpacts(q, own))
                               else FirstUnknown(AllImpacts(q, inputs)))
      && WindowsOf(all) ==
        WindowsOf(OwnImpacts(q, own)) + WindowsOf(PendingImpacts(q, pending)) + WindowsOf(AllImpacts(q, inputs))
  {
    WindowsOfConcat(OwnImpacts(q, own), PendingImpacts(q, pending));
    WindowsOfConcat(OwnImpacts(q, own) + PendingImpacts(q, pending), AllImpacts(q, inputs));
    PendingKnown(q, pending);
  }

  lemma {:induction false} PendingKnown(q: Query, pending: seq<PendingOutput>)
    ensures Known(PendingImpacts(q, pending))
  {
    if pending != [] { PendingKnown(q, pending[..|pending| - 1]); }
  }

  /** An impact raises only for an empty calendar without history. */
  lemma RaisesOnlyWithoutCalendar(q: Query, request: Request, s: Segment)
    ensures SegmentImpact(q, request, s).Raises? ==> q.horizon == Finite(0, Some([]))
    ensures !OwnImpact(q, s).Raises?
  {}

  lemma {:induction false} AllRaises(q: Query, inputs: seq<Input>)
    ensures Raises in AllImpacts(q, inputs) ==> q.horizon == Finite(0, Some([]))
  {
    if inputs != [] {
      AllRaises(q, inputs[..|inputs| - 1]);
      SegmentsRaise(q, inputs[|inputs| - 1].request, inputs[|inputs| - 1].segments);
    }
  }

  lemma {:induction false} SegmentsRaise(q: Query, request: Request, segments: seq<Segment>)
    ensures Raises in Impacts(q, request, segments) ==> q.horizon == Finite(0, Some([]))
  {
    if segments != [] {
      SegmentsRaise(q, request, segments[..|segments| - 1]);
      RaisesOnlyWithoutCalendar(q, request, segments[|segments| - 1]);
    }
  }

  lemma {:induction false} OwnNeverRaises(q: Query, own: seq<Segment>)
    ensures Raises !in OwnImpacts(q, own)
  {
    if own != [] { OwnNeverRaises(q, own[..|own| - 1]); }
  }

  /** Planning can raise only for an empty calendar without history. */
  lemma RaisedOnlyWithoutCalendar(q: Query, inputs: seq<Input>, own: seq<Segment>, pending: seq<PendingOutput>)
    requires FirstUnknown(Everything(q, inputs, own, pending)) == Some(Raises)
    ensures q.horizon == Finite(0, Some([]))
  {
    EverythingParts(q, inputs, own, pending);
    OwnNeverRaises(q, own);
    AllRaises(q, inputs);
  }

  /** One segment is all there is to plan. */
  lemma OneSegment(q: Query, request: Request, s: Segment)
    ensures Everything(q, [Input(request, [s])], [], []) == [SegmentImpact(q, request, s)]
  {
    hide SegmentImpact;
    var input := Input(request, [s]);
    assert [s][..0] == [] && Impacts(q, request, [s]) == Impacts(q, request, []) + [SegmentImpact(q, request, s)];
    assert [input][..0] == [] && AllImpacts(q, [input]) == AllImpacts(q, []) + Impacts(q, request, [s]);
  }

  lemma TwoSegments(q: Query, request: Request, a: Segment, b: Segment)
    ensures Everything(q, [Input(request, [a, b])], [], []) ==
      [SegmentImpact(q, request, a), SegmentImpact(q, request, b)]
  {
    hide SegmentImpact;
    var input := Input(request, [a, b]);
    OneSegment(q, request, a);
    assert [a, b][..1] == [a] && [a][..0] == [];
    assert Impacts(q, request, [a]) == Impacts(q, request, []) + [SegmentImpact(q, request, a)];
    assert Impacts(q, request, [a, b]) == Impacts(q, request, [a]) + [SegmentImpact(q, request, b)];
    assert [input][..0] == [] && AllImpacts(q, [input]) == AllImpacts(q, []) + Impacts(q, request, [a, b]);
  }

  lemma SegmentRaises(q: Query, request: Request, s: Segment)
    requires q == Query(1, 8, 8, 8, 1, Finite(0, Some([]))) && request == Request(None, None, None, None)
    requires s.commit == 2 && s.minObservation == s.maxObservation == Some(1)
    requires s.minAvailable == s.maxAvailable == Some(8)
    ensures SegmentImpact(q, request, s) == Raises
  {}

  /** It does raise: one new observation of day 1 on an empty calendar without history. */
  lemma EmptyCalendarRaises() returns (q: Query, inputs: seq<Input>)
    ensures q.Valid() && FirstUnknown(Everything(q, inputs, [], [])) == Some(Raises)
    ensures forall input, s | input in inputs && s in input.segments :: s.BoundsHold()
  {
    q := Query(1, 8, 8, 8, 1, Finite(0, Some([])));
    var request := Request(None, None, None, None);
    var row := Version(RecordId(1, "a"), 8, 0, 2, false, 20);
    var revised := Segment(2, [row], Some(1), Some(1), Some(8), Some(8), Some(7));
    inputs := [Input(request, [revised])];
    SegmentRaises(q, request, revised);
    OneSegment(q, request, revised);
    WindowsOfOne(Raises);
  }

  /** Every window is nonempty and lies in the requested range. */
  predicate InsideQuery(q: Query, w: Window) {
    q.start <= w.first <= w.last <= q.end
  }

  lemma {:induction false} ImpactsInside(q: Query, request: Request, segments: seq<Segment>)
    requires q.Valid()
    ensures forall i | i in Impacts(q, request, segments) && i.Affects? :: InsideQuery(q, i.window)
  {
    if segments != [] {
      ImpactsInside(q, request, segments[..|segments| - 1]);
    }
  }

  lemma {:induction false} AllImpactsInside(q: Query, inputs: seq<Input>)
    requires q.Valid()
    ensures forall i | i in AllImpacts(q, inputs) && i.Affects? :: InsideQuery(q, i.window)
  {
    if inputs != [] {
      AllImpactsInside(q, inputs[..|inputs| - 1]);
      ImpactsInside(q, inputs[|inputs| - 1].request, inputs[|inputs| - 1].segments);
    }
  }

  lemma {:induction false} OwnInside(q: Query, own: seq<Segment>)
    requires q.Valid()
    ensures forall i | i in OwnImpacts(q, own) && i.Affects? :: InsideQuery(q, i.window)
  {
    if own != [] { OwnInside(q, own[..|own| - 1]); }
  }

  lemma {:induction false} PendingInside(q: Query, pending: seq<PendingOutput>)
    requires q.Valid()
    ensures forall i | i in PendingImpacts(q, pending) && i.Affects? :: InsideQuery(q, i.window)
  {
    if pending != [] { PendingInside(q, pending[..|pending| - 1]); }
  }

  lemma FinishedAreValid(q: Query, inputs: seq<Input>, own: seq<Segment>, pending: seq<PendingOutput>)
    requires q.Valid()
    ensures var windows := WindowsOf(Everything(q, inputs, own, pending));
      && (forall w | w in windows :: InsideQuery(q, w))
      && (forall w | w in Finished(q, windows) :: InsideQuery(q, w))
  {
    OwnInside(q, own);
    PendingInside(q, pending);
    AllImpactsInside(q, inputs);
    var windows := WindowsOf(Everything(q, inputs, own, pending));
    forall w | w in windows ensures InsideQuery(q, w) {
      assert Affects(w) in Everything(q, inputs, own, pending);
    }
  }

  // ---------------------------------------------------------------- what a plan means, day by day

  /** The segment may hold a row that only the new reader sees. */
  predicate Relevant(q: Query, s: Segment) {
    && !(s.minAvailable.Some? && q.end < s.minAvailable.value)
    && !(s.commit <= q.maxCommit && s.maxAvailable.Some? && s.maxAvailable.value <= q.cutoff)
  }

  /** A date the request admits for which such a row may be observed: in a segment already committed, one that can still
      have matured after the old cutoff. */
  ghost predicate MayChange(q: Query, request: Request, s: Segment, date: int)
    requires s.minObservation.Some? && s.maxObservation.Some?
  {
    && s.minObservation.value <= date <= s.maxObservation.value && date <= q.end && request.Admits(date)
    && (s.commit <= q.maxCommit && s.delay.Some? ==> q.cutoff < date + s.delay.value)
  }

  /** The days an input segment affects: a pointwise output on the changed dates themselves; any other from the first
      changed date on, a finite one only up to the end of the last one's impact. A change after the completed days
      affects none of them. */
  ghost predicate InputAffects(q: Query, request: Request, s: Segment, day: int) {
    && Relevant(q, s) && s.minObservation.Some? && s.maxObservation.Some?
    && (exists date :: date <= q.Through() && MayChange(q, request, s, date))
    && q.start <= day
    && match q.horizon
       case SameDate => day <= q.Through() && MayChange(q, request, s, day)
       case Forward => day <= q.end && exists date :: date <= day && MayChange(q, request, s, date)
       case Finite(history, calendar) =>
         && calendar.Some? && !(calendar.value == [] && history == 0)
         && exists date, last :: date <= day && MayChange(q, request, s, date) && LastChange(q, request, s, last)
              && day <= History.AffectedEnd(calendar.value, history, last, q.end)
  }

  ghost predicate LastChange(q: Query, request: Request, s: Segment, last: int)
    requires s.minObservation.Some? && s.maxObservation.Some?
  {
    MayChange(q, request, s, last) && forall date | MayChange(q, request, s, date) :: date <= last
  }

  /** The impact of a segment cannot be told: it holds rows whose dates are not on record, or a finite history has no
      calendar on record. */
  ghost predicate InputUnknown(q: Query, request: Request, s: Segment) {
    Relevant(q, s) &&
    if s.minObservation.None? || s.maxObservation.None? then s.rows != []
    else q.horizon.Finite? && q.horizon.calendar == None
         && exists date :: date <= q.Through() && MayChange(q, request, s, date)
  }

  lemma FirstMayChange(q: Query, request: Request, s: Segment) returns (first: int, last: int)
    requires LowerBound(q, s).Some? && s.minObservation.Some? && s.maxObservation.Some?
    ensures first == AtLeast(AtLeast(LowerBound(q, s).value, request.start), request.observationStart)
    ensures last == LastChanged(q, request, s)
    ensures forall date :: MayChange(q, request, s, date) <==> first <= date <= last
  {
    first := AtLeast(AtLeast(LowerBound(q, s).value, request.start), request.observationStart);
    last := LastChanged(q, request, s);
  }

  /** The same when the dates that may change are those from a first to a last one. */
  lemma AffectsByBounds(q: Query, request: Request, s: Segment, first: int, last: int, day: int)
    requires Relevant(q, s) && s.minObservation.Some? && s.maxObservation.Some?
    requires forall date :: MayChange(q, request, s, date) <==> first <= date <= last
    ensures InputAffects(q, request, s, day) <==>
      && first <= last && first <= q.Through() && q.start <= day && first <= day
      && match q.horizon
         case SameDate => day <= q.Through() && day <= last
         case Forward => day <= q.end
         case Finite(history, calendar) =>
           && calendar.Some? && !(calendar.value == [] && history == 0)
           && day <= History.AffectedEnd(calendar.value, history, last, q.end)
  {
    if first <= last {
      assert MayChange(q, request, s, first) && LastChange(q, request, s, last);
      assert forall other | LastChange(q, request, s, other) :: other == last;
    }
    hide MayChange, Relevant;
  }

  /** The impact of an input segment is exactly this. */
  lemma SegmentImpactExact(q: Query, request: Request, s: Segment)
    requires q.Valid()
    ensures var i := SegmentImpact(q, request, s);
      && (i.UnknownImpact? <==> InputUnknown(q, request, s))
      && (i.Raises? <==>
            && Relevant(q, s) && s.minObservation.Some? && s.maxObservation.Some? && q.horizon == Finite(0, Some([]))
            && exists date :: date <= q.Through() && MayChange(q, request, s, date))
      && (Known([i]) ==> forall day :: (i.Affects? && i.window.Contains(day)) <==> InputAffects(q, request, s, day))
  {
    var i := SegmentImpact(q, request, s);
    WindowsOfOne(i);
    if Relevant(q, s) && s.minObservation.Some? && s.maxObservation.Some? {
      var first, last := FirstMayChange(q, request, s);
      assert first <= last ==> MayChange(q, request, s, first);
      forall day
        ensures Known([i]) ==> ((i.Affects? && i.window.Contains(day)) <==> InputAffects(q, request, s, day))
      {
        AffectsByBounds(q, request, s, first, last, day);
        hide InputAffects, MayChange;
      }
    }
  }

  /** Output published later by itself affects the days between its bounds. */
  ghost predicate OwnAffects(q: Query, s: Segment, day: int) {
    && !(s.minAvailable.Some? && q.end < s.minAvailable.value)
    && s.minObservation.Some? && s.maxObservation.Some? && s.minObservation.value <= day <= s.maxObservation.value
    && q.start <= day <= q.Through()
  }

  lemma OwnImpactExact(q: Query, s: Segment)
    ensures var i := OwnImpact(q, s);
      && (i.UnknownImpact? <==> !(s.minAvailable.Some? && q.end < s.minAvailable.value) && s.rows != []
                                && (s.minObservation == None || s.maxObservation == None))
      && forall day :: (i.Affects? && i.window.Contains(day)) <==> OwnAffects(q, s, day)
  {}

  /** A day some evidence speaks of: input rows newly seen, output published later, or output due since. */
  ghost predicate Spoken(q: Query, inputs: seq<Input>, own: seq<Segment>, pending: seq<PendingOutput>, day: int) {
    || (exists s :: s in own && OwnAffects(q, s, day))
    || (exists c :: c in pending && c.day == day && q.cutoff < c.available <= q.end && q.start <= day <= q.Through())
    || (exists input, s :: input in inputs && s in input.segments && InputAffects(q, input.request, s, day))
  }

  /** The days to rebuild: those after the completed range, and those some evidence speaks of; for an unbounded forward
      output also every later day. */
  ghost predicate Due(q: Query, inputs: seq<Input>, own: seq<Segment>, pending: seq<PendingOutput>, day: int) {
    || q.completedEnd < day <= q.end
    || Spoken(q, inputs, own, pending, day)
    || (q.horizon.Forward? && day <= q.end && exists d :: d <= day && Spoken(q, inputs, own, pending, d))
  }

  ghost predicate Lists(impacts: seq<Impact>, day: int) {
    exists i :: i in impacts && i.Affects? && i.window.Contains(day)
  }

  lemma {:induction false} OwnLists(q: Query, own: seq<Segment>, day: int)
    ensures Lists(OwnImpacts(q, own), day) <==> exists s :: s in own && OwnAffects(q, s, day)
  {
    if own != [] {
      var init, top := own[..|own| - 1], own[|own| - 1];
      OwnLists(q, init, day);
      OwnImpactExact(q, top);
      assert own == init + [top];
      assert OwnImpacts(q, own) == OwnImpacts(q, init) + [OwnImpact(q, top)];
      ListsJoin(OwnImpacts(q, init), [OwnImpact(q, top)], day);
    }
  }

  lemma ListsJoin(a: seq<Impact>, b: seq<Impact>, day: int)
    ensures Lists(a + b, day) <==> Lists(a, day) || Lists(b, day)
    ensures |b| == 1 ==> (Lists(b, day) <==> b[0].Affects? && b[0].window.Contains(day))
  {
    assert forall i :: i in a + b <==> i in a || i in b;
  }

  lemma {:induction false} PendingLists(q: Query, pending: seq<PendingOutput>, day: int)
    ensures Lists(PendingImpacts(q, pending), day) <==>
      exists c :: c in pending && c.day == day && q.cutoff < c.available <= q.end && q.start <= day <= q.Through()
  {
    if pending != [] {
      var init, top := pending[..|pending| - 1], pending[|pending| - 1];
      PendingLists(q, init, day);
      assert pending == init + [top];
      ListsJoin(PendingImpacts(q, init), [Affects(Window(top.day, top.day))], day);
      if !Matures(q, top) { assert PendingImpacts(q, pending) == PendingImpacts(q, init); }
    }
  }

  lemma {:induction false} SegmentsList(q: Query, request: Request, segments: seq<Segment>, day: int)
    requires q.Valid() && Known(Impacts(q, request, segments))
    ensures Lists(Impacts(q, request, segments), day) <==> exists s :: s in segments && InputAffects(q, request, s, day)
  {
    if segments != [] {
      var init, top := segments[..|segments| - 1], segments[|segments| - 1];
      assert segments == init + [top];
      WindowsOfConcat(Impacts(q, request, init), [SegmentImpact(q, request, top)]);
      SegmentsList(q, request, init, day);
      SegmentImpactExact(q, request, top);
      ListsJoin(Impacts(q, request, init), [SegmentImpact(q, request, top)], day);
    }
  }

  lemma {:induction false} InputsList(q: Query, inputs: seq<Input>, day: int)
    requires q.Valid() && Known(AllImpacts(q, inputs))
    ensures Lists(AllImpacts(q, inputs), day) <==>
      exists input, s :: input in inputs && s in input.segments && InputAffects(q, input.request, s, day)
  {
    if inputs != [] {
      var init, top := inputs[..|inputs| - 1], inputs[|inputs| - 1];
      assert inputs == init + [top];
      WindowsOfConcat(AllImpacts(q, init), Impacts(q, top.request, top.segments));
      InputsList(q, init, day);
      SegmentsList(q, top.request, top.segments, day);
      ListsJoin(AllImpacts(q, init), Impacts(q, top.request, top.segments), day);
    }
  }

  lemma EverythingLists(q: Query, inputs: seq<Input>, own: seq<Segment>, pending: seq<PendingOutput>, day: int)
    requires q.Valid() && Known(Everything(q, inputs, own, pending))
    ensures Covered(WindowsOf(Everything(q, inputs, own, pending)), day) <==> Spoken(q, inputs, own, pending, day)
  {
    var a, b, c := OwnImpacts(q, own), PendingImpacts(q, pending), AllImpacts(q, inputs);
    WindowsOfConcat(a, b);
    WindowsOfConcat(a + b, c);
    OwnLists(q, own, day);
    PendingLists(q, pending, day);
    InputsList(q, inputs, day);
    ListsJoin(a, b, day);
    ListsJoin(a + b, c, day);
    CoveredLists(Everything(q, inputs, own, pending), day);
  }

  lemma CoveredLists(impacts: seq<Impact>, day: int)
    ensures Covered(WindowsOf(impacts), day) <==> Lists(impacts, day)
  {
    if Lists(impacts, day) {
      var i :| i in impacts && i.Affects? && i.window.Contains(day);
      assert i.window in WindowsOf(impacts);
    }
    if Covered(WindowsOf(impacts), day) {
      var w :| w in WindowsOf(impacts) && w.Contains(day);
      assert Affects(w) in impacts;
    }
  }

  /** The windows a plan is made from cover exactly the days that are due. */
  lemma FinishedExactly(q: Query, inputs: seq<Input>, own: seq<Segment>, pending: seq<PendingOutput>, day: int)
    requires q.Valid() && Known(Everything(q, inputs, own, pending))
    ensures Covered(Finished(q, WindowsOf(Everything(q, inputs, own, pending))), day) <==>
      Due(q, inputs, own, pending, day)
  {
    var windows := WindowsOf(Everything(q, inputs, own, pending));
    EverythingLists(q, inputs, own, pending, day);
    FinishedAreValid(q, inputs, own, pending);
    FinishedCovers(q, windows, day);
    if q.horizon.Forward? && windows != [] {
      EverythingLists(q, inputs, own, pending, FirstDay(windows));
      forall d | d <= day && Spoken(q, inputs, own, pending, d) ensures FirstDay(windows) <= d {
        EverythingLists(q, inputs, own, pending, d);
      }
    }
    if q.horizon.Forward? && windows == [] {
      forall d ensures !Spoken(q, inputs, own, pending, d) { EverythingLists(q, inputs, own, pending, d); }
    }
  }

  lemma FinishedCovers(q: Query, windows: seq<Window>, day: int)
    requires q.Valid() && forall w | w in windows :: InsideQuery(q, w)
    ensures Covered(Finished(q, windows), day) <==>
      || q.Through() < day <= q.end
      || (if q.horizon.Forward? then windows != [] && FirstDay(windows) <= day <= q.end else Covered(windows, day))
    ensures windows != [] ==> Covered(windows, FirstDay(windows))
  {
    var late := Window(q.Through() + 1, q.end);
    var base := if q.horizon.Forward? && windows != [] then [Window(FirstDay(windows), q.end)] else windows;
    if q.end > q.Through() {
      CoveredAppend(base, late);
    } else {
      assert base + [] == base;
    }
    if windows != [] {
      assert Covered([Window(FirstDay(windows), q.end)], day) <==> FirstDay(windows) <= day <= q.end by {
        CoveredAppend([], Window(FirstDay(windows), q.end));
        assert [] + [Window(FirstDay(windows), q.end)] == [Window(FirstDay(windows), q.end)];
      }
      var w :| w in windows && w.first == FirstDay(windows);
      assert w.Contains(FirstDay(windows));
    }
  }

  /** Windows span the history exactly when they hold every completed day asked for, and every completed day is. */
  lemma SpansExactly(q: Query, windows: seq<Window>, merged: seq<Window>)
    requires q.Valid() && NormalFormOf(merged, windows) && forall w | w in windows :: InsideQuery(q, w)
    ensures CoversHistory(q, merged) <==> forall day | q.start <= day <= q.completedEnd :: Covered(windows, day)
  {
    NormalAt(merged);
    if CoversHistory(q, merged) {
      forall day | q.start <= day <= q.completedEnd ensures Covered(merged, day) {
        assert merged[0] in merged && merged[0].Contains(day);
      }
    } else {
      var missing := if merged == [] || q.start < merged[0].first then q.start else merged[0].last + 1;
      forall w | w in merged ensures !w.Contains(missing) {
        var k :| 0 <= k < |merged| && merged[k] == w;
      }
      if merged != [] {
        assert merged[0] in merged && merged[0].Contains(merged[0].first) && Covered(merged, merged[0].first);
      }
      assert !Covered(windows, missing) && q.start <= missing <= q.completedEnd;
    }
  }

  /** The rebuild plan, or why there is none. Planning raises or is blocked by the first impact that is not known. A
      plan otherwise rebuilds exactly the days that are due, in normal form, unless these hold every completed day. */
  method CompletedActions(q: Query, inputs: seq<Input>, own: seq<Segment>, pending: seq<PendingOutput>)
    returns (plan: Plan)
    requires q.Valid()
    ensures plan.Raised? <==> FirstUnknown(Everything(q, inputs, own, pending)) == Some(Raises)
    ensures plan.Blocked? <==>
      || FirstUnknown(Everything(q, inputs, own, pending)) == Some(UnknownImpact)
      || (Known(Everything(q, inputs, own, pending))
          && forall day | q.start <= day <= q.completedEnd :: Due(q, inputs, own, pending, day))
    ensures plan.Rebuild? ==>
      Normal(plan.windows) && forall day :: Covered(plan.windows, day) <==> Due(q, inputs, own, pending, day)
    ensures plan.Rebuild? ==>
      NormalFormOf(plan.windows, Finished(q, WindowsOf(Everything(q, inputs, own, pending))))
  {
    var ownWindows, stop := CollectOwn(q, own);
    EverythingParts(q, inputs, own, pending);
    hide Due;
    if stop.Some? {
      return if stop.value.Raises? then Raised else Blocked;
    }
    var pendingWindows := CollectPending(q, pending);
    var inputWindows;
    inputWindows, stop := CollectInputs(q, inputs);
    if stop.Some? {
      return if stop.value.Raises? then Raised else Blocked;
    }
    var windows := Finish(q, ownWindows + pendingWindows + inputWindows);
    FinishedAreValid(q, inputs, own, pending);
    var merged := Merge(windows);
    SpansExactly(q, windows, merged);
    forall day ensures Covered(windows, day) <==> Due(q, inputs, own, pending, day) {
      FinishedExactly(q, inputs, own, pending, day);
    }
    if CoversHistory(q, merged) {
      return Blocked;
    }
    return Rebuild(merged);
  }
}
