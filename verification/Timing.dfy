/** Deciding, from finitely many days, when every General input stops being a baseline (items/timing.py,
    _transition). */
module Timing {
  import opened Wrappers
  import opened Calendars
  import opened GeneralSnapshots

  datatype Evidence = Evidence(events: seq<Event>, checks: seq<Check>, definition: int)

  /** One declared input: what was recorded at completion, and what is known now. */
  datatype Input = Input(raw: bool, strict: bool, neutral: bool, windowed: bool, historical: bool,
                         before: Evidence, after: Evidence)

  /** The selection on a day by today's evidence. */
  function Selected(input: Input, day: int): Option<Identity> {
    Identify(input.after.events, input.after.checks, Some(day), false, input.historical)
  }

  function Initial(input: Input, cutoff: int): Option<Identity> {
    Identify(input.before.events, input.before.checks, Some(cutoff), false, input.historical)
  }

  ghost predicate DistinctCommits(events: seq<Event>) {
    forall e, f | e in events && f in events && e.commit == f.commit :: e == f
  }

  /** An event other than the selected one that today's evidence newly shows by the end. */
  predicate Intrudes(e: Event, commit: int, maxCommit: int, cutoff: int, end: int) {
    e.pitDate <= end && e.commit != commit && (e.commit > maxCommit || e.pitDate > cutoff)
  }

  function FindEvent(events: seq<Event>, commit: int): (r: Option<Event>)
    ensures r.Some? ==> r.value in events && r.value.commit == commit
    ensures r.None? ==> forall e | e in events :: e.commit != commit
  {
    if events == [] then None
    else if events[0].commit == commit then Some(events[0])
    else FindEvent(events[1..], commit)
  }

  /** The metadata checks on one input that come before any day is looked at. */
  predicate Admitted(input: Input, maxCommit: int, cutoff: int, end: int) {
    && input.raw && !input.strict && input.neutral && !input.windowed
    && input.before.events != [] && input.before.definition == input.after.definition
    && Initial(input, cutoff).Some?
    && (var commit := Initial(input, cutoff).value.event.commit;
        && (forall e | e in input.after.events :: !Intrudes(e, commit, maxCommit, cutoff, end))
        && FindEvent(input.after.events, commit).Some?
        && FindEvent(input.after.events, commit) == FindEvent(input.before.events, commit))
  }

  /** The days on which a copy of an event verified by some check becomes known. */
  function CheckDays(e: Event, checks: seq<Check>, cutoff: int, end: int): (r: set<int>)
    ensures forall d | d in r :: cutoff < d <= end
    ensures forall c | c in checks && Attests(c, e) && cutoff < Attested(e, c).date <= end :: Attested(e, c).date in r
  {
    if checks == [] then {} else
      var c := checks[|checks| - 1];
      assert forall x | x in checks :: x in checks[..|checks| - 1] || x == c;
      CheckDays(e, checks[..|checks| - 1], cutoff, end)
        + if Attests(c, e) && cutoff < Attested(e, c).date <= end then {Attested(e, c).date} else {}
  }

  // ---------------------------------------------------------------- one input, any day

  /** One input after its metadata checks passed and the first day selected the recorded commit. */
  ghost predicate Settled(input: Input, current: Event, cutoff: int, end: int) {
    && current in input.after.events
    && DistinctCommits(input.after.events)
    && (forall e | e in input.after.events && e.pitDate <= end && e.commit != current.commit :: e.pitDate <= cutoff)
    && Selected(input, cutoff).Some? && Selected(input, cutoff).value.event.commit == current.commit
  }

  lemma CurrentVisible(input: Input, current: Event, cutoff: int, end: int, day: int)
    requires Settled(input, current, cutoff, end) && cutoff <= day
    ensures OwnVisible(current, Some(day), false, input.historical)
    ensures Selected(input, cutoff).value.event == current
  {
    var x, e := Selected(input, cutoff).value, input.after;
    CandidateEvents(e.events, e.checks, Some(cutoff), false, input.historical);
    var f :| f in e.events && x in EventCandidates(f, e.checks, Some(cutoff), false, input.historical);
    CandidateOf(f, e.checks, Some(cutoff), false, input.historical);
  }

  /** No candidate of any day in the window has a greater commit. */
  lemma NoGreaterCommit(input: Input, current: Event, cutoff: int, end: int, day: int)
    requires Settled(input, current, cutoff, end) && cutoff <= day <= end
    ensures forall x | x in Candidates(input.after.events, input.after.checks, Some(day), false, input.historical) ::
      x.event.commit <= current.commit
  {
    var e := input.after;
    forall x | x in Candidates(e.events, e.checks, Some(day), false, input.historical)
      ensures x.event.commit <= current.commit
    {
      CandidateEvents(e.events, e.checks, Some(day), false, input.historical);
      var f :| f in e.events && x in EventCandidates(f, e.checks, Some(day), false, input.historical);
      CandidateOf(f, e.checks, Some(day), false, input.historical);
      if f.commit != current.commit {
        assert OwnVisible(f, Some(cutoff), false, input.historical);
        VisibleIsCandidate(e.events, e.checks, cutoff, input.historical, f);
        BestIsGreatest(Candidates(e.events, e.checks, Some(cutoff), false, input.historical));
      }
    }
  }

  lemma VisibleIsCandidate(events: seq<Event>, checks: seq<Check>, day: int, historical: bool, e: Event)
    requires e in events && OwnVisible(e, Some(day), false, historical)
    ensures Own(e) in Candidates(events, checks, Some(day), false, historical)
  {
    CandidateEvents(events, checks, Some(day), false, historical);
    assert Own(e) in EventCandidates(e, checks, Some(day), false, historical);
  }

  lemma {:induction false} OfCommitOthers(candidates: seq<Identity>, commit: int)
    requires forall x | x in candidates :: x.event.commit != commit
    ensures OfCommit(candidates, commit) == []
  {
    if candidates != [] { OfCommitOthers(candidates[1..], commit); }
  }

  lemma {:induction false} OfCommitAll(candidates: seq<Identity>, commit: int)
    requires forall x | x in candidates :: x.event.commit == commit
    ensures OfCommit(candidates, commit) == candidates
  {
    if candidates != [] {
      assert candidates[0] in candidates;
      OfCommitAll(candidates[1..], commit);
    }
  }

  /** The candidates of the current commit, one event at a time. */
  lemma OfCommitStep(events: seq<Event>, checks: seq<Check>, current: Event, day: int, historical: bool)
    requires events != [] && (events[0].commit == current.commit ==> events[0] == current)
    ensures OfCommit(Candidates(events, checks, Some(day), false, historical), current.commit)
      == (if events[0] == current then EventCandidates(current, checks, Some(day), false, historical) else [])
         + OfCommit(Candidates(events[1..], checks, Some(day), false, historical), current.commit)
  {
    var first := EventCandidates(events[0], checks, Some(day), false, historical);
    CandidateOf(events[0], checks, Some(day), false, historical);
    OfCommitConcat(first, Candidates(events[1..], checks, Some(day), false, historical), current.commit);
    if events[0] == current { OfCommitAll(first, current.commit); } else { OfCommitOthers(first, current.commit); }
  }

  /** If the current event offers the same candidates on two days, so does its commit. */
  lemma {:induction false} SameOfCommit(events: seq<Event>, checks: seq<Check>, current: Event, a: int, b: int,
                                        historical: bool)
    requires forall e | e in events && e.commit == current.commit :: e == current
    requires EventCandidates(current, checks, Some(a), false, historical)
          == EventCandidates(current, checks, Some(b), false, historical)
    ensures OfCommit(Candidates(events, checks, Some(a), false, historical), current.commit)
         == OfCommit(Candidates(events, checks, Some(b), false, historical), current.commit)
  {
    if events != [] {
      assert events[0] in events && forall f | f in events[1..] :: f in events;
      SameOfCommit(events[1..], checks, current, a, b, historical);
      OfCommitStep(events, checks, current, a, historical);
      OfCommitStep(events, checks, current, b, historical);
    }
  }

  /** The current event's own candidate comes before its verified copies. */
  lemma {:induction false} OwnComesFirst(events: seq<Event>, checks: seq<Check>, current: Event, day: int,
                                         historical: bool)
    requires forall e | e in events && e.commit == current.commit :: e == current
    requires current in events && OwnVisible(current, Some(day), false, historical)
    ensures var mine := OfCommit(Candidates(events, checks, Some(day), false, historical), current.commit);
      mine != [] && mine[0] == Own(current)
  {
    assert events[0] in events && forall f | f in events[1..] :: f in events;
    OfCommitStep(events, checks, current, day, historical);
    if events[0] != current {
      OwnComesFirst(events[1..], checks, current, day, historical);
    }
  }

  /** The selection of a settled input comes from the current event's candidates alone. */
  lemma SelectedOfCurrent(input: Input, current: Event, cutoff: int, end: int, day: int)
    requires Settled(input, current, cutoff, end) && cutoff <= day <= end
    ensures var all := Candidates(input.after.events, input.after.checks, Some(day), false, input.historical);
      && OfCommit(all, current.commit) != []
      && Selected(input, day) == Best(OfCommit(all, current.commit))
      && Selected(input, day).Some? && Selected(input, day).value.event.commit == current.commit
  {
    var e := input.after;
    var all := Candidates(e.events, e.checks, Some(day), false, input.historical);
    CurrentVisible(input, current, cutoff, end, day);
    VisibleIsCandidate(e.events, e.checks, day, input.historical, current);
    NoGreaterCommit(input, current, cutoff, end, day);
    if OfCommit(all, current.commit) == [] {
      NoneOfCommit(all, current.commit);
    } else {
      BestOfCommit(all, current.commit);
    }
  }

  /** Between boundary days the selection does not change. */
  lemma SelectionConstant(input: Input, current: Event, cutoff: int, end: int, boundary: int, day: int)
    requires Settled(input, current, cutoff, end) && cutoff <= boundary <= day <= end
    requires forall d | d in CheckDays(current, input.after.checks, cutoff, end) :: !(boundary < d <= day)
    ensures Selected(input, day) == Selected(input, boundary)
  {
    var e := input.after;
    CurrentVisible(input, current, cutoff, end, boundary);
    CurrentVisible(input, current, cutoff, end, day);
    forall c | c in e.checks && Attests(c, current) ensures !(boundary < Attested(current, c).date <= day) {
      assert cutoff < Attested(current, c).date <= end ==>
        Attested(current, c).date in CheckDays(current, e.checks, cutoff, end);
    }
    SameCopies(current, e.checks, boundary, day);
    SameOfCommit(e.events, e.checks, current, boundary, day, input.historical);
    SelectedOfCurrent(input, current, cutoff, end, boundary);
    SelectedOfCurrent(input, current, cutoff, end, day);
  }

  /** A selection is the current event itself or a verified copy of it. */
  lemma SelectedIs(input: Input, current: Event, cutoff: int, end: int, day: int)
    requires Settled(input, current, cutoff, end) && cutoff <= day <= end
    ensures Selected(input, day).Some?
    ensures var x := Selected(input, day).value;
      x == Own(current) || (!x.baseline && x in Copies(current, input.after.checks, Some(day)) && current.baseline)
  {
    SelectedOfCurrent(input, current, cutoff, end, day);
    var e, x := input.after, Selected(input, day).value;
    CandidateEvents(e.events, e.checks, Some(day), false, input.historical);
    var f :| f in e.events && x in EventCandidates(f, e.checks, Some(day), false, input.historical);
    CandidateOf(f, e.checks, Some(day), false, input.historical);
    CopiesAre(current, e.checks, Some(day));
  }

  /** A verified copy that is selected is strictly greater than the event itself. */
  lemma CopyBeatsOwn(input: Input, current: Event, cutoff: int, end: int, day: int)
    requires Settled(input, current, cutoff, end) && cutoff <= day <= end
    requires Selected(input, day) != Some(Own(current))
    ensures Selected(input, day).Some?
    ensures Below(Own(current), Selected(input, day).value)
  {
    var e := input.after;
    SelectedOfCurrent(input, current, cutoff, end, day);
    CurrentVisible(input, current, cutoff, end, day);
    OwnComesFirst(e.events, e.checks, current, day, input.historical);
  }

  /** Once the selection is no baseline it never becomes one again. */
  lemma BaselineFades(input: Input, current: Event, cutoff: int, end: int, a: int, b: int)
    requires Settled(input, current, cutoff, end) && cutoff <= a <= b <= end
    requires Selected(input, b).Some? && Selected(input, b).value.baseline
    ensures Selected(input, a).Some? && Selected(input, a).value.baseline
  {
    var e := input.after;
    SelectedOfCurrent(input, current, cutoff, end, a);
    SelectedIs(input, current, cutoff, end, a);
    SelectedIs(input, current, cutoff, end, b);
    var x := Selected(input, a).value;
    if x != Own(current) {
      CopyBeatsOwn(input, current, cutoff, end, a);
      CopiesAre(current, e.checks, Some(a));
      CopiesAre(current, e.checks, Some(b));
      assert x in EventCandidates(current, e.checks, Some(b), false, input.historical);
      CandidateEvents(e.events, e.checks, Some(b), false, input.historical);
      BestIsGreatest(Candidates(e.events, e.checks, Some(b), false, input.historical));
    }
  }

  // ---------------------------------------------------------------- all inputs, any day

  predicate ShowsBaseline(input: Input, day: int) {
    Selected(input, day).Some? && Selected(input, day).value.baseline
  }

  /** A verification of the event that counts for more than the event itself, on a day it is known. */
  ghost predicate Replaces(c: Check, e: Event, day: int) {
    && !c.baseline && c.visibleCommit == Some(e.commit) && e.pitDate <= day && c.pitDate <= day
    && (c.pitDate <= e.pitDate ==> e.ingested <= c.checkedAt && (c.checkedAt == e.ingested ==> 0 < c.id))
  }

  /** A settled input shows a baseline exactly while its event is one and no check known by the day replaces it; a check
      dated after the event always does. */
  lemma BaselineUntilReplaced(input: Input, current: Event, cutoff: int, end: int, day: int)
    requires Settled(input, current, cutoff, end) && cutoff <= day <= end
    ensures ShowsBaseline(input, day) <==>
      current.baseline && forall c | c in input.after.checks :: !Replaces(c, current, day)
  {
    SelectedOfCurrent(input, current, cutoff, end, day);
    SelectedIs(input, current, cutoff, end, day);
    CurrentVisible(input, current, cutoff, end, day);
    var e, x := input.after, Selected(input, day).value;
    var all := Candidates(e.events, e.checks, Some(day), false, input.historical);
    CopiesAre(current, e.checks, Some(day));
    CandidateEvents(e.events, e.checks, Some(day), false, input.historical);
    if current.baseline {
      forall c | c in e.checks && Replaces(c, current, day) ensures !x.baseline {
        assert Attested(current, c) in EventCandidates(current, e.checks, Some(day), false, input.historical);
        assert Attested(current, c) in all;
        var i := BestIsNewest(all);
        var j :| 0 <= j < |all| && all[j] == Attested(current, c);
      }
      if !x.baseline {
        CopyBeatsOwn(input, current, cutoff, end, day);
        var c :| c in e.checks && Attests(c, current) && Reached(Some(day), Attested(current, c).date)
          && x == Attested(current, c);
        assert Replaces(c, current, day);
      }
    }
  }

  /** Some input selects a baseline. */
  ghost predicate Baseline(inputs: seq<Input>, day: int) {
    exists i :: 0 <= i < |inputs| && ShowsBaseline(inputs[i], day)
  }

  /** The input still selects the commit recorded for it, on the first day with the same status. */
  predicate Fits(input: Input, initial: Identity, day: int, cutoff: int) {
    && Selected(input, day).Some?
    && Selected(input, day).value.event.commit == initial.event.commit
    && (day == cutoff ==> Selected(input, day).value.baseline == initial.baseline)
  }

  ghost predicate AllFit(inputs: seq<Input>, initials: seq<Identity>, day: int, cutoff: int) {
    |inputs| == |initials| && forall i | 0 <= i < |inputs| :: Fits(inputs[i], initials[i], day, cutoff)
  }

  /** A plain Raw input of unchanged definition that was completed with an identity whose event is still recorded, while
      every other event known by the end was known at completion. */
  ghost predicate IsInitial(input: Input, initial: Identity, maxCommit: int, cutoff: int, end: int) {
    && input.raw && input.neutral && !(input.strict || input.windowed)
    && input.before.definition == input.after.definition
    && Initial(input, cutoff) == Some(initial) && initial.event in input.after.events
    && forall e | e in input.after.events && e.pitDate <= end ::
         e.commit == initial.event.commit || (e.commit <= maxCommit && e.pitDate <= cutoff)
  }

  /** The metadata checks pass exactly for such an input. */
  lemma AdmittedIs(input: Input, maxCommit: int, cutoff: int, end: int)
    requires DistinctCommits(input.before.events) && DistinctCommits(input.after.events)
    ensures Admitted(input, maxCommit, cutoff, end) <==>
      Initial(input, cutoff).Some? && IsInitial(input, Initial(input, cutoff).value, maxCommit, cutoff, end)
  {
    var initial := Initial(input, cutoff);
    if initial.Some? { InitialRecorded(input, cutoff); }
    hide Initial;
  }

  lemma InitialRecorded(input: Input, cutoff: int)
    requires Initial(input, cutoff).Some? && DistinctCommits(input.before.events)
    ensures var e := Initial(input, cutoff).value.event;
      e in input.before.events && FindEvent(input.before.events, e.commit) == Some(e)
  {
    var b, initial := input.before, Initial(input, cutoff);
    CandidateEvents(b.events, b.checks, Some(cutoff), false, input.historical);
    var e :| e in b.events && initial.value in EventCandidates(e, b.checks, Some(cutoff), false, input.historical);
    CandidateOf(e, b.checks, Some(cutoff), false, input.historical);
  }

  /** What the commits of stored events are: one event each. */
  ghost predicate AllDistinct(inputs: seq<Input>) {
    forall i | 0 <= i < |inputs| :: DistinctCommits(inputs[i].before.events) && DistinctCommits(inputs[i].after.events)
  }

  ghost predicate AreInitial(inputs: seq<Input>, initials: seq<Identity>, maxCommit: int, cutoff: int, end: int) {
    |inputs| == |initials| && forall i | 0 <= i < |inputs| :: IsInitial(inputs[i], initials[i], maxCommit, cutoff, end)
  }

  /** The event an admitted input was completed with, among today's events. */
  function Current(input: Input, initial: Identity): Option<Event> {
    FindEvent(input.after.events, initial.event.commit)
  }

  function BoundaryDays(input: Input, initial: Identity, cutoff: int, end: int): set<int> {
    if Current(input, initial).None? then {}
    else CheckDays(Current(input, initial).value, input.after.checks, cutoff, end)
  }

  ghost predicate Bounded(inputs: seq<Input>, initials: seq<Identity>, boundaries: set<int>, cutoff: int, end: int) {
    && cutoff in boundaries && end in boundaries
    && (forall d | d in boundaries :: cutoff <= d <= end)
    && |inputs| == |initials|
    && forall i | 0 <= i < |inputs| :: BoundaryDays(inputs[i], initials[i], cutoff, end) <= boundaries
  }

  lemma DayStep(inputs: seq<Input>, initials: seq<Identity>, i: nat, day: int, cutoff: int)
    requires i < |inputs| == |initials|
    ensures AllFit(inputs[..i + 1], initials[..i + 1], day, cutoff)
      <==> AllFit(inputs[..i], initials[..i], day, cutoff) && Fits(inputs[i], initials[i], day, cutoff)
    ensures Baseline(inputs[..i + 1], day) <==> Baseline(inputs[..i], day) || ShowsBaseline(inputs[i], day)
  {
    hide Fits;
    BaselineStep(inputs, i, day);
    hide Baseline;
    var more, less := inputs[..i + 1], inputs[..i];
    assert more[i] == inputs[i] && initials[..i + 1][i] == initials[i];
    assert forall j | 0 <= j < i :: more[j] == less[j] && initials[..i + 1][j] == initials[..i][j];
  }

  lemma BaselineStep(inputs: seq<Input>, i: nat, day: int)
    requires i < |inputs|
    ensures Baseline(inputs[..i + 1], day) <==> Baseline(inputs[..i], day) || ShowsBaseline(inputs[i], day)
  {
    hide ShowsBaseline;
    var more, less := inputs[..i + 1], inputs[..i];
    assert more[i] == inputs[i] && forall j | 0 <= j < i :: more[j] == less[j];
  }

  lemma FitsEach(inputs: seq<Input>, initials: seq<Identity>, i: nat, day: int, cutoff: int)
    requires i < |inputs| == |initials| && !Fits(inputs[i], initials[i], day, cutoff)
    ensures !AllFit(inputs, initials, day, cutoff)
  {}

  /** One day over all inputs: whether it fits the record, and whether some selection is a baseline. */
  method CheckDay(inputs: seq<Input>, initials: seq<Identity>, day: int, cutoff: int)
    returns (fits: bool, baseline: bool)
    requires |inputs| == |initials|
    ensures fits <==> AllFit(inputs, initials, day, cutoff)
    ensures fits ==> (baseline <==> Baseline(inputs, day))
  {
    baseline := false;
    for i := 0 to |inputs|
      invariant AllFit(inputs[..i], initials[..i], day, cutoff)
      invariant baseline <==> Baseline(inputs[..i], day)
    {
      DayStep(inputs, initials, i, day, cutoff);
      if !Fits(inputs[i], initials[i], day, cutoff) {
        FitsEach(inputs, initials, i, day, cutoff);
        return false, baseline;
      }
      baseline := baseline || ShowsBaseline(inputs[i], day);
    }
    assert inputs[..|inputs|] == inputs && initials[..|inputs|] == initials;
    fits := true;
  }

  /** Admits the inputs one by one, collecting recorded identities and boundary days. */
  method Admit(inputs: seq<Input>, maxCommit: int, cutoff: int, end: int)
    returns (admitted: bool, initials: seq<Identity>, boundaries: set<int>)
    requires cutoff <= end && AllDistinct(inputs)
    ensures !admitted ==> forall recorded :: !AreInitial(inputs, recorded, maxCommit, cutoff, end)
    ensures admitted ==> AreInitial(inputs, initials, maxCommit, cutoff, end)
    ensures admitted ==> Bounded(inputs, initials, boundaries, cutoff, end)
  {
    initials, boundaries := [], {cutoff, end};
    for i := 0 to |inputs|
      invariant AreInitial(inputs[..i], initials, maxCommit, cutoff, end)
      invariant Bounded(inputs[..i], initials, boundaries, cutoff, end)
    {
      AdmittedIs(inputs[i], maxCommit, cutoff, end);
      if !Admitted(inputs[i], maxCommit, cutoff, end) {
        forall recorded ensures !AreInitial(inputs, recorded, maxCommit, cutoff, end) {
          if |recorded| == |inputs| { assert !IsInitial(inputs[i], recorded[i], maxCommit, cutoff, end); }
        }
        return false, initials, boundaries;
      }
      var initial := Initial(inputs[i], cutoff).value;
      AdmitStep(inputs[..i], initials, boundaries, inputs[i], initial, maxCommit, cutoff, end);
      assert inputs[..i + 1] == inputs[..i] + [inputs[i]];
      initials := initials + [initial];
      boundaries := boundaries + BoundaryDays(inputs[i], initial, cutoff, end);
    }
    assert inputs[..|inputs|] == inputs;
    assert forall i | 0 <= i < |inputs| :: IsInitial(inputs[i], initials[i], maxCommit, cutoff, end);
    admitted := true;
  }

  lemma AdmitStep(done: seq<Input>, initials: seq<Identity>, boundaries: set<int>, input: Input, initial: Identity,
                  maxCommit: int, cutoff: int, end: int)
    requires AreInitial(done, initials, maxCommit, cutoff, end) && Bounded(done, initials, boundaries, cutoff, end)
    requires IsInitial(input, initial, maxCommit, cutoff, end)
    ensures AreInitial(done + [input], initials + [initial], maxCommit, cutoff, end)
    ensures Bounded(done + [input], initials + [initial], boundaries + BoundaryDays(input, initial, cutoff, end),
                    cutoff, end)
  {
    var inputs, more := done + [input], initials + [initial];
    forall i | 0 <= i < |inputs| ensures IsInitial(inputs[i], more[i], maxCommit, cutoff, end) {
      if i < |done| { assert IsInitial(done[i], initials[i], maxCommit, cutoff, end); }
    }
  }

  lemma SettledFromFit(input: Input, initial: Identity, maxCommit: int, cutoff: int, end: int)
    requires IsInitial(input, initial, maxCommit, cutoff, end) && Fits(input, initial, cutoff, cutoff)
    requires DistinctCommits(input.after.events)
    ensures Current(input, initial).Some? && Settled(input, Current(input, initial).value, cutoff, end)
  {}

  /** The last boundary on or before a day. */
  lemma BoundaryBefore(days: seq<int>, day: int) returns (b: int)
    requires Ascending(days) && days != [] && days[0] <= day
    ensures b in days && b <= day && forall d | d in days :: !(b < d <= day)
  {
    var k := BisectRight(days, day);
    b := days[k - 1];
    forall d | d in days ensures !(b < d <= day) {
      var i :| 0 <= i < |days| && days[i] == d;
      if i < k { assert days[i] <= days[k - 1]; } else { assert days[k] <= days[i]; }
    }
  }

  /** What was decided on the last boundary holds on the day. */
  lemma DayFollowsBoundary(inputs: seq<Input>, initials: seq<Identity>, maxCommit: int, cutoff: int, end: int,
                           boundaries: set<int>, b: int, day: int)
    requires AreInitial(inputs, initials, maxCommit, cutoff, end) && AllFit(inputs, initials, cutoff, cutoff)
    requires AllDistinct(inputs)
    requires Bounded(inputs, initials, boundaries, cutoff, end)
    requires cutoff <= b <= day <= end && forall d | d in boundaries :: !(b < d <= day)
    ensures forall i | 0 <= i < |inputs| :: Selected(inputs[i], day) == Selected(inputs[i], b)
  {
    forall i | 0 <= i < |inputs| ensures Selected(inputs[i], day) == Selected(inputs[i], b) {
      assert IsInitial(inputs[i], initials[i], maxCommit, cutoff, end) && Fits(inputs[i], initials[i], cutoff, cutoff);
      SettledFromFit(inputs[i], initials[i], maxCommit, cutoff, end);
      assert BoundaryDays(inputs[i], initials[i], cutoff, end) <= boundaries;
      SelectionConstant(inputs[i], Current(inputs[i], initials[i]).value, cutoff, end, b, day);
    }
  }

  /** Without a baseline on one day there is none later. */
  lemma NoBaselineLater(inputs: seq<Input>, initials: seq<Identity>, maxCommit: int, cutoff: int, end: int, a: int,
                        b: int)
    requires AreInitial(inputs, initials, maxCommit, cutoff, end) && AllFit(inputs, initials, cutoff, cutoff)
    requires AllDistinct(inputs)
    requires cutoff <= a <= b <= end && !Baseline(inputs, a)
    ensures !Baseline(inputs, b)
  {
    forall i | 0 <= i < |inputs| ensures !ShowsBaseline(inputs[i], b) {
      assert !ShowsBaseline(inputs[i], a);
      assert IsInitial(inputs[i], initials[i], maxCommit, cutoff, end) && Fits(inputs[i], initials[i], cutoff, cutoff);
      SettledFromFit(inputs[i], initials[i], maxCommit, cutoff, end);
      if ShowsBaseline(inputs[i], b) {
        BaselineFades(inputs[i], Current(inputs[i], initials[i]).value, cutoff, end, a, b);
      }
    }
  }

  // ---------------------------------------------------------------- the decision

  /** On every day of the window the inputs select the commits they were completed with, on the first day with the same
      baseline status. */
  ghost predicate KeepsRecorded(inputs: seq<Input>, initials: seq<Identity>, cutoff: int, end: int) {
    && |inputs| == |initials|
    && (forall i | 0 <= i < |inputs| :: ShowsBaseline(inputs[i], cutoff) <==> initials[i].baseline)
    && forall i, day | 0 <= i < |inputs| && cutoff <= day <= end ::
         Selected(inputs[i], day).Some? && Selected(inputs[i], day).value.event.commit == initials[i].event.commit
  }

  lemma KeptFits(inputs: seq<Input>, initials: seq<Identity>, cutoff: int, end: int, day: int)
    requires KeepsRecorded(inputs, initials, cutoff, end) && cutoff <= day <= end
    ensures AllFit(inputs, initials, day, cutoff)
  {
    forall i | 0 <= i < |inputs| ensures Fits(inputs[i], initials[i], day, cutoff) {
      assert Selected(inputs[i], day).Some?;
    }
  }

  lemma FitsAreKept(inputs: seq<Input>, initials: seq<Identity>, cutoff: int, end: int)
    requires cutoff <= end && forall day | cutoff <= day <= end :: AllFit(inputs, initials, day, cutoff)
    ensures KeepsRecorded(inputs, initials, cutoff, end)
  {
    assert AllFit(inputs, initials, cutoff, cutoff);
    forall i | 0 <= i < |inputs| ensures ShowsBaseline(inputs[i], cutoff) <==> initials[i].baseline {
      assert Fits(inputs[i], initials[i], cutoff, cutoff);
    }
    forall i, day | 0 <= i < |inputs| && cutoff <= day <= end
      ensures Selected(inputs[i], day).Some? && Selected(inputs[i], day).value.event.commit == initials[i].event.commit
    {
      assert AllFit(inputs, initials, day, cutoff) && Fits(inputs[i], initials[i], day, cutoff);
    }
  }

  /** t is the first day of the window without a baseline, and all days keep the recorded commits. */
  ghost predicate FirstClearDay(inputs: seq<Input>, initials: seq<Identity>, cutoff: int, end: int, t: int) {
    && cutoff < t <= end
    && KeepsRecorded(inputs, initials, cutoff, end)
    && (forall day | cutoff <= day < t :: Baseline(inputs, day))
    && (forall day | t <= day <= end :: !Baseline(inputs, day))
  }

  /** The state of the boundary sweep: days[..k] fit, and transition is the first of them without a baseline. */
  ghost predicate Swept(inputs: seq<Input>, initials: seq<Identity>, cutoff: int, days: seq<int>,
                        transition: Option<int>)
  {
    && (forall d | d in days :: AllFit(inputs, initials, d, cutoff))
    && (transition.Some? ==> transition.value in days && !Baseline(inputs, transition.value))
    && (forall d | d in days && (transition.None? || d < transition.value) :: Baseline(inputs, d))
  }

  lemma SweptNothing(inputs: seq<Input>, initials: seq<Identity>, cutoff: int, days: seq<int>)
    ensures Swept(inputs, initials, cutoff, days[..0], None)
  {}

  lemma SweptStep(inputs: seq<Input>, initials: seq<Identity>, cutoff: int, days: seq<int>, transition: Option<int>,
                  day: int)
    requires Swept(inputs, initials, cutoff, days, transition)
    requires AllFit(inputs, initials, day, cutoff) && forall d | d in days :: d < day
    ensures Swept(inputs, initials, cutoff, days + [day],
      if !Baseline(inputs, day) && transition.None? then Some(day) else transition)
  {}

  /** One boundary day: it must fit the record, and the first day must still show a baseline. */
  method SweepDay(inputs: seq<Input>, initials: seq<Identity>, cutoff: int, ghost done: seq<int>, earlier: Option<int>,
                  day: int)
    returns (fits: bool, transition: Option<int>)
    requires |inputs| == |initials| && Swept(inputs, initials, cutoff, done, earlier) && forall d | d in done :: d < day
    ensures fits <==> AllFit(inputs, initials, day, cutoff) && (day == cutoff ==> Baseline(inputs, cutoff))
    ensures fits ==> Swept(inputs, initials, cutoff, done + [day], transition)
  {
    transition := earlier;
    var baseline;
    fits, baseline := CheckDay(inputs, initials, day, cutoff);
    if !fits {
      return;
    }
    if day == cutoff && !baseline {
      return false, earlier;
    }
    SweptStep(inputs, initials, cutoff, done, earlier, day);
    if !baseline && earlier.None? {
      transition := Some(day);
    }
  }

  method Sweep(inputs: seq<Input>, initials: seq<Identity>, cutoff: int, days: seq<int>)
    returns (fits: bool, transition: Option<int>)
    requires |inputs| == |initials| && Ascending(days) && days != [] && days[0] == cutoff
    ensures fits ==> Swept(inputs, initials, cutoff, days, transition) && Baseline(inputs, cutoff)
    ensures !fits ==> (exists d :: d in days && !AllFit(inputs, initials, d, cutoff)) || !Baseline(inputs, cutoff)
  {
    SweptNothing(inputs, initials, cutoff, days);
    hide AllFit, Baseline, Swept;
    transition := None;
    for k := 0 to |days|
      invariant Swept(inputs, initials, cutoff, days[..k], transition)
      invariant k > 0 ==> Baseline(inputs, cutoff)
    {
      fits, transition := SweepDay(inputs, initials, cutoff, days[..k], transition, days[k]);
      if !fits {
        assert days[k] in days;
        return;
      }
      assert days[..k + 1] == days[..k] + [days[k]];
    }
    assert days[..|days|] == days;
    fits := true;
  }

  /** The first day on which verified copies have replaced every baseline, decided from boundary days alone. */
  method Transition(inputs: seq<Input>, maxCommit: int, cutoff: int, end: int)
    returns (transition: Option<int>, ghost initials: seq<Identity>)
    requires cutoff <= end
    requires AllDistinct(inputs)
    ensures transition.Some? ==> AreInitial(inputs, initials, maxCommit, cutoff, end)
    ensures transition.Some? ==> FirstClearDay(inputs, initials, cutoff, end, transition.value)
    ensures transition.None? ==> forall recorded, t ::
      !(AreInitial(inputs, recorded, maxCommit, cutoff, end) && FirstClearDay(inputs, recorded, cutoff, end, t))
  {
    transition, initials := None, [];
    var admitted, recorded, boundaries := Admit(inputs, maxCommit, cutoff, end);
    if !admitted {
      return;
    }
    initials := recorded;
    var days := DaysIn(boundaries, cutoff, end);
    DaysStart(boundaries, cutoff, end);
    var fits;
    fits, transition := Sweep(inputs, recorded, cutoff, days);
    forall other | AreInitial(inputs, other, maxCommit, cutoff, end) ensures other == recorded {
      SameInitials(inputs, recorded, other, maxCommit, cutoff, end);
    }
    if !fits {
      transition := None;
      forall t ensures !FirstClearDay(inputs, recorded, cutoff, end, t) {
        if FirstClearDay(inputs, recorded, cutoff, end, t) {
          forall d | d in days ensures AllFit(inputs, recorded, d, cutoff) {
            KeptFits(inputs, recorded, cutoff, end, d);
          }
        }
      }
      return;
    }
    SweepDecides(inputs, recorded, maxCommit, cutoff, end, boundaries, days, transition);
  }

  lemma DaysStart(boundaries: set<int>, cutoff: int, end: int)
    requires cutoff in boundaries && cutoff <= end
    ensures DaysIn(boundaries, cutoff, end) != [] && DaysIn(boundaries, cutoff, end)[0] == cutoff
  {}

  lemma SameInitials(inputs: seq<Input>, a: seq<Identity>, b: seq<Identity>, maxCommit: int, cutoff: int, end: int)
    requires AreInitial(inputs, a, maxCommit, cutoff, end) && AreInitial(inputs, b, maxCommit, cutoff, end)
    ensures a == b
  {
    forall i | 0 <= i < |inputs| ensures a[i] == b[i] {
      assert IsInitial(inputs[i], a[i], maxCommit, cutoff, end) && IsInitial(inputs[i], b[i], maxCommit, cutoff, end);
    }
  }

  lemma AnyDayLikeBoundary(inputs: seq<Input>, initials: seq<Identity>, maxCommit: int, cutoff: int, end: int,
                           boundaries: set<int>, days: seq<int>, day: int) returns (b: int)
    requires AreInitial(inputs, initials, maxCommit, cutoff, end)
    requires AllDistinct(inputs)
    requires Bounded(inputs, initials, boundaries, cutoff, end) && days == DaysIn(boundaries, cutoff, end)
    requires AllFit(inputs, initials, cutoff, cutoff) && cutoff <= day <= end
    ensures b in days && cutoff <= b <= day
    ensures forall i | 0 <= i < |inputs| :: Selected(inputs[i], day) == Selected(inputs[i], b)
    ensures AllFit(inputs, initials, b, cutoff) && day != cutoff ==> AllFit(inputs, initials, day, cutoff)
    ensures Baseline(inputs, day) <==> Baseline(inputs, b)
  {
    DaysStart(boundaries, cutoff, end);
    b := BoundaryBefore(days, day);
    DayFollowsBoundary(inputs, initials, maxCommit, cutoff, end, boundaries, b, day);
    if AllFit(inputs, initials, b, cutoff) && day != cutoff {
      forall i | 0 <= i < |inputs| ensures Fits(inputs[i], initials[i], day, cutoff) {
        assert Fits(inputs[i], initials[i], b, cutoff);
      }
    }
    assert forall i | 0 <= i < |inputs| :: ShowsBaseline(inputs[i], day) <==> ShowsBaseline(inputs[i], b);
  }

  /** What the boundaries keep is kept on every day. */
  lemma BoundariesFit(inputs: seq<Input>, initials: seq<Identity>, maxCommit: int, cutoff: int, end: int,
                      boundaries: set<int>, days: seq<int>)
    requires AreInitial(inputs, initials, maxCommit, cutoff, end) && cutoff <= end && AllDistinct(inputs)
    requires Bounded(inputs, initials, boundaries, cutoff, end) && days == DaysIn(boundaries, cutoff, end)
    requires AllFit(inputs, initials, cutoff, cutoff) && forall d | d in days :: AllFit(inputs, initials, d, cutoff)
    ensures KeepsRecorded(inputs, initials, cutoff, end)
  {
    hide *;
    forall day | cutoff <= day <= end ensures AllFit(inputs, initials, day, cutoff) {
      var b := AnyDayLikeBoundary(inputs, initials, maxCommit, cutoff, end, boundaries, days, day);
    }
    FitsAreKept(inputs, initials, cutoff, end);
  }

  lemma SweepDecides(inputs: seq<Input>, initials: seq<Identity>, maxCommit: int, cutoff: int, end: int,
                     boundaries: set<int>, days: seq<int>, transition: Option<int>)
    requires AreInitial(inputs, initials, maxCommit, cutoff, end) && cutoff <= end
    requires AllDistinct(inputs)
    requires Bounded(inputs, initials, boundaries, cutoff, end) && days == DaysIn(boundaries, cutoff, end)
    requires Swept(inputs, initials, cutoff, days, transition) && Baseline(inputs, cutoff)
    ensures transition.Some? ==> FirstClearDay(inputs, initials, cutoff, end, transition.value)
    ensures transition.None? ==> forall day | cutoff <= day <= end :: Baseline(inputs, day)
  {
    DaysStart(boundaries, cutoff, end);
    assert AllFit(inputs, initials, cutoff, cutoff);
    BoundariesFit(inputs, initials, maxCommit, cutoff, end, boundaries, days);
    hide AllFit, KeepsRecorded, Baseline, Bounded, AreInitial, DaysIn, AllDistinct;
    forall day | cutoff <= day <= end && (transition.None? || day < transition.value) ensures Baseline(inputs, day) {
      var b := AnyDayLikeBoundary(inputs, initials, maxCommit, cutoff, end, boundaries, days, day);
    }
    if transition.Some? {
      assert transition.value != cutoff;
      forall day | transition.value <= day <= end ensures !Baseline(inputs, day) {
        NoBaselineLater(inputs, initials, maxCommit, cutoff, end, transition.value, day);
      }
    }
  }
}
