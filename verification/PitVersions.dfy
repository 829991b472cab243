/** Point-in-time evaluation: the producer runs only at boundary days, and replaying the published
    deltas gives its output for every day (items/pit.py, iter_computed_versions). */
module PitVersions {
  import opened Wrappers
  import opened InputSnapshots
  import opened Revisions
  import opened Postponement
  import opened Calendars

  type Producer = (seq<View>, int) -> seq<OutRow>

  /** Output at a day is decided by the observations up to that day. */
  ghost predicate Causal(producer: Producer) {
    forall a, b, c, d, key: Coord ::
      (key.time <= c && key.time <= d && SameUpTo(a, b, key.time)) ==>
        Lookup(producer(a, c), key) == Lookup(producer(b, d), key)
  }

  // ---------------------------------------------------------------- the schedule

  function AllRevisionDates(frames: seq<Frame>): (r: set<int>)
    ensures forall day :: day in r <==> exists frame :: frame in frames && day in RevisionDates(frame)
  {
    if frames == [] then {} else
      assert forall frame | frame in frames :: frame == frames[0] || frame in frames[1..];
      RevisionDates(frames[0]) + AllRevisionDates(frames[1..])
  }

  /** The boundary days after the initial evaluation. */
  function BoundaryDays(frames: seq<Frame>, extra: set<int>, start: int, end: int): seq<int> {
    DaysIn(AllRevisionDates(frames) + extra, start + 1, end)
  }

  datatype BuildError = EndPrecedesStart | DuplicateKeys

  /** A build over start..end evaluated at the days of its schedule. */
  datatype Job = Job(frames: seq<Frame>, start: int, end: int, days: seq<int>, producer: Producer) {

    function Boundary(i: nat): Option<int>
      requires i <= |days|
    {
      if i == 0 then None else Some(days[i - 1])
    }

    /** The last day before the next boundary. */
    function Cutoff(i: nat): int
      requires i <= |days|
    {
      if i < |days| then days[i] - 1 else end
    }

    /** What a day-by-day caller would compute on a day. */
    function Recompute(day: int): seq<OutRow> {
      producer(Snapshots(frames, day), day)
    }

    function EvaluationAt(i: nat): Evaluation
      requires i <= |days|
    {
      Evaluation(Boundary(i), Recompute(Cutoff(i)))
    }

    /** The evaluations in boundary order, up to and including the n-th. */
    function Run(n: nat): (r: seq<Evaluation>)
      requires n <= |days|
      ensures |r| == n + 1 && forall i | 0 <= i <= n :: r[i] == EvaluationAt(i)
    {
      if n == 0 then [EvaluationAt(0)] else Run(n - 1) + [EvaluationAt(n)]
    }

    function Dates(): Range { Range(start, end) }

    function FullLog(): seq<Delta> { Log(Dates(), Run(|days|)) }

    /** Boundaries ascend within the range and include every revision date in it. */
    ghost predicate Scheduled() {
      && start <= end
      && Ascending(days)
      && (forall d | d in days :: start < d <= end)
      && (forall frame, d | frame in frames && d in RevisionDates(frame) && start < d <= end :: d in days)
    }

    ghost predicate CausalJob() {
      && Scheduled()
      && Causal(producer)
      && (forall frame | frame in frames :: CausalInput(frame, start))
      && (forall i | 0 <= i <= |days| :: NoDuplicates(EvaluationAt(i).rows))
    }

    ghost predicate AllOnTime() { OnTime(Dates(), Run(|days|)) }

    /** Rows dated after their evaluation's cutoff are not postponed. */
    ghost predicate FutureRowsOnTime() {
      forall i, row | 0 <= i <= |days| && row in EvaluationAt(i).rows && Cutoff(i) < row.key.time <= end ::
        !EvaluationAt(i).Delayed(row)
    }

    /** Current rows are in effect, and no announced row surfaces wrongly. */
    ghost predicate InTime() { Ordered(Dates(), Run(|days|)) && Timely(Dates(), Run(|days|)) }
  }

  /** The boundaries are exactly the days of the range after its first that are asked for or revise an input. */
  lemma BoundaryDaysSchedule(frames: seq<Frame>, extra: set<int>, start: int, end: int, producer: Producer)
    ensures start <= end ==> Job(frames, start, end, BoundaryDays(frames, extra, start, end), producer).Scheduled()
    ensures forall day :: day in BoundaryDays(frames, extra, start, end) <==>
      start < day <= end && (day in extra || exists frame :: frame in frames && day in RevisionDates(frame))
  {}

  ghost predicate Faithful(job: Job, key: Coord, day: int) {
    Shows(Replay(job.FullLog(), key, day), if key.time <= day then Lookup(job.Recompute(day), key) else None)
  }

  // ---------------------------------------------------------------- segments

  /** The evaluation in force on a day. */
  ghost predicate InSegment(job: Job, i: nat, day: int) {
    && i <= |job.days|
    && (i > 0 ==> job.days[i - 1] <= day)
    && job.start <= day <= job.Cutoff(i)
  }

  lemma {:induction false} SegmentExists(job: Job, i: nat, day: int) returns (s: nat)
    requires i <= |job.days| && job.start <= day <= job.end
    requires i > 0 ==> job.days[i - 1] <= day
    ensures InSegment(job, s, day)
    decreases |job.days| - i
  {
    if i < |job.days| && job.days[i] <= day {
      s := SegmentExists(job, i + 1, day);
    } else {
      s := i;
    }
  }

  lemma GapIsEmpty(days: seq<int>, i: nat, date: int)
    requires Ascending(days)
    requires i <= |days| && (i > 0 ==> days[i - 1] < date) && (i < |days| ==> date < days[i])
    ensures date !in days
  {
    forall j | 0 <= j < |days| ensures days[j] != date {
      if j < i { assert days[j] <= days[i - 1]; } else { assert days[i] <= days[j]; }
    }
  }

  /** Nothing but ordinary later observations separates a day from the end of its segment. */
  lemma NoRevisionInside(job: Job, i: nat, day: int, frame: Frame)
    requires job.Scheduled() && InSegment(job, i, day) && frame in job.frames
    ensures forall date | day < date <= job.Cutoff(i) :: date !in RevisionDates(frame)
  {
    if i < |job.days| { assert job.days[i] in job.days; }
    forall date | day < date <= job.Cutoff(i) ensures date !in RevisionDates(frame) {
      GapIsEmpty(job.days, i, date);
    }
  }

  lemma SegmentViewsAgree(job: Job, i: nat, day: int, time: int)
    requires job.Scheduled() && InSegment(job, i, day) && time <= day
    requires forall frame | frame in job.frames :: CausalInput(frame, job.start)
    ensures SameUpTo(Snapshots(job.frames, job.Cutoff(i)), Snapshots(job.frames, day), time)
  {
    forall n | 0 <= n < |job.frames|
      ensures UpTo(InputSnapshot(job.frames[n], job.Cutoff(i)), time) == UpTo(InputSnapshot(job.frames[n], day), time)
    {
      NoRevisionInside(job, i, day, job.frames[n]);
      FrameAgrees(job.frames[n], job.start, day, job.Cutoff(i), time);
    }
  }

  lemma CutoffInRange(job: Job, i: nat)
    requires job.Scheduled() && i <= |job.days|
    ensures job.Cutoff(i) <= job.end
    ensures i > 0 ==> job.start < job.days[i - 1] <= job.Cutoff(i)
  {
    if i > 0 { assert job.days[i - 1] in job.days; }
    if i < |job.days| { assert job.days[i] in job.days; }
  }

  /** On a day of a segment, recomputing gives what the segment's evaluation gives for past times. */
  lemma RecomputedIsEvaluated(job: Job, i: nat, key: Coord, day: int)
    requires job.CausalJob() && InSegment(job, i, day) && key.time <= day
    ensures Lookup(job.Recompute(day), key) == Lookup(job.EvaluationAt(i).rows, key)
  {
    SegmentViewsAgree(job, i, day, key.time);
  }

  lemma RunOrdered(job: Job)
    requires job.Scheduled()
    requires forall i | 0 <= i <= |job.days| :: NoDuplicates(job.EvaluationAt(i).rows)
    ensures Ordered(job.Dates(), job.Run(|job.days|))
  {
    var run := job.Run(|job.days|);
    forall i | 0 < i < |run| ensures job.start < run[i].boundary.value <= job.end {
      CutoffInRange(job, i);
    }
  }

  /** A day's segment is the evaluation in force. */
  lemma SegmentInForce(job: Job, i: nat, day: int)
    requires Ordered(job.Dates(), job.Run(|job.days|))
    ensures InSegment(job, i, day) <==> InForce(job.Dates(), job.Run(|job.days|), i, day)
  {}

  /** Faithful means that the log shows the evaluation in force. */
  lemma FaithfulIsShown(job: Job, i: nat, key: Coord, day: int)
    requires job.CausalJob() && InSegment(job, i, day)
    ensures Faithful(job, key, day) <==> ShowsRow(job.Dates(), job.Run(|job.days|), i, key, day)
  {
    if key.time <= day { RecomputedIsEvaluated(job, i, key, day); }
  }

  // ---------------------------------------------------------------- main results

  /** Replaying the deltas on any day gives the day-by-day recomputation: changed rows, withdrawn keys
      and keys that come back, although the producer ran only at revision boundaries. */
  lemma ReplayRefinesRecomputation(job: Job, key: Coord, day: int)
    requires job.CausalJob() && job.InTime()
    requires job.start <= key.time <= job.end && job.start <= day <= job.end
    ensures Faithful(job, key, day)
  {
    var i := SegmentExists(job, 0, day);
    SegmentInForce(job, i, day);
    TimelyShows(job.Dates(), job.Run(|job.days|), i, key, day);
    FaithfulIsShown(job, i, key, day);
  }

  ghost predicate AlwaysFaithful(job: Job) {
    forall key: Coord, day | job.start <= key.time <= job.end && job.start <= day <= job.end :: Faithful(job, key, day)
  }

  lemma AlwaysFaithfulIsShown(job: Job)
    requires job.CausalJob() && Ordered(job.Dates(), job.Run(|job.days|)) && AlwaysFaithful(job)
    ensures AlwaysShows(job.Dates(), job.Run(|job.days|))
  {
    var run := job.Run(|job.days|);
    forall i, key, day | InForce(job.Dates(), run, i, day) && InDates(job.Dates(), key)
      ensures ShowsRow(job.Dates(), run, i, key, day)
    {
      InForceInRange(job.Dates(), run, i, day);
      SegmentInForce(job, i, day);
      assert Faithful(job, key, day);
      FaithfulIsShown(job, i, key, day);
    }
  }

  /** The replay of a causal producer is right on every day and key exactly when current rows are in effect and no
      announced row surfaces wrongly. */
  lemma ReplayExactly(job: Job)
    requires job.CausalJob()
    ensures job.InTime() <==> AlwaysFaithful(job)
  {
    RunOrdered(job);
    if job.InTime() {
      forall key: Coord, day | job.start <= key.time <= job.end && job.start <= day <= job.end
        ensures Faithful(job, key, day)
      {
        ReplayRefinesRecomputation(job, key, day);
      }
    }
    if AlwaysFaithful(job) {
      AlwaysFaithfulIsShown(job);
      AlwaysShowsExactly(job.Dates(), job.Run(|job.days|));
    }
  }

  lemma DelayedRows(job: Job, i: nat, row: OutRow)
    requires job.CausalJob() && i <= |job.days| && row in job.EvaluationAt(i).rows
    ensures Row(job.Run(|job.days|), i, row.key) == Some(row)
  {
    InLookup(job.EvaluationAt(i).rows, row);
  }

  lemma DelayedIsCurrent(job: Job)
    requires job.FutureRowsOnTime() && Ordered(job.Dates(), job.Run(|job.days|))
    ensures OnlyCurrentDelayed(job.Dates(), job.Run(|job.days|))
  {
    var run := job.Run(|job.days|);
    forall i, key | 0 <= i < |run| && InDates(job.Dates(), key) && DelayedAt(run, i, key)
      ensures key.time <= LastDay(job.Dates(), run, i)
    {
      assert run[i] == job.EvaluationAt(i);
    }
  }

  /** If rows dated after their cutoff are on time, the replay is right on every day and key exactly when every row is:
      no row's available date exceeds both its time and its boundary. */
  lemma ReplayExactlyWhenOnTime(job: Job)
    requires job.CausalJob() && job.FutureRowsOnTime()
    ensures job.AllOnTime() <==> AlwaysFaithful(job)
  {
    RunOrdered(job);
    ReplayExactly(job);
    var run := job.Run(|job.days|);
    if job.AllOnTime() {
      OnTimeIsTimely(job.Dates(), run);
    } else if job.InTime() {
      DelayedIsCurrent(job);
      forall i, row | 0 <= i < |run| && row in run[i].rows && job.start <= row.key.time <= job.end
        ensures !run[i].Delayed(row)
      {
        DelayedRows(job, i, row);
        NothingDelayed(job.Dates(), run, i, row.key);
      }
    }
  }

  /** A postponed row that is due within its own segment is missed on the day it takes effect, unless a tombstone shown
      already is just like it. */
  lemma DelayedRowIsMissed(job: Job, i: nat, row: OutRow)
    requires job.CausalJob() && i <= |job.days|
    requires row in job.EvaluationAt(i).rows && job.EvaluationAt(i).Delayed(row)
    requires job.start <= row.key.time <= job.Cutoff(i)
    ensures job.start <= job.EvaluationAt(i).Effective(row.key.time) <= job.end
    ensures Ordered(job.Dates(), job.Run(|job.days|)) && Row(job.Run(|job.days|), i, row.key) == Some(row)
    ensures Faithful(job, row.key, job.EvaluationAt(i).Effective(row.key.time)) <==>
      Repeats(job.Dates(), job.Run(|job.days|), i, row.key)
  {
    var day, run := job.EvaluationAt(i).Effective(row.key.time), job.Run(|job.days|);
    CutoffInRange(job, i);
    RunOrdered(job);
    DelayedRows(job, i, row);
    SegmentInForce(job, i, day);
    FaithfulIsShown(job, i, row.key, day);
    DelayedShown(job.Dates(), run, i, row.key);
  }

  // ---------------------------------------------------------------- two builds that are not in time

  /** One input of two snapshot events, and a producer that answers the first with some rows and the second with
      others. */
  ghost predicate TwoEvents(job: Job, first: SnapshotRow, second: SnapshotRow, before: seq<OutRow>, after: seq<OutRow>)
  {
    && job.frames == [GeneralFrame([first, second])] && job.days == [second.date]
    && first.baseline && !second.baseline && first.commit < second.commit
    && first.date == job.start < second.date <= job.end
    && (forall views, cutoff :: job.producer(views, cutoff) == if views == [Event([first])] then before else after)
  }

  lemma TwoEventViews(frames: seq<Frame>, first: SnapshotRow, second: SnapshotRow, day: int)
    requires frames == [GeneralFrame([first, second])]
    requires first.date <= day && first.date < second.date && first.commit < second.commit
    ensures Snapshots(frames, day) == [Event([if day < second.date then first else second])]
  {
    var events := [first, second];
    assert events[1..] == [second] && [second][1..] == [] && [first][1..] == [];
    assert VisibleEvents([], day) == [];
    assert VisibleEvents([second], day) == if day < second.date then [] else [second];
    assert VisibleEvents(events, day) == if day < second.date then [first] else events;
    assert GreatestEvents([first], [first]) == [first];
    assert !EventNotAfter(second, first) && EventNotAfter(first, second);
    assert GreatestEvents([second], events) == [second];
    assert GreatestEvents(events, events) == [second];
  }

  lemma TwoEventEvaluations(job: Job, first: SnapshotRow, second: SnapshotRow, before: seq<OutRow>, after: seq<OutRow>)
    requires TwoEvents(job, first, second, before, after)
    ensures job.Run(1) == [Evaluation(None, before), Evaluation(Some(second.date), after)]
    ensures forall day | second.date <= day :: job.Recompute(day) == after
  {
    TwoEventViews(job.frames, first, second, second.date - 1);
    TwoEventViews(job.frames, first, second, job.end);
    forall day | second.date <= day ensures job.Recompute(day) == after {
      TwoEventViews(job.frames, first, second, day);
    }
  }

  lemma TwoEventsCausal(producer: Producer, first: SnapshotRow, before: seq<OutRow>, after: seq<OutRow>)
    requires forall views, cutoff :: producer(views, cutoff) == if views == [Event([first])] then before else after
    ensures Causal(producer)
  {
    forall a, b, c, d, key: Coord | key.time <= c && key.time <= d && SameUpTo(a, b, key.time)
      ensures Lookup(producer(a, c), key) == Lookup(producer(b, d), key)
    {
      if a == [Event([first])] {
        assert UpTo(b[0], key.time) == UpTo(a[0], key.time);
        assert b == [Event([first])];
      }
      if b == [Event([first])] {
        assert UpTo(a[0], key.time) == UpTo(b[0], key.time);
        assert a == [Event([first])];
      }
    }
  }

  lemma TwoEventJob(job: Job, first: SnapshotRow, second: SnapshotRow, before: seq<OutRow>, after: seq<OutRow>)
    requires TwoEvents(job, first, second, before, after) && NoDuplicates(before) && NoDuplicates(after)
    ensures job.CausalJob()
  {
    TwoEventsCausal(job.producer, first, before, after);
    TwoEventEvaluations(job, first, second, before, after);
    assert forall frame | frame in job.frames :: frame == GeneralFrame([first, second]);
  }

  lemma WithdrawnLog(range: Range, run: seq<Evaluation>, row: OutRow, day: int)
    requires range == Range(1, 4) && run == [Evaluation(None, [row]), Evaluation(Some(2), [])]
    requires row.key.time == 1 && row.available == 3 && day >= 2
    ensures Replay(Log(range, run), row.key, day) ==
      Some(if day < 3 then Delta(row.(value := None), 2) else Delta(row, 3))
  {
    assert run[..2] == run;
    TwoBatches(range, run, row.key, day);
    assert Lookup([row], row.key) == Some(row) && Lookup([], row.key) == None;
  }

  /** A withdrawn row resurfaces: announced on day 1 for day 3, withdrawn on day 2, shown on days 3 and 4. */
  lemma DelayedWithdrawalResurfaces() returns (job: Job, row: OutRow)
    ensures job.CausalJob() && job.start <= row.key.time <= job.end == 4 && job.FutureRowsOnTime()
    ensures row.value == Some(5) && forall day | 2 <= day :: job.Recompute(day) == []
    ensures Replay(job.FullLog(), row.key, 2) == Some(Delta(row.(value := None), 2))
    ensures Replay(job.FullLog(), row.key, 3) == Replay(job.FullLog(), row.key, 4) == Some(Delta(row, 3))
  {
    var first, second := SnapshotRow(1, 1, 0, 0, true, 0), SnapshotRow(2, 2, 0, 0, false, 0);
    row := OutRow(Coord(1, "a"), Some(5), 1, 3, false);
    var rows := [row];
    var producer: Producer := (views: seq<View>, cutoff: int) => if views == [Event([first])] then rows else [];
    job := Job([GeneralFrame([first, second])], 1, 4, [2], producer);
    TwoEventJob(job, first, second, rows, []);
    TwoEventEvaluations(job, first, second, rows, []);
    WithdrawnLog(job.Dates(), job.Run(1), row, 2);
    WithdrawnLog(job.Dates(), job.Run(1), row, 3);
    WithdrawnLog(job.Dates(), job.Run(1), row, 4);
    NoFutureRows(job, row);
  }

  lemma NoFutureRows(job: Job, row: OutRow)
    requires job.days == [2] && job.Run(1) == [Evaluation(None, [row]), Evaluation(Some(2), [])] && row.key.time == 1
    ensures job.FutureRowsOnTime()
  {
    forall i, other | 0 <= i <= 1 && other in job.EvaluationAt(i).rows ensures other.key.time <= job.Cutoff(i) {
      assert job.Run(1)[i] == job.EvaluationAt(i);
    }
  }

  lemma AnnouncedLog(range: Range, run: seq<Evaluation>, announced: OutRow, revised: OutRow)
    requires range == Range(1, 8) && run == [Evaluation(None, [announced]), Evaluation(Some(4), [revised])]
    requires announced.key == revised.key && announced.key.time == 5
    requires announced.available == 8 && revised.available == 5
    ensures Replay(Log(range, run), announced.key, 8) == Some(Delta(announced, 8))
  {
    assert run[..2] == run;
    TwoBatches(range, run, announced.key, 8);
    assert Lookup([announced], announced.key) == Some(announced) && Lookup([revised], announced.key) == Some(revised);
  }

  lemma RevisedOnTime(range: Range, run: seq<Evaluation>, announced: OutRow, revised: OutRow)
    requires range == Range(1, 8) && run == [Evaluation(None, [announced]), Evaluation(Some(4), [revised])]
    requires announced.key == revised.key && announced.key.time == 5
    requires announced.available == 8 && revised.available == 5
    ensures Ordered(range, run) && CurrentInEffect(range, run)
  {}

  /** A superseded announcement surfaces: day 5 is announced on day 1 for day 8 and revised on day 4. All current rows
      are on time, and yet day 8 shows the announced row. */
  lemma AnnouncedRowSurfaces() returns (job: Job, announced: OutRow, revised: OutRow)
    ensures job.CausalJob() && Ordered(job.Dates(), job.Run(|job.days|))
    ensures CurrentInEffect(job.Dates(), job.Run(|job.days|)) && !job.FutureRowsOnTime()
    ensures announced.key == revised.key && announced.value == Some(7) && revised.value == Some(9)
    ensures job.Recompute(8) == [revised] && Replay(job.FullLog(), announced.key, 8) == Some(Delta(announced, 8))
  {
    var first, second := SnapshotRow(1, 1, 0, 0, true, 0), SnapshotRow(4, 2, 0, 0, false, 0);
    announced, revised := OutRow(Coord(5, "a"), Some(7), 5, 8, false), OutRow(Coord(5, "a"), Some(9), 5, 5, false);
    var before, after := [announced], [revised];
    var producer: Producer := (views: seq<View>, cutoff: int) => if views == [Event([first])] then before else after;
    job := Job([GeneralFrame([first, second])], 1, 8, [4], producer);
    TwoEventJob(job, first, second, before, after);
    TwoEventEvaluations(job, first, second, before, after);
    RevisedOnTime(job.Dates(), job.Run(1), announced, revised);
    AnnouncedLog(job.Dates(), job.Run(1), announced, revised);
    assert job.Cutoff(0) == 3 && announced in job.EvaluationAt(0).rows;
  }

  // ---------------------------------------------------------------- the evaluation loop

  /** Two rows of an evaluation have one key. */
  ghost predicate RepeatsKey(e: Evaluation) {
    exists i, j :: 0 <= i < j < |e.rows| && e.rows[i].key == e.rows[j].key
  }

  /** The n-th evaluation is the first that repeats a key; the log holds what came before it. */
  ghost predicate StoppedAt(range: Range, run: seq<Evaluation>, n: nat, log: seq<Delta>) {
    && n < |run|
    && log == Log(range, run[..n])
    && RepeatsKey(run[n])
    && AllDistinct(run[..n])
  }

  ghost predicate AllDistinct(run: seq<Evaluation>) {
    run == [] || (AllDistinct(run[..|run| - 1]) && NoDuplicates(run[|run| - 1].rows))
  }

  lemma PrefixStep(range: Range, run: seq<Evaluation>, n: nat)
    requires n < |run|
    ensures run[..n + 1] == run[..n] + [run[n]] && Previous(run[..n + 1]) == Some(run[n].rows)
    ensures Log(range, run[..n + 1]) == Log(range, run[..n]) + Reconcile(range, run[n], Previous(run[..n]))
    ensures AllDistinct(run[..n]) && NoDuplicates(run[n].rows) ==> AllDistinct(run[..n + 1])
  {
    LogGrows(range, run, n);
    assert run[..n + 1][..n] == run[..n];
  }

  lemma {:induction false} DistinctAt(run: seq<Evaluation>)
    requires AllDistinct(run)
    ensures forall i | 0 <= i < |run| :: NoDuplicates(run[i].rows)
  {
    if run != [] { DistinctAt(run[..|run| - 1]); }
  }

  lemma RepeatedKey(run: seq<Evaluation>, n: nat)
    requires n < |run| && !NoDuplicates(run[n].rows)
    ensures !AllDistinct(run)
  {
    if AllDistinct(run) { DistinctAt(run); }
  }

  lemma DistinctExactly(run: seq<Evaluation>)
    ensures AllDistinct(run) <==> forall e | e in run :: !RepeatsKey(e)
  {
    if AllDistinct(run) {
      DistinctAt(run);
    } else if forall e | e in run :: !RepeatsKey(e) {
      var n := FirstRepeat(run);
      assert run[n] in run;
    }
  }

  lemma {:induction false} FirstRepeat(run: seq<Evaluation>) returns (n: nat)
    requires !AllDistinct(run)
    ensures n < |run| && !NoDuplicates(run[n].rows)
  {
    if AllDistinct(run[..|run| - 1]) { n := |run| - 1; } else { n := FirstRepeat(run[..|run| - 1]); }
  }

  /** Evaluates one boundary at the last day before the next one. */
  method Calculate(job: Job, index: nat) returns (evaluation: Evaluation)
    requires index <= |job.days|
    ensures evaluation == job.Run(|job.days|)[index]
  {
    var boundary := if index == 0 then None else Some(job.days[index - 1]);
    var cutoff := if index < |job.days| then job.days[index] - 1 else job.end;
    evaluation := Evaluation(boundary, job.producer(Snapshots(job.frames, cutoff), cutoff));
  }

  /** The difference from the previous evaluation; identical frames skip the joins. */
  method Difference(range: Range, evaluation: Evaluation, previous: Option<seq<OutRow>>) returns (emitted: seq<Delta>)
    ensures emitted == Reconcile(range, evaluation, previous)
  {
    if previous.Some? && evaluation.rows == previous.value {
      IdenticalRowsEmitNothing(range, evaluation, evaluation.rows);
      return [];
    }
    return Reconcile(range, evaluation, previous);
  }

  /** Evaluates each boundary in order and publishes its difference from the previous evaluation.
      Stops at the first evaluation that repeats a key; what came before stays published. */
  method PublishRevisions(job: Job) returns (log: seq<Delta>, error: Option<BuildError>)
    ensures error.Some? ==>
      error == Some(DuplicateKeys) && exists n: nat :: StoppedAt(job.Dates(), job.Run(|job.days|), n, log)
    ensures error.None? ==> log == job.FullLog()
    ensures error.None? <==> AllDistinct(job.Run(|job.days|))
  {
    log, error := [], None;
    var previous: Option<seq<OutRow>> := None;
    var index := 0;
    ghost var run, done := job.Run(|job.days|), [];
    while index <= |job.days|
      invariant 0 <= index <= |job.days| + 1
      invariant done == run[..index]
      invariant previous == Previous(done)
      invariant log == Log(job.Dates(), done)
      invariant AllDistinct(done)
    {
      var evaluation := Calculate(job, index);
      if !NoDuplicates(evaluation.rows) {
        assert StoppedAt(job.Dates(), run, index, log);
        RepeatedKey(run, index);
        return log, Some(DuplicateKeys);
      }
      var emitted := Difference(job.Dates(), evaluation, previous);
      PrefixStep(job.Dates(), run, index);
      done := run[..index + 1];
      log := log + emitted;
      previous := Some(evaluation.rows);
      index := index + 1;
    }
    assert done == run;
  }

  /** Schedules the boundaries of a build and publishes its revisions. */
  method IterComputedVersions(frames: seq<Frame>, extra: set<int>, start: int, end: int, producer: Producer)
    returns (job: Job, log: seq<Delta>, error: Option<BuildError>)
    ensures job.frames == frames && job.start == start && job.end == end && job.producer == producer
    ensures Ascending(job.days) && forall day :: day in job.days <==>
              start < day <= end && (day in extra || exists frame :: frame in frames && day in RevisionDates(frame))
    ensures error == Some(EndPrecedesStart) <==> end < start
    ensures error == Some(DuplicateKeys) ==> exists n: nat :: StoppedAt(job.Dates(), job.Run(|job.days|), n, log)
    ensures error == Some(DuplicateKeys) <==> start <= end && exists e :: e in job.Run(|job.days|) && RepeatsKey(e)
    ensures error.None? ==> job.Scheduled() && log == job.FullLog()
    ensures error.None? ==> forall delta :: delta in log <==>
              exists i: nat :: i <= |job.days| && PublishedAt(job.Dates(), job.Run(|job.days|), i, delta)
    ensures error.None? && Causal(producer) && (forall frame | frame in frames :: CausalInput(frame, start)) ==>
      job.CausalJob()
  {
    job := Job(frames, start, end, BoundaryDays(frames, extra, start, end), producer);
    BoundaryDaysSchedule(frames, extra, start, end, producer);
    if end < start {
      return job, [], Some(EndPrecedesStart);
    }
    log, error := PublishRevisions(job);
    DistinctExactly(job.Run(|job.days|));
    if error.None? {
      DistinctAt(job.Run(|job.days|));
      forall delta { LoggedExactly(job.Dates(), job.Run(|job.days|), delta); }
    }
  }
}
