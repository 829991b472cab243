/** Rows postponed by their own available date: exactly when a log of deltas still shows every evaluation while it is in
    force (items/pit.py, calculate and reconcile). */
module Postponement {
  import opened Wrappers
  import opened Extremes
  import opened Revisions

  /** The last day before the next boundary. */
  function LastDay(range: Range, run: seq<Evaluation>, i: nat): int
    requires i < |run| && forall k | 0 < k < |run| :: run[k].boundary.Some?
  {
    if i + 1 < |run| then run[i + 1].boundary.value - 1 else range.end
  }

  /** The i-th evaluation is the one in force on a day. */
  ghost predicate InForce(range: Range, run: seq<Evaluation>, i: nat, day: int)
    requires Ordered(range, run)
  {
    i < |run| && (i > 0 ==> run[i].boundary.value <= day) && range.start <= day <= LastDay(range, run, i)
  }

  ghost predicate InDates(range: Range, key: Coord) { range.start <= key.time <= range.end }

  /** On every day the log shows the row in force, for times that have come, and nothing for later times. */
  ghost predicate ShowsRow(range: Range, run: seq<Evaluation>, i: nat, key: Coord, day: int)
    requires i < |run|
  {
    Shows(Replay(Log(range, run), key, day), if key.time <= day then Row(run, i, key) else None)
  }

  ghost predicate AlwaysShows(range: Range, run: seq<Evaluation>)
    requires Ordered(range, run)
  {
    forall i, key, day | InForce(range, run, i, day) && InDates(range, key) :: ShowsRow(range, run, i, key, day)
  }

  // ---------------------------------------------------------------- the condition

  predicate DelayedAt(run: seq<Evaluation>, i: nat, key: Coord)
    requires i < |run|
  {
    Row(run, i, key).Some? && run[i].Delayed(Row(run, i, key).value)
  }

  /** The delta shown on the row's effective day is the tombstone of an earlier row, and just like it. */
  ghost predicate RepeatedBy(range: Range, run: seq<Evaluation>, i: nat, key: Coord, w: nat)
    requires Ordered(range, run) && i < |run| && Row(run, i, key).Some?
  {
    && 0 < w < i && Row(run, w, key).None?
    && Wins(Batches(range, run, i + 1, key), run[i].Effective(key.time), w,
            Delta(Row(run, i, key).value, run[w].Effective(key.time)))
  }

  ghost predicate Repeats(range: Range, run: seq<Evaluation>, i: nat, key: Coord)
    requires Ordered(range, run) && i < |run| && Row(run, i, key).Some?
  {
    exists w :: RepeatedBy(range, run, i, key, w)
  }

  /** Rows of times their evaluation is in force for are not postponed, or repeat a tombstone already shown. */
  ghost predicate CurrentInEffect(range: Range, run: seq<Evaluation>)
    requires Ordered(range, run)
  {
    forall i, key | 0 <= i < |run| && InDates(range, key) && DelayedAt(run, i, key) ::
      key.time <= LastDay(range, run, i) ==> Repeats(range, run, i, key)
  }

  /** A postponed row that was not in the evaluation before: it is published under its available date. */
  predicate Announced(run: seq<Evaluation>, j: nat, key: Coord)
    requires j < |run|
  {
    DelayedAt(run, j, key) && Row(run, j, key) != Prior(run, j, key)
  }

  function Due(run: seq<Evaluation>, j: nat, key: Coord): int
    requires j < |run| && DelayedAt(run, j, key)
  {
    Row(run, j, key).value.available
  }

  /** The last row announced for its key and day, within the range. */
  ghost predicate FallsDue(range: Range, run: seq<Evaluation>, j: nat, key: Coord) {
    && j < |run| && Announced(run, j, key) && Due(run, j, key) <= range.end
    && forall k | j < k < |run| && Announced(run, k, key) :: Due(run, k, key) != Due(run, j, key)
  }

  /** On the day it falls due the key changes anyway, or its row is the one announced, or it is absent while the
      announced row is null. */
  ghost predicate Harmless(range: Range, run: seq<Evaluation>, j: nat, key: Coord, i: nat)
    requires Ordered(range, run) && j < |run| && DelayedAt(run, j, key)
  {
    && InForce(range, run, i, Due(run, j, key))
    && ((run[i].boundary == Some(Due(run, j, key)) && Row(run, i, key) != Prior(run, i, key))
        || Row(run, i, key) == Row(run, j, key)
        || (Row(run, i, key).None? && Row(run, j, key).value.value.None?))
  }

  ghost predicate DuesHarmless(range: Range, run: seq<Evaluation>)
    requires Ordered(range, run)
  {
    forall j, key | InDates(range, key) && FallsDue(range, run, j, key) :: exists i :: Harmless(range, run, j, key, i)
  }

  /** The whole condition: current rows are in effect, and no announced row surfaces wrongly. */
  ghost predicate Timely(range: Range, run: seq<Evaluation>)
    requires Ordered(range, run)
  {
    CurrentInEffect(range, run) && DuesHarmless(range, run)
  }

  lemma OnTimeIsTimely(range: Range, run: seq<Evaluation>)
    requires Ordered(range, run) && OnTime(range, run)
    ensures Timely(range, run)
  {}

  // ---------------------------------------------------------------- effective days

  lemma EffectiveGrows(range: Range, run: seq<Evaluation>, i: nat, j: nat, time: int)
    requires Ordered(range, run) && i <= j < |run|
    ensures run[i].Effective(time) <= run[j].Effective(time)
  {}

  /** What a batch of a key is: the new row under its effective or available date, or a null row. */
  lemma BatchIs(range: Range, run: seq<Evaluation>, j: nat, key: Coord, delta: Delta)
    requires j < |run| && Batch(range, run, j, key) == [delta]
    ensures Row(run, j, key) != Prior(run, j, key)
    ensures delta.version >= run[j].Effective(key.time)
    ensures delta.version > run[j].Effective(key.time) ==> Announced(run, j, key) && delta.version == Due(run, j, key)
    ensures if Row(run, j, key).Some? then delta.row == Row(run, j, key).value && delta.version >= delta.row.available
            else Prior(run, j, key).Some? && delta.row == Prior(run, j, key).value.(value := None)
  {}

  /** The evaluation a row in force goes back to. */
  function LastChange(run: seq<Evaluation>, i: nat, key: Coord): (c: nat)
    requires i < |run|
    ensures c <= i && Row(run, c, key) == Row(run, i, key)
    ensures c == 0 || Row(run, c, key) != Prior(run, c, key)
  {
    if i > 0 && Row(run, i, key) == Row(run, i - 1, key) then LastChange(run, i - 1, key) else i
  }

  lemma {:induction false} Unchanged(run: seq<Evaluation>, i: nat, key: Coord, k: nat)
    requires i < |run| && LastChange(run, i, key) < k <= i
    ensures Row(run, k, key) == Prior(run, k, key) && Row(run, k, key) == Row(run, i, key)
  {
    if k < i { Unchanged(run, i - 1, key, k); }
  }

  lemma LaterBoundaries(range: Range, run: seq<Evaluation>, i: nat, day: int)
    requires Ordered(range, run) && InForce(range, run, i, day)
    ensures forall k | i < k < |run| :: run[k].boundary.Some? && day < run[k].boundary.value
  {
    forall k | i < k < |run| ensures run[k].boundary.Some? && day < run[k].boundary.value {
      assert run[i + 1].boundary.value <= run[k].boundary.value;
    }
  }

  /** What the log shows on a day comes from the evaluations up to the one in force. */
  lemma Shown(range: Range, run: seq<Evaluation>, i: nat, key: Coord, day: int) returns (j: nat)
    requires Ordered(range, run) && InDates(range, key) && InForce(range, run, i, day)
    ensures var batches, r := Batches(range, run, i + 1, key), Replay(Log(range, run), key, day);
      (r.Some? ==> Wins(batches, day, j, r.value)) && (r.None? ==> NothingBy(batches, day))
  {
    LaterBoundaries(range, run, i, day);
    LaterBoundariesHidden(range, run, i + 1, key, day);
    ReplayIsLatest(range, run, i + 1, key, day);
    j := LatestWins(Batches(range, run, i + 1, key), day);
  }

  // ---------------------------------------------------------------- a timely log shows every row

  /** Nothing is shown of a time that has not come. */
  lemma FutureHidden(range: Range, run: seq<Evaluation>, i: nat, key: Coord, day: int)
    requires Ordered(range, run) && InDates(range, key) && InForce(range, run, i, day) && day < key.time
    ensures Replay(Log(range, run), key, day).None?
  {
    var j := Shown(range, run, i, key, day);
    var r := Replay(Log(range, run), key, day);
    if r.Some? { BatchIs(range, run, j, key, r.value); }
  }

  /** A later-dated delta that wins was announced, and falls due by the day. */
  lemma WinnerFallsDue(range: Range, run: seq<Evaluation>, i: nat, key: Coord, day: int, j: nat, delta: Delta)
    requires Ordered(range, run) && InDates(range, key) && InForce(range, run, i, day) && key.time <= day
    requires Wins(Batches(range, run, i + 1, key), day, j, delta)
    requires delta.version > run[j].Effective(key.time)
    ensures FallsDue(range, run, j, key) && Due(run, j, key) == delta.version
  {
    BatchIs(range, run, j, key, delta);
    forall k | j < k < |run| && Announced(run, k, key) ensures Due(run, k, key) != Due(run, j, key) {
      if Due(run, k, key) == delta.version { AnnouncedBatch(range, run, i, key, day, k, delta.version); }
    }
  }

  /** A row announced for a day is published under it, by an evaluation up to the one then in force. */
  lemma AnnouncedBatch(range: Range, run: seq<Evaluation>, i: nat, key: Coord, day: int, k: nat, due: int)
    requires Ordered(range, run) && InDates(range, key) && InForce(range, run, i, day)
    requires k < |run| && Announced(run, k, key) && Due(run, k, key) == due <= day
    ensures k <= i && Batches(range, run, i + 1, key)[k] == [Delta(Row(run, k, key).value, due)]
  {
    if k > i { LaterBoundaries(range, run, i, day); }
  }

  lemma SameSinceChange(run: seq<Evaluation>, i: nat, key: Coord, k: nat)
    requires i < |run| && LastChange(run, i, key) <= k <= i
    ensures Row(run, k, key) == Row(run, i, key)
    ensures LastChange(run, i, key) < k ==> Row(run, k, key) == Prior(run, k, key)
  {
    if LastChange(run, i, key) < k { Unchanged(run, i, key, k); }
  }

  /** What takes effect before a day comes from the evaluation in force on it, or from an earlier one. */
  lemma ChangedBefore(range: Range, run: seq<Evaluation>, c: nat, k: nat, time: int, day: int)
    requires Ordered(range, run) && InForce(range, run, k, day) && c < |run| && run[c].Effective(time) < day
    ensures c <= k
  {
    if k < c { LaterBoundaries(range, run, k, day); }
  }

  /** Evaluations are in force in order. */
  lemma ForceOrder(range: Range, run: seq<Evaluation>, k: nat, i: nat, a: int, b: int)
    requires Ordered(range, run) && InForce(range, run, k, a) && InForce(range, run, i, b) && a <= b
    ensures k <= i
  {
    if k > i { LaterBoundaries(range, run, i, b); }
  }

  /** On a day it is in force a row of a timely run is shown. */
  lemma TimelyShows(range: Range, run: seq<Evaluation>, i: nat, key: Coord, day: int)
    requires Ordered(range, run) && Timely(range, run) && InDates(range, key) && InForce(range, run, i, day)
    ensures ShowsRow(range, run, i, key, day)
  {
    if day < key.time {
      FutureHidden(range, run, i, key, day);
    } else {
      CurrentShown(range, run, i, key, day);
    }
  }

  /** The last change of a row publishes it. */
  lemma ChangeShows(range: Range, run: seq<Evaluation>, i: nat, key: Coord, delta: Delta)
    requires i < |run| && Batch(range, run, LastChange(run, i, key), key) == [delta]
    ensures Shows(Some(delta), Row(run, i, key))
  {
    BatchIs(range, run, LastChange(run, i, key), key, delta);
  }

  lemma WinnerNotLater(range: Range, run: seq<Evaluation>, i: nat, key: Coord, day: int, j: nat, delta: Delta)
    requires i < |run| && Wins(Batches(range, run, i + 1, key), day, j, delta)
    ensures j <= LastChange(run, i, key)
  {
    BatchIs(range, run, j, key, delta);
    if LastChange(run, i, key) < j { Unchanged(run, i, key, j); }
  }

  lemma WinnerIs(range: Range, run: seq<Evaluation>, i: nat, key: Coord, day: int, j: nat, delta: Delta)
    requires i < |run| && Wins(Batches(range, run, i + 1, key), day, j, delta)
    ensures j <= i && delta.version <= day && (Row(run, j, key).Some? ==> delta.row == Row(run, j, key).value)
    ensures run[j].Effective(key.time) < delta.version ==> Row(run, j, key).Some?
  {
    BatchIs(range, run, j, key, delta);
  }

  lemma HarmlessOf(range: Range, run: seq<Evaluation>, j: nat, key: Coord) returns (i: nat)
    requires Ordered(range, run) && DuesHarmless(range, run) && InDates(range, key) && FallsDue(range, run, j, key)
    ensures j < |run| && Row(run, j, key).Some? && DelayedAt(run, j, key) && Harmless(range, run, j, key, i)
    ensures InForce(range, run, i, Due(run, j, key))
  {
    i :| Harmless(range, run, j, key, i);
  }

  /** A harmless announcement due after the row's last change took effect agrees with the row in force. */
  lemma HarmlessAgrees(range: Range, run: seq<Evaluation>, i: nat, key: Coord, j: nat, k: nat)
    requires Ordered(range, run) && i < |run| && j < |run| && DelayedAt(run, j, key) && Harmless(range, run, j, key, k)
    requires k <= i && run[LastChange(run, i, key)].Effective(key.time) < Due(run, j, key)
    ensures Shows(Some(Delta(Row(run, j, key).value, Due(run, j, key))), Row(run, i, key))
  {
    var c, due := LastChange(run, i, key), Due(run, j, key);
    ChangedBefore(range, run, c, k, key.time, due);
    SameSinceChange(run, i, key, k);
    assert run[c].boundary.Some? ==> run[c].boundary.value < due;
  }

  /** A winner dated after the row's last change took effect shows the row in force, or nothing where there is none. */
  lemma LaterWinner(range: Range, run: seq<Evaluation>, i: nat, key: Coord, day: int, j: nat, delta: Delta)
    requires Ordered(range, run) && DuesHarmless(range, run) && InDates(range, key) && i < |run|
    requires InForce(range, run, i, day) && key.time <= day
    requires Wins(Batches(range, run, i + 1, key), day, j, delta)
    requires run[LastChange(run, i, key)].Effective(key.time) < delta.version
    ensures Shows(Some(delta), Row(run, i, key))
  {
    hide *;
    WinnerNotLater(range, run, i, key, day, j, delta);
    EffectiveGrows(range, run, j, LastChange(run, i, key), key.time);
    WinnerIs(range, run, i, key, day, j, delta);
    WinnerFallsDue(range, run, i, key, day, j, delta);
    var k := HarmlessOf(range, run, j, key);
    ForceOrder(range, run, k, i, delta.version, day);
    HarmlessAgrees(range, run, i, key, j, k);
    assert delta == Delta(Row(run, j, key).value, delta.version);
  }

  /** A row that is not postponed was published, by its day, where it last changed. */
  lemma ChangePublished(range: Range, run: seq<Evaluation>, i: nat, key: Coord)
    requires Ordered(range, run) && InDates(range, key) && i < |run| && key.time <= LastDay(range, run, i)
    requires !DelayedAt(run, i, key)
    ensures var c := LastChange(run, i, key); var batch := Batch(range, run, c, key);
      && (batch == [] ==> c == 0 && Row(run, i, key).None?)
      && (batch != [] ==> run[c].Effective(key.time) <= batch[0].version <= run[i].Effective(key.time))
  {
    EffectiveGrows(range, run, LastChange(run, i, key), i, key.time);
  }

  lemma LastWins(batches: seq<seq<Delta>>, day: int, j: nat, delta: Delta, c: nat)
    requires Wins(batches, day, j, delta) && j <= c < |batches| && (batches[c] == [] ==> c == 0)
    requires batches[c] != [] ==> delta.version <= batches[c][0].version <= day
    ensures batches[c] == [delta]
  {}

  lemma OnTimeShown(range: Range, run: seq<Evaluation>, i: nat, key: Coord, day: int, j: nat, delta: Delta)
    requires Ordered(range, run) && InDates(range, key) && i < |run| && InForce(range, run, i, day) && key.time <= day
    requires Wins(Batches(range, run, i + 1, key), day, j, delta) && !DelayedAt(run, i, key)
    requires delta.version <= run[LastChange(run, i, key)].Effective(key.time)
    ensures Shows(Some(delta), Row(run, i, key))
  {
    var batches, c := Batches(range, run, i + 1, key), LastChange(run, i, key);
    assert day <= LastDay(range, run, i) && run[i].Effective(key.time) <= day;
    hide *;
    ChangePublished(range, run, i, key);
    WinnerNotLater(range, run, i, key, day, j, delta);
    assert batches[c] == Batch(range, run, c, key);
    LastWins(batches, day, j, delta, c);
    ChangeShows(range, run, i, key, delta);
  }

  /** A delta that wins on a day and is dated by an earlier one wins on that as well. */
  lemma WinsEarlier(batches: seq<seq<Delta>>, early: int, day: int, j: nat, delta: Delta, w: nat, other: Delta)
    requires early <= day && delta.version <= early
    requires Wins(batches, day, j, delta) && Wins(batches, early, w, other)
    ensures j == w && delta == other
  {}

  lemma CurrentShown(range: Range, run: seq<Evaluation>, i: nat, key: Coord, day: int)
    requires Ordered(range, run) && Timely(range, run) && InDates(range, key)
    requires InForce(range, run, i, day) && key.time <= day
    ensures Shows(Replay(Log(range, run), key, day), Row(run, i, key))
  {
    var c, r := LastChange(run, i, key), Replay(Log(range, run), key, day);
    var j := Shown(range, run, i, key, day);
    EffectiveGrows(range, run, c, i, key.time);
    if r.Some? && run[c].Effective(key.time) < r.value.version {
      LaterWinner(range, run, i, key, day, j, r.value);
    } else if DelayedAt(run, i, key) {
      var w :| RepeatedBy(range, run, i, key, w);
      RepeatedShown(range, run, i, key, day, w, j, r);
    } else if r.Some? {
      OnTimeShown(range, run, i, key, day, j, r.value);
    } else {
      ChangePublished(range, run, i, key);
      assert Batches(range, run, i + 1, key)[c] == Batch(range, run, c, key);
    }
  }

  /** The tombstone a postponed row repeats goes on showing it until something later is dated. */
  lemma RepeatedShown(range: Range, run: seq<Evaluation>, i: nat, key: Coord, day: int, w: nat, j: nat,
                      r: Option<Delta>)
    requires Ordered(range, run) && InForce(range, run, i, day) && key.time <= day
    requires Row(run, i, key).Some? && RepeatedBy(range, run, i, key, w)
    requires r.Some? ==> Wins(Batches(range, run, i + 1, key), day, j, r.value)
    requires r.Some? ==> r.value.version <= run[i].Effective(key.time)
    requires r.None? ==> NothingBy(Batches(range, run, i + 1, key), day)
    ensures Shows(r, Row(run, i, key))
  {
    var batches, early := Batches(range, run, i + 1, key), run[i].Effective(key.time);
    var tombstone := Delta(Row(run, i, key).value, run[w].Effective(key.time));
    assert batches[w] == [tombstone] && tombstone.version <= day;
    if r.Some? { WinsEarlier(batches, early, day, j, r.value, w, tombstone); }
  }

  // ---------------------------------------------------------------- and only a timely log does

  lemma {:induction false} ForceExists(range: Range, run: seq<Evaluation>, day: int, n: nat) returns (i: nat)
    requires Ordered(range, run) && range.start <= day <= range.end && n < |run|
    requires n > 0 ==> run[n].boundary.value <= day
    ensures InForce(range, run, i, day)
    decreases |run| - n
  {
    if n + 1 < |run| && run[n + 1].boundary.value <= day {
      i := ForceExists(range, run, day, n + 1);
    } else {
      i := n;
    }
  }

  lemma InForceInRange(range: Range, run: seq<Evaluation>, i: nat, day: int)
    requires Ordered(range, run) && InForce(range, run, i, day)
    ensures range.start <= day <= range.end
  {}

  lemma EffectiveInForce(range: Range, run: seq<Evaluation>, i: nat, key: Coord)
    requires Ordered(range, run) && InDates(range, key) && i < |run| && key.time <= LastDay(range, run, i)
    ensures InForce(range, run, i, run[i].Effective(key.time))
  {}

  /** A delta shown for a postponed row on its effective day withdrew an earlier row. */
  lemma ShownIsRepeated(range: Range, run: seq<Evaluation>, i: nat, key: Coord, j: nat, delta: Delta)
    requires Ordered(range, run) && i < |run| && DelayedAt(run, i, key) && delta.row == Row(run, i, key).value
    requires Wins(Batches(range, run, i + 1, key), run[i].Effective(key.time), j, delta)
    ensures RepeatedBy(range, run, i, key, j)
  {
    assert j <= i && Batch(range, run, j, key) == [delta];
    BatchIs(range, run, j, key, delta);
  }

  /** What a log shows of a postponed row on its effective day is a tombstone just like it, if anything. */
  lemma DelayedShown(range: Range, run: seq<Evaluation>, i: nat, key: Coord)
    requires Ordered(range, run) && InDates(range, key) && i < |run| && DelayedAt(run, i, key)
    requires key.time <= LastDay(range, run, i)
    ensures ShowsRow(range, run, i, key, run[i].Effective(key.time)) <==> Repeats(range, run, i, key)
  {
    var day := run[i].Effective(key.time);
    EffectiveInForce(range, run, i, key);
    hide Ordered, InForce, Log, Replay, Batches, Wins, NothingBy, RepeatedBy, LastDay, KeyBatch, Row;
    var r := Replay(Log(range, run), key, day);
    var j := Shown(range, run, i, key, day);
    if ShowsRow(range, run, i, key, day) { ShownIsRepeated(range, run, i, key, j, r.value); }
    if Repeats(range, run, i, key) {
      var w :| RepeatedBy(range, run, i, key, w);
      RepeatedShown(range, run, i, key, day, w, j, r);
    }
  }

  /** The row a repeated tombstone withdrew was postponed as well. */
  lemma TombstoneOfDelayed(range: Range, run: seq<Evaluation>, i: nat, key: Coord) returns (w: nat)
    requires Ordered(range, run) && i < |run| && Row(run, i, key).Some? && DelayedAt(run, i, key)
    requires Repeats(range, run, i, key)
    ensures 0 < w < i && DelayedAt(run, w - 1, key)
  {
    w :| RepeatedBy(range, run, i, key, w);
    var tombstone := Delta(Row(run, i, key).value, run[w].Effective(key.time));
    assert Batches(range, run, i + 1, key)[w] == Batch(range, run, w, key) == [tombstone];
    BatchIs(range, run, w, key, tombstone);
    EffectiveGrows(range, run, w - 1, i, key.time);
  }

  /** Every postponed row is of a time its evaluation is in force for. */
  ghost predicate OnlyCurrentDelayed(range: Range, run: seq<Evaluation>)
    requires Ordered(range, run)
  {
    forall i, key | 0 <= i < |run| && InDates(range, key) && DelayedAt(run, i, key) ::
      key.time <= LastDay(range, run, i)
  }

  lemma DelayedRepeats(range: Range, run: seq<Evaluation>, i: nat, key: Coord)
    requires Ordered(range, run) && CurrentInEffect(range, run) && OnlyCurrentDelayed(range, run)
    requires InDates(range, key) && i < |run| && DelayedAt(run, i, key)
    ensures Row(run, i, key).Some? && Repeats(range, run, i, key)
  {
    hide Repeats, Row, LastDay;
    assert key.time <= LastDay(range, run, i);
  }

  /** Then no tombstone stands for a postponed row, since the row it withdrew would be postponed too. */
  lemma {:induction false} NothingDelayed(range: Range, run: seq<Evaluation>, i: nat, key: Coord)
    requires Ordered(range, run) && CurrentInEffect(range, run) && OnlyCurrentDelayed(range, run)
    requires InDates(range, key) && i < |run|
    ensures !DelayedAt(run, i, key)
    decreases i
  {
    hide *;
    if DelayedAt(run, i, key) {
      DelayedRepeats(range, run, i, key);
      var w := TombstoneOfDelayed(range, run, i, key);
      NothingDelayed(range, run, w - 1, key);
    }
  }

  /** A delta published later and dated the same day takes effect there. */
  lemma LaterShown(range: Range, run: seq<Evaluation>, j: nat, key: Coord, i: nat, k: nat, delta: Delta)
    requires Ordered(range, run) && InDates(range, key) && FallsDue(range, run, j, key)
    requires InForce(range, run, i, Due(run, j, key)) && j < k <= i
    requires Batch(range, run, k, key) == [delta] && delta.version == Due(run, j, key)
    ensures Harmless(range, run, j, key, i)
  {
    BatchIs(range, run, k, key, delta);
    if k < i { LaterBoundaries(range, run, k, delta.version); }
  }

  lemma DueIsHarmless(range: Range, run: seq<Evaluation>, j: nat, key: Coord)
    requires Ordered(range, run) && AlwaysShows(range, run)
    requires InDates(range, key) && FallsDue(range, run, j, key)
    ensures exists i :: Harmless(range, run, j, key, i)
  {
    var due := Due(run, j, key);
    var i := ForceExists(range, run, due, 0);
    AnnouncedBatch(range, run, i, key, due, j, due);
    assert ShowsRow(range, run, i, key, due);
    var k := Shown(range, run, i, key, due);
    var delta := Replay(Log(range, run), key, due).value;
    if k != j { LaterShown(range, run, j, key, i, k, delta); }
    assert Harmless(range, run, j, key, i);
  }

  /** The log of a run shows every row while it is in force exactly when the run is timely. */
  lemma AlwaysShowsExactly(range: Range, run: seq<Evaluation>)
    requires Ordered(range, run)
    ensures AlwaysShows(range, run) <==> Timely(range, run)
  {
    if Timely(range, run) {
      forall i, key, day | InForce(range, run, i, day) && InDates(range, key)
        ensures ShowsRow(range, run, i, key, day)
      {
        TimelyShows(range, run, i, key, day);
      }
    }
    if AlwaysShows(range, run) {
      forall i, key | 0 <= i < |run| && InDates(range, key) && DelayedAt(run, i, key)
          && key.time <= LastDay(range, run, i)
        ensures Repeats(range, run, i, key)
      {
        EffectiveInForce(range, run, i, key);
        DelayedShown(range, run, i, key);
      }
      forall j, key | InDates(range, key) && FallsDue(range, run, j, key)
        ensures exists i :: Harmless(range, run, j, key, i)
      {
        DueIsHarmless(range, run, j, key);
      }
    }
  }

  // ---------------------------------------------------------------- an echo

  lemma ThreeBatches(range: Range, run: seq<Evaluation>, key: Coord, day: int)
    requires |run| == 3 && Distinct(run) && InDates(range, key)
    ensures Replay(Log(range, run), key, day) == Superseded(Superseded(Superseded(None,
      Batch(range, run, 0, key), day), Batch(range, run, 1, key), day), Batch(range, run, 2, key), day)
  {
    assert run[..3] == run;
    TwoBatches(range, run, key, day);
    ReplayGrows(range, run, 2, key, day);
  }

  /** A row of day 3 is announced for after the range, withdrawn, and comes back as the null row its tombstone was. */
  ghost predicate Echoed(range: Range, run: seq<Evaluation>, row: OutRow) {
    && range == Range(1, 4) && row.key.time == 3 && row.available == 9
    && run == [Evaluation(None, [row]), Evaluation(Some(2), []), Evaluation(Some(3), [row.(value := None)])]
  }

  lemma EchoReplayed(range: Range, run: seq<Evaluation>, row: OutRow, key: Coord, day: int)
    requires Echoed(range, run, row) && InDates(range, key)
    ensures Replay(Log(range, run), key, day) ==
              if key == row.key && 3 <= day then Some(Delta(row.(value := None), 3)) else None
  {
    ThreeBatches(range, run, key, day);
    var null_ := row.(value := None);
    assert Lookup([row], key) == (if key == row.key then Some(row) else None) && Lookup([], key) == None;
    assert Lookup([null_], key) == if key == row.key then Some(null_) else None;
    assert Batch(range, run, 0, key) == [] && Batch(range, run, 2, key) == [];
    assert Batch(range, run, 1, key) == if key == row.key then [Delta(null_, 3)] else [];
  }

  lemma EchoShows(range: Range, run: seq<Evaluation>, row: OutRow)
    requires Ordered(range, run) && Echoed(range, run, row)
    ensures AlwaysShows(range, run)
  {
    forall i, key, day | InForce(range, run, i, day) && InDates(range, key) ensures ShowsRow(range, run, i, key, day) {
      EchoReplayed(range, run, row, key, day);
    }
  }

  /** Such a log shows every row although a current one is postponed: the repeated tombstone stands for it. */
  lemma EchoIsShown() returns (range: Range, run: seq<Evaluation>, key: Coord)
    ensures Ordered(range, run) && AlwaysShows(range, run) && InDates(range, key)
    ensures |run| == 3 && DelayedAt(run, 2, key) && key.time <= LastDay(range, run, 2)
  {
    var row := OutRow(Coord(3, "a"), Some(5), 3, 9, false);
    range, key := Range(1, 4), row.key;
    run := [Evaluation(None, [row]), Evaluation(Some(2), []), Evaluation(Some(3), [row.(value := None)])];
    EchoShows(range, run, row);
    assert LastDay(range, run, 2) == 4;
  }
}
